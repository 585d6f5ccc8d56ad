/**
 What cooking does to the line being edited (drivers/src/dev/char/tty/tty.c:95-278):
 the branches of the code as functions, and the keystroke editor they amount to.
 Echo is not part of the model.
 */
module LineDiscipline {
  import opened CharQueue

  const NEWLINE: Byte := 10
  const RETURN: Byte := 13
  const SPACE: Byte := 32
  const TAB: Byte := 9

  /**
   The mode bits and control characters that reach the line. ISUPPER indexes a table
   of 128 entries; `upperBeyond` are the characters past it for which the memory
   found there reads as upper case.
   */
  datatype Termios = Termios(
    isig: bool, noflsh: bool, istrip: bool, iuclc: bool, igncr: bool, icrnl: bool, inlcr: bool,
    icanon: bool, iexten: bool, ixon: bool,
    vintr: Byte, vquit: Byte, vsusp: Byte, verase: Byte, vwerase: Byte, vkill: Byte,
    vreprint: Byte, vlnext: Byte, vstart: Byte, vstop: Byte,
    upperBeyond: set<Byte>)

  /** cooked_q as a deque with the consumed start of its first block, the LNEXT flag and has_canon_ln. */
  datatype Line = Line(consumed: nat, chars: seq<Byte>, shielded: bool, complete: bool)

  function DropLast(xs: seq<Byte>): seq<Byte> {
    if xs == [] then [] else xs[..|xs| - 1]
  }

  predicate Blank(c: Byte) { c == SPACE || c == TAB }

  // ---------- erase_char ----------

  /** erase_char; its loops erase by feeding it the erase character again. */
  function Erase(t: Termios, xs: seq<Byte>, c: Byte): (r: seq<Byte>)
    ensures r <= xs && (c == t.verase && xs != [] ==> |r| < |xs|)
    decreases |xs|, if c == t.verase then 1 else 3
  {
    var x1 := if c == t.verase then DropLast(xs) else xs;
    var x2 := if c == t.vwerase then EraseWord(t, x1, false) else x1;
    if c == t.vkill then EraseAll(t, x2) else x2
  }

  function EraseWord(t: Termios, xs: seq<Byte>, seen: bool): (r: seq<Byte>)
    ensures r <= xs
    decreases |xs|, if xs == [] then 0 else 2
  {
    if xs == [] then []
    else
      var last := xs[|xs| - 1];
      if Blank(last) && seen then xs
      else EraseWord(t, Erase(t, xs, t.verase), seen || !Blank(last))
  }

  function EraseAll(t: Termios, xs: seq<Byte>): (r: seq<Byte>)
    ensures r == []
    decreases |xs|, if xs == [] then 0 else 2
  {
    if xs == [] then [] else EraseAll(t, Erase(t, xs, t.verase))
  }

  /** The erase character means nothing else. */
  predicate PlainErase(t: Termios) {
    t.verase != t.vwerase && t.verase != t.vkill
  }

  lemma {:induction false} PlainErases(t: Termios, xs: seq<Byte>)
    requires PlainErase(t)
    ensures Erase(t, xs, t.verase) == DropLast(xs)
  {
  }

  /** VERASE drops exactly one character of every line iff it is not also the word-erase or the kill character. */
  lemma EraseDropsOneIff(t: Termios)
    ensures (forall xs :: Erase(t, xs, t.verase) == DropLast(xs)) <==> PlainErase(t)
  {
    if PlainErase(t) {
      forall xs ensures Erase(t, xs, t.verase) == DropLast(xs) { PlainErases(t, xs); }
    } else {
      var xs: seq<Byte> := [97, 97];
      assert DropLast(xs) == [97];
      assert Erase(t, xs, t.verase) != [97];
    }
  }

  /** VKILL leaves nothing, whatever else the characters mean. */
  lemma KillEmpties(t: Termios, xs: seq<Byte>)
    ensures Erase(t, xs, t.vkill) == []
  {
  }

  /** `r` is `xs` without its trailing blanks (32 and 9) and the word before them. */
  ghost predicate WithoutLastWord(xs: seq<Byte>, r: seq<Byte>) {
    exists word, blanks :: LastWordIs(xs, r, word, blanks)
  }

  ghost predicate LastWordIs(xs: seq<Byte>, r: seq<Byte>, word: seq<Byte>, blanks: seq<Byte>) {
    && xs == r + word + blanks
    && (forall c :: c in word ==> c != 32 && c != 9) && (forall c :: c in blanks ==> c == 32 || c == 9)
    && (r == [] || (word != [] && (r[|r| - 1] == 32 || r[|r| - 1] == 9)))
  }

  lemma Unsnoc(xs: seq<Byte>, r: seq<Byte>, ys: seq<Byte>)
    requires xs == r + ys && ys != []
    ensures xs != [] && xs[|xs| - 1] == ys[|ys| - 1] && DropLast(xs) == r + DropLast(ys)
    ensures forall c :: c in DropLast(ys) ==> c in ys
    ensures ys[|ys| - 1] in ys
  {
  }

  lemma {:induction false} InsideWord(t: Termios, xs: seq<Byte>, r: seq<Byte>, word: seq<Byte>)
    requires PlainErase(t) && xs == r + word && (forall c :: c in word ==> !Blank(c)) && (r == [] || Blank(r[|r| - 1]))
    ensures EraseWord(t, xs, true) == r
    decreases |word|
  {
    if word == [] {
      assert xs == r;
    } else {
      Unsnoc(xs, r, word);
      PlainErases(t, xs);
      InsideWord(t, DropLast(xs), r, DropLast(word));
    }
  }

  lemma {:induction false} WordErased(t: Termios, xs: seq<Byte>, r: seq<Byte>, word: seq<Byte>, blanks: seq<Byte>)
    requires PlainErase(t) && LastWordIs(xs, r, word, blanks)
    ensures EraseWord(t, xs, false) == r
    decreases |blanks|
  {
    if blanks != [] {
      Unsnoc(xs, r + word, blanks);
      PlainErases(t, xs);
      WordErased(t, DropLast(xs), r, word, DropLast(blanks));
    } else if word != [] {
      assert xs == r + word;
      Unsnoc(xs, r, word);
      PlainErases(t, xs);
      InsideWord(t, DropLast(xs), r, DropLast(word));
    } else {
      assert xs == [];
    }
  }

  /** Every line has a last word to cut off. */
  lemma {:induction false} LastWordExists(xs: seq<Byte>) returns (r: seq<Byte>, word: seq<Byte>, blanks: seq<Byte>)
    ensures LastWordIs(xs, r, word, blanks)
    decreases |xs|
  {
    if xs == [] {
      r, word, blanks := [], [], [];
    } else {
      var last := xs[|xs| - 1];
      r, word, blanks := LastWordExists(DropLast(xs));
      assert xs == DropLast(xs) + [last];
      if Blank(last) {
        Regroup(r + word, blanks, [last]);
        blanks := blanks + [last];
      } else if blanks == [] {
        Regroup(r, word, [last]);
        word := word + [last];
        assert xs == r + word + blanks;
      } else {
        assert blanks[|blanks| - 1] in blanks;
        r, word, blanks := DropLast(xs), [last], [];
        assert xs == r + word + blanks;
      }
    }
  }

  /** With VERASE in a second role every erasure takes the whole line. */
  lemma {:induction false} OverlapErasesAll(t: Termios, xs: seq<Byte>)
    requires !PlainErase(t)
    ensures Erase(t, xs, t.verase) == [] && Erase(t, xs, t.vwerase) == []
    decreases |xs|
  {
    if xs != [] {
      OverlapErasesAll(t, DropLast(xs));
    }
  }

  lemma WordEraseMeets(t: Termios, xs: seq<Byte>, r: seq<Byte>)
    requires PlainErase(t) && t.vwerase != t.vkill
    ensures r == Erase(t, xs, t.vwerase) <==> WithoutLastWord(xs, r)
  {
    var r0, word, blanks := LastWordExists(xs);
    WordErased(t, xs, r0, word, blanks);
    assert Erase(t, xs, t.vwerase) == EraseWord(t, xs, false);
    if WithoutLastWord(xs, r) {
      var w, b :| LastWordIs(xs, r, w, b);
      WordErased(t, xs, r, w, b);
    } else {
      assert LastWordIs(xs, r0, word, blanks);
    }
  }

  /**
   VWERASE takes exactly the last word and the blanks behind it off every line iff neither VERASE nor
   VWERASE has a second role.
   */
  lemma WordEraseMeetsIff(t: Termios)
    ensures (forall xs :: WithoutLastWord(xs, Erase(t, xs, t.vwerase))) <==> PlainErase(t) && t.vwerase != t.vkill
  {
    hide Erase, EraseWord, EraseAll, WithoutLastWord;
    if PlainErase(t) && t.vwerase != t.vkill {
      forall xs ensures WithoutLastWord(xs, Erase(t, xs, t.vwerase)) {
        WordEraseMeets(t, xs, Erase(t, xs, t.vwerase));
      }
    } else {
      var xs: seq<Byte> := [97, SPACE, 98];
      if PlainErase(t) { KillEmpties(t, xs); } else { OverlapErasesAll(t, xs); }
      TwoWords();
      assert !WithoutLastWord(xs, Erase(t, xs, t.vwerase));
    }
  }

  /** The last word of "a b" is not all of it. */
  lemma TwoWords()
    ensures !WithoutLastWord([97, SPACE, 98], [])
  {
    var xs: seq<Byte> := [97, SPACE, 98];
    LastWordCut(xs, []);
    assert xs[..2] == [97, SPACE];
    assert CutLetters(xs) == CutLetters([97, SPACE]);
  }

  /** The line without the blanks at its end. */
  function CutBlanks(xs: seq<Byte>): seq<Byte> {
    if xs == [] || !Blank(xs[|xs| - 1]) then xs else CutBlanks(xs[..|xs| - 1])
  }

  /** The line without the letters at its end. */
  function CutLetters(xs: seq<Byte>): seq<Byte> {
    if xs == [] || Blank(xs[|xs| - 1]) then xs else CutLetters(xs[..|xs| - 1])
  }

  lemma {:induction false} LettersCut(xs: seq<Byte>, r: seq<Byte>, word: seq<Byte>)
    requires xs == r + word && (forall c :: c in word ==> !Blank(c)) && (r == [] || Blank(r[|r| - 1]))
    ensures CutLetters(xs) == r
    decreases |word|
  {
    if word == [] {
      assert xs == r;
    } else {
      Unsnoc(xs, r, word);
      LettersCut(DropLast(xs), r, DropLast(word));
    }
  }

  lemma {:induction false} BlanksCut(xs: seq<Byte>, r: seq<Byte>, word: seq<Byte>, blanks: seq<Byte>)
    requires LastWordIs(xs, r, word, blanks)
    ensures CutBlanks(xs) == r + word
    decreases |blanks|
  {
    if blanks != [] {
      Unsnoc(xs, r + word, blanks);
      BlanksCut(DropLast(xs), r, word, DropLast(blanks));
    } else {
      assert xs == r + word;
      if word != [] { Unsnoc(xs, r, word); }
    }
  }

  /** Cutting the blanks and then the letters leaves the one line without its last word. */
  lemma LastWordCut(xs: seq<Byte>, r: seq<Byte>)
    ensures WithoutLastWord(xs, r) <==> r == CutLetters(CutBlanks(xs))
  {
    var r0, word, blanks := LastWordExists(xs);
    BlanksCut(xs, r0, word, blanks);
    LettersCut(r0 + word, r0, word);
    if WithoutLastWord(xs, r) {
      var w, b :| LastWordIs(xs, r, w, b);
      BlanksCut(xs, r, w, b);
      LettersCut(r + w, r, w);
    }
  }

  // ---------- lines that are finished ----------

  /** The lines a newline has finished. */
  function Done(xs: seq<Byte>): seq<Byte> {
    if xs == [] || xs[|xs| - 1] == NEWLINE then xs else Done(xs[..|xs| - 1])
  }

  lemma {:induction false} DoneFacts(xs: seq<Byte>)
    ensures Done(xs) <= xs && (Done(xs) == [] <==> NEWLINE !in xs)
    ensures Done(xs) != [] ==> xs[|Done(xs)| - 1] == NEWLINE
    ensures Done(xs) == xs <==> xs == [] || xs[|xs| - 1] == NEWLINE
  {
    if xs != [] && xs[|xs| - 1] != NEWLINE {
      DoneFacts(xs[..|xs| - 1]);
      assert xs == xs[..|xs| - 1] + [xs[|xs| - 1]];
    } else if xs != [] {
      assert xs[|xs| - 1] in xs;
    }
  }

  /** VERASE leaves the finished lines alone iff it does not follow a newline; in a second role, iff there are none. */
  lemma EraseKeepsLinesIff(t: Termios, xs: seq<Byte>)
    ensures Done(xs) <= Erase(t, xs, t.verase)
      <==> if PlainErase(t) then xs == [] || xs[|xs| - 1] != NEWLINE else NEWLINE !in xs
  {
    DoneFacts(xs);
    hide Erase, EraseWord, EraseAll, Done;
    if PlainErase(t) { PlainErases(t, xs); } else { OverlapErasesAll(t, xs); }
  }

  /** VKILL leaves them alone iff there are none. */
  lemma KillKeepsLinesIff(t: Termios, xs: seq<Byte>)
    ensures Done(xs) <= Erase(t, xs, t.vkill) <==> NEWLINE !in xs
  {
    DoneFacts(xs);
    KillEmpties(t, xs);
    hide Erase, Done;
  }

  /** The line being edited has a blank with something else behind it. */
  ghost predicate HasBreak(xs: seq<Byte>, from: nat) {
    exists i, j :: from <= i < j < |xs| && (xs[i] == 32 || xs[i] == 9) && xs[j] != 32 && xs[j] != 9
  }

  /**
   VWERASE takes a newline for a letter: it leaves finished lines alone iff a blank
   stands between them and the last word.
   */
  lemma WordEraseKeepsLinesIff(t: Termios, xs: seq<Byte>)
    ensures Done(xs) <= Erase(t, xs, t.vwerase)
      <==> NEWLINE !in xs || (PlainErase(t) && t.vwerase != t.vkill && HasBreak(xs, |Done(xs)|))
  {
    hide Erase, EraseWord, EraseAll, Done, HasBreak, WithoutLastWord;
    DoneFacts(xs);
    if !PlainErase(t) {
      OverlapErasesAll(t, xs);
    } else if t.vwerase == t.vkill {
      KillEmpties(t, xs);
    } else {
      WordEraseMeets(t, xs, Erase(t, xs, t.vwerase));
      var word, blanks := SplitOff(xs, Erase(t, xs, t.vwerase));
      if NEWLINE in xs {
        BreakBefore(xs, Erase(t, xs, t.vwerase), word, blanks, |Done(xs)|);
      }
    }
  }

  lemma SplitOff(xs: seq<Byte>, r: seq<Byte>) returns (word: seq<Byte>, blanks: seq<Byte>)
    requires WithoutLastWord(xs, r)
    ensures LastWordIs(xs, r, word, blanks)
  {
    word, blanks :| LastWordIs(xs, r, word, blanks);
  }

  lemma WordPlaces(xs: seq<Byte>, r: seq<Byte>, word: seq<Byte>, blanks: seq<Byte>)
    requires LastWordIs(xs, r, word, blanks)
    ensures forall k :: |r| <= k < |r| + |word| ==> !Blank(xs[k])
    ensures forall k :: |r| + |word| <= k < |xs| ==> Blank(xs[k])
    ensures r != [] ==> word != [] && Blank(xs[|r| - 1])
  {
    assert forall k :: 0 <= k < |word| ==> word[k] in word;
    assert forall k :: 0 <= k < |blanks| ==> blanks[k] in blanks;
  }

  lemma BreakBefore(xs: seq<Byte>, r: seq<Byte>, word: seq<Byte>, blanks: seq<Byte>, from: nat)
    requires LastWordIs(xs, r, word, blanks) && 0 < from <= |xs| && !Blank(xs[from - 1])
    ensures from <= |r| <==> HasBreak(xs, from)
  {
    WordPlaces(xs, r, word, blanks);
    if from <= |r| {
      assert Blank(xs[|r| - 1]) && !Blank(xs[|r|]);
    }
  }

  // ---------- one character ----------

  /** Whether the loop of tty_cook_input goes on, and whether it has emptied read_q. */
  datatype Keyed = Keyed(line: Line, goesOn: bool, flushed: bool)

  function Lower(t: Termios, c: Byte): Byte {
    var upper := if c < 128 then 0x41 <= c <= 0x5A else c in t.upperBeyond;
    if t.iuclc && upper && (c / 32) % 2 == 0 then c + 32 else c
  }

  function Stripped(t: Termios, c: Byte): Byte {
    Lower(t, if t.istrip then c % 128 else c)
  }

  /** The character the editor sees: stripped, lowered and, unless shielded, with CR and NL mapped. */
  function Mapped(t: Termios, shielded: bool, c: Byte): Byte {
    var s := Stripped(t, c);
    if shielded then s
    else if s == RETURN then (if t.icrnl then NEWLINE else s)
    else if s == NEWLINE && t.inlcr then RETURN
    else s
  }

  function SetChars(l: Line, xs: seq<Byte>): Line {
    Line(if xs == [] then 0 else l.consumed, xs, l.shielded, l.complete)
  }

  function PutChar(l: Line, c: Byte): Line {
    if l.consumed + |l.chars| < CAPACITY then l.(chars := l.chars + [c]) else l
  }

  /** One turn of the loop, branch by branch. */
  function Key(t: Termios, l: Line, read: Byte): Keyed {
    if t.isig && !l.shielded && read == t.vintr then
      Keyed(if t.noflsh then l else SetChars(l, []), false, !t.noflsh)
    else if t.isig && !l.shielded && (read == t.vquit || read == t.vsusp) then Keyed(l, false, false)
    else if !l.shielded && Stripped(t, read) == RETURN && t.igncr then Keyed(l, true, false)
    else
      var c := Mapped(t, l.shielded, read);
      if t.icanon && !l.shielded && (c == t.verase || c == t.vwerase || c == t.vkill) then
        Keyed(SetChars(l, Erase(t, l.chars, c)), true, false)
      else if t.icanon && !l.shielded && c == t.vreprint then Keyed(l, true, false)
      else if t.icanon && !l.shielded && c == t.vlnext && t.iexten then Keyed(l.(shielded := true), false, false)
      else if t.icanon && !l.shielded && t.ixon && (c == t.vstart || c == t.vstop) then Keyed(l, true, false)
      else
        var l1 := if t.icanon && c == NEWLINE then l.(complete := true) else l;
        Keyed(PutChar(l1, c).(shielded := false), true, false)
  }

  // ---------- a call, and calls in a row ----------

  /** tty_cook_input; the second part is what stays in read_q. */
  function Cook(t: Termios, l: Line, input: seq<Byte>): (Line, seq<Byte>)
    decreases |input|
  {
    if input == [] then (l, [])
    else
      var k := Key(t, l, input[0]);
      if k.flushed then (k.line, [])
      else if k.goesOn then Cook(t, k.line, input[1..])
      else (k.line, input[1..])
  }

  /** Calls until read_q is empty. */
  function Drain(t: Termios, l: Line, input: seq<Byte>): Line
    decreases |input|
  {
    if input == [] then l
    else
      CookConsumes(t, l, input);
      Drain(t, Cook(t, l, input).0, Cook(t, l, input).1)
  }

  lemma {:induction false} CookConsumes(t: Termios, l: Line, input: seq<Byte>)
    requires input != []
    ensures |Cook(t, l, input).1| < |input|
    decreases |input|
  {
    var k := Key(t, l, input[0]);
    if !k.flushed && k.goesOn && input[1..] != [] {
      CookConsumes(t, k.line, input[1..]);
    }
  }

  // ---------- the editor ----------

  /** What a keystroke means. */
  datatype Action = Interrupt | Nothing | RubOut | RubOutWord | Clear | Shield | Insert(c: Byte)

  /** The meaning of an erase character; with VERASE in a second role all of them clear the line. */
  function EraseMeaning(t: Termios, c: Byte): Action {
    if c == t.vkill || !PlainErase(t) then Clear else if c == t.verase then RubOut else RubOutWord
  }

  /** The keystroke as the editor takes it, for the given shield. */
  function Meaning(t: Termios, shielded: bool, read: Byte): Action {
    var c := Mapped(t, shielded, read);
    if shielded then Insert(c)
    else if t.isig && read == t.vintr then (if t.noflsh then Nothing else Interrupt)
    else if t.isig && (read == t.vquit || read == t.vsusp) then Nothing
    else if t.igncr && Stripped(t, read) == RETURN then Nothing
    else if !t.icanon then Insert(c)
    else if c == t.verase || c == t.vwerase || c == t.vkill then EraseMeaning(t, c)
    else if c == t.vreprint then Nothing
    else if c == t.vlnext && t.iexten then Shield
    else if t.ixon && (c == t.vstart || c == t.vstop) then Nothing
    else Insert(c)
  }

  /** The line an editor with unlimited room makes of `xs`. */
  ghost predicate Edits(a: Action, xs: seq<Byte>, r: seq<Byte>) {
    match a
    case Interrupt => r == []
    case Nothing => r == xs
    case RubOut => r == DropLast(xs)
    case RubOutWord => WithoutLastWord(xs, r)
    case Clear => r == []
    case Shield => r == xs
    case Insert(c) => r == xs + [c]
  }

  ghost predicate Room(l: Line) {
    l.consumed + |l.chars| < CAPACITY
  }

  /** A turn of the loop edits the line as the keystroke means; only an insertion without room does nothing. */
  lemma KeyEdits(t: Termios, l: Line, read: Byte)
    requires l.chars == [] ==> l.consumed == 0
    ensures var k, a := Key(t, l, read), Meaning(t, l.shielded, read);
      && (if a.Insert? && !Room(l) then k.line.chars == l.chars else Edits(a, l.chars, k.line.chars))
      && (k.line.chars == [] ==> k.line.consumed == 0)
      && (k.line.consumed == l.consumed || k.line.chars == [])
  {
    hide Mapped, Stripped, Lower, Erase, EraseMeaning, WithoutLastWord, DropLast;
    EraseEdits(t, l.chars, Mapped(t, l.shielded, read));
  }

  lemma EraseEdits(t: Termios, xs: seq<Byte>, c: Byte)
    ensures c == t.verase || c == t.vwerase || c == t.vkill ==>
      Edits(EraseMeaning(t, c), xs, Erase(t, xs, c)) && !EraseMeaning(t, c).Insert?
  {
    hide Erase, WithoutLastWord, DropLast, PlainErase;
    KillEmpties(t, xs);
    if !PlainErase(t) {
      OverlapErasesAll(t, xs);
    } else {
      PlainErases(t, xs);
      if t.vwerase != t.vkill {
        WordEraseMeets(t, xs, Erase(t, xs, t.vwerase));
      }
    }
  }

  /**
   It leaves the shield up only behind LNEXT, empties read_q only on an interrupt, and completes the
   line on a newline.
   */
  lemma KeyFlags(t: Termios, l: Line, read: Byte)
    ensures var k, a := Key(t, l, read), Meaning(t, l.shielded, read);
      && (k.line.shielded <==> a == Shield)
      && (k.flushed <==> a == Interrupt)
      && (!k.goesOn <==>
            a == Shield || (t.isig && !l.shielded && (read == t.vintr || read == t.vquit || read == t.vsusp)))
      && (k.line.complete <==> l.complete || (t.icanon && a == Insert(NEWLINE)))
  {
    hide Mapped, Stripped, Lower, Erase, PlainErase;
  }

  // ---------- whole inputs ----------

  /** The turns of the loop over all of `input`, wherever the calls begin and end. */
  function Turns(t: Termios, l: Line, input: seq<Byte>): Line
    decreases |input|
  {
    if input == [] then l
    else
      var k := Key(t, l, input[0]);
      if k.flushed then k.line else Turns(t, k.line, input[1..])
  }

  lemma {:induction false} CookTurns(t: Termios, l: Line, input: seq<Byte>)
    ensures Turns(t, l, input) == Turns(t, Cook(t, l, input).0, Cook(t, l, input).1)
    decreases |input|
  {
    hide Key;
    if input != [] {
      var k := Key(t, l, input[0]);
      if !k.flushed && k.goesOn { CookTurns(t, k.line, input[1..]); }
    }
  }

  lemma {:induction false} DrainTurns(t: Termios, l: Line, input: seq<Byte>)
    ensures Drain(t, l, input) == Turns(t, l, input)
    decreases |input|
  {
    hide Cook;
    if input != [] {
      CookConsumes(t, l, input);
      CookTurns(t, l, input);
      DrainTurns(t, Cook(t, l, input).0, Cook(t, l, input).1);
    }
  }

  /** Among the keystrokes `a` is an unshielded interrupt that flushes. */
  predicate Flushes(t: Termios, shielded: bool, a: seq<Byte>)
    decreases |a|
  {
    a != [] && (Meaning(t, shielded, a[0]) == Interrupt || Flushes(t, Meaning(t, shielded, a[0]) == Shield, a[1..]))
  }

  lemma {:induction false} TurnsCompose(t: Termios, l: Line, a: seq<Byte>, b: seq<Byte>)
    requires !Flushes(t, l.shielded, a)
    ensures Turns(t, l, a + b) == Turns(t, Turns(t, l, a), b)
    decreases |a|
  {
    hide Key, Meaning;
    if a == [] {
      assert a + b == b;
    } else {
      assert (a + b)[1..] == a[1..] + b;
      KeyFlags(t, l, a[0]);
      TurnsCompose(t, Key(t, l, a[0]).line, a[1..], b);
    }
  }

  /** A flush leaves an empty line without a shield, whatever follows in the same call. */
  lemma {:induction false} FlushedTurns(t: Termios, l: Line, a: seq<Byte>, b: seq<Byte>)
    requires Flushes(t, l.shielded, a)
    ensures Turns(t, l, a + b) == Turns(t, l, a) && t.isig
    ensures var r := Turns(t, l, a); r.chars == [] && r.consumed == 0 && !r.shielded
    decreases |a|
  {
    assert (a + b)[1..] == a[1..] + b && (a + b)[0] == a[0];
    if Meaning(t, l.shielded, a[0]) != Interrupt {
      KeyFlags(t, l, a[0]);
      hide Key, Meaning;
      FlushedTurns(t, Key(t, l, a[0]).line, a[1..], b);
    } else {
      InterruptEmpties(t, l, a[0]);
      hide Key, Meaning;
    }
  }

  lemma InterruptEmpties(t: Termios, l: Line, read: Byte)
    requires Meaning(t, l.shielded, read) == Interrupt
    ensures t.isig && Key(t, l, read) == Keyed(Line(0, [], false, l.complete), false, true)
  {
  }

  /** More letters than characters to avoid. */
  lemma {:induction false} FreeLetter(avoid: seq<Byte>, n: nat) returns (c: Byte)
    requires |avoid| < n <= 26
    ensures 97 <= c < 97 + n && c !in avoid
  {
    c := 97 + n - 1;
    if i :| 0 <= i < |avoid| && avoid[i] == c {
      var others := avoid[..i] + avoid[i + 1..];
      var d := FreeLetter(others, n - 1);
      assert forall j :: 0 <= j < |avoid| && j != i ==> avoid[j] == others[if j < i then j else j - 1];
      c := d;
    }
  }

  /** The characters that may mean something else than themselves. */
  function Controls(t: Termios): seq<Byte> {
    [t.vintr, t.vquit, t.vsusp, t.verase, t.vwerase, t.vkill, t.vreprint, t.vlnext, t.vstart, t.vstop]
  }

  lemma ControlsListed(t: Termios, c: Byte)
    requires c !in Controls(t)
    ensures c != t.vintr && c != t.vquit && c != t.vsusp && c != t.verase && c != t.vwerase && c != t.vkill
    ensures c != t.vreprint && c != t.vlnext && c != t.vstart && c != t.vstop
  {
    var cs := Controls(t);
    assert cs[0] in cs && cs[1] in cs && cs[2] in cs && cs[3] in cs && cs[4] in cs;
    assert cs[5] in cs && cs[6] in cs && cs[7] in cs && cs[8] in cs && cs[9] in cs;
  }

  lemma LetterTyped(t: Termios, l: Line, c: Byte)
    requires 97 <= c < 123 && c !in Controls(t) && !l.shielded && Room(l)
    ensures Turns(t, l, [c]).chars == l.chars + [c]
  {
    ControlsListed(t, c);
    assert Mapped(t, false, c) == c;
    assert [c][1..] == [];
    hide Mapped, Stripped, Controls;
  }

  /**
   Where one call ends and the next begins does not matter for any continuation
   iff no unshielded interrupt throws away what lies in read_q.
   */
  lemma CallsDoNotMatterIff(t: Termios, l: Line, a: seq<Byte>)
    ensures (forall b :: Drain(t, l, a + b) == Drain(t, Drain(t, l, a), b)) <==> !Flushes(t, l.shielded, a)
  {
    hide Turns, Drain, Flushes, Controls;
    DrainTurns(t, l, a);
    if !Flushes(t, l.shielded, a) {
      forall b ensures Drain(t, l, a + b) == Drain(t, Drain(t, l, a), b) {
        DrainTurns(t, l, a + b);
        DrainTurns(t, Drain(t, l, a), b);
        TurnsCompose(t, l, a, b);
      }
    } else {
      var c := FreeLetter(Controls(t), 26) by { ControlsCounted(t); }
      FlushedTurns(t, l, a, [c]);
      DrainTurns(t, l, a + [c]);
      DrainTurns(t, Drain(t, l, a), [c]);
      LetterTyped(t, Drain(t, l, a), c);
      assert Drain(t, l, a + [c]).chars != Drain(t, Drain(t, l, a), [c]).chars;
    }
  }

  lemma ControlsCounted(t: Termios)
    ensures |Controls(t)| == 10
  {
  }

  function Apply(a: Action, xs: seq<Byte>): seq<Byte> {
    match a
    case Interrupt => []
    case Nothing => xs
    case RubOut => DropLast(xs)
    case RubOutWord => CutLetters(CutBlanks(xs))
    case Clear => []
    case Shield => xs
    case Insert(c) => xs + [c]
  }

  /** The editor over a whole input: the shield lasts for one character, an interrupt drops the rest. */
  function Edited(t: Termios, xs: seq<Byte>, shielded: bool, input: seq<Byte>): seq<Byte>
    decreases |input|
  {
    if input == [] then xs
    else
      var a := Meaning(t, shielded, input[0]);
      if a == Interrupt then [] else Edited(t, Apply(a, xs), a == Shield, input[1..])
  }

  lemma KeyApplies(t: Termios, l: Line, read: Byte)
    requires (l.chars == [] ==> l.consumed == 0) && Room(l)
    ensures var k, a := Key(t, l, read), Meaning(t, l.shielded, read);
      && k.line.chars == Apply(a, l.chars) && k.line.consumed + |k.line.chars| <= l.consumed + |l.chars| + 1
  {
    hide Key, Meaning, Edits, Apply;
    KeyEdits(t, l, read);
    var a := Meaning(t, l.shielded, read);
    EditsIsApply(a, l.chars, Key(t, l, read).line.chars);
    LengthAfter(a, l.chars);
  }

  lemma EditsIsApply(a: Action, xs: seq<Byte>, r: seq<Byte>)
    ensures Edits(a, xs, r) <==> r == Apply(a, xs)
  {
    if a == RubOutWord {
      LastWordCut(xs, r);
    }
    hide WithoutLastWord;
  }

  lemma CutShortens(xs: seq<Byte>)
    ensures |CutBlanks(xs)| <= |xs| && |CutLetters(xs)| <= |xs|
  {
  }

  lemma LengthAfter(a: Action, xs: seq<Byte>)
    ensures |Apply(a, xs)| <= |xs| + 1
  {
    CutShortens(xs);
    CutShortens(CutBlanks(xs));
  }

  /** Given room, cooking is editing: what the calls leave in cooked_q is what the editor makes of the input. */
  lemma {:induction false} CookingIsEditing(t: Termios, l: Line, input: seq<Byte>)
    requires (l.chars == [] ==> l.consumed == 0) && l.consumed + |l.chars| + |input| <= CAPACITY
    ensures Drain(t, l, input).chars == Edited(t, l.chars, l.shielded, input)
    decreases |input|
  {
    DrainTurns(t, l, input);
    if input != [] {
      KeyEdits(t, l, input[0]);
      KeyFlags(t, l, input[0]);
      KeyApplies(t, l, input[0]);
      hide Key, Meaning, Apply, Edits, Cook;
      var k := Key(t, l, input[0]);
      if k.flushed {
        assert k.line.chars == Apply(Interrupt, l.chars);
        NothingLeft(l.chars);
      } else {
        CookingIsEditing(t, k.line, input[1..]);
        DrainTurns(t, k.line, input[1..]);
      }
    }
  }

  lemma NothingLeft(xs: seq<Byte>)
    ensures Apply(Interrupt, xs) == []
  {
  }

  /** Whatever follows VLNEXT is inserted as it is, in this call or a later one, and only that character. */
  lemma ShieldsExactlyOne(t: Termios, l: Line, v: Byte, c: Byte)
    requires !l.shielded && Meaning(t, false, v) == Shield && Room(l)
    ensures var r := Drain(t, Drain(t, l, [v]), [c]);
      && r == Drain(t, l, [v, c])
      && r.chars == l.chars + [Stripped(t, c)] && !r.shielded
  {
    DrainTurns(t, l, [v]);
    DrainTurns(t, Drain(t, l, [v]), [c]);
    DrainTurns(t, l, [v, c]);
    assert [v][1..] == [] && [c][1..] == [] && [v, c][1..] == [c];
    hide Stripped, Lower, Erase, EraseWord, EraseAll;
    assert Key(t, l, v) == Keyed(l.(shielded := true), false, false);
  }

  /** Settings in which every control character has one role. */
  const ORDINARY: Termios := Termios(
    true, false, false, false, false, true, false, true, true, true,
    3, 28, 26, 127, 23, 21, 18, 22, 17, 19, {})

  /** "l", Enter, VKILL: the finished line is gone, and the queue still counts as holding one. */
  lemma KillTakesFinishedLine()
    ensures PlainErase(ORDINARY) && ORDINARY.vwerase != ORDINARY.vkill
    ensures Drain(ORDINARY, Line(0, [], false, false), [108, NEWLINE, ORDINARY.vkill]) == Line(0, [], false, true)
  {
    var t, l := ORDINARY, Line(0, [], false, false);
    DrainTurns(t, l, [108, NEWLINE, 21]);
    var l1, l2 := Line(0, [108], false, false), Line(0, [108, NEWLINE], false, true);
    assert [108, NEWLINE, 21][1..] == [NEWLINE, 21] && [NEWLINE, 21][1..] == [21];
    assert Key(t, l, 108) == Keyed(l1, true, false) by { assert [] + [108] == [108]; }
    assert Key(t, l1, NEWLINE) == Keyed(l2, true, false) by { assert [108] + [NEWLINE] == [108, NEWLINE]; }
    KillEmpties(t, [108, NEWLINE]);
    assert Key(t, l2, 21) == Keyed(Line(0, [], false, true), true, false);
    assert [21][1..] == [];
    hide Key;
    assert Turns(t, l2, [21]) == Turns(t, Line(0, [], false, true), []);
    assert Turns(t, l1, [NEWLINE, 21]) == Turns(t, l2, [21]);
    assert Turns(t, l, [108, NEWLINE, 21]) == Turns(t, l1, [NEWLINE, 21]);
  }

  // ---------- what each key does, in numbers ----------

  /** `read` arrives and is not, nor becomes as `c`, a control character. */
  ghost predicate Ordinary(t: Termios, read: Byte, c: Byte) {
    read !in Controls(t) && c !in Controls(t)
  }

  /** The line with one more character. */
  function Typed(l: Line, c: Byte, completes: bool): Line {
    Line(l.consumed, l.chars + [c], false, l.complete || completes)
  }

  lemma OneKey(t: Termios, l: Line, read: Byte, c: Byte)
    requires Ordinary(t, read, c) && Room(l) && Mapped(t, l.shielded, read) == c
    requires l.shielded || !(t.igncr && Stripped(t, read) == 13)
    ensures Drain(t, l, [read]) == Typed(l, c, t.icanon && c == 10)
  {
    ControlsListed(t, read);
    ControlsListed(t, c);
    DrainTurns(t, l, [read]);
    assert [read][1..] == [];
    hide Mapped, Stripped, Lower, Controls, Erase;
    assert Turns(t, Key(t, l, read).line, []) == Key(t, l, read).line;
  }

  /** Carriage return (13): ignored with IGNCR, a newline (10) with ICRNL, itself otherwise. */
  lemma CarriageReturnTyped(t: Termios, l: Line)
    requires !l.shielded && Room(l) && 13 !in Controls(t) && 10 !in Controls(t)
    ensures Drain(t, l, [13]) ==
      if t.igncr then l else if t.icrnl then Typed(l, 10, t.icanon) else Typed(l, 13, false)
  {
    if t.igncr {
      ControlsListed(t, 13);
      DrainTurns(t, l, [13]);
      assert [13][1..] == [];
      assert Turns(t, l, []) == l;
    } else {
      OneKey(t, l, 13, if t.icrnl then 10 else 13);
    }
  }

  /** Newline (10): a carriage return with INLCR; otherwise it completes a canonical line. */
  lemma NewlineTyped(t: Termios, l: Line)
    requires !l.shielded && Room(l) && 13 !in Controls(t) && 10 !in Controls(t)
    ensures Drain(t, l, [10]) == if t.inlcr then Typed(l, 13, false) else Typed(l, 10, t.icanon)
  {
    OneKey(t, l, 10, if t.inlcr then 13 else 10);
  }

  /** Behind VLNEXT both go in as they are. */
  lemma ShieldedNotMapped(t: Termios, l: Line)
    requires l.shielded && Room(l)
    ensures Drain(t, l, [13]) == Typed(l, 13, false)
    ensures Drain(t, l, [10]) == Typed(l, 10, t.icanon)
  {
    DrainTurns(t, l, [13]);
    DrainTurns(t, l, [10]);
    assert [13][1..] == [] && [10][1..] == [];
    hide Erase;
  }

  /** Without its eighth bit under ISTRIP, with its sixth bit set under IUCLC if it is, or reads as, upper case. */
  function Plain(t: Termios, read: Byte): Byte {
    var s := if t.istrip && read >= 128 then read - 128 else read;
    var upper := 65 <= s <= 90 || (s >= 128 && s in t.upperBeyond);
    if t.iuclc && upper && s % 64 < 32 then s + 32 else s
  }

  /** So 'A' to 'Z' (65 to 90) become 'a' to 'z', and below 128 nothing else changes case. */
  lemma PlainLetters(t: Termios, c: Byte)
    requires c < 128
    ensures Plain(t, c) == if t.iuclc && 65 <= c <= 90 then c + 32 else c
    ensures t.istrip ==> Plain(t, c + 128) == Plain(t, c)
  {
  }

  /** Any other character goes in as `Plain` has it. */
  lemma OtherTyped(t: Termios, l: Line, read: Byte)
    requires Room(l) && Ordinary(t, read, Plain(t, read)) && Plain(t, read) != 10 && Plain(t, read) != 13
    ensures Drain(t, l, [read]) == Typed(l, Plain(t, read), false)
  {
    StrippedIs(t, read);
    hide Plain, Stripped;
    OneKey(t, l, read, Plain(t, read));
  }

  lemma StrippedIs(t: Termios, read: Byte)
    ensures Stripped(t, read) == Plain(t, read)
  {
  }

  /** A control character that arrives as it is. */
  predicate Arrives(c: Byte) {
    c < 128 && c != 10 && c != 13 && !(65 <= c <= 90)
  }

  lemma KeyAlone(t: Termios, l: Line, c: Byte)
    ensures Drain(t, l, [c]) == Key(t, l, c).line
    ensures Arrives(c) ==> Mapped(t, false, c) == c == Stripped(t, c)
  {
    DrainTurns(t, l, [c]);
    assert [c][1..] == [];
    hide Key;
    assert Turns(t, Key(t, l, c).line, []) == Key(t, l, c).line;
  }

  /** With signals on and no shield VINTR drops the line unless NOFLSH is set, and VQUIT and VSUSP leave it alone. */
  lemma SignalKeys(t: Termios, l: Line, c: Byte)
    requires !l.shielded && t.isig && (c == t.vintr || c == t.vquit || c == t.vsusp)
    ensures Drain(t, l, [c]) == if c == t.vintr && !t.noflsh then Line(0, [], false, l.complete) else l
  {
    KeyAlone(t, l, c);
  }

  /** The three erase characters of a canonical line, if they have no other role. */
  lemma EraseKeys(t: Termios, l: Line, c: Byte)
    requires !l.shielded && t.icanon && (l.chars == [] ==> l.consumed == 0) && Arrives(c)
    requires t.isig ==> c != t.vintr && c != t.vquit && c != t.vsusp
    requires t.verase != t.vwerase && t.verase != t.vkill && t.vwerase != t.vkill
    requires c == t.verase || c == t.vwerase || c == t.vkill
    ensures var r := Drain(t, l, [c]);
      && r.shielded == l.shielded && r.complete == l.complete && (r.chars != [] ==> r.consumed == l.consumed)
      && (c == t.verase ==> r.chars == if l.chars == [] then [] else l.chars[..|l.chars| - 1])
      && (c == t.vwerase ==> WithoutLastWord(l.chars, r.chars))
      && (c == t.vkill ==> r.chars == [])
  {
    KeyAlone(t, l, c);
    PlainErases(t, l.chars);
    WordEraseMeets(t, l.chars, Erase(t, l.chars, t.vwerase));
    KillEmpties(t, l.chars);
    hide Mapped, Stripped, Lower, Erase, WithoutLastWord;
  }

  /** The other keys of a canonical line change no character; VLNEXT puts up the shield. */
  lemma SilentKeys(t: Termios, l: Line, c: Byte)
    requires !l.shielded && t.icanon && Arrives(c)
    requires t.isig ==> c != t.vintr && c != t.vquit && c != t.vsusp
    requires c != t.verase && c != t.vwerase && c != t.vkill
    ensures c == t.vreprint ==> Drain(t, l, [c]) == l
    ensures c != t.vreprint && c == t.vlnext && t.iexten ==>
      Drain(t, l, [c]) == Line(l.consumed, l.chars, true, l.complete)
    ensures c != t.vreprint && c != t.vlnext && t.ixon && (c == t.vstart || c == t.vstop) ==> Drain(t, l, [c]) == l
  {
    KeyAlone(t, l, c);
    hide Mapped, Stripped, Lower;
  }

  // ---------- newline on output ----------

  /** Which of the two characters got in. */
  datatype Sent = Sent(queue: Queue, cr: bool, nl: bool)

  /**
   opost for a newline mapped to CR-NL (tty.c:35-44 and 72). `memory` tells for
   each of the two puts whether kmalloc would deliver a block.
   */
  function OutNewline(q: Queue, memory: (bool, bool)): Sent {
    if Remaining(q) < 2 then Sent(q, false, false)
    else
      var (q1, cr) := Put(q, RETURN, memory.0);
      var (q2, nl) := Put(q1, NEWLINE, memory.1);
      Sent(q2, cr, nl)
  }

  /** The places left in the last block. */
  function TailRoom(q: Queue): int {
    if q == [] then 0 else CBLOCK_SIZE - |Tail(q).chars|
  }

  /**
   CR goes out without NL iff two characters seem to fit, the last block has one
   place and there will be no other block; NL goes out without CR iff the last
   block is full and only the second request for memory is granted.
   */
  lemma NewlineSplitsIff(q: Queue, memory: (bool, bool))
    requires Inv(q)
    ensures var r := OutNewline(q, memory);
      && (r.cr && !r.nl <==> Remaining(q) >= 2 && TailRoom(q) == 1 && (|q| == CHARQ_SIZE || !memory.1))
      && (!r.cr && r.nl <==> Remaining(q) >= 2 && TailRoom(q) == 0 && |q| < CHARQ_SIZE && !memory.0 && memory.1)
      && Inv(r.queue)
      && Contents(r.queue) == Contents(q) + (if r.cr then [RETURN] else []) + (if r.nl then [NEWLINE] else [])
  {
    hide Contents, Inv, Put, TailRoom;
    PutRoom(q, RETURN, memory.0);
    var q1 := Put(q, RETURN, memory.0).0;
    PutRoom(q1, NEWLINE, memory.1);
  }

  /** A put takes a place of the last block, or opens a new one. */
  lemma PutRoom(q: Queue, c: Byte, memory: bool)
    requires Inv(q)
    ensures var (r, ok) := Put(q, c, memory);
      && Inv(r) && 0 <= TailRoom(q) && |q| <= CHARQ_SIZE
      && (ok <==> TailRoom(q) > 0 || (|q| < CHARQ_SIZE && memory))
      && TailRoom(r) == (if !ok then TailRoom(q) else if TailRoom(q) > 0 then TailRoom(q) - 1 else CBLOCK_SIZE - 1)
      && |r| == (if ok && TailRoom(q) == 0 then |q| + 1 else |q|)
      && Contents(r) == Contents(q) + if ok then [c] else []
  {
    hide Inv, Contents, Put, TailRoom;
    PutAppends(q, c, memory);
    TailHolds(q);
    PutTail(q, c, memory);
    assert Contents(q) + [] == Contents(q);
  }

  lemma PutTail(q: Queue, c: Byte, memory: bool)
    requires |q| <= CHARQ_SIZE && (q != [] ==> |Tail(q).chars| <= CBLOCK_SIZE)
    ensures var (r, ok) := Put(q, c, memory);
      && 0 <= TailRoom(q)
      && (ok <==> TailRoom(q) > 0 || (|q| < CHARQ_SIZE && memory))
      && TailRoom(r) == (if !ok then TailRoom(q) else if TailRoom(q) > 0 then TailRoom(q) - 1 else CBLOCK_SIZE - 1)
      && |r| == (if ok && TailRoom(q) == 0 then |q| + 1 else |q|)
  {
  }

  lemma TailHolds(q: Queue)
    requires Inv(q)
    ensures |q| <= CHARQ_SIZE && (q != [] ==> |Tail(q).chars| <= CBLOCK_SIZE)
  {
  }

  /** With all the memory it asks for the queue parts them iff one place is left and the first block is partly read. */
  lemma MemoryAloneDoesNotHelp(q: Queue)
    requires Inv(q)
    ensures OutNewline(q, (true, true)).cr && !OutNewline(q, (true, true)).nl
      <==> Consumed(q) > 0 && Remaining(q) == Consumed(q) + 1
    ensures OutNewline(q, (true, true)).nl ==> OutNewline(q, (true, true)).cr
  {
    NewlineSplitsIff(q, (true, true));
    if q != [] { Occupied(q); }
    assert q == [] ==> Contents(q) == [];
    hide Contents, OutNewline;
  }

  /** Eight blocks with 255 characters written and one read: CR goes out and NL does not. */
  lemma ANewlineSplits(memory: (bool, bool))
    ensures Inv(Crowded()) && OutNewline(Crowded(), memory).cr && !OutNewline(Crowded(), memory).nl
  {
    OneOfTwoGetsIn(RETURN, NEWLINE);
    NewlineSplitsIff(Crowded(), memory);
    hide Inv, OutNewline, Crowded;
  }
}
