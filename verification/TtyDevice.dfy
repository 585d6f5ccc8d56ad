/**
 erase_char and tty_cook_input on the queues of a terminal
 (drivers/src/dev/char/tty/tty.c:95-278).
 */
module TtyDevice {
  import opened CharQueue
  import opened LineDiscipline
  import B = CharBlocks

  class Tty {
    const termios: Termios
    const readQ: B.CharQ
    const cookedQ: B.CharQ
    var hasLnext: bool
    var hasCanonLine: bool
    /** Where kmalloc finds the next block; it never runs out here. */
    var heap: nat

    ghost predicate Valid()
      reads this, readQ, cookedQ
    {
      && readQ != cookedQ
      && readQ.Valid() && Inv(readQ.Abs())
      && cookedQ.Valid() && Inv(cookedQ.Abs())
      && heap > 0 && forall a :: a in cookedQ.addrs ==> a < heap
    }

    ghost function Cooked(): seq<Byte>
      requires Valid()
      reads this, readQ, cookedQ
    {
      Contents(cookedQ.Abs())
    }

    ghost function Edit(): Line
      requires Valid()
      reads this, readQ, cookedQ
    {
      Line(Consumed(cookedQ.Abs()), Cooked(), hasLnext, hasCanonLine)
    }

    constructor (t: Termios)
      ensures Valid() && termios == t && Edit() == Line(0, [], false, false) && readQ.Abs() == []
      ensures fresh(readQ) && fresh(cookedQ)
    {
      termios := t;
      readQ := new B.CharQ();
      cookedQ := new B.CharQ();
      hasLnext, hasCanonLine, heap := false, false, 1;
    }

    /** charq_unput_char on cooked_q. */
    method Unput()
      requires Valid()
      modifies cookedQ
      ensures Valid() && Edit() == SetChars(old(Edit()), DropLast(old(Cooked())))
    {
      hide Inv, Contents, Put, Get;
      UnputDropsLast(cookedQ.Abs());
      NonEmpty(cookedQ.Abs());
      cookedQ.UnputChar();
    }

    /** What the counters and flags say about the line. */
    lemma Sizes()
      requires Valid()
      ensures cookedQ.size > 0 <==> Cooked() != []
      ensures readQ.size > 0 <==> Contents(readQ.Abs()) != []
      ensures Edit() == SetChars(Edit(), Cooked())
      ensures heap !in cookedQ.addrs
    {
      hide Inv, Contents, B.Chain, B.BlocksOf, B.InPlace;
      B.ChainEnds(cookedQ.head, cookedQ.tail, cookedQ.next, cookedQ.prev, cookedQ.cells,
                   cookedQ.size, cookedQ.currentSize, cookedQ.addrs);
      B.ChainEnds(readQ.head, readQ.tail, readQ.next, readQ.prev, readQ.cells, readQ.size, readQ.currentSize,
                   readQ.addrs);
      NonEmpty(cookedQ.Abs());
      NonEmpty(readQ.Abs());
    }

    /** erase_char */
    method EraseChar(c: Byte)
      requires Valid()
      modifies cookedQ
      ensures Valid() && Edit() == SetChars(old(Edit()), Erase(termios, old(Cooked()), c))
      decreases |Cooked()|, if c == termios.verase then 1 else 3
    {
      hide Inv, Contents, Erase, EraseWord, EraseAll;
      Sizes();
      ErasePhases(termios, Cooked(), c);
      if c == termios.verase {
        Unput();
      }
      if c == termios.vwerase {
        EraseLastWord();
      }
      if c == termios.vkill {
        EraseLine();
      }
    }

    /** The word-erase loop (tty.c:120-133). */
    method EraseLastWord()
      requires Valid()
      modifies cookedQ
      ensures Valid() && Edit() == SetChars(old(Edit()), EraseWord(termios, old(Cooked()), false))
      decreases |Cooked()|, if Cooked() == [] then 0 else 2
    {
      hide Inv, Contents, Erase, EraseWord, EraseAll;
      Sizes();
      var wordSeen := false;
      while cookedQ.size > 0
        invariant Valid() && (cookedQ.size > 0 <==> Cooked() != [])
        invariant EraseWord(termios, Cooked(), wordSeen) == EraseWord(termios, old(Cooked()), false)
        invariant Edit() == SetChars(old(Edit()), Cooked()) && |Cooked()| <= |old(Cooked())|
        decreases |Cooked()|
      {
        EraseWordTurn(termios, Cooked(), wordSeen);
        LastCharIsLast(cookedQ.Abs());
        var ch := cookedQ.LastCharacter();
        if (ch == SPACE || ch == TAB) && wordSeen {
          break;
        }
        if ch != SPACE && ch != TAB {
          wordSeen := true;
        }
        EraseChar(termios.verase);
        Sizes();
      }
      EraseWordOfNothing(termios, wordSeen);
    }

    /** The kill loop (tty.c:137-139). */
    method EraseLine()
      requires Valid()
      modifies cookedQ
      ensures Valid() && Edit() == SetChars(old(Edit()), [])
      decreases |Cooked()|, if Cooked() == [] then 0 else 2
    {
      hide Inv, Contents, Erase, EraseWord, EraseAll;
      Sizes();
      while cookedQ.size > 0
        invariant Valid() && (cookedQ.size > 0 <==> Cooked() != [])
        invariant Edit() == SetChars(old(Edit()), Cooked()) && |Cooked()| <= |old(Cooked())|
        decreases |Cooked()|
      {
        EraseChar(termios.verase);
        Sizes();
      }
    }

    /** The obligatory transformations (tty.c:187-208); `ignored` tells that a carriage return is skipped. */
    method Translate(ch: Byte) returns (c: Byte, ignored: bool)
      ensures ignored <==> !hasLnext && Stripped(termios, ch) == RETURN && termios.igncr
      ensures !ignored ==> c == Mapped(termios, hasLnext, ch)
    {
      c := ch;
      if termios.istrip {
        c := c % 128;
      }
      if termios.iuclc {
        c := Lower(termios, c);
      }
      if !hasLnext {
        if c == RETURN {
          if termios.igncr {
            return c, true;
          }
          if termios.icrnl {
            c := NEWLINE;
          }
        } else if c == NEWLINE && termios.inlcr {
          c := RETURN;
        }
      }
      return c, false;
    }

    /** The body of the loop of tty_cook_input; it returns whether the loop goes on. */
    method CookOne(ch: Byte) returns (goesOn: bool)
      requires Valid()
      modifies this, readQ, cookedQ
      ensures Valid()
      ensures var k := Key(termios, old(Edit()), ch);
        && Edit() == k.line && goesOn == k.goesOn
        && readQ.Abs() == if k.flushed then [] else old(readQ.Abs())
    {
      hide Inv, Contents, Erase, EraseWord, EraseAll, Mapped, Stripped;
      Sizes();
      if termios.isig && !hasLnext {
        if ch == termios.vintr {
          if !termios.noflsh {
            FlushBoth();
          }
          return false;
        }
        if ch == termios.vquit {
          return false;
        }
        if ch == termios.vsusp {
          return false;
        }
      }
      var c, ignored := Translate(ch);
      if ignored {
        return true;
      }
      if termios.icanon && !hasLnext {
        if c == termios.verase || c == termios.vwerase || c == termios.vkill {
          EraseChar(c);
          return true;
        }
        if c == termios.vreprint {
          return true;
        }
        if c == termios.vlnext && termios.iexten {
          hasLnext := true;
          return false;
        }
        if termios.ixon {
          if c == termios.vstart {
            return true;
          }
          if c == termios.vstop {
            return true;
          }
        }
      }
      if termios.icanon && c == NEWLINE {
        hasCanonLine := true;
      }
      // An echoed control character takes a branch of its own, with the same effect on the line.
      Append(c);
      return true;
    }

    method FlushBoth()
      requires Valid()
      modifies readQ, cookedQ
      ensures Valid() && readQ.Abs() == [] && Edit() == SetChars(old(Edit()), [])
    {
      readQ.Flush();
      cookedQ.Flush();
    }

    /** charq_put_char on cooked_q, and the end of the shield (tty.c:276-277). */
    method Append(c: Byte)
      requires Valid()
      modifies this`hasLnext, this`heap, cookedQ
      ensures Valid() && Edit() == LineDiscipline.PutChar(old(Edit()), c).(shielded := false)
    {
      hide Inv, Contents;
      Sizes();
      PutAppends(cookedQ.Abs(), c, true);
      var ok := cookedQ.PutChar(c, heap);
      heap := heap + 1;
      hasLnext := false;
    }

    method CookInput()
      requires Valid()
      modifies this, readQ, cookedQ
      ensures Valid()
      ensures (Edit(), Contents(readQ.Abs())) == Cook(termios, old(Edit()), old(Contents(readQ.Abs())))
    {
      hide Inv, Contents, Key, Get, Put;
      Sizes();
      ghost var target := Cook(termios, Edit(), Contents(readQ.Abs()));
      while readQ.size > 0
        invariant Valid() && (readQ.size > 0 <==> Contents(readQ.Abs()) != [])
        invariant Cook(termios, Edit(), Contents(readQ.Abs())) == target
        decreases |Contents(readQ.Abs())|
      {
        GetTakesFirst(readQ.Abs());
        ghost var input := Contents(readQ.Abs());
        var ch := readQ.GetChar();
        assert Contents(readQ.Abs()) == input[1..] && ch == input[0];
        EmptyContents();
        var goesOn := CookOne(ch);
        Sizes();
        if !goesOn {
          break;
        }
      }
    }
  }

  lemma ErasePhases(t: Termios, xs: seq<Byte>, c: Byte)
    ensures var x1 := if c == t.verase then DropLast(xs) else xs;
      var x2 := if c == t.vwerase then EraseWord(t, x1, false) else x1;
      && Erase(t, xs, c) == (if c == t.vkill then [] else x2) && |x2| <= |x1| <= |xs|
      && (c == t.verase && xs != [] ==> |x1| < |xs|)
  {
  }

  lemma EraseWordTurn(t: Termios, xs: seq<Byte>, seen: bool)
    requires xs != []
    ensures var last := xs[|xs| - 1];
      EraseWord(t, xs, seen) == if Blank(last) && seen then xs
        else EraseWord(t, Erase(t, xs, t.verase), seen || !Blank(last))
    ensures |Erase(t, xs, t.verase)| < |xs|
  {
  }

  lemma EraseWordOfNothing(t: Termios, seen: bool)
    ensures EraseWord(t, [], seen) == []
  {
  }
}
