/**
 A whole call of the formatter (lib/src/printf.c:689-1062): how a format and its
 arguments turn into text, and how much of the text a buffer keeps.
 */
module Format {
  import opened Printf

  const NUL: char := 0 as char

  /** What a caller passes: a 32-bit value for everything but long long and strings. */
  datatype Arg = Word(w: nat) | DoubleWord(w: nat) | Str(s: seq<char>)

  /**
   A directive up to its conversion character at `at`; `arg` is the next argument.
   Bad stands for behaviour the C code leaves undefined: a missing or mistyped argument.
   */
  datatype Field = Field(flags: Flags, width: nat, prec: nat, at: nat, arg: nat) | Bad

  datatype Outcome = Text(t: seq<char>) | Undefined

  /** `*format`; a C string ends in NUL. */
  function At(f: seq<char>, i: nat): char {
    if i < |f| then f[i] else NUL
  }

  predicate IsDigit(c: char) { '0' <= c <= '9' }

  function WithFlag(fl: Flags, c: char): Flags {
    match c
    case '0' => fl.(zeroPad := true)
    case '-' => fl.(left := true)
    case '+' => fl.(plus := true)
    case ' ' => fl.(space := true)
    case _ => fl.(hash := true)
  }

  predicate IsFlag(c: char) { c == '0' || c == '-' || c == '+' || c == ' ' || c == '#' }

  function ParseFlags(f: seq<char>, i: nat, fl: Flags): (r: (Flags, nat))
    ensures r.1 >= i && (i <= |f| ==> r.1 <= |f|)
    decreases |f| - i
  {
    if i < |f| && IsFlag(f[i]) then ParseFlags(f, i + 1, WithFlag(fl, f[i])) else (fl, i)
  }

  /** _atoi: the value wraps at 32 bits. */
  function ParseNumber(f: seq<char>, i: nat, n: nat): (r: (nat, nat))
    ensures r.1 >= i && (i <= |f| ==> r.1 <= |f|)
    decreases |f| - i
  {
    if i < |f| && IsDigit(f[i]) then ParseNumber(f, i + 1, (n * 10 + (f[i] - '0') as nat) % WORD) else (n, i)
  }

  /** A 32-bit value read as an int. */
  function AsInt(w: nat, bits: nat): int
    requires bits == 8 || bits == 16 || bits == 32 || bits == 64
  {
    var m := if bits == 8 then 0x100 else if bits == 16 then 0x1_0000 else if bits == 32 then WORD else DOUBLE_WORD;
    if w % m < m / 2 then w % m else w % m - m
  }

  function Abs(x: int): nat { if x > 0 then x else -x }

  function ParseWidth(f: seq<char>, fl: Flags, i: nat, args: seq<Arg>, a: nat): Field {
    if IsDigit(At(f, i)) then
      var (n, j) := ParseNumber(f, i, 0);
      Field(fl, n, 0, j, a)
    else if At(f, i) == '*' then
      if a < |args| && args[a].Word? then
        var w := AsInt(args[a].w, 32);
        Field(if w < 0 then fl.(left := true) else fl, Abs(w), 0, i + 1, a + 1)
      else Bad
    else Field(fl, 0, 0, i, a)
  }

  function ParsePrecision(f: seq<char>, d: Field, args: seq<Arg>): Field {
    if d.Bad? || At(f, d.at) != '.' then d
    else
      var fl, i := d.flags.(precision := true), d.at + 1;
      if IsDigit(At(f, i)) then
        var (n, j) := ParseNumber(f, i, 0);
        d.(flags := fl, prec := n, at := j)
      else if At(f, i) == '*' then
        if d.arg < |args| && args[d.arg].Word? then
          var p := AsInt(args[d.arg].w, 32);
          d.(flags := fl, prec := if p > 0 then p else 0, at := i + 1, arg := d.arg + 1)
        else Bad
      else d.(flags := fl, at := i)
  }

  function ParseLength(f: seq<char>, d: Field): Field {
    if d.Bad? then d
    else if At(f, d.at) == 'l' then
      if At(f, d.at + 1) == 'l' then d.(flags := d.flags.(long := true, longLong := true), at := d.at + 2)
      else d.(flags := d.flags.(long := true), at := d.at + 1)
    else if At(f, d.at) == 'h' then
      if At(f, d.at + 1) == 'h' then d.(flags := d.flags.(short := true, byte := true), at := d.at + 2)
      else d.(flags := d.flags.(short := true), at := d.at + 1)
    else if At(f, d.at) == 'z' then d.(flags := d.flags.(long := true), at := d.at + 1)
    else d
  }

  function ParseField(f: seq<char>, i: nat, args: seq<Arg>, a: nat): Field {
    var (fl, j) := ParseFlags(f, i, NO_FLAGS);
    ParseLength(f, ParsePrecision(f, ParseWidth(f, fl, j, args, a), args))
  }

  /** The text of one conversion and the next argument. */
  datatype Converted = Converted(t: seq<char>, arg: nat) | Unconverted

  predicate IsInteger(c: char) { c == 'd' || c == 'i' || c == 'u' || c == 'x' || c == 'X' || c == 'o' || c == 'b' }

  function BaseOf(c: char): nat {
    if c == 'x' || c == 'X' then 16 else if c == 'o' then 8 else if c == 'b' then 2 else 10
  }

  predicate IsSigned(c: char) { c == 'd' || c == 'i' }

  /** The flags an integer conversion goes on with (printf.c:826-842). */
  function IntegerFlags(c: char, fl: Flags): Flags {
    var f1 := if BaseOf(c) == 10 then fl.(hash := false) else fl;
    var f2 := if c == 'X' then f1.(upper := true) else f1;
    var f3 := if IsSigned(c) then f2 else f2.(plus := false, space := false);
    if f3.precision then f3.(zeroPad := false) else f3
  }

  function ConvertInteger(c: char, d: Field, args: seq<Arg>): Converted
    requires d.Field?
  {
    var fl := IntegerFlags(c, d.flags);
    if fl.longLong && !IsSigned(c) then Converted([], d.arg)
    else if d.arg >= |args| || (if fl.longLong then !args[d.arg].DoubleWord? else !args[d.arg].Word?) then Unconverted
    else
      var w := args[d.arg].w;
      if IsSigned(c) then
        var bits :=
          if fl.longLong then 64 else if fl.long then 32 else if fl.byte then 8 else if fl.short then 16 else 32;
        var v := AsInt(w, bits);
        Converted(Integer(Abs(v), v < 0, BaseOf(c), d.prec, d.width, fl), d.arg + 1)
      else
        var v := if fl.long then w % WORD else if fl.byte then w % 0x100 else if fl.short then w % 0x1_0000
          else w % WORD;
        Converted(Integer(v, false, BaseOf(c), d.prec, d.width, fl), d.arg + 1)
  }

  /** `t` in a field of `width`. */
  function Justified(t: seq<char>, width: nat, left: bool): seq<char> {
    (if left then [] else Repeat(' ', width - |t|)) + t + (if left then Repeat(' ', width - |t|) else [])
  }

  function Cut(s: seq<char>, fl: Flags, prec: nat): seq<char> {
    if fl.precision && prec < |s| then s[..prec] else s
  }

  function PointerFlags(fl: Flags): Flags { fl.(zeroPad := true, upper := true) }

  /** The floating-point conversions are not modelled. */
  function Convert(c: char, d: Field, args: seq<Arg>): Converted
    requires d.Field?
  {
    if IsInteger(c) then ConvertInteger(c, d, args)
    else if c == 'c' then
      if d.arg < |args| && args[d.arg].Word? then
        Converted(Justified([(args[d.arg].w % 256) as char], d.width, d.flags.left), d.arg + 1)
      else Unconverted
    else if c == 's' then
      if d.arg < |args| && args[d.arg].Str? then
        Converted(Justified(Cut(args[d.arg].s, d.flags, d.prec), d.width, d.flags.left), d.arg + 1)
      else Unconverted
    else if c == 'p' then
      if d.arg < |args| && args[d.arg].Word? then
        Converted(Integer(args[d.arg].w % WORD, false, 16, d.prec, 8, PointerFlags(d.flags)), d.arg + 1)
      else Unconverted
    else if c == 'f' || c == 'F' || c == 'e' || c == 'E' || c == 'g' || c == 'G' then Unconverted
    else Converted([c], d.arg)
  }

  function Prepend(s: seq<char>, o: Outcome): Outcome {
    if o.Text? then Text(s + o.t) else o
  }

  /**
   The whole output, with no limit. A format that ends inside a directive is undefined:
   the code steps over the terminating NUL.
   */
  function Render(f: seq<char>, i: nat, args: seq<Arg>, a: nat): Outcome
    decreases |f| - i
  {
    if i >= |f| then Text([])
    else if f[i] != '%' then Prepend([f[i]], Render(f, i + 1, args, a))
    else
      var d := ParseField(f, i + 1, args, a);
      if d.Bad? || d.at >= |f| then Undefined
      else
        FieldAhead(f, i + 1, args, a);
        var r := Convert(f[d.at], d, args);
        if r.Unconverted? then Undefined else Prepend(r.t, Render(f, d.at + 1, args, r.arg))
  }

  lemma FieldAhead(f: seq<char>, i: nat, args: seq<Arg>, a: nat)
    ensures var d := ParseField(f, i, args, a); d.Bad? || d.at >= i
  {
  }

  // ---------- the buffer ----------

  /** _out_buffer */
  function OutBuffer(b: seq<char>, idx: nat, maxlen: nat, c: char): (r: seq<char>)
    requires maxlen <= |b|
    ensures |r| == |b|
  {
    if idx < maxlen then b[idx := c] else b
  }

  /** `t` written from position `idx` on. */
  function Written(b: seq<char>, idx: nat, maxlen: nat, t: seq<char>): (r: seq<char>)
    requires maxlen <= |b|
    ensures |r| == |b|
    decreases |t|
  {
    if t == [] then b else Written(OutBuffer(b, idx, maxlen, t[0]), idx + 1, maxlen, t[1..])
  }

  lemma {:induction false} WrittenAppend(b: seq<char>, idx: nat, maxlen: nat, s: seq<char>, t: seq<char>)
    requires maxlen <= |b|
    ensures Written(b, idx, maxlen, s + t) == Written(Written(b, idx, maxlen, s), idx + |s|, maxlen, t)
    decreases |s|
  {
    if s == [] {
      assert s + t == t;
    } else {
      assert (s + t)[1..] == s[1..] + t;
      WrittenAppend(OutBuffer(b, idx, maxlen, s[0]), idx + 1, maxlen, s[1..], t);
    }
  }

  /** Position by position: the text inside the limit, the old contents everywhere else. */
  lemma {:induction false} WrittenAt(b: seq<char>, idx: nat, maxlen: nat, t: seq<char>, p: nat)
    requires maxlen <= |b| && p < |b|
    ensures Written(b, idx, maxlen, t)[p] == if idx <= p < idx + |t| && p < maxlen then t[p - idx] else b[p]
    decreases |t|
  {
    if t != [] {
      WrittenAt(OutBuffer(b, idx, maxlen, t[0]), idx + 1, maxlen, t[1..], p);
    }
  }

  /** The buffer after a call that prints `t`. */
  function Finished(b: seq<char>, maxlen: nat, t: seq<char>): seq<char>
    requires maxlen <= |b|
  {
    OutBuffer(Written(b, 0, maxlen, t), if |t| < maxlen then |t| else (maxlen + WORD - 1) % WORD, maxlen, NUL)
  }

  /**
   A buffer of n > 0 gets the first min(n - 1, length) characters of the unlimited output and a NUL,
   and nothing behind it changes.
   */
  lemma TruncatedAgrees(b: seq<char>, maxlen: nat, t: seq<char>)
    requires 0 < maxlen <= |b| && maxlen < WORD
    ensures var k := if |t| < maxlen then |t| else maxlen - 1;
      Finished(b, maxlen, t) == t[..k] + [NUL] + b[k + 1..]
  {
    var k := if |t| < maxlen then |t| else maxlen - 1;
    var w, want := Finished(b, maxlen, t), t[..k] + [NUL] + b[k + 1..];
    forall p | 0 <= p < |b| ensures w[p] == want[p] {
      WrittenAt(b, 0, maxlen, t, p);
    }
  }

  /** A buffer of size 0 is not touched. */
  lemma NothingWritten(b: seq<char>, t: seq<char>)
    ensures Finished(b, 0, t) == b
  {
    forall p | 0 <= p < |b| ensures Written(b, 0, 0, t)[p] == b[p] {
      WrittenAt(b, 0, 0, t, p);
    }
  }

  /** Two calls that differ only in the size of the buffer agree on all that both keep. */
  lemma ShorterIsPrefix(b: seq<char>, c: seq<char>, m: nat, n: nat, t: seq<char>)
    requires 0 < m <= n && m <= |b| && n <= |c| && n < WORD
    ensures var k := if |t| < m then |t| else m - 1;
      Finished(b, m, t)[..k] == Finished(c, n, t)[..k]
  {
    TruncatedAgrees(b, m, t);
    TruncatedAgrees(c, n, t);
  }

  // ---------- %d ----------

  /**
   "%d" prints every int as its decimal digits, which stand for its magnitude, behind a minus sign if
   it is negative.
   */
  lemma DecimalReadsBack(w: nat)
    requires w < WORD
    ensures var v := AsInt(w, 32);
      var ds := Digits(Abs(v), 10, false, BUFFER);
      && Denotes(ds, 10, Abs(v))
      && Render(['%', 'd'], 0, [Word(w)], 0) == Text((if v < 0 then ['-'] else []) + Reverse(ds))
  {
    var v := AsInt(w, 32);
    var ds := Digits(Abs(v), 10, false, BUFFER);
    DecimalDigits(Abs(v), false);
    DecimalField(w);
    hide Digits, Denotes, Integer, AsInt;
    PlainDecimal(Abs(v), v < 0, ds);
  }

  lemma DecimalField(w: nat)
    ensures var v := AsInt(w, 32);
      Render(['%', 'd'], 0, [Word(w)], 0) == Text(Integer(Abs(v), v < 0, 10, 0, 0, NO_FLAGS))
  {
    hide Integer, AsInt;
    var f: seq<char>, args := ['%', 'd'], [Word(w)];
    assert ParseFlags(f, 1, NO_FLAGS) == (NO_FLAGS, 1);
    assert ParseField(f, 1, args, 0) == Field(NO_FLAGS, 0, 0, 1, 0);
    var r := Convert('d', Field(NO_FLAGS, 0, 0, 1, 0), args);
    assert Render(f, 2, args, r.arg) == Text([]);
    assert r.t + [] == r.t;
  }

  /** An integer conversion takes its argument iff it is signed or not for long long; otherwise it prints nothing. */
  lemma ArgumentTakenIff(c: char, d: Field, args: seq<Arg>)
    requires d.Field? && IsInteger(c) && Convert(c, d, args).Converted?
    ensures var r := Convert(c, d, args);
      && (r.arg == d.arg + 1 <==> IsSigned(c) || !d.flags.longLong)
      && (r.arg != d.arg + 1 ==> r.arg == d.arg && r.t == [])
  {
    hide Integer, AsInt;
  }

  /**
   So whatever its flags, width and precision an unsigned long long directive prints
   nothing, and the rest of the format goes on with its argument.
   */
  lemma UnsignedLongLongSkipped(f: seq<char>, i: nat, args: seq<Arg>, a: nat)
    requires i < |f| && f[i] == '%'
    requires var d := ParseField(f, i + 1, args, a);
      d.Field? && d.at < |f| && IsInteger(f[d.at]) && !IsSigned(f[d.at]) && d.flags.longLong
    ensures var d := ParseField(f, i + 1, args, a);
      Render(f, i, args, a) == Render(f, d.at + 1, args, d.arg)
  {
    hide ParseField, Convert, Render;
    var d := ParseField(f, i + 1, args, a);
    UnsignedLongLong(f[d.at], d, args);
    RenderStep(f, i, args, a);
  }

  lemma UnsignedLongLong(c: char, d: Field, args: seq<Arg>)
    requires d.Field? && IsInteger(c) && !IsSigned(c) && d.flags.longLong
    ensures Convert(c, d, args) == Converted([], d.arg)
  {
  }

  lemma RenderStep(f: seq<char>, i: nat, args: seq<Arg>, a: nat)
    requires i < |f| && f[i] == '%'
    ensures var d := ParseField(f, i + 1, args, a);
      d.Field? && d.at < |f| ==>
        var r := Convert(f[d.at], d, args);
        r.Converted? && r.t == [] ==> Render(f, i, args, a) == Render(f, d.at + 1, args, r.arg)
  {
    hide ParseField, Convert;
    FieldAhead(f, i + 1, args, a);
    var d := ParseField(f, i + 1, args, a);
    if d.Field? && d.at < |f| {
      var r := Convert(f[d.at], d, args);
      if r.Converted? {
        var o := Render(f, d.at + 1, args, r.arg);
        assert o.Text? ==> [] + o.t == o.t;
      }
    }
  }

  /** "%llu%u" of a 64-bit and a 32-bit number: %u meets the 64-bit one. */
  lemma NextDirectiveMisreads(x: nat, y: nat)
    ensures Render(['%', 'l', 'l', 'u', '%', 'u'], 0, [DoubleWord(x), Word(y)], 0) == Undefined
  {
    hide Integer, AsInt;
    var f: seq<char>, args := ['%', 'l', 'l', 'u', '%', 'u'], [DoubleWord(x), Word(y)];
    assert ParseFlags(f, 1, NO_FLAGS) == (NO_FLAGS, 1);
    assert ParseField(f, 1, args, 0) == Field(NO_FLAGS.(long := true, longLong := true), 0, 0, 3, 0);
    UnsignedLongLongSkipped(f, 0, args, 0);
    assert ParseFlags(f, 5, NO_FLAGS) == (NO_FLAGS, 5);
    assert ParseField(f, 5, args, 0) == Field(NO_FLAGS, 0, 0, 5, 0);
  }

  lemma PlainDecimal(v: nat, negative: bool, ds: seq<char>)
    requires ds == Digits(v, 10, false, BUFFER) && |ds| <= 10
    ensures Integer(v, negative, 10, 0, 0, NO_FLAGS) == (if negative then ['-'] else []) + Reverse(ds)
  {
    hide Digits;
    var fl := NO_FLAGS;
    assert fl.(hash := false) == fl;
    assert Padded(ds, negative, 0, 0, fl) == ds + [] + [];
    var buf := ds + if negative then ['-'] else [];
    assert Formatted(ds, negative, 10, 0, 0, fl) == buf;
    ReverseAppend(ds, if negative then ['-'] else []);
    assert Reverse(['-']) == ['-'] && Reverse([]) == [];
    assert OutRev(buf, 0, fl) == [] + Reverse(buf) + [];
  }

  lemma {:induction false} ReverseAppend(xs: seq<char>, ys: seq<char>)
    ensures Reverse(xs + ys) == Reverse(ys) + Reverse(xs)
  {
    if xs == [] {
      assert xs + ys == ys && Reverse(ys) + [] == Reverse(ys);
    } else {
      assert (xs + ys)[1..] == xs[1..] + ys && (xs + ys)[0] == xs[0];
      ReverseAppend(xs[1..], ys);
    }
  }
}
