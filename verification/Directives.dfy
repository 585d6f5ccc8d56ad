/**
 What the directives of the formatter mean, in terms of the characters they are
 written with (lib/src/printf.c:711-1054): the scan reads back what a directive
 says, and each conversion prints what its letter promises.
 */
module Directives {
  import opened Printf
  import opened Format

  // ---------- numbers ----------

  /** A positive number in decimal; nothing for 0. */
  function NumberText(n: nat): seq<char> {
    if n == 0 then [] else NumberText(n / 10) + ['0' + (n % 10) as char]
  }

  /** `text` stands in `f` from position `i` on. */
  ghost predicate Stands(f: seq<char>, i: nat, text: seq<char>) {
    i + |text| <= |f| && forall k :: 0 <= k < |text| ==> f[i + k] == text[k]
  }

  lemma StandsParts(f: seq<char>, i: nat, xs: seq<char>, ys: seq<char>)
    ensures Stands(f, i, xs + ys) <==> Stands(f, i, xs) && Stands(f, i + |xs|, ys)
  {
    if Stands(f, i, xs + ys) {
      assert forall k :: 0 <= k < |xs| ==> (xs + ys)[k] == xs[k];
      assert forall k :: 0 <= k < |ys| ==> (xs + ys)[|xs| + k] == ys[k];
      forall k | 0 <= k < |ys| ensures f[i + |xs| + k] == ys[k] {
        assert f[i + (|xs| + k)] == (xs + ys)[|xs| + k];
      }
    }
    if Stands(f, i, xs) && Stands(f, i + |xs|, ys) {
      forall k | 0 <= k < |xs + ys| ensures f[i + k] == (xs + ys)[k] {
        if k >= |xs| { assert f[i + |xs| + (k - |xs|)] == ys[k - |xs|]; }
      }
    }
  }

  lemma StandsFirst(f: seq<char>, i: nat, xs: seq<char>)
    requires Stands(f, i, xs) && xs != []
    ensures i < |f| && f[i] == xs[0]
  {
    assert f[i + 0] == xs[0];
  }

  lemma {:induction false} NumberRead(f: seq<char>, i: nat, n: nat)
    requires Stands(f, i, NumberText(n)) && n < 0x1_0000_0000
    ensures ParseNumber(f, i, 0) == ParseNumber(f, i + |NumberText(n)|, n)
  {
    hide ParseNumber;
    if n > 0 {
      var d := '0' + (n % 10) as char;
      StandsParts(f, i, NumberText(n / 10), [d]);
      NumberRead(f, i, n / 10);
      DigitRead(f, i + |NumberText(n / 10)|, n);
    }
  }

  lemma DigitRead(f: seq<char>, i: nat, n: nat)
    requires Stands(f, i, ['0' + (n % 10) as char]) && n < 0x1_0000_0000
    ensures ParseNumber(f, i, n / 10) == ParseNumber(f, i + 1, n)
  {
    var d := '0' + (n % 10) as char;
    StandsFirst(f, i, [d]);
    assert f[i] == d && (d - '0') as nat == n % 10;
    assert n / 10 * 10 + n % 10 == n;
  }

  lemma NoNumber()
    ensures NumberText(0) == []
  {
  }

  lemma {:induction false} NumberStarts(n: nat)
    requires n > 0
    ensures NumberText(n) != [] && '1' <= NumberText(n)[0] <= '9'
  {
    if n >= 10 { NumberStarts(n / 10); }
  }

  // ---------- what a directive says ----------

  /** A width or precision: none, written out, or taken from the arguments. */
  datatype Given = Absent | Number(n: nat) | Star

  datatype Length = Usual | H | HH | L | LL | Z

  /** A directive between '%' and its conversion letter. */
  datatype Spec = Spec(flags: seq<char>, width: Given, prec: Given, length: Length)

  predicate Proper(s: Spec) {
    && (forall c :: c in s.flags ==> c == '0' || c == '-' || c == '+' || c == ' ' || c == '#')
    && (s.width.Number? ==> 0 < s.width.n < 0x1_0000_0000) && (s.prec.Number? ==> s.prec.n < 0x1_0000_0000)
  }

  function GivenText(g: Given): seq<char> {
    match g
    case Absent => []
    case Number(n) => NumberText(n)
    case Star => ['*']
  }

  function LengthText(l: Length): seq<char> {
    match l
    case Usual => []
    case H => ['h']
    case HH => ['h', 'h']
    case L => ['l']
    case LL => ['l', 'l']
    case Z => ['z']
  }

  function PrecText(g: Given): seq<char> {
    if g.Absent? then [] else ['.'] + GivenText(g)
  }

  function SpecText(s: Spec): seq<char> {
    s.flags + (GivenText(s.width) + (PrecText(s.prec) + LengthText(s.length)))
  }

  /** A 32-bit word read as an int. */
  function Signed(w: nat): int {
    if w < 0x8000_0000 then w else w - 0x1_0000_0000
  }

  function Magnitude(x: int): nat { if x < 0 then -x else x }

  /** The number a `*` takes, and the number the other forms give. */
  function Taken(g: Given, w: nat): int {
    match g
    case Absent => 0
    case Number(n) => n
    case Star => Signed(w)
  }

  function Stars(g: Given): nat { if g.Star? then 1 else 0 }

  /** The words that the stars of a directive take. */
  ghost predicate Supplied(s: Spec, args: seq<Arg>, a: nat) {
    && a + Stars(s.width) + Stars(s.prec) <= |args|
    && forall k :: a <= k < a + Stars(s.width) + Stars(s.prec) ==>
         args[k].Word? && args[k].w < 0x1_0000_0000
  }

  /** A conversion letter: nothing that could be part of the directive before it. */
  predicate Letter(c: char) {
    !('0' <= c <= '9') && c != '-' && c != '+' && c != ' ' && c != '#' && c != '.' && c != '*'
    && c != 'l' && c != 'h' && c != 'z'
  }

  /** What the scan should make of it. */
  ghost function Meant(s: Spec, at: nat, args: seq<Arg>, a: nat): Field
    requires Supplied(s, args, a)
  {
    var w := Taken(s.width, if s.width.Star? then args[a].w else 0);
    var p := Taken(s.prec, if s.prec.Star? then args[a + Stars(s.width)].w else 0);
    Field(Flags('0' in s.flags, '-' in s.flags || w < 0, '+' in s.flags, ' ' in s.flags, '#' in s.flags, false,
                s.length.HH?, s.length.H? || s.length.HH?, s.length.L? || s.length.LL? || s.length.Z?, s.length.LL?,
                !s.prec.Absent?),
          Magnitude(w), if p < 0 then 0 else p, at, a + Stars(s.width) + Stars(s.prec))
  }

  predicate IsFlagChar(c: char) { c == '0' || c == '-' || c == '+' || c == ' ' || c == '#' }

  function Or(fl: Flags, zero: bool, left: bool, plus: bool, space: bool, hash: bool): Flags {
    fl.(zeroPad := fl.zeroPad || zero, left := fl.left || left, plus := fl.plus || plus,
        space := fl.space || space, hash := fl.hash || hash)
  }

  /** The flags with those of `xs` added. */
  function Added(fl: Flags, xs: seq<char>): Flags {
    Or(fl, '0' in xs, '-' in xs, '+' in xs, ' ' in xs, '#' in xs)
  }

  lemma OrStep(fl: Flags, x: char, zero: bool, left: bool, plus: bool, space: bool, hash: bool)
    requires IsFlagChar(x)
    ensures Or(WithFlag(fl, x), zero, left, plus, space, hash) ==
      Or(fl, x == '0' || zero, x == '-' || left, x == '+' || plus, x == ' ' || space, x == '#' || hash)
  {
  }

  lemma AddedStep(fl: Flags, xs: seq<char>)
    requires xs != [] && IsFlagChar(xs[0])
    ensures Added(WithFlag(fl, xs[0]), xs[1..]) == Added(fl, xs)
  {
    hide Or, WithFlag;
    var ys := xs[1..];
    OrStep(fl, xs[0], '0' in ys, '-' in ys, '+' in ys, ' ' in ys, '#' in ys);
    InTail(xs, '0');
    InTail(xs, '-');
    InTail(xs, '+');
    InTail(xs, ' ');
    InTail(xs, '#');
  }

  lemma InTail(xs: seq<char>, c: char)
    requires xs != []
    ensures c in xs <==> c == xs[0] || c in xs[1..]
  {
    assert xs == [xs[0]] + xs[1..];
  }

  lemma AddedNone(fl: Flags)
    ensures Added(fl, []) == fl
  {
  }

  lemma {:induction false} FlagsRead(f: seq<char>, i: nat, xs: seq<char>, fl: Flags)
    requires Stands(f, i, xs) && (forall c :: c in xs ==> IsFlagChar(c))
    requires i + |xs| < |f| ==> !IsFlagChar(f[i + |xs|])
    ensures ParseFlags(f, i, fl) == (Added(fl, xs), i + |xs|)
    decreases |xs|
  {
    hide Added, WithFlag;
    if xs == [] {
      AddedNone(fl);
    } else {
      assert xs == [xs[0]] + xs[1..] && xs[0] in xs && forall c :: c in xs[1..] ==> c in xs;
      StandsFirst(f, i, xs);
      StandsParts(f, i, [xs[0]], xs[1..]);
      AddedStep(fl, xs);
      FlagsRead(f, i + 1, xs[1..], WithFlag(fl, xs[0]));
    }
  }

  // ---------- the scan reads it back ----------

  /** Something that ends a number: no digit. */
  ghost predicate NumberEnds(f: seq<char>, i: nat) {
    i < |f| ==> !('0' <= f[i] <= '9')
  }

  lemma NumberScanned(f: seq<char>, i: nat, n: nat)
    requires Stands(f, i, NumberText(n)) && n < 0x1_0000_0000 && NumberEnds(f, i + |NumberText(n)|)
    ensures ParseNumber(f, i, 0) == (n, i + |NumberText(n)|)
  {
    NumberRead(f, i, n);
  }

  lemma WidthRead(f: seq<char>, i: nat, g: Given, fl: Flags, args: seq<Arg>, a: nat)
    requires Stands(f, i, GivenText(g)) && (g.Number? ==> 0 < g.n < 0x1_0000_0000) && NumberEnds(f, i + |GivenText(g)|)
    requires i + |GivenText(g)| < |f| && f[i + |GivenText(g)|] != '*'
    requires g.Star? ==> a < |args| && args[a].Word? && args[a].w < 0x1_0000_0000
    ensures var w := Taken(g, if g.Star? then args[a].w else 0);
      ParseWidth(f, fl, i, args, a) ==
        Field(fl.(left := fl.left || w < 0), Magnitude(w), 0, i + |GivenText(g)|, a + Stars(g))
  {
    hide NumberText, ParseNumber;
    SameLeft(fl);
    match g
    case Absent =>
    case Number(n) =>
      NumberStarts(n);
      StandsFirst(f, i, NumberText(n));
      NumberScanned(f, i, n);
    case Star =>
      StandsFirst(f, i, ['*']);
      SignedIs(args[a].w);
  }

  lemma SameLeft(fl: Flags)
    ensures fl.(left := fl.left) == fl && fl.(left := fl.left || false) == fl
  {
  }

  lemma SignedIs(w: nat)
    requires w < 0x1_0000_0000
    ensures AsInt(w, 32) == Signed(w) && Abs(Signed(w)) == Magnitude(Signed(w))
  {
  }

  ghost predicate PrecReady(f: seq<char>, d: Field, g: Given) {
    && d.Field? && d.prec == 0 && !d.flags.precision
    && Stands(f, d.at, PrecText(g)) && (g.Number? ==> g.n < 0x1_0000_0000)
    && d.at + |PrecText(g)| < |f| && NumberEnds(f, d.at + |PrecText(g)|)
    && f[d.at + |PrecText(g)|] != '*' && (g.Absent? ==> f[d.at] != '.')
  }

  lemma PrecAbsent(f: seq<char>, d: Field, args: seq<Arg>)
    requires PrecReady(f, d, Absent)
    ensures ParsePrecision(f, d, args) == d && d.flags.(precision := false) == d.flags && |PrecText(Absent)| == 0
  {
  }

  lemma PrecNumber(f: seq<char>, d: Field, n: nat, args: seq<Arg>)
    requires PrecReady(f, d, Number(n))
    ensures ParsePrecision(f, d, args)
      == Field(d.flags.(precision := true), d.width, n, d.at + |PrecText(Number(n))|, d.arg)
  {
    hide NumberText, ParseNumber;
    StandsParts(f, d.at, ['.'], NumberText(n));
    StandsFirst(f, d.at, ['.']);
    NumberScanned(f, d.at + 1, n);
    if n > 0 {
      NumberStarts(n);
      StandsFirst(f, d.at + 1, NumberText(n));
    } else {
      NoNumber();
    }
  }

  lemma PrecStar(f: seq<char>, d: Field, args: seq<Arg>)
    requires PrecReady(f, d, Star) && d.arg < |args| && args[d.arg].Word? && args[d.arg].w < 0x1_0000_0000
    ensures var p := Signed(args[d.arg].w);
      ParsePrecision(f, d, args)
        == Field(d.flags.(precision := true), d.width, if p < 0 then 0 else p, d.at + 2, d.arg + 1)
  {
    hide AsInt, Signed;
    StandsParts(f, d.at, ['.'], ['*']);
    StandsFirst(f, d.at, ['.']);
    StandsFirst(f, d.at + 1, ['*']);
    SignedIs(args[d.arg].w);
  }

  lemma PrecRead(f: seq<char>, d: Field, g: Given, args: seq<Arg>)
    requires PrecReady(f, d, g)
    requires g.Star? ==> d.arg < |args| && args[d.arg].Word? && args[d.arg].w < 0x1_0000_0000
    ensures var p := Taken(g, if g.Star? then args[d.arg].w else 0);
      ParsePrecision(f, d, args) ==
        Field(d.flags.(precision := !g.Absent?), d.width, if p < 0 then 0 else p,
              d.at + |PrecText(g)|, d.arg + Stars(g))
  {
    hide ParsePrecision, Signed;
    match g
    case Absent => PrecAbsent(f, d, args);
    case Number(n) => PrecNumber(f, d, n, args);
    case Star => PrecStar(f, d, args);
  }

  lemma LengthRead(f: seq<char>, d: Field, l: Length)
    requires d.Field? && !d.flags.long && !d.flags.longLong && !d.flags.short && !d.flags.byte
    requires Stands(f, d.at, LengthText(l)) && d.at + |LengthText(l)| < |f| && Letter(f[d.at + |LengthText(l)|])
    ensures ParseLength(f, d) ==
      d.(flags := d.flags.(byte := l.HH?, short := l.H? || l.HH?, long := l.L? || l.LL? || l.Z?, longLong := l.LL?),
         at := d.at + |LengthText(l)|)
  {
    if |LengthText(l)| > 0 { StandsFirst(f, d.at, LengthText(l)); }
    if |LengthText(l)| == 2 { assert f[d.at + 1] == LengthText(l)[1]; }
    var fl := d.flags;
    assert l.Usual? ==> fl.(byte := false, short := false, long := false, longLong := false) == fl;
    assert d.(flags := fl, at := d.at) == d;
  }

  /** The parts of a directive and where they stand. */
  lemma PartsStand(s: Spec, f: seq<char>, i: nat)
    requires Proper(s) && Stands(f, i, SpecText(s))
    requires i + |SpecText(s)| < |f| && Letter(f[i + |SpecText(s)|])
    ensures var i1 := i + |s.flags|; var i2 := i1 + |GivenText(s.width)|; var i3 := i2 + |PrecText(s.prec)|;
      && Stands(f, i, s.flags) && Stands(f, i1, GivenText(s.width)) && Stands(f, i2, PrecText(s.prec))
      && Stands(f, i3, LengthText(s.length)) && i3 + |LengthText(s.length)| == i + |SpecText(s)|
      && i3 < |f| && !IsFlagChar(f[i1]) && StartsLength(f[i3])
      && (StartsLength(f[i2]) || f[i2] == '.') && (s.prec.Absent? ==> f[i2] != '.')
  {
    hide GivenText, LengthText, PrecText, Stands, StartsLength, IsFlagChar, Letter;
    var afterLength := LengthText(s.length);
    var afterPrec := PrecText(s.prec) + afterLength;
    var i1 := i + |s.flags|;
    var i2 := i1 + |GivenText(s.width)|;
    StandsParts(f, i, s.flags, GivenText(s.width) + afterPrec);
    StandsParts(f, i1, GivenText(s.width), afterPrec);
    StandsParts(f, i2, PrecText(s.prec), afterLength);
    LengthStarts(f, i2 + |PrecText(s.prec)|, s.length);
    PrecStarts(f, i2, s.prec);
    WidthStarts(f, i1, s.width);
  }

  /**
   A directive means what it says: the scan finds exactly the flags, width, precision
   and length it is written with.
   */
  lemma DirectiveRead(s: Spec, f: seq<char>, i: nat, args: seq<Arg>, a: nat)
    requires Proper(s) && Stands(f, i, SpecText(s)) && Supplied(s, args, a)
    requires i + |SpecText(s)| < |f| && Letter(f[i + |SpecText(s)|])
    ensures ParseField(f, i, args, a) == Meant(s, i + |SpecText(s)|, args, a)
  {
    hide ParseFlags, ParseWidth, ParsePrecision, ParseLength, GivenText, LengthText, PrecText, SpecText, Stands;
    hide Taken, Magnitude, Added, Signed, Meant, ParseField;
    PartsStand(s, f, i);
    var i1 := i + |s.flags|;
    var fl := Added(NO_FLAGS, s.flags);
    FlagsRead(f, i, s.flags, NO_FLAGS);
    WidthRead(f, i1, s.width, fl, args, a);
    var d1 := ParseWidth(f, fl, i1, args, a);
    AddedFields(s.flags);
    PrecRead(f, d1, s.prec, args);
    var d2 := ParsePrecision(f, d1, args);
    LengthRead(f, d2, s.length);
    FieldParsed(f, i, args, a, fl, i1);
    Together(s, i + |SpecText(s)|, args, a, fl, ParseLength(f, d2), d1, d2);
  }

  lemma FieldParsed(f: seq<char>, i: nat, args: seq<Arg>, a: nat, fl: Flags, i1: nat)
    requires ParseFlags(f, i, NO_FLAGS) == (fl, i1)
    ensures ParseField(f, i, args, a) == ParseLength(f, ParsePrecision(f, ParseWidth(f, fl, i1, args, a), args))
  {
  }

  /** The parts put together. */
  lemma Together(s: Spec, at: nat, args: seq<Arg>, a: nat, fl: Flags, r: Field, d1: Field, d2: Field)
    requires Supplied(s, args, a) && d1.Field? && d2.Field? && fl ==
      Flags('0' in s.flags, '-' in s.flags, '+' in s.flags, ' ' in s.flags, '#' in s.flags,
            false, false, false, false, false, false)
    requires var w := Taken(s.width, if s.width.Star? then args[a].w else 0);
      d1 == Field(fl.(left := fl.left || w < 0), Magnitude(w), 0, d1.at, a + Stars(s.width))
    requires var p := Taken(s.prec, if s.prec.Star? then args[d1.arg].w else 0);
      d2 == Field(d1.flags.(precision := !s.prec.Absent?), d1.width, if p < 0 then 0 else p,
                  d2.at, d1.arg + Stars(s.prec))
    requires r == d2.(flags := d2.flags.(byte := s.length.HH?, short := s.length.H? || s.length.HH?,
                                         long := s.length.L? || s.length.LL? || s.length.Z?, longLong := s.length.LL?),
                      at := at)
    ensures r == Meant(s, at, args, a)
  {
    hide Taken, Magnitude;
  }

  lemma AddedFields(xs: seq<char>)
    ensures Added(NO_FLAGS, xs) ==
      Flags('0' in xs, '-' in xs, '+' in xs, ' ' in xs, '#' in xs, false, false, false, false, false, false)
  {
  }

  /** What the part of a directive behind its precision starts with. */
  ghost predicate StartsLength(c: char) { Letter(c) || c == 'l' || c == 'h' || c == 'z' }

  lemma LengthStarts(f: seq<char>, i: nat, l: Length)
    requires Stands(f, i, LengthText(l)) && i + |LengthText(l)| < |f| && Letter(f[i + |LengthText(l)|])
    ensures i < |f| && StartsLength(f[i])
  {
    if |LengthText(l)| > 0 { StandsFirst(f, i, LengthText(l)); }
  }

  lemma PrecStarts(f: seq<char>, i: nat, g: Given)
    requires Stands(f, i, PrecText(g)) && i + |PrecText(g)| < |f| && StartsLength(f[i + |PrecText(g)|])
    ensures i < |f| && (StartsLength(f[i]) || f[i] == '.') && (g.Absent? ==> f[i] != '.')
  {
    if !g.Absent? { StandsFirst(f, i, PrecText(g)); }
  }

  lemma WidthStarts(f: seq<char>, i: nat, g: Given)
    requires Stands(f, i, GivenText(g)) && (g.Number? ==> g.n > 0)
    requires i + |GivenText(g)| < |f| && (StartsLength(f[i + |GivenText(g)|]) || f[i + |GivenText(g)|] == '.')
    ensures i < |f| && !IsFlagChar(f[i])
  {
    if g.Number? { NumberStarts(g.n); }
    if !g.Absent? { StandsFirst(f, i, GivenText(g)); }
  }

  // ---------- what each conversion prints ----------

  /** A format that is one directive prints what its conversion prints. */
  lemma OneDirective(s: Spec, c: char, args: seq<Arg>)
    requires Proper(s) && Letter(c) && Supplied(s, args, 0)
    ensures var d := Meant(s, 1 + |SpecText(s)|, args, 0);
      Render(['%'] + SpecText(s) + [c], 0, args, 0)
        == if Convert(c, d, args).Converted? then Text(Convert(c, d, args).t) else Undefined
  {
    hide Convert, SpecText, Letter;
    var f := ['%'] + SpecText(s) + [c];
    assert f[0] == '%' && f[1 + |SpecText(s)|] == c;
    assert Stands(f, 1, SpecText(s));
    DirectiveRead(s, f, 1, args, 0);
    var d := Meant(s, 1 + |SpecText(s)|, args, 0);
    var r := Convert(c, d, args);
    if r.Converted? {
      assert Render(f, |f|, args, r.arg) == Text([]);
      assert r.t + [] == r.t;
    }
  }

  /** The number %d and %i take: the low 8, 16, 32 or 64 bits of the argument, in two's complement. */
  function SignedValue(w: nat, fl: Flags): int {
    var m := if fl.longLong then 0x1_0000_0000_0000_0000 else if fl.long then 0x1_0000_0000
             else if fl.byte then 0x100 else if fl.short then 0x1_0000 else 0x1_0000_0000;
    if w % m < m / 2 then w % m else w % m - m
  }

  /** The number %u, %x, %X, %o and %b take. */
  function UnsignedValue(w: nat, fl: Flags): nat {
    if fl.long then w % 0x1_0000_0000 else if fl.byte then w % 0x100
    else if fl.short then w % 0x1_0000 else w % 0x1_0000_0000
  }

  lemma SignedConverted(c: char, d: Field, args: seq<Arg>)
    requires d.Field? && (c == 'd' || c == 'i') && d.arg < |args|
    requires if d.flags.longLong then args[d.arg].DoubleWord? else args[d.arg].Word?
    ensures var v := SignedValue(args[d.arg].w, d.flags);
      var fl := d.flags.(hash := false, zeroPad := d.flags.zeroPad && !d.flags.precision);
      Convert(c, d, args) == Converted(Integer(Magnitude(v), v < 0, 10, d.prec, d.width, fl), d.arg + 1)
  {
    hide Integer;
    SignedFlags(c, d.flags);
    hide IntegerFlags;
  }

  lemma SignedFlags(c: char, fl: Flags)
    requires c == 'd' || c == 'i'
    ensures IntegerFlags(c, fl) == fl.(hash := false, zeroPad := fl.zeroPad && !fl.precision)
  {
  }

  lemma UnsignedConverted(c: char, d: Field, args: seq<Arg>)
    requires d.Field? && (c == 'u' || c == 'x' || c == 'X' || c == 'o' || c == 'b') && !d.flags.longLong
    requires d.arg < |args| && args[d.arg].Word?
    ensures var v := UnsignedValue(args[d.arg].w, d.flags);
      var fl := d.flags.(hash := d.flags.hash && c != 'u', upper := d.flags.upper || c == 'X', plus := false,
                         space := false, zeroPad := d.flags.zeroPad && !d.flags.precision);
      var base := if c == 'x' || c == 'X' then 16 else if c == 'o' then 8 else if c == 'b' then 2 else 10;
      Convert(c, d, args) == Converted(Integer(v, false, base, d.prec, d.width, fl), d.arg + 1)
  {
    hide Integer;
    UnsignedFlags(c, d.flags);
    hide IntegerFlags;
  }

  lemma UnsignedFlags(c: char, fl: Flags)
    requires c == 'u' || c == 'x' || c == 'X' || c == 'o' || c == 'b'
    ensures IntegerFlags(c, fl) ==
      fl.(hash := fl.hash && c != 'u', upper := fl.upper || c == 'X', plus := false,
          space := false, zeroPad := fl.zeroPad && !fl.precision)
  {
  }

  /** `t` is `s` in a field of `width`: blanks in front of it, or behind it if `left`, and no more than needed. */
  ghost predicate InField(t: seq<char>, s: seq<char>, width: nat, left: bool) {
    && |t| == (if |s| < width then width else |s|)
    && s == (if left then t[..|s|] else t[|t| - |s|..])
    && forall k :: (if left then |s| <= k < |t| else 0 <= k < |t| - |s|) ==> t[k] == ' '
  }

  lemma Blanks(n: int)
    ensures |Repeat(' ', n)| == (if n < 0 then 0 else n)
    ensures forall k :: 0 <= k < |Repeat(' ', n)| ==> Repeat(' ', n)[k] == ' '
  {
    RepeatLength(' ', n);
    RepeatAll(' ', n);
    assert forall k :: 0 <= k < |Repeat(' ', n)| ==> Repeat(' ', n)[k] in Repeat(' ', n);
  }

  /** %c prints the low byte, %s as much of the string as the precision allows, both in their field. */
  lemma TextConverted(c: char, d: Field, args: seq<Arg>)
    requires d.Field? && d.arg < |args| && (if c == 's' then args[d.arg].Str? else c == 'c' && args[d.arg].Word?)
    ensures var s := if c == 'c' then [(args[d.arg].w % 256) as char]
                     else if d.flags.precision && d.prec < |args[d.arg].s| then args[d.arg].s[..d.prec]
                     else args[d.arg].s;
      var r := Convert(c, d, args);
      r.Converted? && r.arg == d.arg + 1 && InField(r.t, s, d.width, d.flags.left)
  {
    var s := if c == 'c' then [(args[d.arg].w % 256) as char]
             else if d.flags.precision && d.prec < |args[d.arg].s| then args[d.arg].s[..d.prec] else args[d.arg].s;
    JustifiedFits(s, d.width, d.flags.left);
    hide Justified, InField;
  }

  lemma JustifiedFits(s: seq<char>, width: nat, left: bool)
    ensures InField(Justified(s, width, left), s, width, left)
  {
    Blanks(width - |s|);
    hide Repeat;
    var t, blanks := Justified(s, width, left), Repeat(' ', width - |s|);
    if left {
      assert t == s + blanks && t[..|s|] == s;
      assert forall k :: |s| <= k < |t| ==> t[k] == blanks[k - |s|];
    } else {
      assert t == blanks + s && t[|blanks|..] == s;
    }
  }

  /** %p prints a 32-bit word in upper-case hexadecimal and asks for zeros up to eight characters. */
  lemma PointerConverted(d: Field, args: seq<Arg>)
    requires d.Field? && d.arg < |args| && args[d.arg].Word?
    ensures Convert('p', d, args) == Converted(
      Integer(args[d.arg].w % 0x1_0000_0000, false, 16, d.prec, 8, d.flags.(zeroPad := true, upper := true)), d.arg + 1)
  {
    hide Integer;
  }

  /** The floating-point conversions have no defined output here. */
  lemma FloatingUnconverted(c: char, d: Field, args: seq<Arg>)
    requires d.Field? && c in ['f', 'F', 'e', 'E', 'g', 'G']
    ensures Convert(c, d, args) == Unconverted
  {
  }

  /** Any character without a meaning of its own prints itself. */
  lemma OtherConverted(c: char, d: Field, args: seq<Arg>)
    requires d.Field? && c !in ['d', 'i', 'u', 'x', 'X', 'o', 'b', 'c', 's', 'p', 'f', 'F', 'e', 'E', 'g', 'G']
    ensures Convert(c, d, args) == Converted([c], d.arg)
  {
  }

  // ---------- the text of an integer ----------

  /** The number that digits stand for, read from left to right. */
  function Horner(xs: seq<char>, base: nat): nat {
    if xs == [] then 0 else Horner(xs[..|xs| - 1], base) * base + DigitValue(xs[|xs| - 1])
  }

  lemma {:induction false} HornerReversed(ds: seq<char>, base: nat)
    ensures Horner(Reverse(ds), base) == Value(ds, base)
  {
    if ds != [] {
      var init := Reverse(ds[1..]);
      HornerReversed(ds[1..], base);
      assert Reverse(ds)[..|Reverse(ds)| - 1] == init;
    }
  }

  /** Digits of `base`, in lower or upper case. */
  ghost predicate AreDigits(xs: seq<char>, base: nat, upper: bool) {
    forall k :: 0 <= k < |xs| ==>
      || ('0' <= xs[k] <= '9' && (xs[k] - '0') as nat < base)
      || (!upper && 'a' <= xs[k] <= 'f' && (xs[k] - 'a') as nat + 10 < base)
      || (upper && 'A' <= xs[k] <= 'F' && (xs[k] - 'A') as nat + 10 < base)
  }

  lemma {:induction false} DigitsAre(v: nat, base: nat, upper: bool, room: nat)
    requires 2 <= base <= 16
    ensures AreDigits(Digits(v, base, upper, room), base, upper)
  {
    if room > 0 && v / base != 0 { DigitsAre(v / base, base, upper, room - 1); }
  }

  function Max(a: int, b: int): int { if a < b then b else a }

  function Min(a: int, b: int): int { if a < b then a else b }

  /** The sign asked for. */
  function SignText(negative: bool, fl: Flags): seq<char> {
    if negative then ['-'] else if fl.plus then ['+'] else if fl.space then [' '] else []
  }

  /** How many characters padding with zeros asks for: the precision, and the field less its sign. */
  function ZerosWanted(sign: nat, prec: nat, width: nat, fl: Flags): int {
    if fl.left then 0 else if fl.zeroPad then Max(prec, width - sign) else prec
  }

  /**
   The text of an integer without '#': `sign`, zeros and the digits that stand for it,
   most significant first and without needless ones, in a field of blanks unless zeros
   pad it. The digits, zeros and sign have 32 characters; the sign goes last.
   */
  ghost predicate ReadsAs(t: seq<char>, v: nat, negative: bool, base: nat, prec: nat, width: nat, fl: Flags,
                          zeros: nat, ds: seq<char>) {
    var sign := SignText(negative, fl);
    var digits := Repeat('0', zeros) + ds;
    var body := (if |digits| < 32 then sign else []) + digits;
    && AreDigits(ds, base, fl.upper) && Horner(ds, base) == v
    && (v > 0 ==> ds != [] && ds[0] != '0') && (v == 0 ==> ds == if fl.precision then [] else ['0'])
    && |ds| + zeros == Max(|ds|, Min(32, ZerosWanted(|sign|, prec, width, fl)))
    && if fl.zeroPad && !fl.left then t == body else InField(t, body, width, fl.left)
  }

  /** Every integer without '#' reads so. */
  lemma IntegerReads(v: nat, negative: bool, base: nat, prec: nat, width: nat, fl: Flags)
    requires Fits(v, base) && !(fl.hash && v > 0)
    ensures var ds := Reverse(DigitsOf(v, base, fl));
      |ds| <= PaddedLength(|ds|, negative, prec, width, fl)
      && ReadsAs(Integer(v, negative, base, prec, width, fl), v, negative, base, prec, width, fl,
                 PaddedLength(|ds|, negative, prec, width, fl) - |ds|, ds)
  {
    hide Integer, Padded, Digits, DigitsOf, Denotes, OutRev, Horner, AreDigits, Pow, InField, Reverse, Repeat;
    hide InnerWidth, ZerosWanted, PaddedLength, Front, Head, SignText;
    var low := DigitsOf(v, base, fl);
    var n := PaddedLength(|low|, negative, prec, width, fl);
    ReverseLength(low);
    DigitsShown(v, base, fl);
    DigitsOfDenote(v, base, fl);
    LengthsAgree(|low|, negative, prec, width, fl);
    BodyPrinted(v, negative, base, prec, width, fl);
    RepeatLength('0', n - |low|);
  }

  lemma BodyPrinted(v: nat, negative: bool, base: nat, prec: nat, width: nat, fl: Flags)
    requires Fits(v, base) && !(fl.hash && v > 0)
    ensures var low := DigitsOf(v, base, fl);
      var n := PaddedLength(|low|, negative, prec, width, fl);
      var t := Integer(v, negative, base, prec, width, fl);
      && |low| <= n
      && var body := (if n < 32 then SignText(negative, fl) else []) + (Repeat('0', n - |low|) + Reverse(low));
         if fl.zeroPad && !fl.left then t == body else InField(t, body, width, fl.left)
  {
    hide Integer, DigitsOf, OutRev, InField, Reverse, Repeat, PaddedLength, Front, InnerWidth, SignText;
    var low := DigitsOf(v, base, fl);
    var n := PaddedLength(|low|, negative, prec, width, fl);
    var sign := if n < 32 then SignText(negative, fl) else [];
    BufferPrinted(v, negative, base, prec, width, fl);
    SignLength(negative, fl);
    FrontReversed(low, n, sign);
    OutRevFits(Front(low, n) + sign, InnerWidth(negative, width, fl), fl);
    WidthKept(negative, width, fl);
  }

  lemma BufferPrinted(v: nat, negative: bool, base: nat, prec: nat, width: nat, fl: Flags)
    requires Fits(v, base) && !(fl.hash && v > 0)
    ensures var low := DigitsOf(v, base, fl);
      var n := PaddedLength(|low|, negative, prec, width, fl);
      && |low| <= n
      && Integer(v, negative, base, prec, width, fl) ==
           OutRev(Front(low, n) + (if n < 32 then SignText(negative, fl) else []), InnerWidth(negative, width, fl), fl)
  {
    hide Integer, Padded, DigitsOf, Denotes, OutRev, PaddedLength, Front, Head, InnerWidth, SignText, Sign;
    var low := DigitsOf(v, base, fl);
    DigitsOfDenote(v, base, fl);
    PaddedIsFront(low, negative, prec, width, fl);
    PlainIntegerReadsBack(v, negative, base, prec, width, fl);
    NoHash(v, negative, base, prec, width, fl);
    HeadIsSign(v, PaddedLength(|low|, negative, prec, width, fl), negative, base, fl);
  }

  lemma SignLength(negative: bool, fl: Flags)
    ensures |SignText(negative, fl)| <= 1
  {
  }

  lemma WidthKept(negative: bool, width: nat, fl: Flags)
    ensures fl.left || !fl.zeroPad ==> InnerWidth(negative, width, fl) == width
  {
  }

  lemma HeadIsSign(v: nat, n: nat, negative: bool, base: nat, fl: Flags)
    requires !(fl.hash && v > 0)
    ensures Head(v, n, negative, base, fl) == (if n < 32 then SignText(negative, fl) else [])
  {
  }

  lemma DigitsShown(v: nat, base: nat, fl: Flags)
    requires Fits(v, base)
    ensures var ds := Reverse(DigitsOf(v, base, fl));
      && AreDigits(ds, base, fl.upper) && Horner(ds, base) == v
      && (v > 0 ==> ds != [] && ds[0] != '0') && (v == 0 ==> ds == if fl.precision then [] else ['0'])
  {
    hide Horner, AreDigits, Reverse, Pow, Digits, DigitsOf;
    DigitsOfDenote(v, base, fl);
    ValueShown(DigitsOf(v, base, fl), base, v);
    ReversedAre(DigitsOf(v, base, fl), base, fl.upper) by { DigitsOfAre(v, base, fl); }
    if v > 0 {
      SomeDigits(v, base, fl);
      ReverseAt(DigitsOf(v, base, fl), 0);
    } else {
      ZeroShown(base, fl);
    }
  }

  lemma ValueShown(low: seq<char>, base: nat, v: nat)
    requires Denotes(low, base, v)
    ensures Horner(Reverse(low), base) == v
  {
    HornerReversed(low, base);
  }

  lemma DigitsOfAre(v: nat, base: nat, fl: Flags)
    requires 2 <= base <= 16
    ensures AreDigits(DigitsOf(v, base, fl), base, fl.upper)
  {
    DigitsAre(v, base, fl.upper, BUFFER);
    hide Digits;
  }

  lemma ZeroShown(base: nat, fl: Flags)
    requires 2 <= base <= 16
    ensures Reverse(DigitsOf(0, base, fl)) == if fl.precision then [] else ['0']
  {
    DigitsStep(0, base, fl.upper, BUFFER);
    hide Digits;
    assert Reverse(['0']) == ['0'];
  }

  lemma ReversedAre(low: seq<char>, base: nat, upper: bool)
    requires AreDigits(low, base, upper)
    ensures AreDigits(Reverse(low), base, upper)
  {
    ReverseLength(low);
    forall k | 0 <= k < |low| ensures Reverse(low)[k] == low[|low| - 1 - k] { ReverseAt(low, k); }
  }

  lemma LengthsAgree(d: nat, negative: bool, prec: nat, width: nat, fl: Flags)
    requires d <= 32
    ensures PaddedLength(d, negative, prec, width, fl)
      == Max(d, Min(32, ZerosWanted(|SignText(negative, fl)|, prec, width, fl)))
  {
  }

  /** The buffer read backwards: sign, zeros, digits. */
  lemma FrontReversed(low: seq<char>, n: nat, sign: seq<char>)
    requires |low| <= n && |sign| <= 1
    ensures Reverse(Front(low, n) + sign) == sign + (Repeat('0', n - |low|) + Reverse(low))
  {
    hide Reverse, Repeat, Front;
    FrontIs(low, n);
    ReverseAppend(Front(low, n), sign);
    ReverseAppend(low, Repeat('0', n - |low|));
    RepeatReversed('0', n - |low|);
    OneReversed(sign);
  }

  lemma OneReversed(xs: seq<char>)
    requires |xs| <= 1
    ensures Reverse(xs) == xs
  {
    if |xs| == 1 { assert xs == [xs[0]] && xs[1..] == []; }
  }

  lemma {:induction false} RepeatReversed(c: char, n: nat)
    ensures Reverse(Repeat(c, n)) == Repeat(c, n)
  {
    if n > 0 {
      RepeatReversed(c, n - 1);
      RepeatJoin(c, n - 1, 1);
    }
  }

  /** _out_rev puts the buffer, read backwards, into its field. */
  lemma OutRevFits(buf: seq<char>, width: nat, fl: Flags)
    ensures var w := width;
      if fl.zeroPad && !fl.left then forall x: nat :: OutRev(buf, x, fl) == Reverse(buf)
      else InField(OutRev(buf, w, fl), Reverse(buf), w, fl.left)
  {
    ReverseLength(buf);
    JustifiedFits(Reverse(buf), width, fl.left);
    hide Repeat, Reverse, InField;
    if fl.zeroPad && !fl.left {
      forall x: nat ensures OutRev(buf, x, fl) == Reverse(buf) { assert [] + Reverse(buf) + [] == Reverse(buf); }
    } else {
      assert OutRev(buf, width, fl) == Justified(Reverse(buf), width, fl.left);
    }
  }

  // ---------- bare directives ----------

  /** A directive without flags, width, precision and length. */
  const BARE: Spec := Spec([], Absent, Absent, Usual)

  lemma BareRendered(c: char, arg: Arg)
    requires Letter(c)
    ensures Render(['%', c], 0, [arg], 0) ==
      var r := Convert(c, Field(NO_FLAGS, 0, 0, 1, 0), [arg]); if r.Converted? then Text(r.t) else Undefined
  {
    hide Convert;
    assert ['%'] + SpecText(BARE) + [c] == ['%', c];
    OneDirective(BARE, c, [arg]);
    assert Meant(BARE, 1, [arg], 0) == Field(NO_FLAGS, 0, 0, 1, 0);
  }

  /**
   Each integer directive prints the number it is given: as a signed one for %d and %i,
   in decimal for %u, in hexadecimal for %x and %X, in octal for %o, in binary for %b,
   without leading zeros and with letters in the case of its own.
   */
  lemma IntegerDirectiveReadsBack(c: char, w: nat)
    requires c in ['d', 'i', 'u', 'x', 'X', 'o', 'b'] && w < 0x1_0000_0000
    ensures var base := if c == 'x' || c == 'X' then 16 else if c == 'o' then 8 else if c == 'b' then 2 else 10;
      var v: int := if (c == 'd' || c == 'i') && w >= 0x8000_0000 then w - 0x1_0000_0000 else w;
      var o := Render(['%', c], 0, [Word(w)], 0);
      && o.Text?
      && var sign := if v < 0 then ['-'] else [];
         |sign| <= |o.t| && o.t[..|sign|] == sign
         && var ds := o.t[|sign|..];
            && AreDigits(ds, base, c == 'X') && Horner(ds, base) == (if v < 0 then -v else v)
            && ds != [] && (|ds| > 1 ==> ds[0] != '0')
  {
    var base := if c == 'x' || c == 'X' then 16 else if c == 'o' then 8 else if c == 'b' then 2 else 10;
    var v: int := if (c == 'd' || c == 'i') && w >= 0x8000_0000 then w - 0x1_0000_0000 else w;
    hide Integer, Horner, AreDigits, Render;
    var fl := NO_FLAGS.(upper := c == 'X');
    if c == 'd' || c == 'i' { SignedRendered(c, w); } else { UnsignedRendered(c, w); }
    BareIntegerReads(Magnitude(v), v < 0, base, fl);
  }

  lemma SignedRendered(c: char, w: nat)
    requires (c == 'd' || c == 'i') && w < 0x1_0000_0000
    ensures Render(['%', c], 0, [Word(w)], 0)
      == Text(Integer(Magnitude(Signed(w)), Signed(w) < 0, 10, 0, 0, NO_FLAGS.(upper := false)))
  {
    hide Integer, Render, Convert;
    BareRendered(c, Word(w));
    SignedConverted(c, Field(NO_FLAGS, 0, 0, 1, 0), [Word(w)]);
  }

  lemma UnsignedRendered(c: char, w: nat)
    requires c in ['u', 'x', 'X', 'o', 'b'] && w < 0x1_0000_0000
    ensures var base := if c == 'x' || c == 'X' then 16 else if c == 'o' then 8 else if c == 'b' then 2 else 10;
      Render(['%', c], 0, [Word(w)], 0) == Text(Integer(w, false, base, 0, 0, NO_FLAGS.(upper := c == 'X')))
  {
    hide Integer, Render, Convert;
    BareRendered(c, Word(w));
    UnsignedConverted(c, Field(NO_FLAGS, 0, 0, 1, 0), [Word(w)]);
  }

  lemma BareIntegerReads(v: nat, negative: bool, base: nat, fl: Flags)
    requires v < 0x1_0000_0000 && 2 <= base <= 16 && fl == NO_FLAGS.(upper := fl.upper) && (negative ==> base == 10)
    ensures var t := Integer(v, negative, base, 0, 0, fl);
      var sign := if negative then ['-'] else [];
      |sign| <= |t| && t[..|sign|] == sign
      && var ds := t[|sign|..];
         && AreDigits(ds, base, fl.upper) && Horner(ds, base) == v
         && ds != [] && (|ds| > 1 ==> ds[0] != '0')
  {
    hide Integer, Digits, DigitsOf, Horner, AreDigits, Pow, Reverse;
    IntegerReads(v, negative, base, 0, 0, fl);
    var ds := Reverse(DigitsOf(v, base, fl));
    ReverseLength(DigitsOf(v, base, fl));
    if negative { FewDigits(v, fl); }
    var t := Integer(v, negative, base, 0, 0, fl);
    assert Repeat('0', 0) + ds == ds;
    assert t == (if negative then ['-'] else []) + ds;
  }

  lemma FewDigits(v: nat, fl: Flags)
    requires v < 0x1_0000_0000
    ensures |DigitsOf(v, 10, fl)| <= 10
  {
    DecimalDigits(v, fl.upper);
    hide Digits;
  }
}
