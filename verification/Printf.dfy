/**
 What the formatter prints (lib/src/printf.c:171-382 and 689-1062), with no limit
 on the output: integers, characters, strings and %%.
 */
module Printf {
  const WORD: nat := 0x1_0000_0000
  const DOUBLE_WORD: nat := 0x1_0000_0000_0000_0000
  /** PRINTF_NTOA_BUFFER_SIZE */
  const BUFFER: nat := 32

  datatype Flags = Flags(
    zeroPad: bool, left: bool, plus: bool, space: bool, hash: bool, upper: bool,
    byte: bool, short: bool, long: bool, longLong: bool, precision: bool)

  const NO_FLAGS := Flags(false, false, false, false, false, false, false, false, false, false, false)

  function Repeat(c: char, n: int): seq<char> {
    if n <= 0 then [] else [c] + Repeat(c, n - 1)
  }

  function Reverse(xs: seq<char>): seq<char> {
    if xs == [] then [] else Reverse(xs[1..]) + [xs[0]]
  }

  // ---------- integers ----------

  function DigitChar(d: nat, upper: bool): char
    requires d < 16
  {
    if d < 10 then '0' + d as char else if upper then 'A' + (d - 10) as char else 'a' + (d - 10) as char
  }

  /** The do-while of _ntoa_long: low digit first, at most `room` of them. */
  function Digits(v: nat, base: nat, upper: bool, room: nat): seq<char>
    requires 2 <= base <= 16
  {
    if room == 0 then []
    else [DigitChar(v % base, upper)] + if v / base == 0 then [] else Digits(v / base, base, upper, room - 1)
  }

  /** Leading zeros, which come last in the reversed buffer, up to `n` characters or the end of the buffer. */
  function Fill(buf: seq<char>, n: nat): seq<char> {
    buf + Repeat('0', (if n < BUFFER then n else BUFFER) - |buf|)
  }

  /** The width _ntoa_format goes on with: one less if a sign is to stand in front of padding zeros. */
  function InnerWidth(negative: bool, width: nat, fl: Flags): nat {
    if !fl.left && width != 0 && fl.zeroPad && (negative || fl.plus || fl.space) then width - 1 else width
  }

  function Padded(buf: seq<char>, negative: bool, prec: nat, width: nat, fl: Flags): seq<char> {
    if fl.left then buf else Fill(Fill(buf, prec), if fl.zeroPad then InnerWidth(negative, width, fl) else 0)
  }

  /** How many characters the hash branch takes back before it adds the prefix. */
  function TakenBack(len: nat, base: nat, prec: nat, width: nat, fl: Flags): nat {
    if !fl.precision && len != 0 && (len == prec || len == width) then (if len > 1 && base == 16 then 2 else 1) else 0
  }

  function AddIfRoom(buf: seq<char>, cs: seq<char>): seq<char> {
    if |buf| < BUFFER then buf + cs else buf
  }

  /** The letter of the prefix. */
  function Mark(base: nat, fl: Flags): seq<char> {
    if base == 16 then (if fl.upper then ['X'] else ['x']) else if base == 2 then ['b'] else []
  }

  function Marked(buf: seq<char>, base: nat, prec: nat, width: nat, fl: Flags): seq<char> {
    var k := TakenBack(|buf|, base, prec, width, fl);
    var b := if k <= |buf| then buf[..|buf| - k] else [];
    AddIfRoom(AddIfRoom(b, Mark(base, fl)), ['0'])
  }

  function Sign(negative: bool, fl: Flags): seq<char> {
    if negative then ['-'] else if fl.plus then ['+'] else if fl.space then [' '] else []
  }

  /** The buffer _ntoa_format hands to _out_rev. */
  function Formatted(buf: seq<char>, negative: bool, base: nat, prec: nat, width: nat, fl: Flags): seq<char> {
    var b1 := Padded(buf, negative, prec, width, fl);
    var b2 := if fl.hash then Marked(b1, base, prec, InnerWidth(negative, width, fl), fl) else b1;
    AddIfRoom(b2, Sign(negative, fl))
  }

  /** _out_rev */
  function OutRev(buf: seq<char>, width: nat, fl: Flags): seq<char> {
    (if !fl.left && !fl.zeroPad then Repeat(' ', width - |buf|) else []) + Reverse(buf)
      + (if fl.left then Repeat(' ', width - |buf|) else [])
  }

  /** _ntoa_long and _ntoa_long_long */
  function Integer(v: nat, negative: bool, base: nat, prec: nat, width: nat, fl: Flags): seq<char>
    requires 2 <= base <= 16
  {
    var fl1 := if v == 0 then fl.(hash := false) else fl;
    var digits := if !fl.precision || v != 0 then Digits(v, base, fl.upper, BUFFER) else [];
    OutRev(Formatted(digits, negative, base, prec, width, fl1), InnerWidth(negative, width, fl1), fl1)
  }

  // ---------- reading integers back ----------

  function DigitValue(c: char): nat {
    if '0' <= c <= '9' then (c - '0') as nat
    else if 'a' <= c <= 'f' then (c - 'a') as nat + 10
    else if 'A' <= c <= 'F' then (c - 'A') as nat + 10
    else 0
  }

  predicate IsDigitOf(c: char, base: nat) {
    ('0' <= c <= '9' || 'a' <= c <= 'f' || 'A' <= c <= 'F') && DigitValue(c) < base
  }

  /** The number a reversed run of digits stands for. */
  function Value(buf: seq<char>, base: nat): nat {
    if buf == [] then 0 else DigitValue(buf[0]) + base * Value(buf[1..], base)
  }

  function Pow(b: nat, n: nat): nat {
    if n == 0 then 1 else b * Pow(b, n - 1)
  }

  lemma DigitCharValue(d: nat, upper: bool)
    requires d < 16
    ensures DigitValue(DigitChar(d, upper)) == d
    ensures '0' <= DigitChar(d, upper) <= '9' || 'a' <= DigitChar(d, upper) <= 'f' || 'A' <= DigitChar(d, upper) <= 'F'
  {
  }

  /** A run of digits of `base`, low digit first, that stands for `v`. */
  ghost predicate Denotes(ds: seq<char>, base: nat, v: nat) {
    Value(ds, base) == v && forall i :: 0 <= i < |ds| ==> IsDigitOf(ds[i], base)
  }

  lemma OneMoreDigit(d: nat, upper: bool, ds: seq<char>, base: nat, v: nat)
    requires d < base <= 16 && Denotes(ds, base, v)
    ensures Denotes([DigitChar(d, upper)] + ds, base, d + base * v)
  {
    DigitCharValue(d, upper);
    hide DigitChar, DigitValue;
    var xs := [DigitChar(d, upper)] + ds;
    assert xs[1..] == ds;
  }

  lemma NoDigits(base: nat)
    ensures Denotes([], base, 0)
  {
  }

  lemma DigitsStep(v: nat, base: nat, upper: bool, room: nat)
    requires 2 <= base <= 16 && room > 0
    ensures v / base == 0 ==> Digits(v, base, upper, room) == [DigitChar(v % base, upper)]
    ensures v / base > 0 ==>
      Digits(v, base, upper, room) == [DigitChar(v % base, upper)] + Digits(v / base, base, upper, room - 1)
  {
    hide DigitChar;
  }

  /** The digits stand for the number, if it has no more of them than there is room for. */
  lemma {:induction false} DigitsReadBack(v: nat, base: nat, upper: bool, room: nat)
    requires 2 <= base <= 16 && room > 0 && v < Pow(base, room)
    ensures Denotes(Digits(v, base, upper, room), base, v) && 1 <= |Digits(v, base, upper, room)| <= room
  {
    hide Denotes, DigitChar, Pow, Digits;
    var d, q := v % base, v / base;
    LeadingDigits(v, base, room);
    DigitsStep(v, base, upper, room);
    if q == 0 {
      NoDigits(base);
      OneMoreDigit(d, upper, [], base, 0);
      assert [DigitChar(d, upper)] + [] == [DigitChar(d, upper)];
    } else {
      DigitsReadBack(q, base, upper, room - 1);
      OneMoreDigit(d, upper, Digits(q, base, upper, room - 1), base, q);
    }
  }

  lemma LeadingDigits(v: nat, base: nat, room: nat)
    requires base > 1 && room > 0 && v < Pow(base, room)
    ensures v / base < Pow(base, room - 1) && v % base + base * (v / base) == v
    ensures v / base != 0 ==> room > 1 && v / base < v
    ensures v / base == 0 ==> v % base + base * 0 == v
  {
    DivMod(v, base);
    QuotientSmaller(v, base, Pow(base, room - 1));
    if v / base != 0 { Shrinks(v, v % base, base, v / base); }
  }

  lemma Shrinks(v: nat, r: nat, base: nat, q: nat)
    requires base > 1 && q > 0 && v == r + base * q
    ensures q < v
  {
    MulMonotone(q, 2, base);
  }

  lemma DivMod(v: nat, base: nat)
    requires base > 0
    ensures v == v % base + base * (v / base)
  {
  }

  lemma QuotientSmaller(v: nat, base: nat, p: nat)
    requires base > 0 && v < base * p
    ensures v / base < p
  {
    DivMod(v, base);
    if v / base >= p { MulMonotone(base, p, v / base); }
  }

  lemma MulMonotone(a: nat, b: nat, c: nat)
    requires b <= c
    ensures a * b <= a * c
  {
  }

  lemma {:induction false} PowGrows(a: nat, b: nat, n: nat)
    requires a <= b
    ensures Pow(a, n) <= Pow(b, n)
  {
    if n > 0 {
      PowGrows(a, b, n - 1);
      MulMonotone(a, Pow(a, n - 1), Pow(b, n - 1));
      MulMonotone(Pow(b, n - 1), a, b);
    }
  }

  /** What _ntoa_long gets, and _ntoa_long_long for decimals. */
  predicate Fits(v: nat, base: nat) {
    2 <= base <= 16 && (v < WORD || (base == 10 && v < DOUBLE_WORD))
  }

  lemma {:induction false} PowAdd(b: nat, m: nat, n: nat)
    ensures Pow(b, m + n) == Pow(b, m) * Pow(b, n)
  {
    if m > 0 {
      PowAdd(b, m - 1, n);
      Distribute(b, 0, Pow(b, m - 1), Pow(b, n));
    }
  }

  lemma PowersOfTwo()
    ensures Pow(2, 32) == WORD
  {
    assert Pow(2, 1) == 2;
    PowAdd(2, 1, 1);
    PowAdd(2, 2, 2);
    PowAdd(2, 4, 4);
    PowAdd(2, 8, 8);
    PowAdd(2, 16, 16);
  }

  lemma PowersOfTen()
    ensures Pow(10, 32) == 100000000000000000000000000000000
  {
    assert Pow(10, 1) == 10;
    PowAdd(10, 1, 1);
    PowAdd(10, 2, 2);
    PowAdd(10, 4, 4);
    PowAdd(10, 8, 8);
    PowAdd(10, 16, 16);
  }

  lemma FitsBuffer(v: nat, base: nat)
    requires Fits(v, base)
    ensures v < Pow(base, BUFFER)
  {
    if v < WORD {
      PowersOfTwo();
      PowGrows(2, base, 32);
    } else {
      PowersOfTen();
    }
  }

  lemma {:induction false} ValueSplit(xs: seq<char>, ys: seq<char>, base: nat)
    ensures Value(xs + ys, base) == Value(xs, base) + Pow(base, |xs|) * Value(ys, base)
  {
    if xs == [] {
      assert xs + ys == ys;
    } else {
      ValueSplit(xs[1..], ys, base);
      assert (xs + ys)[1..] == xs[1..] + ys;
      Distribute(base, Value(xs[1..], base), Pow(base, |xs| - 1), Value(ys, base));
    }
  }

  lemma Distribute(b: nat, x: nat, p: nat, y: nat)
    ensures b * (x + p * y) == b * x + b * p * y
  {
  }

  lemma {:induction false} ZerosDenote(n: int, base: nat)
    requires base >= 2
    ensures Denotes(Repeat('0', n), base, 0) && |Repeat('0', n)| == if n < 0 then 0 else n
  {
    if n > 0 {
      ZerosDenote(n - 1, base);
      assert Repeat('0', n)[1..] == Repeat('0', n - 1);
      assert base * 0 == 0;
    }
  }

  /** Leading zeros change nothing. */
  lemma FillDenotes(buf: seq<char>, n: nat, base: nat, v: nat)
    requires base >= 2 && Denotes(buf, base, v) && |buf| <= BUFFER
    ensures Denotes(Fill(buf, n), base, v)
    ensures |Fill(buf, n)| == Longer(|buf|, n) && buf <= Fill(buf, n)
  {
    var zeros := Repeat('0', (if n < BUFFER then n else BUFFER) - |buf|);
    ZerosDenote((if n < BUFFER then n else BUFFER) - |buf|, base);
    ValueSplit(buf, zeros, base);
    assert Pow(base, |buf|) * 0 == 0;
    hide Repeat, Value, IsDigitOf;
  }

  /** The longer of a run of digits and the padding asked for, as far as the buffer goes. */
  function Longer(len: nat, n: nat): nat {
    if len >= n then len else if len >= BUFFER then len else if n < BUFFER then n else BUFFER
  }

  function PaddedLength(len: nat, negative: bool, prec: nat, width: nat, fl: Flags): nat {
    if fl.left then len else Longer(Longer(len, prec), if fl.zeroPad then InnerWidth(negative, width, fl) else 0)
  }

  lemma PaddedDenotes(buf: seq<char>, negative: bool, prec: nat, width: nat, fl: Flags, base: nat, v: nat)
    requires base >= 2 && Denotes(buf, base, v) && |buf| <= BUFFER
    ensures var b := Padded(buf, negative, prec, width, fl);
      && Denotes(b, base, v) && |b| == PaddedLength(|buf|, negative, prec, width, fl) <= BUFFER && buf <= b
  {
    if !fl.left {
      FillDenotes(buf, prec, base, v);
      FillDenotes(Fill(buf, prec), if fl.zeroPad then InnerWidth(negative, width, fl) else 0, base, v);
    }
    hide Denotes, Fill;
  }

  function DigitsOf(v: nat, base: nat, fl: Flags): seq<char>
    requires 2 <= base <= 16
  {
    if !fl.precision || v != 0 then Digits(v, base, fl.upper, BUFFER) else []
  }

  lemma DigitsOfDenote(v: nat, base: nat, fl: Flags)
    requires Fits(v, base)
    ensures Denotes(DigitsOf(v, base, fl), base, v) && |DigitsOf(v, base, fl)| <= BUFFER
  {
    FitsBuffer(v, base);
    NoDigits(base);
    hide Denotes, Pow, Digits;
    if !fl.precision || v != 0 { DigitsReadBack(v, base, fl.upper, BUFFER); }
  }

  /** Nothing is ever put behind the end of the digit buffer. */
  lemma BufferHolds(buf: seq<char>, negative: bool, base: nat, prec: nat, width: nat, fl: Flags)
    requires |buf| <= BUFFER
    ensures |Formatted(buf, negative, base, prec, width, fl)| <= BUFFER
  {
    FillLength(buf, prec);
    FillLength(Fill(buf, prec), if fl.zeroPad then InnerWidth(negative, width, fl) else 0);
  }

  lemma FillLength(buf: seq<char>, n: nat)
    requires |buf| <= BUFFER
    ensures |Fill(buf, n)| == Longer(|buf|, n) <= BUFFER
  {
    ZerosDenote((if n < BUFFER then n else BUFFER) - |buf|, 10);
  }

  /**
   Without '#', an integer prints as a sign and digits that stand for its magnitude,
   padded as asked for as long as 32 characters hold it; the sign is the last to go in.
   */
  lemma PlainIntegerReadsBack(v: nat, negative: bool, base: nat, prec: nat, width: nat, fl: Flags)
    requires Fits(v, base) && (!fl.hash || v == 0)
    ensures var fl1 := if v == 0 then fl.(hash := false) else fl;
      var ds := DigitsOf(v, base, fl);
      var body := Padded(ds, negative, prec, width, fl1);
      && Denotes(body, base, v) && |body| == PaddedLength(|ds|, negative, prec, width, fl1)
      && Integer(v, negative, base, prec, width, fl) ==
           OutRev(body + (if |body| < BUFFER then Sign(negative, fl1) else []), InnerWidth(negative, width, fl1), fl1)
  {
    DigitsOfDenote(v, base, fl);
    var fl1 := if v == 0 then fl.(hash := false) else fl;
    PaddedDenotes(DigitsOf(v, base, fl), negative, prec, width, fl1, base, v);
    hide Denotes, OutRev, Padded, Digits;
    var body := Padded(DigitsOf(v, base, fl), negative, prec, width, fl1);
    assert body + [] == body;
  }

  // ---------- where it does not read back ----------

  lemma {:induction false} RepeatAll(c: char, n: int)
    ensures forall x :: x in Repeat(c, n) ==> x == c
  {
    if n > 0 { RepeatAll(c, n - 1); }
  }

  lemma {:induction false} ReverseKeeps(xs: seq<char>)
    ensures forall x :: x in Reverse(xs) <==> x in xs
  {
    if xs != [] {
      ReverseKeeps(xs[1..]);
      assert xs == [xs[0]] + xs[1..];
    }
  }

  lemma OutRevHolds(buf: seq<char>, width: nat, fl: Flags, c: char)
    requires c != ' '
    ensures c in OutRev(buf, width, fl) <==> c in buf
  {
    ReverseKeeps(buf);
    RepeatAll(' ', width - |buf|);
    hide Repeat, Reverse;
  }

  lemma DigitsOnly(ds: seq<char>, base: nat, v: nat)
    requires Denotes(ds, base, v)
    ensures '-' !in ds
  {
    forall i | 0 <= i < |ds| ensures ds[i] != '-' { assert IsDigitOf(ds[i], base); }
  }

  /** A negative number keeps its minus sign iff padding and precision leave a place in the 32-character buffer. */
  lemma MinusPrintedIff(v: nat, base: nat, prec: nat, width: nat, fl: Flags)
    requires Fits(v, base) && !fl.hash
    ensures '-' in Integer(v, true, base, prec, width, fl)
      <==> PaddedLength(|DigitsOf(v, base, fl)|, true, prec, width, fl) < BUFFER
  {
    hide Denotes, Padded, DigitsOf, Integer, OutRev, PaddedLength, InnerWidth;
    assert fl.(hash := false) == fl;
    PlainIntegerReadsBack(v, true, base, prec, width, fl);
    var body := Padded(DigitsOf(v, base, fl), true, prec, width, fl);
    DigitsOnly(body, base, v);
    OutRevHolds(body + (if |body| < BUFFER then Sign(true, fl) else []), InnerWidth(true, width, fl), fl, '-');
  }

  lemma {:induction false} NonzeroDigit(ds: seq<char>, base: nat, i: nat)
    requires base >= 2 && i < |ds| && DigitValue(ds[i]) != 0
    ensures Value(ds, base) > 0
  {
    if i > 0 {
      NonzeroDigit(ds[1..], base, i - 1);
      MulMonotone(base, 1, Value(ds[1..], base));
    }
  }

  lemma PowPositive(b: nat, n: nat)
    requires b > 0
    ensures Pow(b, n) > 0
  {
    if n > 0 {
      PowPositive(b, n - 1);
      MulMonotone(b, 1, Pow(b, n - 1));
    }
  }

  lemma {:induction false} TopDigitNonzero(v: nat, base: nat, upper: bool, room: nat)
    requires 2 <= base <= 16 && room > 0 && 0 < v < Pow(base, room)
    ensures var ds := Digits(v, base, upper, room);
      ds != [] && DigitValue(ds[|ds| - 1]) != 0
  {
    hide Pow, DigitChar, DigitValue;
    LeadingDigits(v, base, room);
    DigitCharValue(v % base, upper);
    if v / base != 0 {
      TopDigitNonzero(v / base, base, upper, room - 1);
      var rest := Digits(v / base, base, upper, room - 1);
      assert Digits(v, base, upper, room) == [DigitChar(v % base, upper)] + rest;
    }
  }

  // ---------- '#' ----------

  /** Padding with zeros up to the field, in the buffer. */
  predicate ZeroPads(fl: Flags) { fl.zeroPad && !fl.left }

  /** `d` digits, padded, end up exactly as long as the field, in which case the prefix makes room for itself. */
  predicate FieldFull(d: nat, negative: bool, width: nat, fl: Flags) {
    var w := InnerWidth(negative, width, fl);
    !fl.precision && (if ZeroPads(fl) then d <= w <= BUFFER else d == w)
  }

  /** How many characters of a number of `d` digits stand in front of the prefix. */
  function KeptLength(d: nat, negative: bool, base: nat, prec: nat, width: nat, fl: Flags): nat {
    var w := InnerWidth(negative, width, fl);
    if fl.precision then PaddedLength(d, negative, prec, width, fl)
    else if FieldFull(d, negative, width, fl) then
      if w == 0 || (base == 16 && w == 1) then 0 else if base == 16 then w - 2 else w - 1
    else if ZeroPads(fl) && w > BUFFER then BUFFER
    else d
  }

  /** The first `n` characters of the digits, low digit first, with leading zeros behind them. */
  function Front(ds: seq<char>, n: nat): seq<char> {
    if n <= |ds| then ds[..n] else ds + Repeat('0', n - |ds|)
  }

  function Prefix(base: nat, fl: Flags): (p: seq<char>)
    ensures 1 <= |p| <= 2
  {
    Mark(base, fl) + ['0']
  }

  /** As much of `p` as a buffer that holds `n` characters has room for. */
  function WhatFits(p: seq<char>, n: nat): seq<char> {
    if n + |p| <= BUFFER then p else if n <= BUFFER then p[..BUFFER - n] else []
  }

  /**
   With '#', an integer prints as a sign, as much of the prefix as the buffer has
   room for and what is kept of its digits. These stand for the number iff the field
   is not exactly full or its padding makes room for the prefix.
   */
  lemma HashKeepsNumberIff(v: nat, negative: bool, base: nat, prec: nat, width: nat, fl: Flags)
    requires Fits(v, base) && v > 0 && fl.hash && (fl.precision || prec == 0)
    ensures var ds, w := DigitsOf(v, base, fl), InnerWidth(negative, width, fl);
      var n := KeptLength(|ds|, negative, base, prec, width, fl);
      var kept, pre := Front(ds, n), Prefix(base, fl);
      && Integer(v, negative, base, prec, width, fl) ==
           OutRev(kept + WhatFits(pre, n) + (if n + |pre| < BUFFER then Sign(negative, fl) else []), w, fl)
      && (Value(kept, base) == v <==>
            !FieldFull(|ds|, negative, width, fl) || (ZeroPads(fl) && |ds| + (if base == 16 then 2 else 1) <= w))
  {
    hide Denotes, Padded, DigitsOf, OutRev, Front, Pow, FieldFull;
    hide KeptLength, Value, WhatFits, Prefix, InnerWidth, Marked, Sign;
    var ds := DigitsOf(v, base, fl);
    var body := Padded(ds, negative, prec, width, fl);
    var w := InnerWidth(negative, width, fl);
    var n := KeptLength(|ds|, negative, base, prec, width, fl);
    DigitsOfDenote(v, base, fl);
    SomeDigits(v, base, fl);
    PaddedIsFront(ds, negative, prec, width, fl);
    KeptIs(|ds|, negative, base, prec, width, fl);
    FrontOfFront(ds, |body|, n);
    MarkedFits(body, base, prec, w, fl, negative);
    IntegerIs(v, negative, base, prec, width, fl);
    FrontValue(ds, n, base, v);
    NumberKeptIff(|ds|, negative, base, prec, width, fl);
  }

  lemma IntegerIs(v: nat, negative: bool, base: nat, prec: nat, width: nat, fl: Flags)
    requires 2 <= base <= 16 && v > 0 && fl.hash
    ensures var w := InnerWidth(negative, width, fl);
      var body := Padded(DigitsOf(v, base, fl), negative, prec, width, fl);
      Integer(v, negative, base, prec, width, fl) ==
        OutRev(AddIfRoom(Marked(body, base, prec, w, fl), Sign(negative, fl)), w, fl)
  {
    hide Padded, Digits, OutRev, InnerWidth, Marked, Sign, AddIfRoom;
  }

  lemma SomeDigits(v: nat, base: nat, fl: Flags)
    requires Fits(v, base) && v > 0
    ensures var ds := DigitsOf(v, base, fl);
      ds != [] && |ds| <= BUFFER && DigitValue(ds[|ds| - 1]) != 0 && Denotes(ds, base, v)
  {
    hide Denotes, Digits, Pow, DigitValue;
    FitsBuffer(v, base);
    DigitsOfDenote(v, base, fl);
    TopDigitNonzero(v, base, fl.upper, BUFFER);
  }

  lemma {:induction false} RepeatJoin(c: char, m: int, n: int)
    requires m >= 0
    ensures Repeat(c, m) + Repeat(c, n) == Repeat(c, if n < 0 then m else m + n)
  {
    if m > 0 { RepeatJoin(c, m - 1, n); }
  }

  lemma FillIsFront(ds: seq<char>, len: nat, n: nat)
    requires |ds| <= len <= BUFFER
    ensures Fill(Front(ds, len), n) == Front(ds, Longer(len, n)) && |Front(ds, len)| == len
  {
    hide Repeat, Front;
    var more := (if n < BUFFER then n else BUFFER) - len;
    RepeatLength('0', len - |ds|);
    RepeatJoin('0', len - |ds|, more);
    FrontIs(ds, len);
    FrontIs(ds, Longer(len, n));
    assert ds + Repeat('0', len - |ds|) + Repeat('0', more) == ds + (Repeat('0', len - |ds|) + Repeat('0', more));
  }

  lemma FrontIs(ds: seq<char>, n: nat)
    requires |ds| <= n
    ensures Front(ds, n) == ds + Repeat('0', n - |ds|)
  {
    assert n == |ds| ==> ds + Repeat('0', n - |ds|) == ds[..n];
  }

  lemma PaddedIsFront(ds: seq<char>, negative: bool, prec: nat, width: nat, fl: Flags)
    requires |ds| <= BUFFER
    ensures var n := PaddedLength(|ds|, negative, prec, width, fl);
      |ds| <= n <= BUFFER && Padded(ds, negative, prec, width, fl) == Front(ds, n) && |Front(ds, n)| == n
  {
    hide Fill, InnerWidth;
    assert Front(ds, |ds|) == ds;
    FillIsFront(ds, |ds|, prec);
    FillIsFront(ds, Longer(|ds|, prec), if fl.zeroPad then InnerWidth(negative, width, fl) else 0);
    FillIsFront(ds, PaddedLength(|ds|, negative, prec, width, fl), 0);
    hide Front;
  }

  lemma {:induction false} RepeatFront(c: char, m: nat, n: nat)
    requires n <= m
    ensures |Repeat(c, m)| == m && Repeat(c, m)[..n] == Repeat(c, n)
  {
    RepeatLength(c, m);
    if n > 0 { RepeatFront(c, m - 1, n - 1); }
  }

  lemma FrontOfFront(ds: seq<char>, m: nat, n: nat)
    requires |ds| <= m
    ensures |Front(ds, m)| == m
    ensures n <= m ==> Front(ds, m)[..n] == Front(ds, n) && |Front(ds, n)| == n
  {
    RepeatLength('0', m - |ds|);
    if |ds| < n <= m { RepeatFront('0', m - |ds|, n - |ds|); }
  }

  lemma KeptIs(d: nat, negative: bool, base: nat, prec: nat, width: nat, fl: Flags)
    requires 0 < d <= BUFFER && (fl.precision || prec == 0)
    ensures var len, w := PaddedLength(d, negative, prec, width, fl), InnerWidth(negative, width, fl);
      && TakenBack(len, base, prec, w, fl) <= len <= BUFFER
      && len - TakenBack(len, base, prec, w, fl) == KeptLength(d, negative, base, prec, width, fl)
  {
  }

  lemma NumberKeptIff(d: nat, negative: bool, base: nat, prec: nat, width: nat, fl: Flags)
    requires 0 < d <= BUFFER && (fl.precision || prec == 0)
    ensures d <= KeptLength(d, negative, base, prec, width, fl) <==>
      !FieldFull(d, negative, width, fl)
      || (ZeroPads(fl) && d + (if base == 16 then 2 else 1) <= InnerWidth(negative, width, fl))
  {
  }

  lemma MarkedFits(body: seq<char>, base: nat, prec: nat, width: nat, fl: Flags, negative: bool)
    requires |body| <= BUFFER && TakenBack(|body|, base, prec, width, fl) <= |body|
    ensures var kept, pre := body[..|body| - TakenBack(|body|, base, prec, width, fl)], Prefix(base, fl);
      AddIfRoom(Marked(body, base, prec, width, fl), Sign(negative, fl)) ==
        kept + WhatFits(pre, |kept|) + if |kept| + |pre| < BUFFER then Sign(negative, fl) else []
  {
    hide TakenBack, Sign;
  }

  /** What is kept stands for the number iff no digit is cut off. */
  lemma FrontValue(ds: seq<char>, n: nat, base: nat, v: nat)
    requires base >= 2 && ds != [] && DigitValue(ds[|ds| - 1]) != 0 && Denotes(ds, base, v)
    ensures Value(Front(ds, n), base) == v <==> |ds| <= n
  {
    hide Value, Pow, DigitValue, Repeat;
    if n < |ds| {
      var cut := ds[n..];
      assert ds == ds[..n] + cut && cut[|cut| - 1] == ds[|ds| - 1];
      ValueSplit(ds[..n], cut, base);
      NonzeroDigit(cut, base, |cut| - 1);
      PowPositive(base, n);
      ProductZero(Pow(base, n), Value(cut, base));
    } else {
      var zeros := Repeat('0', n - |ds|);
      ValueSplit(ds, zeros, base);
      ZerosDenote(n - |ds|, base);
      assert Pow(base, |ds|) * 0 == 0;
      assert n == |ds| ==> ds[..n] == ds && ds + zeros == ds;
    }
  }

  lemma ProductZero(p: nat, x: nat)
    requires p > 0
    ensures p * x == 0 <==> x == 0
  {
  }

  /** Does the buffer have `room` more places behind what is kept of the digits? */
  predicate RoomBehind(d: nat, room: nat, negative: bool, base: nat, prec: nat, width: nat, fl: Flags) {
    if fl.precision then PaddedLength(d, negative, prec, width, fl) + room <= BUFFER
    else if FieldFull(d, negative, width, fl) then
      InnerWidth(negative, width, fl) + room <= BUFFER
        + (if base == 16 && InnerWidth(negative, width, fl) > 1 then 2 else 1)
    else !(ZeroPads(fl) && InnerWidth(negative, width, fl) > BUFFER) && d + room <= BUFFER
  }

  lemma RoomFor(d: nat, room: nat, negative: bool, base: nat, prec: nat, width: nat, fl: Flags)
    requires 0 < d <= BUFFER && 1 <= room <= 2 && (fl.precision || prec == 0)
    ensures KeptLength(d, negative, base, prec, width, fl) + room <= BUFFER
      <==> RoomBehind(d, room, negative, base, prec, width, fl)
    ensures KeptLength(d, negative, base, prec, width, fl) <= BUFFER
  {
    hide InnerWidth;
  }

  lemma NoMark(ds: seq<char>, base: nat, v: nat, n: nat)
    requires Denotes(ds, base, v) && base <= 16
    ensures 'x' !in Front(ds, n) && 'X' !in Front(ds, n) && (base == 2 ==> 'b' !in Front(ds, n))
  {
    RepeatAll('0', n - |ds|);
    forall i | 0 <= i < |ds| ensures ds[i] != 'x' && ds[i] != 'X' && (base == 2 ==> ds[i] != 'b') {
      assert IsDigitOf(ds[i], base);
    }
    hide Repeat;
  }

  /** The letter of the prefix shows up in the text iff there is one place behind what is kept of the digits. */
  lemma MarkPrintedIff(v: nat, negative: bool, base: nat, prec: nat, width: nat, fl: Flags)
    requires Fits(v, base) && v > 0 && fl.hash && (fl.precision || prec == 0) && (base == 2 || base == 16)
    ensures Mark(base, fl)[0] in Integer(v, negative, base, prec, width, fl)
      <==> RoomBehind(|DigitsOf(v, base, fl)|, 1, negative, base, prec, width, fl)
  {
    hide Denotes, DigitsOf, DigitValue, OutRev, Front, Value, KeptLength, Integer, FieldFull, RoomBehind;
    var ds, w := DigitsOf(v, base, fl), InnerWidth(negative, width, fl);
    var n := KeptLength(|ds|, negative, base, prec, width, fl);
    var kept, pre := Front(ds, n), Prefix(base, fl);
    HashKeepsNumberIff(v, negative, base, prec, width, fl);
    SomeDigits(v, base, fl);
    NoMark(ds, base, v, n);
    OutRevHolds(kept + WhatFits(pre, n) + (if n + |pre| < BUFFER then Sign(negative, fl) else []), w, fl,
      Mark(base, fl)[0]);
    RoomFor(|ds|, 1, negative, base, prec, width, fl);
  }

  /** Somewhere in `xs`, `b` stands right behind `a`. */
  ghost predicate Follows(xs: seq<char>, a: char, b: char) {
    exists i :: 0 <= i < |xs| - 1 && xs[i] == a && xs[i + 1] == b
  }

  lemma {:induction false} ReverseAt(xs: seq<char>, k: nat)
    requires k < |xs|
    ensures |Reverse(xs)| == |xs| && Reverse(xs)[k] == xs[|xs| - 1 - k]
  {
    ReverseLength(xs[1..]);
    if k < |xs| - 1 { ReverseAt(xs[1..], k); }
  }

  lemma FollowsReversed(xs: seq<char>, a: char, b: char)
    ensures Follows(Reverse(xs), a, b) <==> Follows(xs, b, a)
  {
    ReverseLength(xs);
    hide Reverse;
    if i :| 0 <= i < |xs| - 1 && Reverse(xs)[i] == a && Reverse(xs)[i + 1] == b {
      ReverseAt(xs, i);
      ReverseAt(xs, i + 1);
      assert xs[|xs| - 2 - i] == b && xs[|xs| - 2 - i + 1] == a;
    }
    if i :| 0 <= i < |xs| - 1 && xs[i] == b && xs[i + 1] == a {
      ReverseAt(xs, |xs| - 2 - i);
      ReverseAt(xs, |xs| - 1 - i);
      assert Reverse(xs)[|xs| - 2 - i] == a && Reverse(xs)[|xs| - 2 - i + 1] == b;
    }
  }

  lemma FollowsPadded(left: seq<char>, xs: seq<char>, right: seq<char>, a: char, b: char)
    requires a != ' ' && b != ' ' && (forall c :: c in left ==> c == ' ') && (forall c :: c in right ==> c == ' ')
    ensures Follows(left + xs + right, a, b) <==> Follows(xs, a, b)
  {
    var all := left + xs + right;
    assert forall i :: 0 <= i < |left| ==> left[i] in left;
    assert forall i :: 0 <= i < |right| ==> right[i] in right;
    if i :| 0 <= i < |all| - 1 && all[i] == a && all[i + 1] == b {
      assert |left| <= i && i + 1 < |left| + |xs|;
      assert xs[i - |left|] == a && xs[i - |left| + 1] == b;
    }
    if i :| 0 <= i < |xs| - 1 && xs[i] == a && xs[i + 1] == b {
      assert all[|left| + i] == a && all[|left| + i + 1] == b;
    }
  }

  lemma FollowsPrinted(buf: seq<char>, width: nat, fl: Flags, a: char, b: char)
    requires a != ' ' && b != ' '
    ensures Follows(OutRev(buf, width, fl), a, b) <==> Follows(buf, b, a)
  {
    RepeatAll(' ', width - |buf|);
    FollowsReversed(buf, a, b);
    FollowsPadded(if !fl.left && !fl.zeroPad then Repeat(' ', width - |buf|) else [], Reverse(buf),
                  if fl.left then Repeat(' ', width - |buf|) else [], a, b);
    hide Repeat, Reverse, Follows;
  }

  /** The mark has '0' behind it in the buffer iff there are two places behind the digits. */
  lemma MarkFollowed(kept: seq<char>, mark: char, sign: seq<char>)
    requires mark !in kept && mark !in sign && mark != '0' && |kept| <= BUFFER
    ensures var buf := kept + WhatFits([mark, '0'], |kept|) + if |kept| + 2 < BUFFER then sign else [];
      Follows(buf, mark, '0') <==> |kept| + 2 <= BUFFER
  {
    var n := |kept|;
    var buf := kept + WhatFits([mark, '0'], n) + if n + 2 < BUFFER then sign else [];
    if n + 2 <= BUFFER {
      assert n < |buf| - 1 && buf[n] == mark && buf[n + 1] == '0';
      assert Follows(buf, mark, '0');
    } else {
      forall i | 0 <= i < |buf| - 1 ensures buf[i] != mark {
        assert buf[i] in kept;
      }
    }
  }

  /** "0x" or "0b" is in the text iff there are two places behind what is kept of the digits. */
  lemma PrefixPrintedIff(v: nat, negative: bool, base: nat, prec: nat, width: nat, fl: Flags)
    requires Fits(v, base) && v > 0 && fl.hash && (fl.precision || prec == 0) && (base == 2 || base == 16)
    ensures Follows(Integer(v, negative, base, prec, width, fl), '0', Mark(base, fl)[0])
      <==> RoomBehind(|DigitsOf(v, base, fl)|, 2, negative, base, prec, width, fl)
  {
    hide Denotes, DigitsOf, DigitValue, OutRev, Front, Value, KeptLength, Integer, FieldFull;
    hide RoomBehind, WhatFits, Follows;
    var ds, w := DigitsOf(v, base, fl), InnerWidth(negative, width, fl);
    var n := KeptLength(|ds|, negative, base, prec, width, fl);
    var kept, pre, sign := Front(ds, n), Prefix(base, fl), Sign(negative, fl);
    HashKeepsNumberIff(v, negative, base, prec, width, fl);
    SomeDigits(v, base, fl);
    NoMark(ds, base, v, n);
    RoomFor(|ds|, 2, negative, base, prec, width, fl);
    FrontLength(ds, n);
    assert pre == [Mark(base, fl)[0], '0'];
    MarkFollowed(kept, Mark(base, fl)[0], sign);
    FollowsPrinted(kept + WhatFits(pre, n) + (if n + |pre| < BUFFER then sign else []), w, fl, '0', Mark(base, fl)[0]);
  }

  lemma FrontLength(ds: seq<char>, n: nat)
    ensures |Front(ds, n)| == n
  {
    RepeatLength('0', n - |ds|);
  }

  /** A number below base^k has at most k digits. */
  lemma {:induction false} DigitCount(v: nat, base: nat, upper: bool, room: nat, k: nat)
    requires 2 <= base <= 16 && 0 < k <= room && v < Pow(base, k)
    ensures |Digits(v, base, upper, room)| <= k
  {
    hide Pow, DigitChar, Digits;
    LeadingDigits(v, base, k);
    DigitsStep(v, base, upper, room);
    if v / base != 0 { DigitCount(v / base, base, upper, room - 1, k - 1); }
  }

  /** Ten digits do for 32 bits. */
  lemma DecimalDigits(v: nat, upper: bool)
    requires v < WORD
    ensures |Digits(v, 10, upper, BUFFER)| <= 10 && Denotes(Digits(v, 10, upper, BUFFER), 10, v)
  {
    assert Pow(10, 1) == 10;
    PowAdd(10, 1, 1);
    PowAdd(10, 2, 2);
    PowAdd(10, 4, 4);
    PowAdd(10, 8, 2);
    DigitCount(v, 10, upper, BUFFER, 10);
    FitsBuffer(v, 10);
    hide Pow;
    DigitsReadBack(v, 10, upper, BUFFER);
  }

  /** What stands in front of the digits in the text, and behind them in a buffer of `n` characters. */
  function Head(v: nat, n: nat, negative: bool, base: nat, fl: Flags): seq<char> {
    var pre := if fl.hash && v > 0 then Prefix(base, fl) else [];
    WhatFits(pre, n) + if n + |pre| < BUFFER then Sign(negative, fl) else []
  }

  /**
   A precision asks for that many digits. The text, behind sign and prefix, has them iff
   the number has them anyway, or is not left-justified and the buffer holds them.
   */
  lemma PrecisionHonouredIff(v: nat, negative: bool, base: nat, prec: nat, width: nat, fl: Flags)
    requires Fits(v, base) && (fl.hash && v > 0 ==> fl.precision)
    ensures var ds := DigitsOf(v, base, fl);
      var body := Padded(ds, negative, prec, width, fl);
      && Denotes(body, base, v)
      && Integer(v, negative, base, prec, width, fl)
           == OutRev(body + Head(v, |body|, negative, base, fl), InnerWidth(negative, width, fl), fl)
      && (|body| >= prec <==> |ds| >= prec || (!fl.left && prec <= BUFFER))
  {
    var ds := DigitsOf(v, base, fl);
    DigitsOfDenote(v, base, fl);
    PaddedDenotes(ds, negative, prec, width, fl, base, v);
    PaddedIsFront(ds, negative, prec, width, fl);
    var body := Padded(ds, negative, prec, width, fl);
    hide Denotes, DigitsOf, Padded, Integer, Front, InnerWidth, Sign, Prefix, Repeat, Reverse;
    if fl.hash && v > 0 {
      HashKeepsNumberIff(v, negative, base, prec, width, fl);
      assert KeptLength(|ds|, negative, base, prec, width, fl) == |body|;
      Regroup(body, WhatFits(Prefix(base, fl), |body|),
              if |body| + |Prefix(base, fl)| < BUFFER then Sign(negative, fl) else []);
    } else {
      PlainIntegerReadsBack(v, negative, base, prec, width, fl);
      NoHash(v, negative, base, prec, width, fl);
    }
  }

  lemma Regroup(xs: seq<char>, ys: seq<char>, zs: seq<char>)
    ensures xs + ys + zs == xs + (ys + zs)
  {
  }

  /** Without a prefix the '#' flag plays no part. */
  lemma NoHash(v: nat, negative: bool, base: nat, prec: nat, width: nat, fl: Flags)
    requires 2 <= base <= 16 && !(fl.hash && v > 0)
    ensures var fl1 := if v == 0 then fl.(hash := false) else fl;
      var body := Padded(DigitsOf(v, base, fl), negative, prec, width, fl);
      && Padded(DigitsOf(v, base, fl), negative, prec, width, fl1) == body
      && OutRev(body + (if |body| < BUFFER then Sign(negative, fl1) else []), InnerWidth(negative, width, fl1), fl1)
           == OutRev(body + Head(v, |body|, negative, base, fl), InnerWidth(negative, width, fl), fl)
  {
    hide DigitsOf, Fill, Repeat, Reverse;
    var body := Padded(DigitsOf(v, base, fl), negative, prec, width, fl);
    var sign := if |body| < BUFFER then Sign(negative, fl) else [];
    assert [] + sign == sign;
  }

  lemma {:induction false} ReverseLength(xs: seq<char>)
    ensures |Reverse(xs)| == |xs|
  {
    if xs != [] { ReverseLength(xs[1..]); }
  }

  lemma {:induction false} RepeatLength(c: char, n: int)
    ensures |Repeat(c, n)| == if n < 0 then 0 else n
  {
    if n > 0 { RepeatLength(c, n - 1); }
  }

  lemma OutRevLength(buf: seq<char>, width: nat, fl: Flags)
    ensures |OutRev(buf, width, fl)| == if (fl.left || !fl.zeroPad) && |buf| < width then width else |buf|
  {
    ReverseLength(buf);
    RepeatLength(' ', width - |buf|);
    hide Reverse, Repeat;
  }

  /** A number fills its field iff the padding is blanks or the digit buffer is as long as the field. */
  lemma FieldFilledIff(v: nat, negative: bool, base: nat, prec: nat, width: nat, fl: Flags)
    requires Fits(v, base) && (fl.hash && v > 0 ==> fl.precision || prec == 0)
    ensures |Integer(v, negative, base, prec, width, fl)| >= width <==> fl.left || !fl.zeroPad || width <= BUFFER
  {
    hide Denotes, Padded, Digits, Integer, OutRev, Front, WhatFits;
    DigitsOfDenote(v, base, fl);
    var ds, w := DigitsOf(v, base, fl), InnerWidth(negative, width, fl);
    if fl.hash && v > 0 {
      var n, pre := KeptLength(|ds|, negative, base, prec, width, fl), Prefix(base, fl);
      HashKeepsNumberIff(v, negative, base, prec, width, fl);
      FrontLength(ds, n);
      SomeDigits(v, base, fl);
      FieldWithPrefix(|ds|, negative, base, prec, width, fl);
      OutRevLength(Front(ds, n) + WhatFits(pre, n) + (if n + |pre| < BUFFER then Sign(negative, fl) else []), w, fl);
    } else {
      PaddedDenotes(ds, negative, prec, width, fl, base, v);
      PlainIntegerReadsBack(v, negative, base, prec, width, fl);
      NoHash(v, negative, base, prec, width, fl);
      var body := Padded(ds, negative, prec, width, fl);
      OutRevLength(body + Head(v, |body|, negative, base, fl), w, fl);
      HeadLength(v, |body|, negative, base, fl);
    }
  }

  lemma HeadLength(v: nat, n: nat, negative: bool, base: nat, fl: Flags)
    requires !(fl.hash && v > 0)
    ensures Head(v, n, negative, base, fl) == if n < BUFFER then Sign(negative, fl) else []
  {
  }

  /** Digits, prefix and sign reach a field padded with zeros iff the buffer does. */
  lemma FieldWithPrefix(d: nat, negative: bool, base: nat, prec: nat, width: nat, fl: Flags)
    requires 0 < d <= BUFFER && (fl.precision || prec == 0)
    ensures var n, p := KeptLength(d, negative, base, prec, width, fl), Prefix(base, fl);
      var len := n + |WhatFits(p, n)| + if n + |p| < BUFFER then |Sign(negative, fl)| else 0;
      ZeroPads(fl) ==> (len >= width <==> width <= BUFFER)
  {
    RoomFor(d, |Prefix(base, fl)|, negative, base, prec, width, fl);
  }

  /** %#4x of 0x1234 loses the upper half of the number. */
  lemma FullFieldLosesDigits()
    ensures Integer(0x1234, false, 16, 0, 4, NO_FLAGS.(hash := true)) == ['0', 'x', '3', '4']
  {
    var fl := NO_FLAGS.(hash := true);
    var ds := ['4', '3', '2', '1'];
    HexDigits();
    hide Digits;
    assert Padded(ds, false, 0, 4, fl) == ds + [] + [];
    assert ds[..2] == ['4', '3'];
    assert Formatted(ds, false, 16, 0, 4, fl) == ['4', '3', 'x', '0'];
    ReverseFour('4', '3', 'x', '0');
  }

  lemma HexDigits()
    ensures Digits(0x1234, 16, false, 32) == ['4', '3', '2', '1']
  {
    DigitsStep(0x1, 16, false, 29);
    DigitsStep(0x12, 16, false, 30);
    DigitsStep(0x123, 16, false, 31);
    DigitsStep(0x1234, 16, false, 32);
    hide Digits;
  }

  lemma ReverseFour(a: char, b: char, c: char, d: char)
    ensures Reverse([a, b, c, d]) == [d, c, b, a]
  {
    assert [a, b, c, d][1..] == [b, c, d] && [b, c, d][1..] == [c, d] && [c, d][1..] == [d] && [d][1..] == [];
    assert Reverse([d]) == [d];
    assert Reverse([c, d]) == [d, c];
    assert Reverse([b, c, d]) == [d, c, b];
  }

  // ---------- inputs on which it does not ----------

  lemma OneDigit(fl: Flags)
    ensures DigitsOf(5, 10, fl) == ['5']
  {
    DigitsStep(5, 10, fl.upper, BUFFER);
    hide Digits;
  }

  /** %033d of -5 prints 32 digits and no sign. */
  lemma SignLost()
    ensures '-' !in Integer(5, true, 10, 0, 33, NO_FLAGS.(zeroPad := true))
  {
    hide Integer, DigitsOf;
    OneDigit(NO_FLAGS.(zeroPad := true));
    MinusPrintedIff(5, 10, 0, 33, NO_FLAGS.(zeroPad := true));
  }

  /** %040d of 5 prints less than 40 characters. */
  lemma FieldNotFilled()
    ensures |Integer(5, false, 10, 0, 40, NO_FLAGS.(zeroPad := true))| < 40
  {
    hide Integer;
    FieldFilledIff(5, false, 10, 0, 40, NO_FLAGS.(zeroPad := true));
  }

  /** %-.3d of 5 prints one digit. */
  lemma PrecisionIgnored()
    ensures Integer(5, false, 10, 3, 0, NO_FLAGS.(left := true, precision := true)) == ['5']
  {
    var fl := NO_FLAGS.(left := true, precision := true);
    OneDigit(fl);
    assert fl.(hash := false) == fl;
    PlainIntegerReadsBack(5, false, 10, 3, 0, fl);
    hide Integer, DigitsOf;
    assert ['5'] + [] == ['5'] && Reverse(['5']) == ['5'];
  }

  /** A number of at least base^k has more than k digits. */
  lemma {:induction false} ManyDigits(v: nat, base: nat, upper: bool, room: nat, k: nat)
    requires 2 <= base <= 16 && k < room && v >= Pow(base, k)
    ensures |Digits(v, base, upper, room)| > k
  {
    hide Digits, Pow;
    DigitsLength(v, base, upper, room);
    if k > 0 {
      UpperDigits(v, base, k);
      ManyDigits(v / base, base, upper, room - 1, k - 1);
    }
  }

  lemma DigitsLength(v: nat, base: nat, upper: bool, room: nat)
    requires 2 <= base <= 16 && room > 0
    ensures |Digits(v, base, upper, room)| == 1 + if v / base == 0 then 0 else |Digits(v / base, base, upper, room - 1)|
  {
    hide DigitChar;
    DigitsStep(v, base, upper, room);
  }

  lemma UpperDigits(v: nat, base: nat, k: nat)
    requires base >= 2 && k > 0 && v >= Pow(base, k)
    ensures v / base >= Pow(base, k - 1) && v / base != 0
  {
    PowPositive(base, k - 1);
    QuotientLarger(v, base, Pow(base, k - 1));
  }

  lemma QuotientLarger(v: nat, base: nat, p: nat)
    requires base > 0 && v >= base * p
    ensures v / base >= p
  {
    DivMod(v, base);
    if v / base < p {
      MulMonotone(base, v / base + 1, p);
      Distribute(base, v / base, 1, 1);
    }
  }

  /** %#b of 2^31 prints no prefix at all. */
  lemma PrefixLost()
    ensures 'b' !in Integer(0x8000_0000, false, 2, 0, 0, NO_FLAGS.(hash := true))
  {
    hide Integer, Digits;
    var fl := NO_FLAGS.(hash := true);
    assert Pow(2, 31) == 0x8000_0000 by { PowersOfTwo(); hide Digits, Integer; }
    ManyDigits(0x8000_0000, 2, false, BUFFER, 31);
    DigitsOfDenote(0x8000_0000, 2, fl);
    MarkPrintedIff(0x8000_0000, false, 2, 0, 0, fl);
  }

  /** %#035x of any 32-bit number but 0 prints no "0x". */
  lemma PrefixLostInZeros(v: nat)
    requires 0 < v < WORD
    ensures 'x' !in Integer(v, false, 16, 0, 35, NO_FLAGS.(hash := true, zeroPad := true))
  {
    hide Integer, DigitsOf;
    MarkPrintedIff(v, false, 16, 0, 35, NO_FLAGS.(hash := true, zeroPad := true));
  }
}
