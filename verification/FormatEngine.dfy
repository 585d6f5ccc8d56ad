/**
 The formatter as its loops run: a digit buffer filled in place and an output
 buffer written one character at a time (lib/src/printf.c:129-335 and 689-1062).
 */
module FormatEngine {
  import opened Printf
  import opened Format

  class Output {
    const buffer: array<char>
    const maxlen: nat
    var idx: nat

    constructor (b: array<char>, n: nat)
      requires n <= b.Length
      ensures buffer == b && maxlen == n && idx == 0
    {
      buffer, maxlen, idx := b, n, 0;
    }

    ghost predicate Valid()
    {
      maxlen <= buffer.Length
    }

    /** `t` has come out since the buffer was `b` and the position `i`. */
    ghost predicate Emitted(b: seq<char>, i: nat, t: seq<char>)
      requires maxlen <= |b|
      reads this, buffer
    {
      buffer[..] == Written(b, i, maxlen, t) && idx == i + |t|
    }

    /** out(c, buffer, idx++, maxlen) */
    method Out(c: char)
      requires Valid()
      modifies this`idx, buffer
      ensures Emitted(old(buffer[..]), old(idx), [c])
    {
      if idx < maxlen {
        buffer[idx] := c;
      }
      idx := idx + 1;
      WrittenOne(old(buffer[..]), old(idx), maxlen, c);
    }

    lemma Joined(b: seq<char>, i: nat, s: seq<char>, m: seq<char>, j: nat, t: seq<char>)
      requires maxlen <= |b| && m == Written(b, i, maxlen, s) && j == i + |s| && Emitted(m, j, t)
      ensures Emitted(b, i, s + t)
    {
      WrittenAppend(b, i, maxlen, s, t);
    }

    /** `count` times the same character. */
    method OutMany(c: char, count: int)
      requires Valid()
      modifies this`idx, buffer
      ensures Emitted(old(buffer[..]), old(idx), Repeat(c, count))
    {
      var n := 0;
      assert Emitted(old(buffer[..]), old(idx), Repeat(c, 0));
      while n < count
        invariant 0 <= n && (n <= count || n == 0)
        invariant Emitted(old(buffer[..]), old(idx), Repeat(c, n))
      {
        ghost var m, j := buffer[..], idx;
        Out(c);
        Joined(old(buffer[..]), old(idx), Repeat(c, n), m, j, [c]);
        RepeatMore(c, n);
        n := n + 1;
      }
      assert count < 0 ==> Repeat(c, count) == Repeat(c, 0);
    }

    /** _out_rev on buf[..len] */
    method OutReversed(buf: array<char>, len: nat, width: nat, fl: Flags)
      requires Valid() && len <= buf.Length && buf != buffer
      modifies this`idx, buffer
      ensures Emitted(old(buffer[..]), old(idx), OutRev(buf[..len], width, fl))
    {
      hide Written, Repeat, Reverse;
      ghost var b, i, text := buffer[..], idx, buf[..len];
      ghost var t1 := if !fl.left && !fl.zeroPad then Repeat(' ', width - len) else [];
      NothingEmitted(b, i);
      if !fl.left && !fl.zeroPad {
        OutMany(' ', width - len);
      }
      ghost var m, j := buffer[..], idx;
      NothingEmitted(m, j);
      var k := len;
      ReverseNothing();
      assert text[len..] == [];
      while k > 0
        invariant 0 <= k <= len && buf[..len] == text
        invariant Emitted(m, j, Reverse(text[k..]))
      {
        k := k - 1;
        ghost var m1, j1 := buffer[..], idx;
        Out(buf[k]);
        Joined(m, j, Reverse(text[k + 1..]), m1, j1, [text[k]]);
        ReverseMore(text, k);
      }
      assert text[0..] == text;
      Joined(b, i, t1, m, j, Reverse(text));
      if fl.left {
        ghost var m2, j2 := buffer[..], idx;
        OutMany(' ', width - len);
        Joined(b, i, t1 + Reverse(text), m2, j2, Repeat(' ', width - len));
      }
      assert t1 + Reverse(text) + [] == t1 + Reverse(text);
    }

    lemma NothingEmitted(b: seq<char>, i: nat)
      requires b == buffer[..] && i == idx && Valid()
      ensures Emitted(b, i, [])
    {
    }

    /** Leading zeros into the digit buffer (printf.c:250-255). */
    method FillZeros(buf: array<char>, len: nat, n: nat) returns (k: nat)
      requires buf.Length == BUFFER && len <= BUFFER
      modifies buf
      ensures k <= BUFFER && buf[..k] == Fill(old(buf[..len]), n)
    {
      k := len;
      ghost var text := buf[..len];
      assert buf[..k] == text + Repeat('0', 0);
      while k < n && k < BUFFER
        invariant len <= k <= BUFFER && (k <= n || k == len)
        invariant buf[..k] == text + Repeat('0', k - len)
      {
        RepeatMore('0', k - len);
        buf[k] := '0';
        k := k + 1;
      }
      RepeatNothing('0', (if n < BUFFER then n else BUFFER) - len);
    }

    /** One more character if the buffer has room for it. */
    method AddChar(buf: array<char>, len: nat, c: char) returns (k: nat)
      requires buf.Length == BUFFER && len <= BUFFER
      modifies buf
      ensures k <= BUFFER && buf[..k] == AddIfRoom(old(buf[..len]), [c])
    {
      k := len;
      if k < BUFFER {
        buf[k] := c;
        k := k + 1;
      }
    }

    /** The hash branch (printf.c:259-275). */
    method MarkBase(buf: array<char>, len: nat, base: nat, prec: nat, width: nat, fl: Flags) returns (k: nat)
      requires buf.Length == BUFFER && len <= BUFFER
      modifies buf
      ensures k <= BUFFER && buf[..k] == Marked(old(buf[..len]), base, prec, width, fl)
    {
      hide AddIfRoom;
      ghost var text := buf[..len];
      k := len;
      if !fl.precision && k != 0 && (k == prec || k == width) {
        k := k - 1;
        if k != 0 && base == 16 {
          k := k - 1;
        }
      }
      assert buf[..k] == text[..len - TakenBack(len, base, prec, width, fl)];
      AddNothing(buf[..k]);
      if base == 16 && !fl.upper {
        k := AddChar(buf, k, 'x');
      } else if base == 16 && fl.upper {
        k := AddChar(buf, k, 'X');
      } else if base == 2 {
        k := AddChar(buf, k, 'b');
      }
      k := AddChar(buf, k, '0');
    }

    /** _ntoa_format on buf[..len] */
    method OutFormatted(buf: array<char>, len: nat, negative: bool, base: nat, prec: nat, width: nat, fl: Flags)
      requires Valid() && buf.Length == BUFFER && len <= BUFFER && buf != buffer
      modifies this`idx, buffer, buf
      ensures Emitted(old(buffer[..]), old(idx),
                      OutRev(Formatted(old(buf[..len]), negative, base, prec, width, fl),
                             InnerWidth(negative, width, fl), fl))
    {
      hide Written, OutRev, Fill, Marked, AddIfRoom;
      var k, w := len, width;
      if !fl.left {
        if w != 0 && fl.zeroPad && (negative || fl.plus || fl.space) {
          w := w - 1;
        }
        k := FillZeros(buf, k, prec);
        FillNothing(buf[..k]);
        if fl.zeroPad {
          k := FillZeros(buf, k, w);
        }
      }
      assert buf[..k] == Padded(old(buf[..len]), negative, prec, width, fl);
      if fl.hash {
        k := MarkBase(buf, k, base, prec, w, fl);
      }
      AddNothing(buf[..k]);
      if negative {
        k := AddChar(buf, k, '-');
      } else if fl.plus {
        k := AddChar(buf, k, '+');
      } else if fl.space {
        k := AddChar(buf, k, ' ');
      }
      assert buf[..k] == Formatted(old(buf[..len]), negative, base, prec, width, fl);
      OutReversed(buf, k, w, fl);
    }

    /** The digits of `value`, low digit first (printf.c:315-319). */
    method MakeDigits(buf: array<char>, value: nat, base: nat, upper: bool) returns (len: nat)
      requires buf.Length == BUFFER && 2 <= base <= 16
      modifies buf
      ensures len <= BUFFER && buf[..len] == Digits(value, base, upper, BUFFER)
    {
      hide DigitChar, Digits;
      len := 0;
      var v: nat := value;
      assert buf[..0] + Digits(v, base, upper, BUFFER) == Digits(v, base, upper, BUFFER);
      while true
        invariant len < BUFFER
        invariant buf[..len] + Digits(v, base, upper, BUFFER - len) == Digits(value, base, upper, BUFFER)
        decreases BUFFER - len
      {
        ghost var before := buf[..len];
        DigitsMore(before, v, base, upper, BUFFER - len);
        buf[len] := DigitChar(v % base, upper);
        len := len + 1;
        assert buf[..len] == before + [DigitChar(v % base, upper)];
        v := v / base;
        if !(v != 0 && len < BUFFER) {
          break;
        }
      }
    }

    /** _ntoa_long and _ntoa_long_long */
    method OutInteger(value: nat, negative: bool, base: nat, prec: nat, width: nat, flags: Flags)
      requires Valid() && 2 <= base <= 16
      modifies this`idx, buffer
      ensures Emitted(old(buffer[..]), old(idx), Integer(value, negative, base, prec, width, flags))
    {
      hide Written, OutRev, Formatted, Digits, InnerWidth;
      var buf := new char[BUFFER];
      var len, fl := 0, flags;
      if value == 0 {
        fl := fl.(hash := false);
      }
      if !fl.precision || value != 0 {
        len := MakeDigits(buf, value, base, fl.upper);
      }
      OutFormatted(buf, len, negative, base, prec, width, fl);
    }

    /** The flag characters of a directive (printf.c:712-742). */
    method EvalFlags(f: seq<char>, i: nat) returns (fl: Flags, j: nat)
      requires i <= |f|
      ensures (fl, j) == ParseFlags(f, i, NO_FLAGS)
    {
      fl, j := NO_FLAGS, i;
      while IsFlag(Format.At(f, j))
        invariant i <= j <= |f| && ParseFlags(f, j, fl) == ParseFlags(f, i, NO_FLAGS)
        decreases |f| - j
      {
        fl := WithFlag(fl, f[j]);
        j := j + 1;
      }
    }

    /** _atoi */
    method Atoi(f: seq<char>, i: nat) returns (n: nat, j: nat)
      requires i <= |f|
      ensures (n, j) == ParseNumber(f, i, 0)
    {
      n, j := 0, i;
      while IsDigit(Format.At(f, j))
        invariant i <= j <= |f| && ParseNumber(f, j, n) == ParseNumber(f, i, 0)
        decreases |f| - j
      {
        n := (n * 10 + (f[j] - '0') as nat) % WORD;
        j := j + 1;
      }
    }

    /** The width of a directive (printf.c:745-757). */
    method EvalWidth(f: seq<char>, fl: Flags, i: nat, args: seq<Arg>, a: nat) returns (d: Field)
      requires i <= |f|
      ensures d == ParseWidth(f, fl, i, args, a)
    {
      hide ParseNumber;
      if IsDigit(Format.At(f, i)) {
        var n, j := Atoi(f, i);
        return Field(fl, n, 0, j, a);
      } else if Format.At(f, i) == '*' {
        if a >= |args| || !args[a].Word? {
          return Bad;
        }
        var flags, w := fl, AsInt(args[a].w, 32);
        if w < 0 {
          flags := flags.(left := true);
        }
        return Field(flags, Abs(w), 0, i + 1, a + 1);
      }
      return Field(fl, 0, 0, i, a);
    }

    /** Its precision (printf.c:760-771). */
    method EvalPrecision(f: seq<char>, d: Field, args: seq<Arg>) returns (r: Field)
      requires d.Field? && d.at <= |f|
      ensures r == ParsePrecision(f, d, args)
    {
      hide ParseNumber;
      r := d;
      if Format.At(f, r.at) == '.' {
        r := r.(flags := r.flags.(precision := true), at := r.at + 1);
        if IsDigit(Format.At(f, r.at)) {
          var n, j := Atoi(f, r.at);
          r := r.(prec := n, at := j);
        } else if Format.At(f, r.at) == '*' {
          if r.arg >= |args| || !args[r.arg].Word? {
            return Bad;
          }
          var p := AsInt(args[r.arg].w, 32);
          r := r.(prec := if p > 0 then p else 0, at := r.at + 1, arg := r.arg + 1);
        }
      }
    }

    /** Its length (printf.c:774-806). */
    method EvalLength(f: seq<char>, d: Field) returns (r: Field)
      requires d.Field?
      ensures r == ParseLength(f, d)
    {
      r := d;
      if Format.At(f, r.at) == 'l' {
        r := r.(flags := r.flags.(long := true), at := r.at + 1);
        if Format.At(f, r.at) == 'l' {
          r := r.(flags := r.flags.(longLong := true), at := r.at + 1);
        }
      } else if Format.At(f, r.at) == 'h' {
        r := r.(flags := r.flags.(short := true), at := r.at + 1);
        if Format.At(f, r.at) == 'h' {
          r := r.(flags := r.flags.(byte := true), at := r.at + 1);
        }
      } else if Format.At(f, r.at) == 'z' {
        r := r.(flags := r.flags.(long := true), at := r.at + 1);
      }
    }

    method EvalField(f: seq<char>, i: nat, args: seq<Arg>, a: nat) returns (d: Field)
      requires i <= |f|
      ensures d == ParseField(f, i, args, a)
    {
      hide ParseFlags, ParseWidth, ParsePrecision, ParseLength;
      var fl, j := EvalFlags(f, i);
      WidthAhead(f, fl, j, args, a);
      d := EvalWidth(f, fl, j, args, a);
      if d.Field? {
        d := EvalPrecision(f, d, args);
      }
      BadStays(f, d, args);
      if d.Field? {
        d := EvalLength(f, d);
      }
    }

    /** %d and the other integers (printf.c:816-934). */
    method OutIntegerArg(c: char, d: Field, args: seq<Arg>) returns (ok: bool, arg: nat)
      requires Valid() && d.Field? && IsInteger(c)
      modifies this`idx, buffer
      ensures var r := ConvertInteger(c, d, args);
        ok == r.Converted? && (ok ==> arg == r.arg && Emitted(old(buffer[..]), old(idx), r.t))
    {
      hide Written, Integer;
      var fl, a := IntegerFlags(c, d.flags), d.arg;
      NothingEmitted(buffer[..], idx);
      if IsSigned(c) {
        if a >= |args| || (if fl.longLong then !args[a].DoubleWord? else !args[a].Word?) {
          return false, a;
        }
        var w := args[a].w;
        var v := if fl.longLong then AsInt(w, 64) else if fl.long then AsInt(w, 32)
                 else if fl.byte then AsInt(w, 8) else if fl.short then AsInt(w, 16) else AsInt(w, 32);
        OutInteger(Abs(v), v < 0, BaseOf(c), d.prec, d.width, fl);
        return true, a + 1;
      }
      if fl.longLong {
        return true, a;
      }
      if a >= |args| || !args[a].Word? {
        return false, a;
      }
      var w := args[a].w;
      var v := if fl.long then w % WORD else if fl.byte then w % 0x100 else if fl.short then w % 0x1_0000 else w % WORD;
      OutInteger(v, false, BaseOf(c), d.prec, d.width, fl);
      return true, a + 1;
    }

    /** %c and %s: `t` between its padding (printf.c:962-975 and 987-1001). */
    method OutJustified(t: seq<char>, width: nat, left: bool)
      requires Valid()
      modifies this`idx, buffer
      ensures Emitted(old(buffer[..]), old(idx), Justified(t, width, left))
    {
      hide Written, Repeat;
      ghost var b, i := buffer[..], idx;
      ghost var t1 := if left then [] else Repeat(' ', width - |t|);
      NothingEmitted(b, i);
      if !left {
        OutMany(' ', width - |t|);
      }
      ghost var m, j := buffer[..], idx;
      NothingEmitted(m, j);
      var k := 0;
      assert t[..0] == [];
      while k < |t|
        invariant 0 <= k <= |t| && Emitted(m, j, t[..k])
      {
        ghost var m1, j1 := buffer[..], idx;
        Out(t[k]);
        Joined(m, j, t[..k], m1, j1, [t[k]]);
        assert t[..k] + [t[k]] == t[..k + 1];
        k := k + 1;
      }
      assert t[..|t|] == t;
      Joined(b, i, t1, m, j, t);
      if left {
        ghost var m2, j2 := buffer[..], idx;
        OutMany(' ', width - |t|);
        Joined(b, i, t1 + t, m2, j2, Repeat(' ', width - |t|));
      }
      assert t1 + t + [] == t1 + t;
    }

    /** The switch on the conversion character (printf.c:809-1054). */
    method OutConversion(c: char, d: Field, args: seq<Arg>) returns (ok: bool, arg: nat)
      requires Valid() && d.Field?
      modifies this`idx, buffer
      ensures var r := Convert(c, d, args);
        ok == r.Converted? && (ok ==> arg == r.arg && Emitted(old(buffer[..]), old(idx), r.t))
    {
      hide Written, Integer, ConvertInteger, Justified;
      if IsInteger(c) {
        ok, arg := OutIntegerArg(c, d, args);
        return;
      }
      arg := d.arg;
      if c == 'c' {
        if arg >= |args| || !args[arg].Word? {
          return false, arg;
        }
        OutJustified([(args[arg].w % 256) as char], d.width, d.flags.left);
        return true, arg + 1;
      }
      if c == 's' {
        if arg >= |args| || !args[arg].Str? {
          return false, arg;
        }
        OutJustified(Cut(args[arg].s, d.flags, d.prec), d.width, d.flags.left);
        return true, arg + 1;
      }
      if c == 'p' {
        if arg >= |args| || !args[arg].Word? {
          return false, arg;
        }
        OutInteger(args[arg].w % WORD, false, 16, d.prec, 8, PointerFlags(d.flags));
        return true, arg + 1;
      }
      if c == 'f' || c == 'F' || c == 'e' || c == 'E' || c == 'g' || c == 'G' {
        return false, arg;
      }
      Out(c);
      return true, arg;
    }
  }

  /**
   _vsnprintf with a buffer: it returns the length of the unlimited output whatever
   the size of the buffer, which holds what fits.
   */
  method Vsnprintf(buffer: array<char>, maxlen: nat, f: seq<char>, args: seq<Arg>) returns (defined: bool, n: nat)
    requires maxlen <= buffer.Length && maxlen < WORD && NUL !in f
    modifies buffer
    ensures defined <==> Render(f, 0, args, 0).Text?
    ensures defined ==> n == |Render(f, 0, args, 0).t|
    ensures defined ==> buffer[..] == Finished(old(buffer[..]), maxlen, Render(f, 0, args, 0).t)
  {
    hide Written, Render, Convert, ParseField;
    var out := new Output(buffer, maxlen);
    var i, a := 0, 0;
    ghost var b, sofar: seq<char> := buffer[..], [];
    out.NothingEmitted(b, 0);
    PrependNothing(Render(f, 0, args, 0));
    while i < |f|
      invariant fresh(out) && out.buffer == buffer && out.maxlen == maxlen && i <= |f|
      invariant out.Emitted(b, 0, sofar)
      invariant Render(f, 0, args, 0) == Prepend(sofar, Render(f, i, args, a))
      decreases |f| - i
    {
      ghost var m, j := buffer[..], out.idx;
      RenderTurn(f, i, args, a);
      if f[i] != '%' {
        out.Out(f[i]);
        out.Joined(b, 0, sofar, m, j, [f[i]]);
        PrependTwice(sofar, [f[i]], Render(f, i + 1, args, a));
        sofar := sofar + [f[i]];
        i := i + 1;
      } else {
        var d := out.EvalField(f, i + 1, args, a);
        if d.Bad? || d.at >= |f| {
          return false, out.idx;
        }
        var ok, next := out.OutConversion(f[d.at], d, args);
        if !ok {
          return false, out.idx;
        }
        ghost var t := Convert(f[d.at], d, args).t;
        out.Joined(b, 0, sofar, m, j, t);
        PrependTwice(sofar, t, Render(f, d.at + 1, args, next));
        sofar := sofar + t;
        i, a := d.at + 1, next;
      }
    }
    RenderEnd(f, args, a);
    assert sofar + [] == sofar;
    var end := out.idx;
    if end < maxlen {
      buffer[end] := NUL;
    } else if (maxlen + WORD - 1) % WORD < maxlen {
      buffer[(maxlen + WORD - 1) % WORD] := NUL;
    }
    return true, end;
  }

  lemma PrependNothing(o: Outcome)
    ensures Prepend([], o) == o
  {
    if o.Text? { assert [] + o.t == o.t; }
  }

  lemma PrependTwice(s: seq<char>, t: seq<char>, o: Outcome)
    ensures Prepend(s, Prepend(t, o)) == Prepend(s + t, o)
  {
    if o.Text? { assert s + (t + o.t) == (s + t) + o.t; }
  }

  lemma RenderEnd(f: seq<char>, args: seq<Arg>, a: nat)
    ensures Render(f, |f|, args, a) == Text([])
  {
  }

  /** One turn of the loop, as the text sees it. */
  lemma RenderTurn(f: seq<char>, i: nat, args: seq<Arg>, a: nat)
    requires i < |f|
    ensures f[i] != '%' ==> Render(f, i, args, a) == Prepend([f[i]], Render(f, i + 1, args, a))
    ensures f[i] == '%' ==> var d := ParseField(f, i + 1, args, a);
      if d.Bad? || d.at >= |f| then Render(f, i, args, a) == Undefined
      else var r := Convert(f[d.at], d, args);
        d.at >= i + 1 &&
        Render(f, i, args, a) == if r.Unconverted? then Undefined else Prepend(r.t, Render(f, d.at + 1, args, r.arg))
  {
    FieldAhead(f, i + 1, args, a);
    hide ParseField, Convert;
  }

  lemma WrittenOne(b: seq<char>, idx: nat, maxlen: nat, c: char)
    requires maxlen <= |b|
    ensures Written(b, idx, maxlen, [c]) == OutBuffer(b, idx, maxlen, c)
  {
    assert [c][1..] == [];
  }

  lemma {:induction false} RepeatMore(c: char, n: nat)
    ensures Repeat(c, n + 1) == Repeat(c, n) + [c]
  {
    if n > 0 { RepeatMore(c, n - 1); }
  }

  lemma ReverseNothing()
    ensures Reverse([]) == []
  {
  }

  lemma ReverseMore(xs: seq<char>, k: nat)
    requires k < |xs|
    ensures Reverse(xs[k..]) == Reverse(xs[k + 1..]) + [xs[k]]
  {
    assert xs[k..][1..] == xs[k + 1..];
  }

  lemma RepeatNothing(c: char, n: int)
    ensures n <= 0 ==> Repeat(c, n) == [] == Repeat(c, 0)
  {
  }

  lemma FillNothing(buf: seq<char>)
    ensures Fill(buf, 0) == buf
  {
    RepeatNothing('0', -|buf|);
  }

  lemma AddNothing(buf: seq<char>)
    ensures AddIfRoom(buf, []) == buf
  {
  }

  lemma DigitsMore(before: seq<char>, v: nat, base: nat, upper: bool, room: nat)
    requires 2 <= base <= 16 && room > 0
    ensures var one := before + [DigitChar(v % base, upper)];
      && (v / base != 0 && room > 1 ==>
            one + Digits(v / base, base, upper, room - 1) == before + Digits(v, base, upper, room))
      && (v / base == 0 || room == 1 ==> one == before + Digits(v, base, upper, room))
  {
    hide DigitChar;
    if v / base != 0 {
      var rest := Digits(v / base, base, upper, room - 1);
      assert before + ([DigitChar(v % base, upper)] + rest) == before + [DigitChar(v % base, upper)] + rest;
      if room == 1 { assert rest == []; }
    }
  }

  lemma WidthAhead(f: seq<char>, fl: Flags, i: nat, args: seq<Arg>, a: nat)
    requires i <= |f|
    ensures var d := ParseWidth(f, fl, i, args, a);
      (d.Field? ==> d.at <= |f|)
  {
  }

  lemma BadStays(f: seq<char>, d: Field, args: seq<Arg>)
    ensures d.Bad? ==> ParsePrecision(f, d, args) == Bad
    ensures d.Bad? ==> ParseLength(f, d) == Bad
  {
  }
}
