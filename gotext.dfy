/**
 * The parts of Go's `strings` and `fmt` packages that the weather client and
 * its command line rely on: lower-casing, substring search, the byte length
 * that `len` reports for a string, `%d` decimal rendering and `Sprintf` for the
 * verbs `%s`, `%d` and `%%`.
 */
module GoText {
  import opened Wrappers

  // ---------------------------------------------------------------- ToLower

  /** Lower-cases one character; only the ASCII letters A-Z are mapped. */
  function LowerChar(c: char): char {
    if 'A' <= c <= 'Z' then (c as int + 32) as char else c
  }

  /** `strings.ToLower`, restricted to ASCII letters. */
  function Lower(s: string): (r: string)
    ensures |r| == |s|
    ensures forall i | 0 <= i < |s| :: r[i] == LowerChar(s[i])
  {
    seq(|s|, i requires 0 <= i < |s| => LowerChar(s[i]))
  }

  /** Lower-casing an already lowered string changes nothing. */
  lemma LowerIdempotent(s: string)
    ensures Lower(Lower(s)) == Lower(s)
  {
    forall i | 0 <= i < |s|
      ensures Lower(Lower(s))[i] == Lower(s)[i]
    {
      var c := s[i];
      assert Lower(s)[i] == LowerChar(c);
      if 'A' <= c <= 'Z' {
        assert 'a' <= LowerChar(c) <= 'z';
      }
    }
  }

  /** Lower-casing works character by character, so it distributes over concatenation. */
  lemma LowerConcat(a: string, b: string)
    ensures Lower(a + b) == Lower(a) + Lower(b)
  {
    assert |Lower(a + b)| == |Lower(a) + Lower(b)|;
    forall i | 0 <= i < |a + b|
      ensures Lower(a + b)[i] == (Lower(a) + Lower(b))[i]
    {
      if i < |a| {
        assert (a + b)[i] == a[i];
      } else {
        assert (a + b)[i] == b[i - |a|];
      }
    }
  }

  // --------------------------------------------------------------- Contains

  /** Reference meaning of "t occurs in s as a contiguous substring". */
  ghost predicate Occurs(s: string, t: string) {
    exists i, j | 0 <= i <= j <= |s| :: s[i..j] == t
  }

  /**
   * `strings.Contains(s, t)`: tries every start position of `s` in turn.
   * Like Go's, it holds for the empty `t` whatever `s` is.
   */
  function Contains(s: string, t: string): (b: bool)
    ensures b <==> Occurs(s, t)
    decreases |s|
  {
    if s == [] then
      OccursEmpty(t);
      t == []
    else
      OccursStep(s, t);
      t <= s || Contains(s[1..], t)
  }

  /** The empty string contains only the empty string. */
  lemma OccursEmpty(t: string)
    ensures Occurs([], t) <==> t == []
  {
    var empty: string := [];
    if t == [] {
      assert empty[0..0] == t;
    }
  }

  /** An occurrence in a non-empty `s` is either at position 0 or inside `s[1..]`. */
  lemma OccursStep(s: string, t: string)
    requires s != []
    ensures Occurs(s, t) <==> t <= s || Occurs(s[1..], t)
  {
    if Occurs(s, t) {
      var i, j :| 0 <= i <= j <= |s| && s[i..j] == t;
      if i == 0 {
        assert s[..j] == t;
      } else {
        assert s[1..][i - 1..j - 1] == t;
      }
    }
    if t <= s {
      assert s[0..|t|] == t;
    }
    if Occurs(s[1..], t) {
      var i, j :| 0 <= i <= j <= |s[1..]| && s[1..][i..j] == t;
      assert s[i + 1..j + 1] == t;
    }
  }

  /** An occurrence survives any text added on either side. */
  lemma OccursExtend(s: string, t: string, x: string, y: string)
    requires Occurs(s, t)
    ensures Occurs(x + s + y, t)
  {
    var i, j :| 0 <= i <= j <= |s| && s[i..j] == t;
    assert (x + s + y)[|x| + i..|x| + j] == s[i..j];
  }

  // --------------------------------------------------------- len (in bytes)

  /** Number of bytes of the UTF-8 encoding of one Unicode scalar value. */
  function Utf8Width(c: char): nat {
    if c as int < 0x80 then 1
    else if c as int < 0x800 then 2
    else if c as int < 0x10000 then 3
    else 4
  }

  /** Go's `len` of a string: the length of its UTF-8 encoding. */
  function ByteLen(s: string): nat {
    if s == [] then 0 else Utf8Width(s[0]) + ByteLen(s[1..])
  }

  predicate IsAscii(s: string) {
    forall i | 0 <= i < |s| :: s[i] as int < 0x80
  }

  /** Every character takes at least one byte, and ASCII takes exactly one. */
  lemma {:induction false} ByteLenBounds(s: string)
    ensures |s| <= ByteLen(s) <= 4 * |s|
    ensures ByteLen(s) == |s| <==> IsAscii(s)
  {
    if s != [] {
      ByteLenBounds(s[1..]);
      if IsAscii(s[1..]) && s[0] as int < 0x80 {
        assert forall i | 1 <= i < |s| :: s[i] == s[1..][i - 1];
      }
      if !IsAscii(s[1..]) {
        var i :| 0 <= i < |s[1..]| && s[1..][i] as int >= 0x80;
        assert s[i + 1] as int >= 0x80;
      }
    }
  }

  /** A string is one byte long exactly when it is a single ASCII character. */
  lemma ByteLenOne(s: string)
    ensures ByteLen(s) == 1 <==> |s| == 1 && s[0] as int < 0x80
  {
    ByteLenBounds(s);
    if |s| >= 1 {
      ByteLenBounds(s[1..]);
    }
  }

  /** A string is two bytes long exactly when it is two ASCII characters or one two-byte character. */
  lemma ByteLenTwo(s: string)
    ensures ByteLen(s) == 2 <==>
      (|s| == 2 && IsAscii(s)) || (|s| == 1 && 0x80 <= s[0] as int < 0x800)
  {
    ByteLenBounds(s);
    if |s| >= 1 {
      ByteLenBounds(s[1..]);
      if |s| >= 2 {
        ByteLenBounds(s[2..]);
        assert s[1..][1..] == s[2..];
      }
    }
  }

  // ------------------------------------------------------- %d and its inverse

  function DigitChar(d: nat): (c: char)
    requires d < 10
    ensures '0' <= c <= '9'
  {
    ('0' as int + d) as char
  }

  /** Decimal digits of a natural number, most significant first, no leading zero. */
  function NatDigits(n: nat): string
    decreases n
  {
    if n < 10 then [DigitChar(n)] else NatDigits(n / 10) + [DigitChar(n % 10)]
  }

  /** `%d` of an integer: a minus sign for negative values, then the digits of the magnitude. */
  function Decimal(n: int): string {
    if n < 0 then "-" + NatDigits(-n) else NatDigits(n)
  }

  predicate IsDigits(s: string) {
    s != [] && forall i | 0 <= i < |s| :: '0' <= s[i] <= '9'
  }

  /** Value of a string of decimal digits, read most significant first. */
  function DigitsValue(s: string): nat
    requires forall i | 0 <= i < |s| :: '0' <= s[i] <= '9'
  {
    if s == [] then 0 else DigitsValue(s[..|s| - 1]) * 10 + (s[|s| - 1] as int - '0' as int)
  }

  /** Reads back what `Decimal` writes: an optional minus sign and decimal digits. */
  function ParseDecimal(s: string): Option<int> {
    if IsDigits(s) then Some(DigitsValue(s))
    else if |s| > 1 && s[0] == '-' && IsDigits(s[1..]) then Some(-(DigitsValue(s[1..]) as int))
    else None
  }

  /** The digits of `n` are decimal digits, without a leading zero, and denote `n`. */
  lemma {:induction false} NatDigitsValue(n: nat)
    ensures IsDigits(NatDigits(n))
    ensures DigitsValue(NatDigits(n)) == n
    ensures NatDigits(n)[0] == '0' ==> n == 0
    decreases n
  {
    if n >= 10 {
      NatDigitsValue(n / 10);
      var s := NatDigits(n);
      assert s[..|s| - 1] == NatDigits(n / 10);
    }
  }

  /** `%d` round-trips: parsing the rendered integer gives it back. */
  lemma DecimalRoundTrip(n: int)
    ensures ParseDecimal(Decimal(n)) == Some(n)
  {
    if n < 0 {
      NatDigitsValue(-n);
      assert Decimal(n)[1..] == NatDigits(-n);
      assert Decimal(n)[0] == '-';
    } else {
      NatDigitsValue(n);
    }
  }

  /** `%d` never writes anything but a minus sign and digits. */
  lemma DecimalAlphabet(n: int)
    ensures forall i | 0 <= i < |Decimal(n)| :: Decimal(n)[i] == '-' || '0' <= Decimal(n)[i] <= '9'
  {
    if n < 0 {
      NatDigitsValue(-n);
    } else {
      NatDigitsValue(n);
    }
  }

  // ----------------------------------------------------------------- Sprintf

  /** An operand of `Sprintf`: the two Go types the weather client passes. */
  datatype Arg = Str(s: string) | Int(n: int)

  /** How Go names an operand in its error annotations (`string=...`, `int=...`). */
  function Describe(a: Arg): string {
    match a
    case Str(s) => "string=" + s
    case Int(n) => "int=" + Decimal(n)
  }

  function DescribeAll(args: seq<Arg>): string
    requires args != []
  {
    if |args| == 1 then Describe(args[0]) else Describe(args[0]) + ", " + DescribeAll(args[1..])
  }

  /** What Go appends when operands are left over once the format is used up. */
  function Extra(args: seq<Arg>): string {
    if args == [] then "" else "%!(EXTRA " + DescribeAll(args) + ")"
  }

  /** One operand under the verb `s` or `d`, with Go's annotation when the type does not fit. */
  function Render(verb: char, a: Arg): string
    requires verb == 's' || verb == 'd'
  {
    match a
    case Str(s) => if verb == 's' then s else "%!d(string=" + s + ")"
    case Int(n) => if verb == 'd' then Decimal(n) else "%!s(int=" + Decimal(n) + ")"
  }

  /**
   * `fmt.Sprintf(format, args...)` for formats whose verbs are `%s`, `%d` and
   * `%%`, including Go's annotations for a missing operand, a mistyped one,
   * a trailing `%` and left-over operands.
   */
  function Sprintf(format: string, args: seq<Arg>): string
    decreases |format|
  {
    if format == [] then Extra(args)
    else if format[0] != '%' then [format[0]] + Sprintf(format[1..], args)
    else if |format| == 1 then "%!(NOVERB)" + Extra(args)
    else if format[1] == 's' || format[1] == 'd' then
      if args == [] then "%!" + [format[1]] + "(MISSING)" + Sprintf(format[2..], [])
      else Render(format[1], args[0]) + Sprintf(format[2..], args[1..])
    else if format[1] == '%' then "%" + Sprintf(format[2..], args)
    else format[..2] + Sprintf(format[2..], args)
  }

  /** Text without `%` in a format is copied through unchanged. */
  lemma {:induction false} SprintfLiteral(lit: string, rest: string, args: seq<Arg>)
    requires forall i | 0 <= i < |lit| :: lit[i] != '%'
    ensures Sprintf(lit + rest, args) == lit + Sprintf(rest, args)
  {
    if lit != [] {
      var format := lit + rest;
      assert format[0] == lit[0] != '%';
      assert format[1..] == lit[1..] + rest;
      assert Sprintf(format, args) == [lit[0]] + Sprintf(lit[1..] + rest, args);
      SprintfLiteral(lit[1..], rest, args);
      assert [lit[0]] + lit[1..] == lit;
    } else {
      assert lit + rest == rest;
    }
  }

  /** A verb `%s` or `%d` consumes the next operand. */
  lemma SprintfVerb(verb: char, rest: string, a: Arg, args: seq<Arg>)
    requires verb == 's' || verb == 'd'
    ensures Sprintf(['%', verb] + rest, [a] + args) == Render(verb, a) + Sprintf(rest, args)
  {
    var format := ['%', verb] + rest;
    assert format[0] == '%' && format[1] == verb;
    assert format[2..] == rest;
    assert ([a] + args)[1..] == args;
  }
}
