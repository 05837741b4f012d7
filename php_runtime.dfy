/** The PHP built-ins the Events macro relies on: the truthiness of a string,
    the decimal text of an integer (what `.` produces when it concatenates
    `toUnix()`), and `nl2br`. Each comes with the inverse that recovers its
    input. */
module PhpRuntime {

  datatype Option<+T> = None | Some(value: T)

  /** A PHP string is false in a condition exactly when it is "" or "0". */
  predicate Truthy(s: string) {
    s != "" && s != "0"
  }

  predicate IsDigit(c: char) {
    '0' <= c <= '9'
  }

  predicate AllDigits(s: string) {
    forall i :: 0 <= i < |s| ==> IsDigit(s[i])
  }

  // ---------------------------------------------------------------------
  // Integers as decimal text

  function DigitChar(d: nat): (c: char)
    requires d < 10
    ensures IsDigit(c) && c as int - '0' as int == d
  {
    ('0' as int + d) as char
  }

  function DigitValue(c: char): (d: nat)
    requires IsDigit(c)
    ensures d < 10
  {
    c as int - '0' as int
  }

  /** The decimal digits of n, most significant first, without leading zeros. */
  function NatToDecimal(n: nat): (s: string)
    ensures 1 <= |s| && AllDigits(s)
    ensures |s| > 1 ==> s[0] != '0'
    ensures n > 0 ==> s[0] != '0'
    decreases n
  {
    if n < 10 then [DigitChar(n)] else NatToDecimal(n / 10) + [DigitChar(n % 10)]
  }

  /** The value of a string of decimal digits. */
  function DecimalToNat(s: string): nat
    requires AllDigits(s)
    decreases |s|
  {
    if s == [] then 0 else DecimalToNat(s[..|s| - 1]) * 10 + DigitValue(s[|s| - 1])
  }

  /** PHP's conversion of an int to a string: an optional '-' and the digits. */
  function IntToString(n: int): (s: string)
    ensures 1 <= |s|
    ensures forall i :: 0 <= i < |s| ==> IsDigit(s[i]) || (i == 0 && s[i] == '-')
    ensures s[0] == '-' <==> n < 0
    ensures n >= 0 ==> AllDigits(s) && (|s| == 1 || s[0] != '0')
    ensures n < 0 ==> 2 <= |s| && AllDigits(s[1..]) && s[1] != '0'
  {
    if n < 0 then "-" + NatToDecimal(-n) else NatToDecimal(n)
  }

  /** Reads back an integer written as an optional '-' followed by digits. */
  function ParseInt(s: string): Option<int> {
    if 2 <= |s| && s[0] == '-' && AllDigits(s[1..]) then Some(0 - DecimalToNat(s[1..]) as int)
    else if 1 <= |s| && AllDigits(s) then Some(DecimalToNat(s))
    else None
  }

  lemma {:induction false} NatToDecimalRoundTrip(n: nat)
    ensures DecimalToNat(NatToDecimal(n)) == n
  {
    if n >= 10 {
      var s := NatToDecimal(n);
      assert s[..|s| - 1] == NatToDecimal(n / 10);
      NatToDecimalRoundTrip(n / 10);
    }
  }

  /** The text of a negative integer is '-' and the digits of its magnitude. */
  lemma {:induction false} NegativeTextReadsBack(m: nat)
    requires m > 0
    ensures ParseInt("-" + NatToDecimal(m)) == Some(-(m as int))
  {
    var d := NatToDecimal(m);
    var s := "-" + d;
    assert s[1..] == d;
    NatToDecimalRoundTrip(m);
    assert DecimalToNat(s[1..]) == m;
  }

  /** The text of a non-negative integer is its digits, and it does not start
      with '-'. */
  lemma {:induction false} NonNegativeTextReadsBack(n: nat)
    ensures ParseInt(NatToDecimal(n)) == Some(n)
  {
    var d := NatToDecimal(n);
    assert IsDigit(d[0]);
    NatToDecimalRoundTrip(n);
  }

  /** Every integer's decimal text reads back as that integer. */
  lemma {:induction false} IntToStringRoundTrip(n: int)
    ensures ParseInt(IntToString(n)) == Some(n)
  {
    if n < 0 {
      NegativeTextReadsBack(-n);
    } else {
      NonNegativeTextReadsBack(n);
    }
  }

  // ---------------------------------------------------------------------
  // nl2br

  predicate IsBreak(c: char) {
    c == '\r' || c == '\n'
  }

  /** How many characters the line break at the head of s takes: "\r\n" and
      "\n\r" count as one break, as nl2br reads them. */
  function BreakLength(s: string): (k: nat)
    requires 1 <= |s| && IsBreak(s[0])
    ensures 1 <= k <= 2 && k <= |s|
  {
    if 2 <= |s| && IsBreak(s[1]) && s[1] != s[0] then 2 else 1
  }

  const BrTag: string := "<br />"

  /** PHP's nl2br in its default XHTML form: "<br />" goes in front of every
      line break, and the break itself is kept. */
  function Nl2br(s: string): string
    decreases |s|
  {
    if s == [] then []
    else if IsBreak(s[0]) then
      var k := BreakLength(s);
      BrTag + s[..k] + Nl2br(s[k..])
    else [s[0]] + Nl2br(s[1..])
  }

  /** The inverse of Nl2br: drops each "<br />" that stands right in front of a
      line break. */
  function StripBreakTags(t: string): string
    decreases |t|
  {
    if t == [] then []
    else if 6 < |t| && t[..6] == BrTag && IsBreak(t[6]) then
      var k := BreakLength(t[6..]);
      t[6..6 + k] + StripBreakTags(t[6 + k..])
    else [t[0]] + StripBreakTags(t[1..])
  }

  /** The output of nl2br never starts with a line break. */
  lemma Nl2brHead(x: string)
    requires x != []
    ensures Nl2br(x) != [] && Nl2br(x)[0] == (if IsBreak(x[0]) then '<' else x[0])
  {
  }

  /** Where nl2br's output holds no '<', it is a verbatim copy of its input. */
  lemma {:induction false} Nl2brPlainPrefix(x: string, j: nat)
    requires j <= |Nl2br(x)|
    requires forall i :: 0 <= i < j ==> Nl2br(x)[i] != '<'
    ensures j <= |x| && Nl2br(x)[j..] == Nl2br(x[j..])
    decreases j
  {
    if j > 0 {
      Nl2brHead(x);
      assert Nl2br(x) == [x[0]] + Nl2br(x[1..]);
      forall i | 0 <= i < j - 1 ensures Nl2br(x[1..])[i] != '<' {
        assert Nl2br(x[1..])[i] == Nl2br(x)[i + 1];
      }
      Nl2brPlainPrefix(x[1..], j - 1);
      assert x[1..][j - 1..] == x[j..];
    }
  }

  /** One step of the round trip at a line break: the tag and the break are
      read back as the break. */
  lemma {:induction false} StripAfterBreak(s: string)
    requires s != [] && IsBreak(s[0])
    ensures StripBreakTags(Nl2br(s)) == s[..BreakLength(s)] + StripBreakTags(Nl2br(s[BreakLength(s)..]))
  {
    var k := BreakLength(s);
    var t := Nl2br(s);
    assert t == BrTag + s[..k] + Nl2br(s[k..]);
    assert t[..6] == BrTag && t[6] == s[0];
    if k == 1 && 1 < |s| {
      Nl2brHead(s[1..]);
      assert t[7] == Nl2br(s[1..])[0];
    }
    assert BreakLength(t[6..]) == k;
    assert t[6..6 + k] == s[..k];
    assert t[6 + k..] == Nl2br(s[k..]);
  }

  /** At an ordinary character nl2br's output cannot look like a tag standing
      in front of a line break. */
  lemma {:induction false} PlainHeadNotTag(s: string)
    requires s != [] && !IsBreak(s[0])
    ensures var t := Nl2br(s); !(6 < |t| && t[..6] == BrTag && IsBreak(t[6]))
  {
    var t := Nl2br(s);
    var u := Nl2br(s[1..]);
    assert t == [s[0]] + u;
    if 6 < |t| && t[..6] == BrTag {
      assert u[..5] == t[1..6] == "br />";
      forall i | 0 <= i < 5 ensures u[i] != '<' {
        assert u[i] == u[..5][i];
      }
      Nl2brPlainPrefix(s[1..], 5);
      Nl2brHead(s[1..][5..]);
      assert t[6] == u[5] == Nl2br(s[1..][5..])[0];
    }
  }

  /** One step of the round trip at an ordinary character. */
  lemma {:induction false} StripAfterPlain(s: string)
    requires s != [] && !IsBreak(s[0])
    ensures StripBreakTags(Nl2br(s)) == [s[0]] + StripBreakTags(Nl2br(s[1..]))
  {
    var t := Nl2br(s);
    PlainHeadNotTag(s);
    assert t == [s[0]] + Nl2br(s[1..]);
    assert t[1..] == Nl2br(s[1..]);
  }

  /** Stripping the inserted tags gives back exactly what nl2br was given. */
  lemma {:induction false} Nl2brRoundTrip(s: string)
    ensures StripBreakTags(Nl2br(s)) == s
    decreases |s|
  {
    if s != [] {
      if IsBreak(s[0]) {
        var k := BreakLength(s);
        StripAfterBreak(s);
        Nl2brRoundTrip(s[k..]);
        assert s == s[..k] + s[k..];
      } else {
        StripAfterPlain(s);
        Nl2brRoundTrip(s[1..]);
        assert s == [s[0]] + s[1..];
      }
    }
  }

  /** Text without line breaks passes through nl2br unchanged. */
  lemma {:induction false} Nl2brNoBreaks(s: string)
    requires forall i :: 0 <= i < |s| ==> !IsBreak(s[i])
    ensures Nl2br(s) == s
    decreases |s|
  {
    if s != [] {
      Nl2brNoBreaks(s[1..]);
      assert s == [s[0]] + s[1..];
    }
  }
}
