/** Decimal printing and parsing, and Python's `str.split(c)[1]`, over `string`. */
module Text {
  import opened Wrappers

  predicate IsDigit(c: char) {
    '0' <= c <= '9'
  }

  function DigitChar(d: nat): (c: char)
    requires d < 10
    ensures IsDigit(c)
  {
    ['0', '1', '2', '3', '4', '5', '6', '7', '8', '9'][d]
  }

  function DigitValue(c: char): (d: nat)
    requires IsDigit(c)
    ensures d < 10
  {
    (c as int - '0' as int) as nat
  }

  lemma DigitRoundTrip(d: nat)
    requires d < 10
    ensures DigitValue(DigitChar(d)) == d
  {
  }

  /** Python's `str(n)` for a natural number: its shortest decimal spelling. */
  function NatToString(n: nat): (s: string)
    ensures |s| > 0
    ensures forall i :: 0 <= i < |s| ==> IsDigit(s[i])
    decreases n
  {
    if n < 10 then [DigitChar(n)] else NatToString(n / 10) + [DigitChar(n % 10)]
  }

  /** Python's `str(i)` / `"{0}".format(i)` for an integer. */
  function IntToString(i: int): (s: string)
    ensures |s| > 0
  {
    if i < 0 then "-" + NatToString(-i) else NatToString(i)
  }

  /** The value of a non-empty run of decimal digits (what `int(s)` accepts of the
      decimal spellings `NatToString` produces). Anything else is `None`. */
  function ParseNat(s: string): (r: Option<nat>)
    ensures r.Some? ==> |s| > 0 && forall i :: 0 <= i < |s| ==> IsDigit(s[i])
  {
    if |s| == 0 || !IsDigit(s[|s| - 1]) then None
    else if |s| == 1 then Some(DigitValue(s[0]))
    else
      match ParseNat(s[..|s| - 1])
      case None => None
      case Some(p) => Some(p * 10 + DigitValue(s[|s| - 1]))
  }

  /** Parsing undoes printing. */
  lemma {:induction false} ParseNatToString(n: nat)
    ensures ParseNat(NatToString(n)) == Some(n)
    decreases n
  {
    var s := NatToString(n);
    if n < 10 {
      DigitRoundTrip(n);
    } else {
      ParseNatToString(n / 10);
      assert s[..|s| - 1] == NatToString(n / 10);
      DigitRoundTrip(n % 10);
    }
  }

  /** Index of the first occurrence of `c` in `s`. */
  function FirstIndex(s: string, c: char): (r: Option<nat>)
    ensures r.Some? ==> r.value < |s| && s[r.value] == c && c !in s[..r.value]
    ensures r.None? ==> c !in s
  {
    if |s| == 0 then None
    else if s[0] == c then Some(0)
    else
      match FirstIndex(s[1..], c)
      case None => None
      case Some(i) => Some(i + 1)
  }

  /** Python's `s.split(c)[1]`: the text between the first and the second `c`
      (or the end); `None` where Python raises IndexError (no `c` at all). */
  function SecondField(s: string, c: char): (r: Option<string>)
    ensures r.None? <==> c !in s
    ensures r.Some? ==> c !in r.value
  {
    match FirstIndex(s, c)
    case None => None
    case Some(i) =>
      var rest := s[i + 1..];
      match FirstIndex(rest, c)
      case None => Some(rest)
      case Some(j) => Some(rest[..j])
  }

  /** A prefix free of the separator, the separator, then a separator-free tail:
      the second field is exactly that tail. */
  lemma SecondFieldOfJoin(p: string, c: char, q: string)
    requires c !in p && c !in q
    ensures SecondField(p + [c] + q, c) == Some(q)
  {
    var s := p + [c] + q;
    FirstIndexAfterPrefix(p, c, [c] + q);
    assert s[|p| + 1..] == q;
  }

  lemma {:induction false} FirstIndexAfterPrefix(p: string, c: char, t: string)
    requires c !in p && |t| > 0 && t[0] == c
    ensures FirstIndex(p + t, c) == Some(|p|)
    decreases |p|
  {
    if |p| > 0 {
      assert (p + t)[1..] == p[1..] + t;
      FirstIndexAfterPrefix(p[1..], c, t);
    } else {
      assert p + t == t;
    }
  }
}
