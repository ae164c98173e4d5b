/**
 * String helpers behind the callback tokens: Python's `str.split(sep)` and its
 * inverse `sep.join(parts)`, decimal formatting of a number (`f"{n}"`) and
 * `int(s)` on the strings the tokens carry.
 */
module Tokens {
  import opened Common

  /** `sep.join(parts)`. */
  function Join(parts: seq<string>, sep: char): string
    requires |parts| > 0
  {
    if |parts| == 1 then parts[0] else parts[0] + [sep] + Join(parts[1..], sep)
  }

  /** `s.split(sep)`: the pieces between separators, never an empty list. */
  function Split(s: string, sep: char): (parts: seq<string>)
    ensures |parts| > 0
    ensures Join(parts, sep) == s
    ensures forall k :: 0 <= k < |parts| ==> sep !in parts[k]
    ensures |parts| == 1 <==> sep !in s
  {
    if s == [] then [[]]
    else
      var rest := Split(s[1..], sep);
      assert s == [s[0]] + s[1..];
      if s[0] == sep then [[]] + rest
      else
        var first := [s[0]] + rest[0];
        assert |rest| > 1 ==> Join(rest, sep) == rest[0] + [sep] + Join(rest[1..], sep);
        assert |rest| > 1 ==> Join([first] + rest[1..], sep) == first + [sep] + Join(rest[1..], sep) by {
          assert ([first] + rest[1..])[1..] == rest[1..];
        }
        [first] + rest[1..]
  }

  /** Splitting a join of separator-free parts gives the parts back. */
  lemma {:induction false} SplitJoin(parts: seq<string>, sep: char)
    requires |parts| > 0
    requires forall k :: 0 <= k < |parts| ==> sep !in parts[k]
    ensures Split(Join(parts, sep), sep) == parts
  {
    if |parts| == 1 {
      assert Join(parts, sep) == parts[0];
    } else {
      SplitJoin(parts[1..], sep);
      SplitPrefix(parts[0], Join(parts[1..], sep), sep);
      assert parts == [parts[0]] + parts[1..];
    }
  }

  /** A separator-free head followed by a separator splits off as one piece. */
  lemma {:induction false} SplitPrefix(a: string, b: string, sep: char)
    requires sep !in a
    ensures Split(a + [sep] + b, sep) == [a] + Split(b, sep)
  {
    if a == [] {
      assert a + [sep] + b == [sep] + b;
      assert ([sep] + b)[1..] == b;
    } else {
      var x := a + [sep] + b;
      assert x[0] == a[0] != sep;
      assert x[1..] == a[1..] + [sep] + b;
      SplitPrefix(a[1..], b, sep);
      var rest := Split(x[1..], sep);
      assert rest[0] == a[1..] && rest[1..] == Split(b, sep);
      assert Split(x, sep) == [[x[0]] + rest[0]] + rest[1..];
      assert [a[0]] + a[1..] == a;
    }
  }

  predicate IsDigit(c: char) { '0' <= c <= '9' }

  predicate AllDigits(s: string) {
    forall k :: 0 <= k < |s| ==> IsDigit(s[k])
  }

  /** The value of a string of decimal digits, most significant first. */
  function DigitsValue(s: string): nat
    requires AllDigits(s)
  {
    if s == [] then 0 else 10 * DigitsValue(s[..|s| - 1]) + (s[|s| - 1] as int - '0' as int)
  }

  /** `f"{n}"` for a natural number: its decimal digits, without leading zeros. */
  function NatToString(n: nat): (s: string)
    ensures |s| > 0 && AllDigits(s)
    ensures DigitsValue(s) == n
    ensures |s| > 1 ==> s[0] != '0'
  {
    var d := ['0' + (n % 10) as char];
    if n < 10 then d
    else
      var s := NatToString(n / 10) + d;
      assert s[..|s| - 1] == NatToString(n / 10);
      s
  }

  /** The literals `int()` accepts here: an optional sign followed by one or more decimal digits. */
  predicate IsIntLiteral(s: string) {
    || (s != [] && AllDigits(s))
    || (|s| > 1 && (s[0] == '-' || s[0] == '+') && AllDigits(s[1..]))
  }

  /**
   * `int(s)`: an optional sign followed by one or more decimal digits; anything
   * else raises `ValueError`, modelled as `None`.
   */
  function ParseInt(s: string): (r: Option<int>)
    ensures r.Some? <==> IsIntLiteral(s)
    ensures AllDigits(s) && s != [] ==> r == Some(DigitsValue(s))
    ensures |s| > 1 && s[0] == '+' && AllDigits(s[1..]) ==> r == Some(DigitsValue(s[1..]))
    ensures |s| > 1 && s[0] == '-' && AllDigits(s[1..]) ==> r == Some(-(DigitsValue(s[1..]) as int))
  {
    if s == [] then None
    else if s[0] == '-' || s[0] == '+' then
      var ds := s[1..];
      var v: int := if ds != [] && AllDigits(ds) then DigitsValue(ds) else 0;
      if ds != [] && AllDigits(ds) then Some(if s[0] == '-' then -v else v)
      else None
    else if AllDigits(s) then Some(DigitsValue(s))
    else None
  }

  /** Formatting a number and reading it back gives the number. */
  lemma ParseFormat(n: nat)
    ensures ParseInt(NatToString(n)) == Some(n)
  {
  }

  /** A signed formatted number reads back with its sign. */
  lemma ParseSigned(n: nat)
    ensures ParseInt("-" + NatToString(n)) == Some(-(n as int))
    ensures ParseInt("+" + NatToString(n)) == Some(n)
  {
    assert ("-" + NatToString(n))[1..] == NatToString(n);
    assert ("+" + NatToString(n))[1..] == NatToString(n);
  }

  lemma DigitsHaveNoColon(n: nat)
    ensures ':' !in NatToString(n)
  {
  }
}
