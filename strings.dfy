/** String helpers: suffix test, upper-casing, and Python's repr of an int tuple. */
module Strings {

  predicate EndsWith(s: string, suffix: string) {
    |suffix| <= |s| && s[|s| - |suffix|..] == suffix
  }

  /** Upper-cases one character; only the ASCII letters a-z have an upper case here. */
  function UpperChar(c: char): char {
    if 'a' <= c <= 'z' then (c as int - 32) as char else c
  }

  predicate IsUpperChar(c: char) {
    UpperChar(c) == c
  }

  /** `str.upper()`, restricted to ASCII case mapping. */
  function Upper(s: string): (r: string)
    ensures |r| == |s|
    ensures forall i | 0 <= i < |s| :: r[i] == UpperChar(s[i])
    ensures forall i | 0 <= i < |s| :: IsUpperChar(r[i])
  {
    if s == [] then [] else [UpperChar(s[0])] + Upper(s[1..])
  }

  /** Upper-casing twice is the same as upper-casing once. */
  lemma UpperIdempotent(s: string)
    ensures Upper(Upper(s)) == Upper(s)
  {
    assert forall i | 0 <= i < |s| :: Upper(Upper(s))[i] == Upper(s)[i];
  }

  function DigitChar(d: nat): char
    requires d < 10
  {
    "0123456789"[d]
  }

  function NatToString(n: nat): string
  {
    if n < 10 then [DigitChar(n)] else NatToString(n / 10) + [DigitChar(n % 10)]
  }

  /** Decimal text of an integer, as Python's `str(int)` writes it. */
  function IntToString(i: int): string
  {
    if i < 0 then "-" + NatToString(-i) else NatToString(i)
  }

  function CommaJoined(xs: seq<int>): string
    requires |xs| >= 1
  {
    if |xs| == 1 then IntToString(xs[0]) else IntToString(xs[0]) + ", " + CommaJoined(xs[1..])
  }

  /** Python's repr of a tuple of ints: `()`, `(5,)`, `(256, 256, 120)`. */
  function TupleRepr(xs: seq<int>): string
  {
    if |xs| == 0 then "()"
    else if |xs| == 1 then "(" + IntToString(xs[0]) + ",)"
    else "(" + CommaJoined(xs) + ")"
  }

  /** The repr of shapes as the failure message shows them: empty, one axis, and a multi-digit and a negative entry. */
  lemma TupleReprExamples()
    ensures TupleRepr([]) == "()"
    ensures TupleRepr([5]) == "(5,)"
    ensures TupleRepr([12, 3, -1]) == "(12, 3, -1)"
  {
    assert NatToString(5) == "5" && NatToString(3) == "3" && NatToString(1) == "1";
    assert NatToString(12) == "12" by {
      assert NatToString(1) == "1" && DigitChar(2) == '2';
    }
    assert CommaJoined([-1]) == "-1";
    assert CommaJoined([3, -1]) == "3, -1" by {
      assert [3, -1][1..] == [-1];
    }
    assert CommaJoined([12, 3, -1]) == "12, 3, -1" by {
      assert [12, 3, -1][1..] == [3, -1];
    }
  }
}
