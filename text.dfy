/** Python's `str.join` and `%d`, the two string operations `__str__` needs. */
module Text {

  /** `sep.join(parts)`. */
  function Join(sep: string, parts: seq<string>): string {
    if |parts| == 0 then ""
    else if |parts| == 1 then parts[0]
    else parts[0] + sep + Join(sep, parts[1..])
  }

  /** `"".join(parts)`. */
  function Concat(parts: seq<string>): string {
    if parts == [] then "" else parts[0] + Concat(parts[1..])
  }

  function Digit(d: int): char
    requires 0 <= d < 10
  {
    "0123456789"[d]
  }

  function NatToDecimal(n: nat): string
    decreases n
  {
    if n < 10 then [Digit(n)] else NatToDecimal(n / 10) + [Digit(n % 10)]
  }

  /** `"%d" % i`. */
  function IntToDecimal(i: int): string {
    if i < 0 then "-" + NatToDecimal(-i) else NatToDecimal(i)
  }

  /** The number of line breaks in `s`. */
  function Newlines(s: string): nat {
    if s == [] then 0 else (if s[0] == '\n' then 1 else 0) + Newlines(s[1..])
  }

  lemma {:induction false} NewlinesAppend(a: string, b: string)
    ensures Newlines(a + b) == Newlines(a) + Newlines(b)
  {
    if a != [] {
      assert (a + b)[1..] == a[1..] + b;
      NewlinesAppend(a[1..], b);
    } else {
      assert a + b == b;
    }
  }

  lemma {:induction false} NoNewlines(s: string)
    requires forall k :: 0 <= k < |s| ==> s[k] != '\n'
    ensures Newlines(s) == 0
  {
    if s != [] {
      NoNewlines(s[1..]);
    }
  }

  /**
   * Joining one-character strings with a one-character separator puts part k
   * at position 2k and the separator at every odd position.
   */
  lemma {:induction false} JoinSingles(sep: char, parts: seq<string>)
    requires forall k :: 0 <= k < |parts| ==> |parts[k]| == 1
    ensures |Join([sep], parts)| == if |parts| == 0 then 0 else 2 * |parts| - 1
    ensures forall k :: 0 <= k < |parts| ==> Join([sep], parts)[2 * k] == parts[k][0]
    ensures forall k :: 0 <= k < |parts| - 1 ==> Join([sep], parts)[2 * k + 1] == sep
  {
    if |parts| > 1 {
      var rest := parts[1..];
      JoinSingles(sep, rest);
      var j := Join([sep], parts);
      assert j == parts[0] + [sep] + Join([sep], rest);
      forall k | 0 <= k < |parts| ensures j[2 * k] == parts[k][0] {
        if k > 0 { assert j[2 * k] == Join([sep], rest)[2 * (k - 1)]; assert rest[k - 1] == parts[k]; }
      }
      forall k | 0 <= k < |parts| - 1 ensures j[2 * k + 1] == sep {
        if k > 0 { assert j[2 * k + 1] == Join([sep], rest)[2 * (k - 1) + 1]; }
      }
    }
  }
}
