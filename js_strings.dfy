/**
 * The three JavaScript string operations the handler relies on:
 * `indexOf` with a one-character pattern, `replace` with a one-character
 * string pattern (which replaces only the first occurrence) and
 * `toLowerCase`, restricted to ASCII letters.
 */
module JsStrings {

  /** `s.indexOf(c)`: the position of the first `c` in `s`, or -1. */
  function IndexOf(s: string, c: char): (r: int)
    ensures -1 <= r < |s|
    ensures r == -1 <==> c !in s
    ensures 0 <= r ==> s[r] == c && c !in s[..r]
  {
    if s == [] then -1
    else if s[0] == c then 0
    else
      var k := IndexOf(s[1..], c);
      if k < 0 then -1
      else
        assert s[..k + 1] == [s[0]] + s[1..][..k];
        k + 1
  }

  /**
   * `s.replace(c, '')` for a one-character string pattern: the first `c`
   * is removed, wherever it is, and nothing else changes.
   */
  function RemoveFirst(s: string, c: char): (r: string)
    ensures c !in s ==> r == s
    ensures c in s ==> |r| == |s| - 1
    ensures c in s ==> r == s[..IndexOf(s, c)] + s[IndexOf(s, c) + 1..]
    ensures multiset(r) == multiset(s) - multiset{c}
  {
    if s == [] then []
    else if s[0] == c then
      RemoveFirstHead(s, c);
      s[1..]
    else
      var rest := RemoveFirst(s[1..], c);
      RemoveFirstStep(s, c, rest);
      [s[0]] + rest
  }

  /** Removing a first character that is `c`. */
  lemma RemoveFirstHead(s: string, c: char)
    requires s != [] && s[0] == c
    ensures c in s && IndexOf(s, c) == 0
    ensures s[..0] + s[1..] == s[1..]
    ensures multiset(s[1..]) == multiset(s) - multiset{c}
  {
    assert s == [s[0]] + s[1..];
  }

  /** One step of RemoveFirst's recursion past a character that is not `c`. */
  lemma RemoveFirstStep(s: string, c: char, rest: string)
    requires s != [] && s[0] != c
    requires c !in s[1..] ==> rest == s[1..]
    requires c in s[1..] ==> rest == s[1..][..IndexOf(s[1..], c)] + s[1..][IndexOf(s[1..], c) + 1..]
    requires multiset(rest) == multiset(s[1..]) - multiset{c}
    ensures c !in s ==> [s[0]] + rest == s
    ensures c in s ==> [s[0]] + rest == s[..IndexOf(s, c)] + s[IndexOf(s, c) + 1..]
    ensures multiset([s[0]] + rest) == multiset(s) - multiset{c}
  {
    assert s == [s[0]] + s[1..];
    if c in s[1..] {
      RemoveFirstSlices(s, c);
    }
    RemoveFirstCount(s, c, rest);
  }

  /** Cutting out the first `c` after a first character that is not `c`. */
  lemma RemoveFirstSlices(s: string, c: char)
    requires s != [] && s[0] != c && c in s[1..]
    ensures IndexOf(s, c) == IndexOf(s[1..], c) + 1
    ensures [s[0]] + (s[1..][..IndexOf(s[1..], c)] + s[1..][IndexOf(s[1..], c) + 1..])
            == s[..IndexOf(s, c)] + s[IndexOf(s, c) + 1..]
  {
  }

  /** Putting back a first character that is not `c` keeps one `c` fewer. */
  lemma RemoveFirstCount(s: string, c: char, rest: string)
    requires s != [] && s[0] != c
    requires multiset(rest) == multiset(s[1..]) - multiset{c}
    ensures multiset([s[0]] + rest) == multiset(s) - multiset{c}
  {
    assert s == [s[0]] + s[1..];
    assert multiset(s) == multiset{s[0]} + multiset(s[1..]);
  }

  /** `c.toLowerCase()` for ASCII: A to Z become a to z, every other character is kept. */
  function LowerChar(c: char): char
  {
    if 'A' <= c <= 'Z' then (c as int + 32) as char else c
  }

  /** `s.toLowerCase()` over ASCII letters. */
  function ToLower(s: string): (r: string)
    ensures |r| == |s|
    ensures forall i :: 0 <= i < |s| ==> r[i] == LowerChar(s[i])
    ensures forall i :: 0 <= i < |r| ==> !('A' <= r[i] <= 'Z')
  {
    if s == [] then [] else [LowerChar(s[0])] + ToLower(s[1..])
  }

  /** Lower-casing twice is lower-casing once. */
  lemma ToLowerIdempotent(s: string)
    ensures ToLower(ToLower(s)) == ToLower(s)
  {
  }
}
