/**
 * The parts of Go's `strings` package that the image panel relies on:
 * `strings.ToLower`, `strings.Index` and `strings.SplitN(s, sep, 2)`.
 * Case mapping is modelled on ASCII letters only.
 */
module GoStrings {

  /** `unicode.ToLower` restricted to the ASCII letters. */
  function LowerChar(c: char): char
  {
    if 'A' <= c <= 'Z' then (c as int + 32) as char else c
  }

  /** `strings.ToLower`: maps every character through `LowerChar`. */
  function ToLower(s: string): (r: string)
    ensures |r| == |s|
    ensures forall k :: 0 <= k < |s| ==> r[k] == LowerChar(s[k])
  {
    if s == [] then [] else [LowerChar(s[0])] + ToLower(s[1..])
  }

  /** `sub` occurs in `s` starting at position `k`. */
  predicate MatchAt(s: string, sub: string, k: int)
  {
    0 <= k && k + |sub| <= |s| && s[k..k + |sub|] == sub
  }

  /** `sub` is a substring of `s`. */
  ghost predicate Occurs(sub: string, s: string)
  {
    exists k :: MatchAt(s, sub, k)
  }

  /** The search of `strings.Index`, continued from position `start`. */
  function IndexFrom(s: string, sub: string, start: nat): (r: int)
    decreases |s| - start
    ensures r == -1 || (start <= r && MatchAt(s, sub, r))
    ensures r == -1 ==> forall k :: start <= k ==> !MatchAt(s, sub, k)
    ensures r != -1 ==> forall k :: start <= k < r ==> !MatchAt(s, sub, k)
  {
    if start + |sub| > |s| then -1
    else if s[start..start + |sub|] == sub then start
    else IndexFrom(s, sub, start + 1)
  }

  /**
   * `strings.Index(s, sub)`: the first position at which `sub` occurs in `s`,
   * or -1 when it does not occur at all.
   */
  function IndexOf(s: string, sub: string): (r: int)
    ensures r == -1 <==> !Occurs(sub, s)
    ensures r != -1 ==> MatchAt(s, sub, r) && forall k :: 0 <= k < r ==> !MatchAt(s, sub, k)
  {
    IndexFrom(s, sub, 0)
  }

  /**
   * `strings.SplitN(s, sep, 2)` for a non-empty separator: `[s]` when `sep`
   * does not occur, otherwise the text before the first `sep` and everything
   * after it.
   */
  function SplitN2(s: string, sep: string): (r: seq<string>)
    requires sep != ""
    ensures |r| == 1 || |r| == 2
    ensures |r| == 1 <==> !Occurs(sep, s)
    ensures |r| == 1 ==> r[0] == s
    ensures |r| == 2 ==> s == r[0] + sep + r[1]
    ensures |r| == 2 ==> forall k :: 0 <= k < |r[0]| ==> !MatchAt(s, sep, k)
  {
    var k := IndexOf(s, sep);
    if k == -1 then [s]
    else
      assert s == s[..k] + s[k..k + |sep|] + s[k + |sep|..];
      [s[..k], s[k + |sep|..]]
  }

  /** The empty string occurs in every string, so it passes every substring test. */
  lemma EmptyOccurs(s: string)
    ensures Occurs("", s)
  {
    assert MatchAt(s, "", 0);
  }

  /** A one-character string occurs exactly when that character is present. */
  lemma OccursChar(c: char, s: string)
    ensures Occurs([c], s) <==> c in s
  {
    if c in s {
      var k :| 0 <= k < |s| && s[k] == c;
      assert MatchAt(s, [c], k);
    }
    if Occurs([c], s) {
      var k :| MatchAt(s, [c], k);
      assert s[k..k + 1][0] == s[k];
    }
  }

  /** A string occurs in `s` only if its first character does. */
  lemma OccursFirstChar(sub: string, s: string)
    requires sub != [] && Occurs(sub, s)
    ensures sub[0] in s
  {
    var k :| MatchAt(s, sub, k);
    assert s[k..k + |sub|][0] == s[k];
  }

  /** Lower-casing twice is the same as lower-casing once. */
  lemma ToLowerIdempotent(s: string)
    ensures ToLower(ToLower(s)) == ToLower(s)
  {
    var once := ToLower(s);
    assert forall k :: 0 <= k < |s| ==> LowerChar(once[k]) == once[k];
  }

  /** Lower-casing distributes over concatenation. */
  lemma ToLowerAppend(a: string, b: string)
    ensures ToLower(a + b) == ToLower(a) + ToLower(b)
  {
    var ab := a + b;
    assert forall k :: 0 <= k < |b| ==> ab[|a| + k] == b[k];
  }
}
