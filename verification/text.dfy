/** The string operations behind every search box:
    `s.toLowerCase().includes(term.toLowerCase())`. */
module Text {

  /** `toLowerCase` on one character, restricted to ASCII letters. */
  function LowerChar(c: char): (r: char)
    ensures 'A' <= c <= 'Z' ==> 'a' <= r <= 'z'
    ensures !('A' <= c <= 'Z') ==> r == c
  {
    if 'A' <= c <= 'Z' then (c as int + 32) as char else c
  }

  function Lower(s: string): string {
    if |s| == 0 then "" else [LowerChar(s[0])] + Lower(s[1..])
  }

  /** Lowering works character by character and keeps the length. */
  lemma {:induction false} LowerPointwise(s: string)
    ensures |Lower(s)| == |s|
    ensures forall i :: 0 <= i < |s| ==> Lower(s)[i] == LowerChar(s[i])
    decreases |s|
  {
    if |s| > 0 {
      LowerPointwise(s[1..]);
    }
  }

  predicate StartsWith(s: string, prefix: string) {
    |prefix| <= |s| && s[..|prefix|] == prefix
  }

  /** `String.prototype.includes`: does `term` occur in `s` at some offset? */
  predicate Includes(s: string, term: string)
    decreases |s|
  {
    StartsWith(s, term) || (|s| > 0 && Includes(s[1..], term))
  }

  /** The reference meaning of "occurs in": a contiguous slice equal to term. */
  ghost predicate Occurs(term: string, s: string) {
    exists i, j :: 0 <= i <= j <= |s| && s[i..j] == term
  }

  lemma {:induction false} IncludesIffOccurs(s: string, term: string)
    ensures Includes(s, term) <==> Occurs(term, s)
    decreases |s|
  {
    if Includes(s, term) {
      if StartsWith(s, term) {
        assert s[0..|term|] == term;
      } else {
        IncludesIffOccurs(s[1..], term);
        var i, j :| 0 <= i <= j <= |s[1..]| && s[1..][i..j] == term;
        assert s[i + 1..j + 1] == term;
      }
    }
    if Occurs(term, s) {
      var i, j :| 0 <= i <= j <= |s| && s[i..j] == term;
      if i == 0 {
        assert StartsWith(s, term);
      } else {
        assert s[1..][i - 1..j - 1] == term;
        IncludesIffOccurs(s[1..], term);
      }
    }
  }

  /** The empty term occurs in every string: an empty search keeps everything. */
  lemma IncludesEmpty(s: string)
    ensures Includes(s, "")
  {
    assert StartsWith(s, "");
  }

  /** Searching is case-insensitive: any contiguous part of a string, typed
      in any letter case, is found in it. */
  lemma {:induction false} SliceIsFound(s: string, term: string, i: int, j: int)
    requires 0 <= i <= j <= |s|
    requires Lower(term) == Lower(s[i..j])
    ensures Includes(Lower(s), Lower(term))
  {
    var ls := Lower(s);
    LowerPointwise(s);
    LowerPointwise(s[i..j]);
    assert ls[i..j] == Lower(s[i..j]);
    IncludesIffOccurs(ls, Lower(s[i..j]));
  }
}
