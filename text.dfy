/** Generic facts about strings as sequences of characters: prefixes, substrings, trimming. */
module Text {

  predicate IsPrefix<T(==)>(p: seq<T>, s: seq<T>) {
    |p| <= |s| && s[..|p|] == p
  }

  /** `q` occurs in `s` starting at index `i`. */
  predicate OccursAt(s: string, q: string, i: int) {
    0 <= i <= |s| - |q| && s[i..i + |q|] == q
  }

  /** `q` occurs in `s` at some position. */
  predicate Contains(s: string, q: string) {
    exists i :: 0 <= i <= |s| - |q| && OccursAt(s, q, i)
  }

  /** Strips every leading and trailing character for which `isSpace` holds. */
  function TrimStart(s: string, isSpace: char -> bool): (r: string)
    ensures |r| <= |s| && r == s[|s| - |r|..]
    ensures r == [] || !isSpace(r[0])
  {
    if s != [] && isSpace(s[0]) then TrimStart(s[1..], isSpace) else s
  }

  function TrimEnd(s: string, isSpace: char -> bool): (r: string)
    ensures |r| <= |s| && r == s[..|r|]
    ensures r == [] || !isSpace(r[|r| - 1])
  {
    if s != [] && isSpace(s[|s| - 1]) then TrimEnd(s[..|s| - 1], isSpace) else s
  }

  function Trim(s: string, isSpace: char -> bool): string {
    TrimEnd(TrimStart(s, isSpace), isSpace)
  }

  predicate AllSpace(s: string, isSpace: char -> bool) {
    forall i :: 0 <= i < |s| ==> isSpace(s[i])
  }

  lemma AllSpaceTail(s: string, isSpace: char -> bool)
    requires s != [] && isSpace(s[0])
    ensures AllSpace(s, isSpace) <==> AllSpace(s[1..], isSpace)
  {
    assert forall i :: 0 <= i < |s| - 1 ==> s[1..][i] == s[i + 1];
    if AllSpace(s[1..], isSpace) {
      forall i | 0 <= i < |s| ensures isSpace(s[i]) {
        if i > 0 { assert s[i] == s[1..][i - 1]; }
      }
    }
  }

  lemma {:induction false} TrimStartEmpty(s: string, isSpace: char -> bool)
    ensures TrimStart(s, isSpace) == [] <==> AllSpace(s, isSpace)
  {
    if s != [] && isSpace(s[0]) {
      assert TrimStart(s, isSpace) == TrimStart(s[1..], isSpace);
      TrimStartEmpty(s[1..], isSpace);
      AllSpaceTail(s, isSpace);
    } else if s != [] {
      assert TrimStart(s, isSpace) == s;
      assert !isSpace(s[0]);
    }
  }

  /** Trimming leaves nothing exactly when every character is a space. */
  lemma TrimEmptyIffAllSpace(s: string, isSpace: char -> bool)
    ensures Trim(s, isSpace) == [] <==> AllSpace(s, isSpace)
  {
    TrimStartEmpty(s, isSpace);
    var t := TrimStart(s, isSpace);
    assert TrimEnd(t, isSpace) == [] <==> t == [] by {
      if t != [] { assert !isSpace(t[0]); EndKeepsNonSpace(t, isSpace); }
    }
  }

  lemma {:induction false} EndKeepsNonSpace(t: string, isSpace: char -> bool)
    requires t != [] && !isSpace(t[0])
    ensures TrimEnd(t, isSpace) != []
  {
    if isSpace(t[|t| - 1]) {
      assert |t| > 1;
      assert t[..|t| - 1][0] == t[0];
      EndKeepsNonSpace(t[..|t| - 1], isSpace);
    }
  }
}
