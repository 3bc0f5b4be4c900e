/** The SQL LIKE operator as MySQL evaluates it under a binary collation (utf8mb4_bin):
    `%` matches any run of characters, `_` exactly one, `\` makes the next character literal,
    and every other character must be equal, case and accents included. */
module SqlLike {

  import opened Text

  function Like(s: string, p: string): bool
    decreases |s| + |p|
  {
    if p == [] then s == []
    else if p[0] == '%' then Like(s, p[1..]) || (s != [] && Like(s[1..], p))
    else if s == [] then false
    else if p[0] == '_' then Like(s[1..], p[1..])
    else if p[0] == '\\' && |p| > 1 then s[0] == p[1] && Like(s[1..], p[2..])
    else s[0] == p[0] && Like(s[1..], p[1..])
  }

  /** A search string with none of LIKE's special characters. */
  predicate WildcardFree(q: string) {
    forall i :: 0 <= i < |q| ==> q[i] != '%' && q[i] != '_' && q[i] != '\\'
  }

  /** A wildcard-free pattern head matches exactly itself. */
  lemma {:induction false} LikeLiteral(s: string, q: string, rest: string)
    requires WildcardFree(q)
    ensures Like(s, q + rest) <==> IsPrefix(q, s) && Like(s[|q|..], rest)
    decreases |q|
  {
    if q == [] {
      assert q + rest == rest;
      assert s[|q|..] == s;
    } else {
      var p := q + rest;
      assert p[0] == q[0];
      assert p[1..] == q[1..] + rest;
      assert WildcardFree(q[1..]) by {
        forall i | 0 <= i < |q[1..]| ensures q[1..][i] != '%' && q[1..][i] != '_' && q[1..][i] != '\\' {
          assert q[1..][i] == q[i + 1];
        }
      }
      if s != [] {
        LikeLiteral(s[1..], q[1..], rest);
        if |q| <= |s| {
          assert s[1..][|q| - 1..] == s[|q|..];
        }
        assert IsPrefix(q, s) <==> s[0] == q[0] && IsPrefix(q[1..], s[1..]) by {
          if |q| <= |s| {
            assert s[..|q|] == [s[0]] + s[1..][..|q| - 1];
            assert q == [q[0]] + q[1..];
          }
        }
      }
    }
  }

  /** A leading `%` lets the rest of the pattern match any suffix. */
  lemma {:induction false} LikePercent(s: string, r: string)
    ensures Like(s, "%" + r) <==> exists i :: 0 <= i <= |s| && Like(s[i..], r)
    decreases |s|
  {
    var p := "%" + r;
    assert p[0] == '%' && p[1..] == r;
    if s == [] {
      if Like(s, r) { assert s[0..] == s; }
    } else {
      LikePercent(s[1..], r);
      if Like(s, p) {
        if Like(s, r) {
          assert s[0..] == s;
        } else {
          var i :| 0 <= i <= |s[1..]| && Like(s[1..][i..], r);
          assert s[1..][i..] == s[i + 1..];
        }
      }
      if exists i :: 0 <= i <= |s| && Like(s[i..], r) {
        var i :| 0 <= i <= |s| && Like(s[i..], r);
        if i == 0 {
          assert s[0..] == s;
        } else {
          assert s[1..][i - 1..] == s[i..];
        }
      }
    }
  }

  /** `%` alone matches every string. */
  lemma {:induction false} LikeAnything(s: string)
    ensures Like(s, "%")
    decreases |s|
  {
    assert "%"[1..] == [];
    if s != [] {
      LikeAnything(s[1..]);
    }
  }

  /** The pattern `%q%` of a wildcard-free `q` matches exactly the strings that contain `q`. */
  lemma LikeContains(s: string, q: string)
    requires WildcardFree(q)
    ensures Like(s, "%" + q + "%") <==> Contains(s, q)
  {
    assert "%" + q + "%" == "%" + (q + "%");
    LikePercent(s, q + "%");
    if Like(s, "%" + q + "%") {
      var i :| 0 <= i <= |s| && Like(s[i..], q + "%");
      LikeLiteral(s[i..], q, "%");
      assert s[i..][..|q|] == s[i..i + |q|];
      assert OccursAt(s, q, i);
    }
    if Contains(s, q) {
      var i :| 0 <= i <= |s| - |q| && OccursAt(s, q, i);
      assert s[i..][..|q|] == s[i..i + |q|];
      LikeAnything(s[i..][|q|..]);
      LikeLiteral(s[i..], q, "%");
    }
  }
}
