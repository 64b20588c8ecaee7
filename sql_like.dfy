/** The SQL `LIKE` operator as the queries of the service use it: `%` matches
    any run of characters, `_` any one character, a backslash makes the next
    character literal, everything else matches itself (a binary collation). */
module SqlLike {
  import opened Text

  predicate Like(s: string, p: string)
    decreases |p|, |s|
  {
    if p == [] then s == []
    else if p[0] == '%' then Like(s, p[1..]) || (s != [] && Like(s[1..], p))
    else if p[0] == '_' then s != [] && Like(s[1..], p[1..])
    else if p[0] == '\\' && |p| >= 2 then s != [] && s[0] == p[1] && Like(s[1..], p[2..])
    else s != [] && s[0] == p[0] && Like(s[1..], p[1..])
  }

  /** A string in which `LIKE` sees no special character. */
  predicate NoWildcards(t: string)
  {
    forall i :: 0 <= i < |t| ==> t[i] != '%' && t[i] != '_' && t[i] != '\\'
  }

  /** A literal head of a pattern must be matched character by character. */
  lemma {:induction false} LikeLiteralHead(s: string, t: string, q: string)
    requires NoWildcards(t)
    ensures Like(s, t + q) <==> IsPrefix(t, s) && Like(s[|t|..], q)
  {
    if t == [] {
      assert t + q == q && s[0..] == s;
    } else {
      assert (t + q)[0] == t[0] && (t + q)[1..] == t[1..] + q;
      if s != [] {
        LikeLiteralHead(s[1..], t[1..], q);
        if |t| <= |s| {
          assert s[1..][|t| - 1..] == s[|t|..];
        }
        assert IsPrefix(t, s) <==> s[0] == t[0] && IsPrefix(t[1..], s[1..]) by {
          if s[0] == t[0] && IsPrefix(t[1..], s[1..]) {
            assert s[..|t|] == [s[0]] + s[1..][..|t| - 1];
          }
        }
      }
    }
  }

  /** A leading `%` matches the pattern's rest against some suffix. */
  lemma {:induction false} LikePercentHead(s: string, q: string)
    ensures Like(s, "%" + q) <==> exists k :: 0 <= k <= |s| && Like(s[k..], q)
  {
    var p := "%" + q;
    assert p[0] == '%' && p[1..] == q;
    assert s[0..] == s;
    if s != [] {
      LikePercentHead(s[1..], q);
      if Like(s[1..], p) {
        var k :| 0 <= k <= |s| - 1 && Like(s[1..][k..], q);
        assert s[1..][k..] == s[k + 1..];
      }
      if k :| 0 <= k <= |s| && Like(s[k..], q) {
        if k > 0 {
          assert s[1..][k - 1..] == s[k..];
        }
      }
    }
  }

  /** `LIKE 't%'` is a prefix test when `t` has no wildcard. */
  lemma LikePrefix(s: string, t: string)
    requires NoWildcards(t)
    ensures Like(s, t + "%") <==> IsPrefix(t, s)
  {
    LikeLiteralHead(s, t, "%");
    if IsPrefix(t, s) {
      var rest := s[|t|..];
      LikePercentHead(rest, []);
      assert "%" + [] == "%";
      assert rest[|rest|..] == [];
    }
  }

  /** `LIKE '%t%'` is a substring test when `t` has no wildcard. */
  lemma LikeContains(s: string, t: string)
    requires NoWildcards(t)
    ensures Like(s, "%" + t + "%") <==> Contains(s, t)
  {
    assert "%" + t + "%" == "%" + (t + "%");
    LikePercentHead(s, t + "%");
    forall k | 0 <= k <= |s|
      ensures Like(s[k..], t + "%") <==> IsPrefix(t, s[k..])
    {
      LikePrefix(s[k..], t);
    }
  }
}
