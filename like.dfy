/** The string operations the product search query is written with: SQL's
    `LOWER` and the `LIKE` pattern match, whose `%` stands for any run of
    characters and `_` for any single character. */
module SqlText {

  /** SQL `LOWER`, on the ASCII letters. */
  function LowerChar(c: char): char {
    if 'A' <= c <= 'Z' then (c as int + 32) as char else c
  }

  function Lower(s: string): (r: string)
    ensures |r| == |s|
    ensures forall i :: 0 <= i < |s| ==> r[i] == LowerChar(s[i])
  {
    seq(|s|, i requires 0 <= i < |s| => LowerChar(s[i]))
  }

  /** `s LIKE p`, with no escape character. */
  function Like(s: string, p: string): bool
    decreases |s| + |p|
  {
    if p == [] then s == []
    else if p[0] == '%' then Like(s, p[1..]) || (s != [] && Like(s[1..], p))
    else s != [] && (p[0] == '_' || p[0] == s[0]) && Like(s[1..], p[1..])
  }

  predicate NoWildcards(k: string) {
    forall i :: 0 <= i < |k| ==> k[i] != '%' && k[i] != '_'
  }

  predicate IsPrefix(k: string, s: string) {
    |k| <= |s| && s[..|k|] == k
  }

  /** `k` occurs in `s` as a contiguous substring. */
  predicate Contains(s: string, k: string) {
    exists i :: 0 <= i <= |s| && IsPrefix(k, s[i..])
  }

  /** A trailing `%` matches any rest of the string. */
  lemma {:induction false} LikeAnything(s: string)
    ensures Like(s, "%")
    decreases |s|
  {
    if s != [] {
      LikeAnything(s[1..]);
    }
  }

  /** Without wildcards in `k`, the pattern `k%` matches exactly the strings that start with `k`. */
  lemma {:induction false} LikePrefix(s: string, k: string)
    requires NoWildcards(k)
    ensures Like(s, k + "%") <==> IsPrefix(k, s)
    decreases |k|
  {
    var p := k + "%";
    if k == [] {
      assert p == "%";
      LikeAnything(s);
    } else {
      assert p[0] == k[0] && p[1..] == k[1..] + "%";
      assert NoWildcards(k[1..]) by {
        forall i | 0 <= i < |k[1..]| ensures k[1..][i] != '%' && k[1..][i] != '_' {
          assert k[1..][i] == k[i + 1];
        }
      }
      assert k[0] != '%' && k[0] != '_';
      if s != [] {
        LikePrefix(s[1..], k[1..]);
        if IsPrefix(k, s) {
          assert s[1..][..|k[1..]|] == s[..|k|][1..];
        }
        if s[0] == k[0] && IsPrefix(k[1..], s[1..]) {
          assert s[..|k|] == [s[0]] + s[1..][..|k[1..]|];
        }
      }
    }
  }

  /** A leading `%` lets the rest of the pattern match any suffix. */
  lemma {:induction false} LikeLeadingPercent(s: string, q: string)
    ensures Like(s, "%" + q) <==> exists i :: 0 <= i <= |s| && Like(s[i..], q)
    decreases |s|
  {
    var p := "%" + q;
    assert p[0] == '%' && p[1..] == q;
    if s == [] {
      assert s[0..] == s;
    } else {
      LikeLeadingPercent(s[1..], q);
      if Like(s, p) {
        if Like(s, q) {
          assert s[0..] == s;
        } else {
          var j :| 0 <= j <= |s[1..]| && Like(s[1..][j..], q);
          assert s[1..][j..] == s[j + 1..];
        }
      }
      if exists i :: 0 <= i <= |s| && Like(s[i..], q) {
        var i :| 0 <= i <= |s| && Like(s[i..], q);
        if i == 0 {
          assert s[0..] == s;
        } else {
          assert s[1..][i - 1..] == s[i..];
        }
      }
    }
  }

  /** Without wildcards in `k`, `s LIKE '%' || k || '%'` holds exactly when `s` contains `k`. */
  lemma LikeContains(s: string, k: string)
    requires NoWildcards(k)
    ensures Like(s, "%" + k + "%") <==> Contains(s, k)
  {
    assert "%" + k + "%" == "%" + (k + "%");
    LikeLeadingPercent(s, k + "%");
    forall i | 0 <= i <= |s| ensures Like(s[i..], k + "%") <==> IsPrefix(k, s[i..]) {
      LikePrefix(s[i..], k);
    }
  }

  /** Lower-casing the whole pattern lower-cases the keyword and keeps it free of wildcards. */
  lemma LowerPattern(k: string)
    ensures Lower("%" + k + "%") == "%" + Lower(k) + "%"
    ensures NoWildcards(k) ==> NoWildcards(Lower(k))
  {
    var l, r := Lower("%" + k + "%"), "%" + Lower(k) + "%";
    assert |l| == |r|;
    forall i | 0 <= i < |l| ensures l[i] == r[i] {
      if 0 < i < |l| - 1 {
        assert ("%" + k + "%")[i] == k[i - 1];
      }
    }
  }
}
