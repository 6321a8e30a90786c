/** PHP's plain string search and replacement, as the sniff uses them:
    `strpos($s, $p) !== false` is `Contains(s, p)` and
    `str_replace($pat, $rep, $s)` with a non-empty search string is `ReplaceAll(s, pat, rep)`. */
module Strings {

  predicate StartsWith(s: string, p: string) {
    |p| <= |s| && s[..|p|] == p
  }

  /** `p` occurs somewhere in `s`. */
  predicate Contains(s: string, p: string)
    decreases |s|
  {
    StartsWith(s, p) || (|s| > 0 && Contains(s[1..], p))
  }

  /** No character of `a` occurs in `b` (and so none of `b` in `a`). */
  predicate Disjoint(a: string, b: string) {
    forall i, j :: 0 <= i < |a| && 0 <= j < |b| ==> a[i] != b[j]
  }

  /** Every occurrence of `pat`, found left to right and never overlapping, is replaced by
      `rep`; the inserted text is not searched again. (The second component of the
      decreases clause changes nothing for termination; it keeps the verifier from
      evaluating calls on a literal text with a literal replacement eagerly.) */
  function ReplaceAll(s: string, pat: string, rep: string): (r: string)
    requires |pat| > 0
    decreases |s|, |rep|
  {
    if |s| == 0 then []
    else if StartsWith(s, pat) then rep + ReplaceAll(s[|pat|..], pat, rep)
    else [s[0]] + ReplaceAll(s[1..], pat, rep)
  }

  // ---- small facts about sequences, kept apart so that each is proved on its own ----

  lemma Associative(a: string, b: string, c: string)
    ensures a + b + c == a + (b + c)
  {
  }

  lemma Uncons(a: string)
    requires |a| > 0
    ensures a == [a[0]] + a[1..]
  {
  }

  lemma DropAppend(a: string, t: string, k: nat)
    requires k <= |a|
    ensures (a + t)[k..] == a[k..] + t
  {
  }

  lemma TakeAppend(a: string, t: string, k: nat)
    requires k <= |a|
    ensures (a + t)[..k] == a[..k]
  {
  }

  lemma StartsWithAt(s: string, p: string, i: int)
    ensures StartsWith(s, p) && 0 <= i < |p| ==> s[i] == p[i]
  {
    if StartsWith(s, p) && 0 <= i < |p| {
      assert s[..|p|][i] == s[i];
    }
  }

  /** `s` begins with `p` exactly when its first character is `p`'s and the rest of `s`
      begins with the rest of `p`. */
  lemma StartsWithCons(s: string, p: string)
    requires |s| > 0 && |p| > 0
    ensures StartsWith(s, p) <==> s[0] == p[0] && StartsWith(s[1..], p[1..])
  {
    if StartsWith(s, p) {
      assert s[1..][..|p| - 1] == s[..|p|][1..];
    }
    if s[0] == p[0] && StartsWith(s[1..], p[1..]) {
      assert s[..|p|] == [s[0]] + s[1..][..|p| - 1];
      Uncons(p);
    }
  }

  /** The result of replacing in `s`, one step of the scan unfolded. */
  lemma ReplaceStep(s: string, pat: string, rep: string)
    requires |pat| > 0 && |s| > 0
    ensures StartsWith(s, pat) ==>
      ReplaceAll(s, pat, rep) == rep + ReplaceAll(s[|pat|..], pat, rep)
    ensures !StartsWith(s, pat) ==>
      ReplaceAll(s, pat, rep) == [s[0]] + ReplaceAll(s[1..], pat, rep)
  {
  }

  // ---- occurrences ----

  lemma {:induction false} ContainsFirstChar(s: string, p: string)
    requires |p| > 0 && Contains(s, p)
    ensures p[0] in s
    decreases |s|
  {
    if StartsWith(s, p) {
      StartsWithAt(s, p, 0);
    } else {
      ContainsFirstChar(s[1..], p);
    }
  }

  /** `p` occurs at the end of `a + p`. */
  lemma {:induction false} ContainsAtEnd(a: string, p: string)
    ensures Contains(a + p, p)
    decreases |a|
  {
    if |a| == 0 {
      assert (a + p)[..|p|] == p;
    } else {
      DropAppend(a, p, 1);
      ContainsAtEnd(a[1..], p);
    }
  }

  /** An occurrence stays an occurrence whatever is put in front of it. */
  lemma {:induction false} ContainsExtends(a: string, t: string, p: string)
    requires Contains(t, p)
    ensures Contains(a + t, p)
    decreases |a|
  {
    if |a| == 0 {
      assert a + t == t;
    } else {
      DropAppend(a, t, 1);
      ContainsExtends(a[1..], t, p);
    }
  }

  /** An occurrence stays an occurrence whatever is put after it. */
  lemma {:induction false} ContainsExtendsRight(t: string, b: string, p: string)
    requires Contains(t, p)
    ensures Contains(t + b, p)
    decreases |t|
  {
    if StartsWith(t, p) {
      TakeAppend(t, b, |p|);
    } else {
      DropAppend(t, b, 1);
      ContainsExtendsRight(t[1..], b, p);
    }
  }

  /** A prefix holding no first character of `p` adds no occurrence. */
  lemma {:induction false} ContainsSkipsPrefix(a: string, t: string, p: string)
    requires |p| > 0 && p[0] !in a
    requires Contains(a + t, p)
    ensures Contains(t, p)
    decreases |a|
  {
    if |a| == 0 {
      assert a + t == t;
    } else {
      StartsWithAt(a + t, p, 0);
      DropAppend(a, t, 1);
      ContainsSkipsPrefix(a[1..], t, p);
    }
  }

  /** An occurrence in `t + b` lies inside `t` or inside `b` when the first character of
      `b` cannot continue a started match of `p`. */
  lemma {:induction false} ContainsSplit(t: string, b: string, p: string)
    requires |p| > 0
    requires |b| > 0 ==> forall k :: 1 <= k < |p| ==> p[k] != b[0]
    requires Contains(t + b, p)
    ensures Contains(t, p) || Contains(b, p)
    decreases |t|
  {
    if |t| == 0 {
      assert t + b == b;
    } else if StartsWith(t + b, p) {
      if |p| <= |t| {
        TakeAppend(t, b, |p|);
      } else {
        StartsWithAt(t + b, p, |t|);
        assert false;
      }
    } else {
      DropAppend(t, b, 1);
      ContainsSplit(t[1..], b, p);
    }
  }

  // ---- replacement ----

  /** A text without an occurrence of the pattern comes back unchanged. */
  lemma {:induction false} ReplaceWithoutMatch(s: string, pat: string, rep: string)
    requires |pat| > 0 && !Contains(s, pat)
    ensures ReplaceAll(s, pat, rep) == s
    decreases |s|
  {
    if |s| > 0 {
      ReplaceStep(s, pat, rep);
      ReplaceWithoutMatch(s[1..], pat, rep);
      Uncons(s);
    }
  }

  /** Replacement passes over a prefix that holds no first character of the pattern. */
  lemma {:induction false} ReplaceSkipsPrefix(a: string, t: string, pat: string, rep: string)
    requires |pat| > 0 && pat[0] !in a
    ensures ReplaceAll(a + t, pat, rep) == a + ReplaceAll(t, pat, rep)
    decreases |a|
  {
    if |a| == 0 {
      assert a + t == t;
    } else {
      StartsWithAt(a + t, pat, 0);
      ReplaceStep(a + t, pat, rep);
      DropAppend(a, t, 1);
      ReplaceSkipsPrefix(a[1..], t, pat, rep);
      Associative([a[0]], a[1..], ReplaceAll(t, pat, rep));
      Uncons(a);
    }
  }

  /** Replacement passes over a suffix that shares no character with the pattern. */
  lemma {:induction false} ReplaceSkipsSuffix(t: string, b: string, pat: string, rep: string)
    requires |pat| > 0 && Disjoint(pat, b)
    ensures ReplaceAll(t + b, pat, rep) == ReplaceAll(t, pat, rep) + b
    decreases |t|
  {
    if |t| == 0 {
      assert t + b == b;
      if Contains(b, pat) {
        ContainsFirstChar(b, pat);
      }
      ReplaceWithoutMatch(b, pat, rep);
    } else {
      ReplaceStep(t + b, pat, rep);
      ReplaceStep(t, pat, rep);
      if StartsWith(t + b, pat) {
        if |pat| <= |t| {
          TakeAppend(t, b, |pat|);
          DropAppend(t, b, |pat|);
          ReplaceSkipsSuffix(t[|pat|..], b, pat, rep);
          Associative(rep, ReplaceAll(t[|pat|..], pat, rep), b);
        } else {
          StartsWithAt(t + b, pat, |t|);
          assert false;
        }
      } else {
        assert !StartsWith(t, pat) by {
          if |pat| <= |t| {
            TakeAppend(t, b, |pat|);
          }
        }
        DropAppend(t, b, 1);
        ReplaceSkipsSuffix(t[1..], b, pat, rep);
        Associative([t[0]], ReplaceAll(t[1..], pat, rep), b);
      }
    }
  }

  /** A match at the very start is replaced, and the scan goes on after it. */
  lemma ReplaceAtStart(pat: string, rest: string, rep: string)
    requires |pat| > 0
    ensures ReplaceAll(pat + rest, pat, rep) == rep + ReplaceAll(rest, pat, rep)
  {
    TakeAppend(pat, rest, |pat|);
    DropAppend(pat, rest, |pat|);
    assert pat[|pat|..] + rest == rest;
    ReplaceStep(pat + rest, pat, rep);
  }

  /** A single occurrence, with no other match able to start before or after it, is
      replaced and nothing else changes. */
  lemma ReplaceSole(lead: string, tail: string, pat: string, rep: string)
    requires |pat| > 0 && pat[0] !in lead && pat[0] !in tail
    ensures ReplaceAll(lead + pat + tail, pat, rep) == lead + rep + tail
  {
    Associative(lead, pat, tail);
    ReplaceSkipsPrefix(lead, pat + tail, pat, rep);
    ReplaceAtStart(pat, tail, rep);
    if Contains(tail, pat) {
      ContainsFirstChar(tail, pat);
    }
    ReplaceWithoutMatch(tail, pat, rep);
    Associative(lead, rep, tail);
  }

  /** A text sharing no character with the replacement can begin the result only where it
      already began the input. */
  lemma {:induction false} ReplacedPrefixWasThere(t: string, u: string, pat: string, rep: string)
    requires |pat| > 0 && |rep| > 0 && Disjoint(rep, u)
    requires StartsWith(ReplaceAll(t, pat, rep), u)
    ensures StartsWith(t, u)
    decreases |t|
  {
    var r := ReplaceAll(t, pat, rep);
    if |u| > 0 {
      if |t| == 0 {
        assert false;
      } else {
        ReplaceStep(t, pat, rep);
        StartsWithAt(r, u, 0);
        if StartsWith(t, pat) {
          assert false;
        } else {
          var x := ReplaceAll(t[1..], pat, rep);
          assert r[1..] == x;
          StartsWithCons(r, u);
          ReplacedPrefixWasThere(t[1..], u[1..], pat, rep);
          StartsWithCons(t, u);
        }
      }
    }
  }

  /** When the replacement shares no character with the pattern, no occurrence of the
      pattern survives: str_replace leaves none behind. */
  lemma {:induction false} ReplaceLeavesNoMatch(s: string, pat: string, rep: string)
    requires |pat| > 0 && |rep| > 0 && Disjoint(rep, pat)
    ensures !Contains(ReplaceAll(s, pat, rep), pat)
    decreases |s|
  {
    var r := ReplaceAll(s, pat, rep);
    if |s| > 0 {
      ReplaceStep(s, pat, rep);
      if StartsWith(s, pat) {
        ReplaceLeavesNoMatch(s[|pat|..], pat, rep);
        assert pat[0] !in rep;
        if Contains(r, pat) {
          ContainsSkipsPrefix(rep, ReplaceAll(s[|pat|..], pat, rep), pat);
        }
      } else {
        var x := ReplaceAll(s[1..], pat, rep);
        assert r[1..] == x;
        ReplaceLeavesNoMatch(s[1..], pat, rep);
        if StartsWith(r, pat) {
          StartsWithCons(r, pat);
          ReplacedPrefixWasThere(s[1..], pat[1..], pat, rep);
          StartsWithCons(s, pat);
          assert false;
        }
      }
    }
  }

  /** A replacement sharing no character with `q` creates no new occurrence of `q`. */
  lemma {:induction false} ReplaceAddsNoMatch(s: string, pat: string, rep: string, q: string)
    requires |pat| > 0 && |rep| > 0 && |q| > 0 && Disjoint(rep, q)
    requires Contains(ReplaceAll(s, pat, rep), q)
    ensures Contains(s, q)
    decreases |s|
  {
    var r := ReplaceAll(s, pat, rep);
    if |s| == 0 {
      assert false;
    } else {
      ReplaceStep(s, pat, rep);
      if StartsWith(s, pat) {
        var rest := s[|pat|..];
        assert q[0] !in rep;
        ContainsSkipsPrefix(rep, ReplaceAll(rest, pat, rep), q);
        ReplaceAddsNoMatch(rest, pat, rep, q);
        assert s == s[..|pat|] + rest;
        ContainsExtends(s[..|pat|], rest, q);
      } else {
        var x := ReplaceAll(s[1..], pat, rep);
        assert r[1..] == x;
        if StartsWith(r, q) {
          StartsWithCons(r, q);
          ReplacedPrefixWasThere(s[1..], q[1..], pat, rep);
          StartsWithCons(s, q);
        } else {
          ReplaceAddsNoMatch(s[1..], pat, rep, q);
        }
      }
    }
  }
}
