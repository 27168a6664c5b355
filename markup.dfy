/** Counting markup in generated HTML: how many times a pattern such as `<article`
    occurs in a string, and when a concatenation adds up the counts of its parts. */
module Markup {
  import opened Text

  predicate StartsWith(s: string, p: string) {
    |p| <= |s| && s[..|p|] == p
  }

  /** The number of positions of `s` at which `p` starts (overlaps allowed). */
  function Occ(s: string, p: string): nat
    requires |p| > 0
    decreases |s|
  {
    if |s| < |p| then 0 else (if StartsWith(s, p) then 1 else 0) + Occ(s[1..], p)
  }

  /** Every `p[0]` of `s` is followed, inside `s`, by a character that rules out an
      occurrence of `p` there: the next one differs from `p[1]`, or the one after that
      from `p[2]`. */
  predicate Blocked(s: string, p: string)
    requires |p| >= 2
  {
    forall i :: 0 <= i < |s| ==> BlockedAt(s, p, i)
  }

  predicate BlockedAt(s: string, p: string, i: nat)
    requires |p| >= 2 && i < |s|
  {
    s[i] == p[0] ==>
      i + 1 < |s| && (s[i + 1] != p[1] || (|p| > 2 && i + 2 < |s| && s[i + 2] != p[2]))
  }

  /** Every `p[0]` of `s` has room for all of `p` inside `s`. */
  predicate Roomy(s: string, p: string)
    requires |p| >= 2
  {
    forall i :: 0 <= i < |s| && s[i] == p[0] ==> i + |p| <= |s|
  }

  /** `s` can be followed by anything without creating an occurrence of `p` that
      straddles the seam: its last character is not in `p` at all, or no occurrence
      can start inside it, or any occurrence starting inside it ends inside it. */
  predicate Sealed(s: string, p: string)
    requires |p| >= 2
  {
    (|s| > 0 && s[|s| - 1] !in p) || Blocked(s, p) || Roomy(s, p)
  }

  lemma {:induction false} OccBlocked(s: string, p: string)
    requires |p| >= 2 && Blocked(s, p)
    ensures Occ(s, p) == 0
  {
    if |s| >= |p| {
      assert s[..|p|][0] == s[0] && s[..|p|][1] == s[1];
      assert |p| > 2 ==> s[..|p|][2] == s[2];
      assert BlockedAt(s, p, 0);
      assert !StartsWith(s, p);
      forall i | 0 <= i < |s[1..]| ensures BlockedAt(s[1..], p, i) {
        assert BlockedAt(s, p, i + 1);
      }
      OccBlocked(s[1..], p);
    }
  }

  /** Occurrences in a string that starts with `p` and has no other: exactly one. */
  lemma OccLeadingOnly(s: string, p: string)
    requires |p| >= 2 && StartsWith(s, p) && Blocked(s[1..], p)
    ensures Occ(s, p) == 1
  {
    OccBlocked(s[1..], p);
  }

  lemma {:induction false} OccAppend(a: string, b: string, p: string)
    requires |p| >= 2 && Sealed(a, p)
    ensures Occ(a + b, p) == Occ(a, p) + Occ(b, p)
  {
    if a == [] {
      assert a + b == b;
    } else {
      assert (a + b)[1..] == a[1..] + b;
      if |a| < |p| && |a + b| >= |p| {
        // an occurrence starting at 0 would run past the seam
        var q := (a + b)[..|p|];
        assert forall j :: 0 <= j < |a| ==> q[j] == a[j];
        if a[0] != p[0] {
          assert q[0] != p[0];
        } else if a[|a| - 1] !in p {
          assert q[|a| - 1] != p[|a| - 1];
        } else {
          // `a` is too short for room after its `p[0]`, so it is blocked
          assert BlockedAt(a, p, 0);
          assert q[1] != p[1] || q[2] != p[2];
        }
        assert q != p;
      }
      if |a| >= |p| {
        assert (a + b)[..|p|] == a[..|p|];
      }
      if a[1..] != [] {
        assert a[1..][|a[1..]| - 1] == a[|a| - 1];
      }
      if Blocked(a, p) {
        forall i | 0 <= i < |a[1..]| ensures BlockedAt(a[1..], p, i) {
          assert BlockedAt(a, p, i + 1);
        }
      }
      OccAppend(a[1..], b, p);
    }
  }

  /** One occurrence in the head and none in a blocked rest: one in all. */
  lemma OccHead(h: string, r: string, p: string)
    requires |p| >= 2 && Sealed(h, p) && Occ(h, p) == 1 && Blocked(r, p)
    ensures Occ(h + r, p) == 1
  {
    OccBlocked(r, p);
    OccAppend(h, r, p);
  }

  lemma BlockedAppend(a: string, b: string, p: string)
    requires |p| >= 2 && Blocked(a, p) && Blocked(b, p)
    ensures Blocked(a + b, p)
  {
    var s := a + b;
    forall i | 0 <= i < |s| ensures BlockedAt(s, p, i) {
      if i < |a| {
        assert BlockedAt(a, p, i);
        assert s[i] == a[i];
        assert i + 1 < |a| ==> s[i + 1] == a[i + 1];
        assert i + 2 < |a| ==> s[i + 2] == a[i + 2];
      } else {
        var j := i - |a|;
        assert BlockedAt(b, p, j);
        assert s[i] == b[j];
        assert j + 1 < |b| ==> s[i + 1] == b[j + 1];
        assert j + 2 < |b| ==> s[i + 2] == b[j + 2];
      }
    }
  }

  /** A join of blocked parts is blocked. */
  lemma {:induction false} BlockedConcat(parts: seq<string>, p: string)
    requires |p| >= 2 && forall y :: y in parts ==> Blocked(y, p)
    ensures Blocked(Concat(parts), p)
  {
    if parts != [] {
      assert parts[0] in parts;
      assert forall y :: y in parts[1..] ==> y in parts;
      BlockedConcat(parts[1..], p);
      BlockedAppend(parts[0], Concat(parts[1..]), p);
    }
  }

  /** Text without the pattern's first character holds no occurrence. */
  lemma OccNone(s: string, p: string)
    requires |p| >= 2 && forall j :: 0 <= j < |s| ==> s[j] != p[0]
    ensures Blocked(s, p) && Sealed(s, p) && Occ(s, p) == 0
  {
    OccBlocked(s, p);
  }

  /** An opening tag: it starts with `p` and holds no other `p[0]`, so it holds `p`
      once; ending in a character outside `p`, it seals. */
  lemma OccOpening(t: string, p: string)
    requires |p| >= 2 && StartsWith(t, p) && forall j :: 1 <= j < |t| ==> t[j] != p[0]
    requires t[|t| - 1] !in p
    ensures Sealed(t, p) && Occ(t, p) == 1
  {
    forall i | 0 <= i < |t[1..]| ensures BlockedAt(t[1..], p, i) {
      assert t[1..][i] == t[i + 1];
    }
    OccLeadingOnly(t, p);
  }

  /** A tag that differs from `p` at its second or third character blocks `p`. */
  lemma TagBlocked(t: string, p: string, k: nat)
    requires |p| >= 2 && t != [] && t[0] == p[0] && forall j :: 1 <= j < |t| ==> t[j] != p[0]
    requires (k == 1 || k == 2) && k < |p| && k < |t| && t[k] != p[k]
    ensures Blocked(t, p)
  {
    forall i | 0 <= i < |t| ensures BlockedAt(t, p, i) {
    }
  }

  /** In a join where every part but `x` is blocked, and `x` seals, the count is that
      of `x`. */
  lemma OccOnePart(before: seq<string>, x: string, after: seq<string>, p: string)
    requires |p| >= 2
    requires forall y :: y in before ==> Blocked(y, p)
    requires Sealed(x, p)
    requires forall y :: y in after ==> Blocked(y, p)
    ensures Occ(Concat(before + [x] + after), p) == Occ(x, p)
  {
    BlockedConcat(before, p);
    BlockedConcat(after, p);
    ConcatAround(before, x, after);
    OccBetween(Concat(before), x, Concat(after), p);
  }

  lemma ConcatAround(before: seq<string>, x: string, after: seq<string>)
    ensures Concat(before + [x] + after) == Concat(before) + (x + Concat(after))
  {
    ConcatAppend(before + [x], after);
    ConcatAppend(before, [x]);
    ConcatCons(x, []);
    assert [x] + [] == [x];
  }

  lemma OccBetween(b: string, x: string, a: string, p: string)
    requires |p| >= 2 && Blocked(b, p) && Sealed(x, p) && Blocked(a, p)
    ensures Occ(b + (x + a), p) == Occ(x, p)
  {
    OccBlocked(b, p);
    OccBlocked(a, p);
    OccAppend(b, x + a, p);
    OccAppend(x, a, p);
  }
}
