/** `slugify` (assets/news.js:122-127): lower-case the title, turn every run of
    characters outside `[a-z0-9]` into one `-`, then drop a `-` at either end. The slug
    stands in for an item's `id` when the sheet gives none. */
module Slug {
  import opened Text

  predicate IsSlugChar(c: char) {
    ('a' <= c <= 'z') || ('0' <= c <= '9')
  }

  predicate NoDoubleDash(s: string) {
    forall i :: 0 <= i < |s| - 1 ==> !(s[i] == '-' && s[i + 1] == '-')
  }

  /** The shape of every slug: letters, digits and single dashes between them. */
  predicate IsSlug(s: string) {
    && (forall c :: c in s ==> IsSlugChar(c) || c == '-')
    && NoDoubleDash(s)
    && (s == [] || (s[0] != '-' && s[|s| - 1] != '-'))
  }

  /** The rest of `s` after the run of non-`[a-z0-9]` characters at its front. */
  function DropRun(s: string): (r: string)
    ensures |r| <= |s| && r == s[|s| - |r|..]
    ensures forall i :: 0 <= i < |s| - |r| ==> !IsSlugChar(s[i])
    ensures r == [] || IsSlugChar(r[0])
  {
    if s != [] && !IsSlugChar(s[0]) then
      var r := DropRun(s[1..]);
      assert s[1..][|s| - 1 - |r|..] == s[|s| - |r|..];
      assert forall i :: 1 <= i < |s| - |r| ==> s[i] == s[1..][i - 1];
      r
    else s
  }

  /** `.replace(/[^a-z0-9]+/g, "-")`: each maximal run outside `[a-z0-9]` becomes one dash. */
  function CollapseRuns(s: string): (r: string)
    ensures forall c :: c in r ==> IsSlugChar(c) || c == '-'
    ensures NoDoubleDash(r)
    ensures s != [] && IsSlugChar(s[0]) ==> r != [] && r[0] == s[0]
    decreases |s|
  {
    if s == [] then []
    else if IsSlugChar(s[0]) then [s[0]] + CollapseRuns(s[1..])
    else "-" + CollapseRuns(DropRun(s[1..]))
  }

  /** `.replace(/(^-|-$)/g, "")`: one leading and one trailing dash go. */
  function TrimDashes(s: string): (r: string)
  {
    var a := if s != [] && s[0] == '-' then s[1..] else s;
    if a != [] && a[|a| - 1] == '-' then a[..|a| - 1] else a
  }

  function Slugify(value: string): (r: string)
    ensures IsSlug(r)
  {
    var c := CollapseRuns(ToLowerCase(value));
    var a := if c != [] && c[0] == '-' then c[1..] else c;
    assert NoDoubleDash(a) && (a == [] || a[0] != '-');
    TrimDashes(c)
  }

  /** Collapsing runs leaves a string with no dash run alone. */
  lemma {:induction false} CollapseRunsOfSlug(s: string)
    requires forall c :: c in s ==> IsSlugChar(c) || c == '-'
    requires NoDoubleDash(s)
    ensures CollapseRuns(s) == s
  {
    if s != [] {
      if IsSlugChar(s[0]) {
        assert s == [s[0]] + s[1..];
        CollapseRunsOfSlug(s[1..]);
      } else {
        assert s[1..] == [] || IsSlugChar(s[1..][0]);
        assert DropRun(s[1..]) == s[1..];
        CollapseRunsOfSlug(s[1..]);
        assert s == "-" + s[1..];
      }
    }
  }

  /** A slug is its own slug. */
  lemma SlugifyOfSlug(s: string)
    requires IsSlug(s)
    ensures Slugify(s) == s
  {
    ToLowerCaseOfLower(s);
    CollapseRunsOfSlug(s);
  }

  lemma SlugifyIdempotent(value: string)
    ensures Slugify(Slugify(value)) == Slugify(value)
  {
    SlugifyOfSlug(Slugify(value));
  }

  /** The letters and digits of a string, in order. */
  function Alnum(s: string): (r: string)
    decreases |s|
  {
    if s == [] then [] else (if IsSlugChar(s[0]) then [s[0]] else []) + Alnum(s[1..])
  }

  lemma {:induction false} AlnumAppend(a: string, b: string)
    ensures Alnum(a + b) == Alnum(a) + Alnum(b)
  {
    if a == [] {
      assert a + b == b;
    } else {
      var head := if IsSlugChar(a[0]) then [a[0]] else [];
      assert (a + b)[0] == a[0];
      assert (a + b)[1..] == a[1..] + b;
      assert Alnum(a + b) == head + Alnum(a[1..] + b);
      AlnumAppend(a[1..], b);
      assert Alnum(a) == head + Alnum(a[1..]);
      assert head + (Alnum(a[1..]) + Alnum(b)) == (head + Alnum(a[1..])) + Alnum(b);
    }
  }

  lemma {:induction false} AlnumDropRun(s: string)
    ensures Alnum(DropRun(s)) == Alnum(s)
  {
    if s != [] && !IsSlugChar(s[0]) {
      AlnumDropRun(s[1..]);
    }
  }

  lemma {:induction false} AlnumCollapseRuns(s: string)
    ensures Alnum(CollapseRuns(s)) == Alnum(s)
    decreases |s|
  {
    if s != [] {
      if IsSlugChar(s[0]) {
        AlnumAppend([s[0]], CollapseRuns(s[1..]));
        AlnumCollapseRuns(s[1..]);
      } else {
        AlnumAppend("-", CollapseRuns(DropRun(s[1..])));
        AlnumCollapseRuns(DropRun(s[1..]));
        AlnumDropRun(s[1..]);
      }
    }
  }

  /** Only dashes are trimmed. */
  lemma AlnumTrimDashes(s: string)
    ensures Alnum(TrimDashes(s)) == Alnum(s)
  {
    var a := if s != [] && s[0] == '-' then s[1..] else s;
    if s != [] && s[0] == '-' {
      AlnumDropFirst(s);
    }
    if a != [] && a[|a| - 1] == '-' {
      AlnumDropLast(a);
    }
  }

  lemma AlnumDropFirst(s: string)
    requires s != [] && s[0] == '-'
    ensures Alnum(s[1..]) == Alnum(s)
  {
    assert Alnum(s) == [] + Alnum(s[1..]);
  }

  lemma AlnumDropLast(a: string)
    requires a != [] && a[|a| - 1] == '-'
    ensures Alnum(a[..|a| - 1]) == Alnum(a)
  {
    assert a == a[..|a| - 1] + "-";
    AlnumAppend(a[..|a| - 1], "-");
    assert Alnum("-") == [] + Alnum([]);
  }

  /** The slug keeps exactly the ASCII letters and digits of the lower-cased value, in
      order; everything else has become the dashes between them. */
  lemma SlugifyKeepsAlnum(value: string)
    ensures Alnum(Slugify(value)) == Alnum(ToLowerCase(value))
  {
    AlnumTrimDashes(CollapseRuns(ToLowerCase(value)));
    AlnumCollapseRuns(ToLowerCase(value));
  }

  /** The example title `Hello` gets the slug `hello`. */
  lemma SlugifyHello()
    ensures Slugify("Hello") == "hello"
  {
    var lower := ToLowerCase("Hello");
    assert lower == "hello" by {
      assert lower[0] == LowerChar('H') == 'h';
      assert forall i :: 1 <= i < 5 ==> lower[i] == "hello"[i];
    }
    assert IsSlug("hello");
    SlugifyOfSlug("hello");
    CollapseRunsOfSlug("hello");
  }
}
