/** `escapeHtml` (assets/news.js:172-180): the five HTML-sensitive characters become
    entities, `&` first so that the entities introduced later are not escaped again;
    and the detail view's `\n` to `<br>` step. */
module Escape {
  import opened Text
  import opened Markup

  const Amp := "&amp;"
  const Lt := "&lt;"
  const Gt := "&gt;"
  const Quot := "&quot;"
  const Apos := "&#39;"

  /** The five replacements, applied in the script's order. */
  function EscapeHtml(s: string): string {
    ReplaceAny(ReplaceAny(ReplaceAny(ReplaceAny(ReplaceAny(
      s, {'&'}, Amp), {'<'}, Lt), {'>'}, Gt), {'"'}, Quot), {'\''}, Apos)
  }

  /** What one character of the input becomes in the output. */
  function EscapeChar(c: char): string {
    match c
    case '&' => Amp
    case '<' => Lt
    case '>' => Gt
    case '"' => Quot
    case '\'' => Apos
    case _ => [c]
  }

  predicate IsMarkupChar(c: char) {
    c == '<' || c == '>' || c == '"' || c == '\''
  }

  lemma EscapeHtmlAppend(a: string, b: string)
    ensures EscapeHtml(a + b) == EscapeHtml(a) + EscapeHtml(b)
  {
    var a1 := ReplaceAny(a, {'&'}, Amp);
    var a2 := ReplaceAny(a1, {'<'}, Lt);
    var a3 := ReplaceAny(a2, {'>'}, Gt);
    var a4 := ReplaceAny(a3, {'"'}, Quot);
    var b1 := ReplaceAny(b, {'&'}, Amp);
    var b2 := ReplaceAny(b1, {'<'}, Lt);
    var b3 := ReplaceAny(b2, {'>'}, Gt);
    var b4 := ReplaceAny(b3, {'"'}, Quot);
    ReplaceAnyAppend(a, b, {'&'}, Amp);
    ReplaceAnyAppend(a1, b1, {'<'}, Lt);
    ReplaceAnyAppend(a2, b2, {'>'}, Gt);
    ReplaceAnyAppend(a3, b3, {'"'}, Quot);
    ReplaceAnyAppend(a4, b4, {'\''}, Apos);
  }

  /** Since `&` goes first, no replacement touches an entity an earlier one made:
      the chain escapes a single character to its entity. */
  lemma EscapeHtmlOne(c: char)
    ensures EscapeHtml([c]) == EscapeChar(c)
  {
    var s1 := ReplaceAny([c], {'&'}, Amp);
    var s2 := ReplaceAny(s1, {'<'}, Lt);
    var s3 := ReplaceAny(s2, {'>'}, Gt);
    var s4 := ReplaceAny(s3, {'"'}, Quot);
    var s5 := ReplaceAny(s4, {'\''}, Apos);
    assert s5 == EscapeHtml([c]);
    ReplaceAnyOne(c, {'&'}, Amp);
    if c == '&' {
      assert s1 == Amp;
      ReplaceAnyNoTargets(Amp, {'<'}, Lt);
      ReplaceAnyNoTargets(Amp, {'>'}, Gt);
      ReplaceAnyNoTargets(Amp, {'"'}, Quot);
      ReplaceAnyNoTargets(Amp, {'\''}, Apos);
      assert s5 == Amp;
    } else {
      assert s1 == [c];
      ReplaceAnyOne(c, {'<'}, Lt);
      if c == '<' {
        assert s2 == Lt;
        ReplaceAnyNoTargets(Lt, {'>'}, Gt);
        ReplaceAnyNoTargets(Lt, {'"'}, Quot);
        ReplaceAnyNoTargets(Lt, {'\''}, Apos);
        assert s5 == Lt;
      } else {
        assert s2 == [c];
        ReplaceAnyOne(c, {'>'}, Gt);
        if c == '>' {
          assert s3 == Gt;
          ReplaceAnyNoTargets(Gt, {'"'}, Quot);
          ReplaceAnyNoTargets(Gt, {'\''}, Apos);
          assert s5 == Gt;
        } else {
          assert s3 == [c];
          ReplaceAnyOne(c, {'"'}, Quot);
          if c == '"' {
            assert s4 == Quot;
            ReplaceAnyNoTargets(Quot, {'\''}, Apos);
            assert s5 == Quot;
          } else {
            assert s4 == [c];
            ReplaceAnyOne(c, {'\''}, Apos);
          }
        }
      }
    }
  }

  /** The chain acts character by character. */
  lemma EscapeHtmlCons(c: char, t: string)
    ensures EscapeHtml([c] + t) == EscapeChar(c) + EscapeHtml(t)
  {
    EscapeHtmlAppend([c], t);
    EscapeHtmlOne(c);
  }

  /** A falsy (empty) value escapes to the empty string. */
  lemma EscapeHtmlEmpty()
    ensures EscapeHtml("") == ""
  {
  }

  /** The output never holds a raw `<`, `>`, `"` or `'`. */
  lemma {:induction false} EscapeHtmlNoMarkup(s: string)
    ensures forall c :: c in EscapeHtml(s) ==> !IsMarkupChar(c)
  {
    if s != [] {
      assert s == [s[0]] + s[1..];
      EscapeHtmlCons(s[0], s[1..]);
      EscapeHtmlNoMarkup(s[1..]);
    }
  }

  predicate StartsEntity(t: string) {
    StartsWith(t, Amp) || StartsWith(t, Lt) || StartsWith(t, Gt)
    || StartsWith(t, Quot) || StartsWith(t, Apos)
  }

  /** Every `&` of the output begins one of the five entities. */
  lemma {:induction false} EscapeHtmlAmpersands(s: string)
    ensures AmpersandsOpenEntities(EscapeHtml(s))
  {
    if s != [] {
      assert s == [s[0]] + s[1..];
      EscapeHtmlCons(s[0], s[1..]);
      EscapeHtmlAmpersands(s[1..]);
      AmpersandsCons(s[0], EscapeHtml(s[1..]));
    }
  }

  predicate AmpersandsOpenEntities(r: string) {
    forall i :: 0 <= i < |r| && r[i] == '&' ==> StartsEntity(r[i..])
  }

  lemma AmpersandsCons(c: char, rest: string)
    requires AmpersandsOpenEntities(rest)
    ensures AmpersandsOpenEntities(EscapeChar(c) + rest)
  {
    var head := EscapeChar(c);
    var r := head + rest;
    forall i | 0 <= i < |r| && r[i] == '&'
      ensures StartsEntity(r[i..])
    {
      if i < |head| {
        assert i == 0;
        assert r[..|head|] == head;
      } else {
        assert r[i..] == rest[i - |head|..];
      }
    }
  }

  /** Reads the five entities back; every other character stands for itself. */
  function Unescape(s: string): (r: string)
    decreases |s|
  {
    if s == [] then []
    else if StartsWith(s, Amp) then "&" + Unescape(s[|Amp|..])
    else if StartsWith(s, Lt) then "<" + Unescape(s[|Lt|..])
    else if StartsWith(s, Gt) then ">" + Unescape(s[|Gt|..])
    else if StartsWith(s, Quot) then "\"" + Unescape(s[|Quot|..])
    else if StartsWith(s, Apos) then "'" + Unescape(s[|Apos|..])
    else [s[0]] + Unescape(s[1..])
  }

  lemma UnescapeCons(c: char, t: string)
    ensures Unescape(EscapeChar(c) + t) == [c] + Unescape(t)
  {
    match c
    case '&' => UnescapeAmp(t);
    case '<' => UnescapeEntity(Lt, 'l', t);
    case '>' => UnescapeEntity(Gt, 'g', t);
    case '"' => UnescapeEntity(Quot, 'q', t);
    case '\'' => UnescapeEntity(Apos, '#', t);
    case _ => UnescapePlain(c, t);
  }

  /** The entities differ from one another in their second character. */
  lemma EntitySecond(u: string)
    requires |u| >= 2
    ensures StartsWith(u, Amp) ==> u[1] == 'a'
    ensures StartsWith(u, Lt) ==> u[1] == 'l'
    ensures StartsWith(u, Gt) ==> u[1] == 'g'
    ensures StartsWith(u, Quot) ==> u[1] == 'q'
    ensures StartsWith(u, Apos) ==> u[1] == '#'
  {
    if StartsWith(u, Amp) { assert u[..|Amp|][1] == u[1]; }
    if StartsWith(u, Lt) { assert u[..|Lt|][1] == u[1]; }
    if StartsWith(u, Gt) { assert u[..|Gt|][1] == u[1]; }
    if StartsWith(u, Quot) { assert u[..|Quot|][1] == u[1]; }
    if StartsWith(u, Apos) { assert u[..|Apos|][1] == u[1]; }
  }

  lemma UnescapeAmp(t: string)
    ensures Unescape(Amp + t) == "&" + Unescape(t)
  {
    var u := Amp + t;
    assert u[..|Amp|] == Amp;
    assert u[|Amp|..] == t;
  }

  /** An entity other than `&amp;`, whose second character is `k`, reads back as its
      character. */
  lemma UnescapeEntity(e: string, k: char, t: string)
    requires e == Lt || e == Gt || e == Quot || e == Apos
    requires |e| >= 2 && e[1] == k && k != 'a'
    ensures Unescape(e + t) == [EntityChar(e)] + Unescape(t)
  {
    var u := e + t;
    assert u[..|e|] == e;
    assert u[|e|..] == t;
    assert u[1] == k;
    EntitySecond(u);
  }

  function EntityChar(e: string): char {
    if e == Lt then '<' else if e == Gt then '>' else if e == Quot then '"' else '\''
  }

  lemma UnescapePlain(c: char, t: string)
    requires c != '&'
    ensures Unescape([c] + t) == [c] + Unescape(t)
  {
    var u := [c] + t;
    assert u[0] == c;
    assert u[1..] == t;
    if |u| >= 2 {
      NotEntity(u);
    }
  }

  /** The entities all start with `&`. */
  lemma NotEntity(u: string)
    requires |u| >= 2 && u[0] != '&'
    ensures !StartsEntity(u)
  {
  }

  /** Decoding the five entities gives back the original text. */
  lemma {:induction false} UnescapeEscapeHtml(s: string)
    ensures Unescape(EscapeHtml(s)) == s
  {
    if s != [] {
      assert s == [s[0]] + s[1..];
      EscapeHtmlCons(s[0], s[1..]);
      UnescapeCons(s[0], EscapeHtml(s[1..]));
      UnescapeEscapeHtml(s[1..]);
    }
  }

  /** `escapeHtml(body).replace(/\n/g, "<br>")` from the detail view. */
  function BreakLines(s: string): string {
    ReplaceAny(EscapeHtml(s), {'\n'}, "<br>")
  }

  lemma BreakLinesCons(c: char, t: string)
    ensures BreakLines([c] + t) == BreakChar(c) + BreakLines(t)
  {
    EscapeHtmlCons(c, t);
    ReplaceAnyAppend(EscapeChar(c), EscapeHtml(t), {'\n'}, "<br>");
    if c == '\n' {
      assert EscapeChar(c) == ['\n'];
      assert ['\n'][1..] == [];
    } else {
      ReplaceAnyNoTargets(EscapeChar(c), {'\n'}, "<br>");
    }
  }

  /** What one character of the text becomes in the detail body. */
  function BreakChar(c: char): string {
    if c == '\n' then "<br>" else EscapeChar(c)
  }

  /** The detail body holds no newline and each `<` in it opens a `<br>`. */
  lemma {:induction false} BreakLinesMarkup(s: string)
    ensures '\n' !in BreakLines(s)
    ensures forall i :: 0 <= i < |BreakLines(s)| && BreakLines(s)[i] == '<' ==>
              StartsWith(BreakLines(s)[i..], "<br>")
  {
    if s != [] {
      assert s == [s[0]] + s[1..];
      BreakLinesCons(s[0], s[1..]);
      BreakLinesMarkup(s[1..]);
      BreakMarkupCons(s[0], BreakLines(s[1..]));
    }
  }

  lemma BreakMarkupCons(c: char, rest: string)
    requires '\n' !in rest
    requires forall i :: 0 <= i < |rest| && rest[i] == '<' ==> StartsWith(rest[i..], "<br>")
    ensures '\n' !in BreakChar(c) + rest
    ensures var r := BreakChar(c) + rest;
            forall i :: 0 <= i < |r| && r[i] == '<' ==> StartsWith(r[i..], "<br>")
  {
    var head := BreakChar(c);
    var r := head + rest;
    assert '<' in head ==> c == '\n' by {
      EscapeHtmlOne(c);
      EscapeHtmlNoMarkup([c]);
    }
    forall i | 0 <= i < |r| && r[i] == '<'
      ensures StartsWith(r[i..], "<br>")
    {
      if i < |head| {
        assert head[i] in head;
        assert i == 0;
        assert r[..|head|] == head;
      } else {
        assert r[i..] == rest[i - |head|..];
      }
    }
  }

  lemma BreakCharCount(c: char)
    ensures Sealed(BreakChar(c), "<br")
    ensures Occ(BreakChar(c), "<br") == if c == '\n' then 1 else 0
  {
    if c == '\n' {
      assert "<br>"[..3] == "<br";
      OccLeadingOnly("<br>", "<br");
    } else {
      EscapeHtmlOne(c);
      EscapeHtmlNoMarkup([c]);
      var b := BreakChar(c);
      assert forall j :: 0 <= j < |b| ==> b[j] in b;
      OccNone(b, "<br");
    }
  }

  lemma OccNewlineCons(s: string)
    requires s != []
    ensures Occ(s, "\n") == (if s[0] == '\n' then 1 else 0) + Occ(s[1..], "\n")
  {
    assert StartsWith(s, "\n") <==> s[0] == '\n';
  }

  /** There are as many `<br` in the detail body as there were newlines in the text. */
  lemma {:induction false} BreakLinesCount(s: string)
    ensures Occ(BreakLines(s), "<br") == Occ(s, "\n")
  {
    if s != [] {
      assert s == [s[0]] + s[1..];
      BreakLinesCons(s[0], s[1..]);
      BreakLinesCount(s[1..]);
      BreakCharCount(s[0]);
      OccAppend(BreakChar(s[0]), BreakLines(s[1..]), "<br");
      OccNewlineCons(s);
    }
  }
}
