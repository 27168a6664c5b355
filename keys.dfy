/** Column headers: `normalizeKey` (assets/news.js:129-138) folds a header label to a
    lower-case key without whitespace or Swedish accents, and the alias table `keyMap`
    (assets/news.js:140-159) maps the localised keys onto the six fields of an item. */
module Keys {
  import opened Text

  const Accented: set<char> := {'å', 'ä', 'ö'}

  /** A key as `normalizeKey` leaves it. */
  predicate IsNormalKey(k: string) {
    forall c :: c in k ==> !IsUpper(c) && !IsWhitespace(c) && c !in Accented
  }

  function NormalizeKey(header: string): (r: string)
  {
    var text := Trim(ToLowerCase(header));
    ReplaceAny(ReplaceAny(RemoveWhitespace(text), {'å', 'ä'}, "a"), {'ö'}, "o")
  }

  /** The first two steps leave no upper-case letter and no whitespace. */
  lemma LowerTrimmedMembers(header: string, c: char)
    requires c in RemoveWhitespace(Trim(ToLowerCase(header)))
    ensures !IsUpper(c) && !IsWhitespace(c)
  {
    RemoveWhitespaceMembers(Trim(ToLowerCase(header)), c);
    TrimMembers(ToLowerCase(header), c);
  }

  /** The accent folding keeps other characters and adds only `a` and `o`. */
  lemma FoldAccentsMembers(t: string, c: char)
    requires c in ReplaceAny(ReplaceAny(t, {'å', 'ä'}, "a"), {'ö'}, "o")
    ensures (c in t && c !in Accented) || c == 'a' || c == 'o'
  {
    var t2 := ReplaceAny(t, {'å', 'ä'}, "a");
    ReplaceAnyMembers(t2, {'ö'}, "o", c);
    if c in t2 && c != 'ö' {
      ReplaceAnyMembers(t, {'å', 'ä'}, "a", c);
    }
  }

  /** The key is lower-case and holds no whitespace and no å, ä or ö. */
  lemma NormalizeKeyIsNormal(header: string)
    ensures IsNormalKey(NormalizeKey(header))
  {
    var t1 := RemoveWhitespace(Trim(ToLowerCase(header)));
    forall d | d in t1 ensures !IsUpper(d) && !IsWhitespace(d) {
      LowerTrimmedMembers(header, d);
    }
    forall c | c in NormalizeKey(header)
      ensures !IsUpper(c) && !IsWhitespace(c) && c !in Accented
    {
      FoldedChar(t1, c);
    }
  }

  /** Folding the accents of text with no upper-case letter and no whitespace leaves
      none either, and no accent. */
  lemma FoldedChar(t: string, c: char)
    requires forall d :: d in t ==> !IsUpper(d) && !IsWhitespace(d)
    requires c in ReplaceAny(ReplaceAny(t, {'å', 'ä'}, "a"), {'ö'}, "o")
    ensures !IsUpper(c) && !IsWhitespace(c) && c !in Accented
  {
    FoldAccentsMembers(t, c);
  }

  /** A normal key is left as it is. */
  lemma NormalizeKeyOfNormal(k: string)
    requires IsNormalKey(k)
    ensures NormalizeKey(k) == k
  {
    ToLowerCaseOfLower(k);
    if k != [] {
      assert k[0] in k && k[|k| - 1] in k;
    }
    TrimOfTrimmed(k);
    RemoveWhitespaceOfNone(k);
    ReplaceAnyNoTargets(k, {'å', 'ä'}, "a");
    ReplaceAnyNoTargets(k, {'ö'}, "o");
  }

  lemma NormalizeKeyIdempotent(header: string)
    ensures NormalizeKey(NormalizeKey(header)) == NormalizeKey(header)
  {
    NormalizeKeyIsNormal(header);
    NormalizeKeyOfNormal(NormalizeKey(header));
  }

  /** The six fields of an item. */
  const Fields: set<string> := {"id", "date", "title", "summary", "body", "link"}

  const KeyMap: map<string, string> := map[
    "id" := "id",
    "slug" := "id",
    "identifier" := "id",
    "date" := "date",
    "datum" := "date",
    "title" := "title",
    "rubrik" := "title",
    "titel" := "title",
    "summary" := "summary",
    "sammanfattning" := "summary",
    "sammandrag" := "summary",
    "body" := "body",
    "text" := "body",
    "innehall" := "body",
    "beskrivning" := "body",
    "link" := "link",
    "lank" := "link",
    "url" := "link"
  ]

  /** `keyMap[key] || key`: the field an alias names, any other key unchanged. */
  function Canonical(key: string): (r: string)
    ensures key in KeyMap ==> r in Fields
    ensures key !in KeyMap ==> r == key
  {
    if key in KeyMap then KeyMap[key] else key
  }

  /** Every alias names exactly one of the six fields, and each field is its own alias. */
  lemma KeyMapOntoFields()
    ensures forall k :: k in KeyMap ==> KeyMap[k] in Fields
    ensures forall f :: f in Fields ==> f in KeyMap && KeyMap[f] == f
  {
  }

  lemma CanonicalIdempotent(key: string)
    ensures Canonical(Canonical(key)) == Canonical(key)
  {
    KeyMapOntoFields();
  }

  /** Only the empty key maps to the empty key, so skipping `""` columns loses no field. */
  lemma CanonicalEmpty(key: string)
    ensures Canonical(key) == "" <==> key == ""
  {
  }

  /** Every alias is already a normal key, so a header reaches it whatever its case,
      spacing or accents. */
  lemma AliasesAreNormal()
    ensures forall k :: k in KeyMap ==> IsNormalKey(k)
  {
    forall k | k in KeyMap ensures IsNormalKey(k) {
      AliasLetters(k);
      LettersAreNormal(k);
    }
  }

  lemma AliasLetters(k: string)
    requires k in KeyMap
    ensures forall c :: c in k ==> 'a' <= c <= 'z'
  {
  }

  /** Plain lower-case letters make a normal key. */
  lemma LettersAreNormal(k: string)
    requires forall c :: c in k ==> 'a' <= c <= 'z'
    ensures IsNormalKey(k)
  {
  }

  /** The accent folding on one character. */
  function FoldChar(c: char): (r: char)
    ensures r !in Accented
    ensures c !in Accented ==> r == c
  {
    if c == 'å' || c == 'ä' then 'a' else if c == 'ö' then 'o' else c
  }

  function FoldAccents(k: string): (r: string)
    ensures |r| == |k| && forall i :: 0 <= i < |k| ==> r[i] == FoldChar(k[i])
  {
    seq(|k|, i requires 0 <= i < |k| => FoldChar(k[i]))
  }

  /** A header whose lower-case form is already a normal key gets that key. */
  lemma LowerCasedKey(header: string)
    requires IsNormalKey(ToLowerCase(header))
    ensures NormalizeKey(header) == ToLowerCase(header)
  {
    NormalizeKeyOfNormal(ToLowerCase(header));
    ToLowerCaseOfLower(ToLowerCase(header));
  }

  /** The two accent replacements together fold character by character. */
  lemma FoldSteps(k: string)
    ensures ReplaceAny(ReplaceAny(k, {'å', 'ä'}, "a"), {'ö'}, "o") == FoldAccents(k)
  {
    ReplaceSingles(k, {'å', 'ä'}, 'a');
    var mid := seq(|k|, i requires 0 <= i < |k| => if k[i] in {'å', 'ä'} then 'a' else k[i]);
    assert ReplaceAny(k, {'å', 'ä'}, "a") == mid by { assert "a" == ['a']; }
    ReplaceSingles(mid, {'ö'}, 'o');
    assert ReplaceAny(mid, {'ö'}, "o") == ReplaceAny(mid, {'ö'}, ['o']) by { assert "o" == ['o']; }
    var out := seq(|mid|, i requires 0 <= i < |mid| => if mid[i] in {'ö'} then 'o' else mid[i]);
    assert forall i :: 0 <= i < |k| ==> out[i] == FoldChar(k[i]);
    assert out == FoldAccents(k);
  }

  /** When the lower-cased header has no whitespace, its key is that text with its
      accents folded character by character. */
  lemma NormalizeUnspaced(header: string)
    requires forall c :: c in ToLowerCase(header) ==> !IsWhitespace(c)
    ensures NormalizeKey(header) == FoldAccents(ToLowerCase(header))
  {
    var k := ToLowerCase(header);
    if k != [] {
      assert k[0] in k && k[|k| - 1] in k;
    }
    TrimOfTrimmed(k);
    RemoveWhitespaceOfNone(k);
    FoldSteps(k);
  }

  /** A header whose lower-case form is an alias without whitespace or accents names
      that alias's field. */
  lemma HeaderNames(header: string, key: string, field: string)
    requires ToLowerCase(header) == key && IsNormalKey(key) && Canonical(key) == field
    ensures Canonical(NormalizeKey(header)) == field
  {
    LowerCasedKey(header);
  }

  /** A header whose lower-case form has no whitespace names the field of its accent-folded
      form. */
  lemma HeaderFolds(header: string, lower: string, key: string, field: string)
    requires ToLowerCase(header) == lower && forall c :: c in lower ==> !IsWhitespace(c)
    requires FoldAccents(lower) == key && Canonical(key) == field
    ensures Canonical(NormalizeKey(header)) == field
  {
    NormalizeUnspaced(header);
  }

  /** `Rubrik` and `Titel` name the title, as does `Title`. */
  lemma RubrikHeader()
    ensures Canonical(NormalizeKey("Rubrik")) == "title"
  {
    LowerRubrik();
    HeaderNames("Rubrik", "rubrik", "title");
  }

  lemma LowerRubrik()
    ensures ToLowerCase("Rubrik") == "rubrik" && IsNormalKey("rubrik")
  {
    var r := ToLowerCase("Rubrik");
    assert r[0] == LowerChar('R') == 'r';
    LettersAreNormal("rubrik");
  }

  lemma TitelHeader()
    ensures Canonical(NormalizeKey("Titel")) == "title"
  {
    LowerTitel();
    HeaderNames("Titel", "titel", "title");
  }

  lemma LowerTitel()
    ensures ToLowerCase("Titel") == "titel" && IsNormalKey("titel")
  {
    var t := ToLowerCase("Titel");
    assert t[0] == LowerChar('T') == 't';
    LettersAreNormal("titel");
  }

  lemma TitleHeader()
    ensures Canonical(NormalizeKey("Title")) == "title"
  {
    LowerTitle();
    HeaderNames("Title", "title", "title");
  }

  lemma LowerTitle()
    ensures ToLowerCase("Title") == "title" && IsNormalKey("title")
  {
    var t := ToLowerCase("Title");
    assert t[0] == LowerChar('T') == 't';
    LettersAreNormal("title");
  }

  /** `Datum` names the date. */
  lemma DateHeader()
    ensures Canonical(NormalizeKey("Datum")) == "date"
  {
    LowerDatum();
    HeaderNames("Datum", "datum", "date");
  }

  lemma LowerDatum()
    ensures ToLowerCase("Datum") == "datum" && IsNormalKey("datum")
  {
    var d := ToLowerCase("Datum");
    assert d[0] == LowerChar('D') == 'd';
    LettersAreNormal("datum");
  }

  /** `Innehåll` names the body: its accent folds away. */
  lemma BodyHeader()
    ensures Canonical(NormalizeKey("Innehåll")) == "body"
  {
    LowerInnehall();
    FoldInnehall();
    HeaderFolds("Innehåll", "innehåll", "innehall", "body");
  }

  lemma LowerInnehall()
    ensures ToLowerCase("Innehåll") == "innehåll"
    ensures forall c :: c in "innehåll" ==> !IsWhitespace(c)
  {
    var b := ToLowerCase("Innehåll");
    assert b[0] == LowerChar('I') == 'i';
  }

  lemma FoldInnehall()
    ensures FoldAccents("innehåll") == "innehall"
  {
    var f := FoldAccents("innehåll");
    assert f[5] == FoldChar('å') == 'a';
  }

  /** `Länk` names the link. */
  lemma LinkHeader()
    ensures Canonical(NormalizeKey("Länk")) == "link"
  {
    LowerLank();
    FoldLank();
    HeaderFolds("Länk", "länk", "lank", "link");
  }

  lemma LowerLank()
    ensures ToLowerCase("Länk") == "länk"
    ensures forall c :: c in "länk" ==> !IsWhitespace(c)
  {
    var l := ToLowerCase("Länk");
    assert l[0] == LowerChar('L') == 'l';
  }

  lemma FoldLank()
    ensures FoldAccents("länk") == "lank"
  {
    var f := FoldAccents("länk");
    assert f[1] == FoldChar('ä') == 'a';
  }

  /** Replacing characters one for one. */
  lemma {:induction false} ReplaceSingles(s: string, targets: set<char>, sub: char)
    ensures ReplaceAny(s, targets, [sub])
         == seq(|s|, i requires 0 <= i < |s| => if s[i] in targets then sub else s[i])
    decreases |s|
  {
    if s != [] {
      assert s == [s[0]] + s[1..];
      ReplaceAnyCons(s[0], s[1..], targets, [sub]);
      ReplaceSingles(s[1..], targets, sub);
    }
  }
}
