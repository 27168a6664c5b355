/** What the feed writes into the page: `renderList` (assets/news.js:182-218) for the
    start page, `renderDetail` (assets/news.js:220-260) for the article page, the
    dispatch in `processResponse` (assets/news.js:20-28) and the fallback in
    `handleError` (assets/news.js:30-38). Each renderer is the string its target's
    `innerHTML` receives. */
module Render {
  import opened Wrappers
  import opened Text
  import opened Markup
  import opened Escape
  import opened Slug
  import opened Uri
  import opened Table

  // The messages written in place of a list or an article.
  const EmptyOpen := "<p class=\"news-empty\">"
  const EmptyList := EmptyOpen + "Inga nyheter just nu." + ParaClose
  const ChooseNews := EmptyOpen + "Välj en nyhet från startsidan." + ParaClose
  const NotFound := EmptyOpen + "Vi hittar inte denna nyhet just nu." + ParaClose

  /** The page a card links to when the item has no link of its own. */
  const DetailPage := "news.html?id="

  // The tags and fixed text of a card.
  const ArticleOpen := "<article class=\"news-item\">"
  const MetaOpen := "<div class=\"news-meta\">"
  const DivClose := "</div>"
  const TitleOpen := "<h3 class=\"news-title\">"
  const TitleClose := "</h3>"
  const SummaryOpen := "<p class=\"news-summary\">"
  const ParaClose := "</p>"
  const LinkOpen := "<a class=\"news-link\" href=\""
  const ReadMore := "\">Läs mer"
  const AnchorClose := "</a>"
  const ArticleClose := "</article>"
  const SpanOpen := "<span>"
  const SpanClose := "</span>"

  // The tags and fixed text of the detail view.
  const DetailTitleOpen := "<h1 class=\"news-detail-title\">"
  const DetailTitleClose := "</h1>"
  const BodyOpen := "<p class=\"news-detail-body\">"
  const ParaOpen := "<p>"
  const ReadOriginal := NewTab + NoOpener + ">Läs original"
  const NewTab := "\" target=\"_blank\""
  const NoOpener := " rel=\"noopener noreferrer\""

  // The markup counted by the lemmas below.
  const ArticleTag := "<article"
  const SpanTag := "<span"
  const AnchorTag := "<a"
  const BreakTag := "<br"

  function Min(a: int, b: int): int {
    if a < b then a else b
  }

  /** `items.slice(0, maxItems)` when `maxItems` is a number, else all items. */
  function Take(items: seq<Item>, maxItems: Option<nat>): (r: seq<Item>)
    ensures maxItems.None? ==> r == items
    ensures maxItems.Some? ==> |r| == Min(maxItems.value, |items|)
    ensures r == items[..|r|]
  {
    match maxItems
    case None => items
    case Some(n) => if n < |items| then items[..n] else items
  }

  /** `item.id || slugify(item.title)`: the key both pages identify an item by. */
  function ItemKey(it: Item): string {
    Or(it.id, Slugify(it.title))
  }

  /** `item.link || ("news.html?id=" + encodeURIComponent(id))`. */
  function ItemLink(it: Item): string {
    Or(it.link, DetailPage + EncodeURIComponent(ItemKey(it)))
  }

  /** The date line: a `<span>` with the escaped date, or nothing. */
  function Meta(date: string): string {
    if date != "" then Concat([SpanOpen, EscapeHtml(date), SpanClose]) else ""
  }

  /** The pieces of one card, in the order the script concatenates them. */
  function CardParts(it: Item): seq<string> {
    [ArticleOpen] + CardBody(it)
  }

  /** Everything in a card after its opening tag. */
  function CardBody(it: Item): seq<string> {
    [MetaOpen, Meta(it.date), DivClose,
     TitleOpen, EscapeHtml(it.title), TitleClose,
     SummaryOpen, EscapeHtml(Or(it.summary, it.body)), ParaClose,
     LinkOpen, EscapeHtml(ItemLink(it)), ReadMore, AnchorClose,
     ArticleClose]
  }

  function Card(it: Item): string {
    Concat(CardParts(it))
  }

  function Cards(items: seq<Item>): (r: seq<string>)
    ensures |r| == |items| && forall i :: 0 <= i < |items| ==> r[i] == Card(items[i])
  {
    seq(|items|, i requires 0 <= i < |items| => Card(items[i]))
  }

  /** The start page: the cards of the first `maxItems` items, or the empty message. */
  function RenderList(items: seq<Item>, maxItems: Option<nat>): string {
    var sliced := Take(items, maxItems);
    if sliced == [] then EmptyList else Concat(Cards(sliced))
  }

  function ItemKeys(items: seq<Item>): (r: seq<string>)
    ensures |r| == |items| && forall i :: 0 <= i < |items| ==> r[i] == ItemKey(items[i])
  {
    seq(|items|, i requires 0 <= i < |items| => ItemKey(items[i]))
  }

  /** `items.find(...)` on the items' keys: the first position holding `id`. */
  function Find(keys: seq<string>, id: string): (r: Option<nat>)
    ensures r.Some? ==> r.value < |keys| && keys[r.value] == id
    ensures r.Some? ==> forall j :: 0 <= j < r.value ==> keys[j] != id
    ensures r.None? ==> forall j :: 0 <= j < |keys| ==> keys[j] != id
    decreases |keys|
  {
    if keys == [] then None
    else if keys[0] == id then Some(0)
    else match Find(keys[1..], id)
      case Some(j) => Some(j + 1)
      case None => None
  }

  /** The "Läs original" paragraph, present only for an item with a link. */
  function Source(link: string): string {
    if link != "" then
      Concat([ParaOpen, LinkOpen, EscapeHtml(link), ReadOriginal, AnchorClose, ParaClose])
    else ""
  }

  /** The article page for a found item. */
  function DetailView(it: Item): string {
    DetailOf(Meta(it.date), EscapeHtml(it.title), BreakLines(Or(it.body, it.summary)), Source(it.link))
  }

  /** The article page: `id` is the `id` query parameter, `None` when absent. */
  function RenderDetail(items: seq<Item>, id: Option<string>): string {
    if id.None? || id.value == "" then ChooseNews
    else match Find(ItemKeys(items), id.value)
      case None => NotFound
      case Some(i) => DetailView(items[i])
  }

  /** Escaped text holds no `<`, so no tag. */
  lemma EscapedQuiet(s: string, p: string)
    requires |p| >= 2 && p[0] == '<'
    ensures Blocked(EscapeHtml(s), p) && Occ(EscapeHtml(s), p) == 0
  {
    var e := EscapeHtml(s);
    EscapeHtmlNoMarkup(s);
    assert forall j :: 0 <= j < |e| ==> e[j] in e;
    OccNone(e, p);
  }

  /** A join whose last part ends in `>` can be followed by anything. */
  lemma SealedByClose(parts: seq<string>, p: string)
    requires |p| >= 2 && '>' !in p
    requires parts != [] && parts[|parts| - 1] != [] && parts[|parts| - 1][|parts[|parts| - 1]| - 1] == '>'
    ensures Sealed(Concat(parts), p)
  {
    var last := parts[|parts| - 1];
    ConcatAppend(parts[..|parts| - 1], [last]);
    assert parts[..|parts| - 1] + [last] == parts;
    assert Concat([last]) == last;
  }

  /** The date line holds no tag other than `<span` and `</span>`. */
  lemma MetaQuiet(date: string, p: string)
    requires |p| >= 2 && p[0] == '<' && p[1] != 's' && p[1] != '/'
    ensures Blocked(Meta(date), p) && Occ(Meta(date), p) == 0
  {
    if date != "" {
      TagBlocked(SpanOpen, p, 1);
      TagBlocked(SpanClose, p, 1);
      EscapedQuiet(date, p);
      BlockedConcat([SpanOpen, EscapeHtml(date), SpanClose], p);
    }
    OccBlocked(Meta(date), p);
  }

  /** The date line holds one `<span` exactly when there is a date. */
  lemma MetaSpans(date: string)
    ensures Sealed(Meta(date), SpanTag)
    ensures Occ(Meta(date), SpanTag) == if date != "" then 1 else 0
  {
    SpanOpenCount();
    MetaOpens(date, SpanTag);
  }

  lemma MetaOpens(date: string, p: string)
    requires |p| >= 3 && p[0] == '<' && p[1] == 's' && '>' !in p
    requires Sealed(SpanOpen, p) && Occ(SpanOpen, p) == 1
    ensures Sealed(Meta(date), p)
    ensures Occ(Meta(date), p) == if date != "" then 1 else 0
  {
    if date != "" {
      var rest := Concat([EscapeHtml(date), SpanClose]);
      SpanTail(date, p);
      assert Meta(date) == SpanOpen + rest;
      OccAppend(SpanOpen, rest, p);
    }
  }

  /** What follows `<span>` in the date line: escaped text and `</span>`. */
  lemma SpanTail(date: string, p: string)
    requires |p| >= 3 && p[0] == '<' && p[1] == 's' && '>' !in p
    ensures var rest := Concat([EscapeHtml(date), SpanClose]);
            Occ(rest, p) == 0 && Sealed(SpanOpen + rest, p)
  {
    EscapedQuiet(date, p);
    SpanTailOf(EscapeHtml(date), p);
  }

  lemma SpanTailOf(e: string, p: string)
    requires |p| >= 3 && p[0] == '<' && p[1] == 's' && '>' !in p && Blocked(e, p)
    ensures Occ(Concat([e, SpanClose]), p) == 0 && Sealed(SpanOpen + Concat([e, SpanClose]), p)
  {
    SpanJoin(e);
    SpanRestQuiet(e, p);
    SpanEnds(SpanOpen + e, p);
    assert SpanOpen + (e + SpanClose) == (SpanOpen + e) + SpanClose;
  }

  lemma SpanRestQuiet(e: string, p: string)
    requires |p| >= 3 && p[0] == '<' && p[1] == 's' && Blocked(e, p)
    ensures Occ(e + SpanClose, p) == 0
  {
    TagBlocked(SpanClose, p, 1);
    BlockedAppend(e, SpanClose, p);
    OccBlocked(e + SpanClose, p);
  }

  /** Whatever ends in `</span>` can be followed by anything. */
  lemma SpanEnds(x: string, p: string)
    requires |p| >= 2 && '>' !in p
    ensures Sealed(x + SpanClose, p)
  {
    var s := x + SpanClose;
    assert s[|s| - 1] == SpanClose[|SpanClose| - 1];
  }

  lemma SpanJoin(e: string)
    ensures Concat([e, SpanClose]) == e + SpanClose
  {
    ConcatCons(e, [SpanClose]);
    ConcatCons(SpanClose, []);
    assert [e, SpanClose][1..] == [SpanClose];
    assert [SpanClose][1..] == [];
  }

  lemma SpanOpenCount()
    ensures Sealed(SpanOpen, SpanTag) && Occ(SpanOpen, SpanTag) == 1
  {
    assert SpanOpen[..|SpanTag|] == SpanTag;
    OccOpening(SpanOpen, SpanTag);
  }

  /** The detail body: its only `<` open `<br>` tags. */
  lemma BreakLinesQuiet(s: string, p: string)
    requires |p| >= 2 && p[0] == '<' && p[1] != 'b'
    ensures Blocked(BreakLines(s), p) && Occ(BreakLines(s), p) == 0
  {
    var b := BreakLines(s);
    BreakLinesMarkup(s);
    forall i | 0 <= i < |b| ensures BlockedAt(b, p, i) {
      BreakBlocks(b, p, i);
    }
    OccBlocked(b, p);
  }

  /** A `<` that opens `<br>` does not open any tag whose second character is not `b`. */
  lemma BreakBlocks(b: string, p: string, i: nat)
    requires |p| >= 2 && p[0] == '<' && p[1] != 'b' && i < |b|
    requires b[i] == '<' ==> StartsWith(b[i..], "<br>")
    ensures BlockedAt(b, p, i)
  {
    if b[i] == '<' {
      var w := b[i..];
      assert w[..4] == "<br>";
      assert w[..4][1] == 'b';
      assert w[1] == b[i + 1];
    }
  }

  lemma BreakLinesSealed(s: string)
    ensures Sealed(BreakLines(s), BreakTag)
  {
    var b := BreakLines(s);
    BreakLinesMarkup(s);
    forall i | 0 <= i < |b| && b[i] == BreakTag[0] ensures i + |BreakTag| <= |b| {
      assert StartsWith(b[i..], "<br>");
    }
  }

  /** The fixed text of a card after its opening tag opens no `<article`. */
  lemma CardTagsQuiet(p: string)
    requires |p| >= 3 && p[0] == '<' && p[1] == 'a' && p[2] == 'r'
    ensures forall y :: y in [MetaOpen, DivClose, TitleOpen, TitleClose, SummaryOpen,
                              ParaClose, LinkOpen, ReadMore, AnchorClose, ArticleClose]
                        ==> Blocked(y, p)
  {
    CardHeadTagsQuiet(p);
    CardTailTagsQuiet(p);
  }

  lemma CardHeadTagsQuiet(p: string)
    requires |p| >= 3 && p[0] == '<' && p[1] == 'a' && p[2] == 'r'
    ensures Blocked(MetaOpen, p) && Blocked(DivClose, p) && Blocked(TitleOpen, p)
    ensures Blocked(TitleClose, p) && Blocked(SummaryOpen, p)
  {
    TagBlocked(MetaOpen, p, 1);
    TagBlocked(DivClose, p, 1);
    TagBlocked(TitleOpen, p, 1);
    TagBlocked(TitleClose, p, 1);
    TagBlocked(SummaryOpen, p, 1);
  }

  lemma CardTailTagsQuiet(p: string)
    requires |p| >= 3 && p[0] == '<' && p[1] == 'a' && p[2] == 'r'
    ensures Blocked(ParaClose, p) && Blocked(LinkOpen, p) && Blocked(ReadMore, p)
    ensures Blocked(AnchorClose, p) && Blocked(ArticleClose, p)
  {
    TagBlocked(ParaClose, p, 1);
    TagBlocked(LinkOpen, p, 2);
    OccNone(ReadMore, p);
    TagBlocked(AnchorClose, p, 1);
    TagBlocked(ArticleClose, p, 1);
  }

  /** The parts of a card after its opening tag, around blocked texts, are blocked. */
  lemma CardFrameQuiet(m: string, t: string, x: string, l: string, p: string)
    requires |p| >= 3 && p[0] == '<' && p[1] == 'a' && p[2] == 'r'
    requires Blocked(m, p) && Blocked(t, p) && Blocked(x, p) && Blocked(l, p)
    ensures Blocked(Concat([MetaOpen, m, DivClose, TitleOpen, t, TitleClose, SummaryOpen, x,
                            ParaClose, LinkOpen, l, ReadMore, AnchorClose, ArticleClose]), p)
  {
    CardTagsQuiet(p);
    BlockedConcat([MetaOpen, m, DivClose, TitleOpen, t, TitleClose, SummaryOpen, x,
                   ParaClose, LinkOpen, l, ReadMore, AnchorClose, ArticleClose], p);
  }

  /** Every part of a card after its opening tag: none opens an `<article`. */
  lemma CardBodyQuiet(it: Item, p: string)
    requires |p| >= 3 && p[0] == '<' && p[1] == 'a' && p[2] == 'r'
    ensures Blocked(Concat(CardBody(it)), p) && Occ(Concat(CardBody(it)), p) == 0
  {
    MetaQuiet(it.date, p);
    EscapedQuiet(it.title, p);
    EscapedQuiet(Or(it.summary, it.body), p);
    EscapedQuiet(ItemLink(it), p);
    CardFrameQuiet(Meta(it.date), EscapeHtml(it.title), EscapeHtml(Or(it.summary, it.body)),
                   EscapeHtml(ItemLink(it)), p);
    OccBlocked(Concat(CardBody(it)), p);
  }

  /** A card ends in `</article>`, so it can be followed by anything. */
  lemma CardSealed(it: Item, p: string)
    requires |p| >= 2 && '>' !in p
    ensures Sealed(Card(it), p)
  {
    SealedByClose(CardParts(it), p);
  }

  lemma ArticleTagShape(p: string)
    requires p == ArticleTag
    ensures |p| >= 3 && p[0] == '<' && p[1] == 'a' && p[2] == 'r' && '>' !in p
  {
  }

  lemma ArticleOpenOnce(p: string)
    requires p == ArticleTag
    ensures Sealed(ArticleOpen, p) && Occ(ArticleOpen, p) == 1
  {
    assert ArticleOpen[..|ArticleTag|] == ArticleTag;
    OccOpening(ArticleOpen, ArticleTag);
  }

  /** A card opens exactly one `<article`, whatever its item's text holds. */
  lemma CardArticles(it: Item, p: string)
    requires p == ArticleTag
    ensures Sealed(Card(it), p) && Occ(Card(it), p) == 1
  {
    ArticleTagShape(p);
    ArticleOpenOnce(p);
    CardOpens(it, p);
  }

  lemma CardOpens(it: Item, p: string)
    requires |p| >= 3 && p[0] == '<' && p[1] == 'a' && p[2] == 'r' && '>' !in p
    requires Sealed(ArticleOpen, p) && Occ(ArticleOpen, p) == 1
    ensures Sealed(Card(it), p) && Occ(Card(it), p) == 1
  {
    CardBodyQuiet(it, p);
    CardSealed(it, p);
    CardSplit(it);
    OccHead(ArticleOpen, Concat(CardBody(it)), p);
  }

  lemma CardSplit(it: Item)
    ensures Card(it) == ArticleOpen + Concat(CardBody(it))
  {
    ConcatCons(ArticleOpen, CardBody(it));
  }

  /** The cards of `items` open one `<article` per item. */
  lemma {:induction false} CardsArticles(items: seq<Item>, p: string)
    requires |p| >= 3 && p[0] == '<' && p[1] == 'a' && p[2] == 'r' && '>' !in p
    requires Sealed(ArticleOpen, p) && Occ(ArticleOpen, p) == 1
    ensures Occ(Concat(Cards(items)), p) == |items|
  {
    if items != [] {
      CardOpens(items[0], p);
      CardsCons(items);
      OccAppend(Card(items[0]), Concat(Cards(items[1..])), p);
      CardsArticles(items[1..], p);
    }
  }

  lemma CardsCons(items: seq<Item>)
    requires items != []
    ensures Concat(Cards(items)) == Card(items[0]) + Concat(Cards(items[1..]))
  {
    var cs, rest := Cards(items), Cards(items[1..]);
    assert |cs[1..]| == |rest|;
    forall i | 0 <= i < |rest| ensures cs[1..][i] == rest[i] {
      assert items[1..][i] == items[i + 1];
    }
    assert cs[1..] == rest;
  }

  /** A card, with its date line `m`, escaped title `t`, summary `x` and link `l`. */
  function CardOf(m: string, t: string, x: string, l: string): string {
    Concat([ArticleOpen, MetaOpen, m, DivClose, TitleOpen, t, TitleClose, SummaryOpen, x,
            ParaClose, LinkOpen, l, ReadMore, AnchorClose, ArticleClose])
  }

  lemma CardIsCardOf(it: Item)
    ensures Card(it) == CardOf(Meta(it.date), EscapeHtml(it.title),
                               EscapeHtml(Or(it.summary, it.body)), EscapeHtml(ItemLink(it)))
  {
  }

  /** The fixed tags of a card other than `<span`. */
  lemma CardOtherTagsQuiet(p: string)
    requires |p| >= 2 && p[0] == '<' && p[1] != 'a' && p[1] != 'd' && p[1] != '/'
    requires p[1] != 'h' && p[1] != 'p'
    ensures Blocked(ArticleOpen, p) && Blocked(MetaOpen, p) && Blocked(DivClose, p)
    ensures Blocked(TitleOpen, p) && Blocked(TitleClose, p) && Blocked(SummaryOpen, p)
  {
    TagBlocked(ArticleOpen, p, 1);
    TagBlocked(MetaOpen, p, 1);
    TagBlocked(DivClose, p, 1);
    TagBlocked(TitleOpen, p, 1);
    TagBlocked(TitleClose, p, 1);
    TagBlocked(SummaryOpen, p, 1);
  }

  lemma CardLinkTagsQuiet(p: string)
    requires |p| >= 2 && p[0] == '<' && p[1] != 'a' && p[1] != '/'
    ensures Blocked(ParaClose, p) && Blocked(LinkOpen, p) && Blocked(ReadMore, p)
    ensures Blocked(AnchorClose, p) && Blocked(ArticleClose, p)
  {
    TagBlocked(ParaClose, p, 1);
    TagBlocked(LinkOpen, p, 1);
    OccNone(ReadMore, p);
    TagBlocked(AnchorClose, p, 1);
    TagBlocked(ArticleClose, p, 1);
  }

  /** The occurrences in a card whose only unblocked part is its date line. */
  lemma CardMetaFrame(m: string, t: string, x: string, l: string, p: string)
    requires |p| >= 2 && p[0] == '<' && p[1] != 'a' && p[1] != 'd' && p[1] != '/'
    requires p[1] != 'h' && p[1] != 'p'
    requires Sealed(m, p) && Blocked(t, p) && Blocked(x, p) && Blocked(l, p)
    ensures Occ(CardOf(m, t, x, l), p) == Occ(m, p)
  {
    CardOtherTagsQuiet(p);
    CardLinkTagsQuiet(p);
    var after := [DivClose, TitleOpen, t, TitleClose, SummaryOpen, x,
                  ParaClose, LinkOpen, l, ReadMore, AnchorClose, ArticleClose];
    OccOnePart([ArticleOpen, MetaOpen], m, after, p);
    assert [ArticleOpen, MetaOpen] + [m] + after
        == [ArticleOpen, MetaOpen, m, DivClose, TitleOpen, t, TitleClose, SummaryOpen, x,
            ParaClose, LinkOpen, l, ReadMore, AnchorClose, ArticleClose];
  }

  /** A card holds one `<span`, around its date, when the item has a date, and none
      otherwise: the item's own text cannot add one. */
  lemma CardSpans(it: Item)
    ensures Occ(Card(it), SpanTag) == if it.date != "" then 1 else 0
  {
    CardSpansFor(it, SpanTag);
  }

  lemma CardSpansFor(it: Item, p: string)
    requires p == SpanTag
    ensures Occ(Card(it), p) == if it.date != "" then 1 else 0
  {
    SpanTagShape(p);
    SpanOpenOnce(p);
    CardSpansAt(it, p);
  }

  lemma CardSpansAt(it: Item, p: string)
    requires |p| >= 3 && p[0] == '<' && p[1] == 's' && '>' !in p
    requires Sealed(SpanOpen, p) && Occ(SpanOpen, p) == 1
    ensures Occ(Card(it), p) == if it.date != "" then 1 else 0
  {
    MetaOpens(it.date, p);
    EscapedQuiet(it.title, p);
    EscapedQuiet(Or(it.summary, it.body), p);
    EscapedQuiet(ItemLink(it), p);
    CardIsCardOf(it);
    CardMetaFrame(Meta(it.date), EscapeHtml(it.title), EscapeHtml(Or(it.summary, it.body)),
                  EscapeHtml(ItemLink(it)), p);
  }

  /** The empty-list message holds no tag but `<p` and `</p>`. */
  lemma EmptyListQuiet(p: string)
    requires |p| >= 2 && p[0] == '<' && p[1] != 'p' && p[1] != '/'
    ensures Blocked(EmptyList, p) && Occ(EmptyList, p) == 0
  {
    TagBlocked(EmptyOpen, p, 1);
    OccNone("Inga nyheter just nu.", p);
    TagBlocked(ParaClose, p, 1);
    BlockedAppend(EmptyOpen, "Inga nyheter just nu.", p);
    BlockedAppend(EmptyOpen + "Inga nyheter just nu.", ParaClose, p);
    OccBlocked(EmptyList, p);
  }

  /** The start page holds one `<article` per item shown: the first `maxItems` items,
      or all of them, and none for the empty message. */
  lemma RenderListArticles(items: seq<Item>, maxItems: Option<nat>)
    ensures Occ(RenderList(items, maxItems), ArticleTag) == |Take(items, maxItems)|
  {
    ListArticles(items, maxItems, ArticleTag);
  }

  lemma ListArticles(items: seq<Item>, maxItems: Option<nat>, p: string)
    requires p == ArticleTag
    ensures Occ(RenderList(items, maxItems), p) == |Take(items, maxItems)|
  {
    ArticleTagShape(p);
    if Take(items, maxItems) == [] {
      EmptyListQuiet(p);
    } else {
      ArticleOpenOnce(p);
      CardsArticles(Take(items, maxItems), p);
    }
  }

  /** The empty message is shown exactly when there is no item to show. */
  lemma RenderListEmpty(items: seq<Item>, maxItems: Option<nat>)
    ensures RenderList(items, maxItems) == EmptyList <==> Take(items, maxItems) == []
  {
    RenderListArticles(items, maxItems);
    RenderListArticles([], maxItems);
  }

  /** The fixed tags of the article page other than `<span`, `<br` and `<a`. */
  lemma DetailTagsQuiet(p: string)
    requires |p| >= 2 && p[0] == '<' && p[1] != 'd' && p[1] != '/' && p[1] != 'h' && p[1] != 'p'
    ensures forall y :: y in [MetaOpen, DivClose, DetailTitleOpen, DetailTitleClose, BodyOpen,
                              ParaClose, ParaOpen, AnchorClose]
                        ==> Blocked(y, p)
  {
    TagBlocked(MetaOpen, p, 1);
    TagBlocked(DivClose, p, 1);
    TagBlocked(DetailTitleOpen, p, 1);
    TagBlocked(DetailTitleClose, p, 1);
    TagBlocked(BodyOpen, p, 1);
    TagBlocked(ParaClose, p, 1);
    TagBlocked(ParaOpen, p, 1);
    TagBlocked(AnchorClose, p, 1);
  }

  /** The attributes and text after a source link's address hold no tag. */
  lemma ReadOriginalQuiet(p: string)
    requires |p| >= 2 && p[0] == '<'
    ensures Blocked(ReadOriginal, p)
  {
    OccNone(NewTab, p);
    OccNone(NoOpener, p);
    OccNone(">Läs original", p);
    BlockedAppend(NewTab, NoOpener, p);
    BlockedAppend(NewTab + NoOpener, ">Läs original", p);
  }

  /** The source paragraph holds no tag but `<p`, `<a` and their closing tags. */
  lemma SourceQuiet(link: string, p: string)
    requires |p| >= 2 && p[0] == '<' && p[1] != 'd' && p[1] != '/' && p[1] != 'h' && p[1] != 'p'
    requires p[1] != 'a'
    ensures Blocked(Source(link), p)
  {
    if link != "" {
      DetailTagsQuiet(p);
      ReadOriginalQuiet(p);
      TagBlocked(LinkOpen, p, 1);
      EscapedQuiet(link, p);
      BlockedConcat([ParaOpen, LinkOpen, EscapeHtml(link), ReadOriginal, AnchorClose, ParaClose], p);
    }
  }

  lemma AnchorTagShape(p: string)
    requires p == AnchorTag
    ensures |p| == 2 && p[0] == '<' && p[1] == 'a' && '>' !in p
  {
  }

  lemma LinkOpenOnce(p: string)
    requires p == AnchorTag
    ensures Sealed(LinkOpen, p) && Occ(LinkOpen, p) == 1
  {
    assert LinkOpen[..|AnchorTag|] == AnchorTag;
    OccOpening(LinkOpen, AnchorTag);
  }

  /** The source paragraph around a blocked link holds the `<a` of its link tag. */
  lemma SourceFrame(l: string, e: string, p: string)
    requires |p| == 2 && p[0] == '<' && p[1] == 'a'
    requires Sealed(l, p) && Occ(l, p) == 1 && Blocked(e, p)
    ensures Occ(Concat([ParaOpen, l, e, ReadOriginal, AnchorClose, ParaClose]), p) == 1
  {
    SourceTagsQuiet(p);
    OccOnePart([ParaOpen], l, [e, ReadOriginal, AnchorClose, ParaClose], p);
    assert [ParaOpen] + [l] + [e, ReadOriginal, AnchorClose, ParaClose]
        == [ParaOpen, l, e, ReadOriginal, AnchorClose, ParaClose];
  }

  lemma SourceTagsQuiet(p: string)
    requires |p| == 2 && p[0] == '<' && p[1] == 'a'
    ensures Blocked(ParaOpen, p) && Blocked(AnchorClose, p) && Blocked(ParaClose, p)
    ensures Blocked(ReadOriginal, p)
  {
    TagBlocked(ParaOpen, p, 1);
    TagBlocked(AnchorClose, p, 1);
    TagBlocked(ParaClose, p, 1);
    ReadOriginalQuiet(p);
  }

  /** The source paragraph holds one `<a` when the item has a link, none otherwise. */
  lemma SourceOpens(link: string, p: string)
    requires |p| == 2 && p[0] == '<' && p[1] == 'a' && '>' !in p
    requires Sealed(LinkOpen, p) && Occ(LinkOpen, p) == 1
    ensures Sealed(Source(link), p) && Occ(Source(link), p) == if link != "" then 1 else 0
  {
    if link != "" {
      var e := EscapeHtml(link);
      EscapedQuiet(link, p);
      SourceFrame(LinkOpen, e, p);
      SealedByClose([ParaOpen, LinkOpen, e, ReadOriginal, AnchorClose, ParaClose], p);
    } else {
      assert Blocked(Source(link), p);
    }
  }

  /** The article page, with its date line `m`, title `t`, body `b` and source
      paragraph `src`. */
  function DetailOf(m: string, t: string, b: string, src: string): string {
    Concat([MetaOpen, m, DivClose, DetailTitleOpen, t, DetailTitleClose, BodyOpen, b, ParaClose, src])
  }

  /** The occurrences on an article page whose only unblocked part is its date line. */
  lemma DetailMetaFrame(m: string, t: string, b: string, src: string, p: string)
    requires |p| >= 2 && p[0] == '<' && p[1] != 'd' && p[1] != '/' && p[1] != 'h' && p[1] != 'p'
    requires Sealed(m, p) && Blocked(t, p) && Blocked(b, p) && Blocked(src, p)
    ensures Occ(DetailOf(m, t, b, src), p) == Occ(m, p)
  {
    DetailTagsQuiet(p);
    var after := [DivClose, DetailTitleOpen, t, DetailTitleClose, BodyOpen, b, ParaClose, src];
    OccOnePart([MetaOpen], m, after, p);
    assert [MetaOpen] + [m] + after
        == [MetaOpen, m, DivClose, DetailTitleOpen, t, DetailTitleClose, BodyOpen, b, ParaClose, src];
  }

  /** The occurrences on an article page whose only unblocked part is its body. */
  lemma DetailBodyFrame(m: string, t: string, b: string, src: string, p: string)
    requires |p| >= 2 && p[0] == '<' && p[1] != 'd' && p[1] != '/' && p[1] != 'h' && p[1] != 'p'
    requires Blocked(m, p) && Blocked(t, p) && Sealed(b, p) && Blocked(src, p)
    ensures Occ(DetailOf(m, t, b, src), p) == Occ(b, p)
  {
    DetailTagsQuiet(p);
    var before := [MetaOpen, m, DivClose, DetailTitleOpen, t, DetailTitleClose, BodyOpen];
    OccOnePart(before, b, [ParaClose, src], p);
    assert before + [b] + [ParaClose, src]
        == [MetaOpen, m, DivClose, DetailTitleOpen, t, DetailTitleClose, BodyOpen, b, ParaClose, src];
  }

  /** The occurrences on an article page whose only unblocked part is its source. */
  lemma DetailSourceFrame(m: string, t: string, b: string, src: string, p: string)
    requires |p| >= 2 && p[0] == '<' && p[1] != 'd' && p[1] != '/' && p[1] != 'h' && p[1] != 'p'
    requires Blocked(m, p) && Blocked(t, p) && Blocked(b, p) && Sealed(src, p)
    ensures Occ(DetailOf(m, t, b, src), p) == Occ(src, p)
  {
    DetailTagsQuiet(p);
    var before := [MetaOpen, m, DivClose, DetailTitleOpen, t, DetailTitleClose, BodyOpen, b, ParaClose];
    OccOnePart(before, src, [], p);
    assert before + [src] + []
        == [MetaOpen, m, DivClose, DetailTitleOpen, t, DetailTitleClose, BodyOpen, b, ParaClose, src];
  }

  /** The article page links out once when the item has a link, and never otherwise:
      the item's own text cannot add an `<a`. */
  lemma DetailAnchors(it: Item)
    ensures Occ(DetailView(it), AnchorTag) == if it.link != "" then 1 else 0
  {
    DetailAnchorsFor(it, AnchorTag);
  }

  lemma DetailAnchorsFor(it: Item, p: string)
    requires p == AnchorTag
    ensures Occ(DetailView(it), p) == if it.link != "" then 1 else 0
  {
    AnchorTagShape(p);
    LinkOpenOnce(p);
    DetailAnchorsAt(it, p);
  }

  lemma DetailAnchorsAt(it: Item, p: string)
    requires |p| == 2 && p[0] == '<' && p[1] == 'a' && '>' !in p
    requires Sealed(LinkOpen, p) && Occ(LinkOpen, p) == 1
    ensures Occ(DetailView(it), p) == if it.link != "" then 1 else 0
  {
    var text := Or(it.body, it.summary);
    MetaQuiet(it.date, p);
    EscapedQuiet(it.title, p);
    BreakLinesQuiet(text, p);
    SourceOpens(it.link, p);
    DetailSourceFrame(Meta(it.date), EscapeHtml(it.title), BreakLines(text), Source(it.link), p);
  }

  lemma SpanTagShape(p: string)
    requires p == SpanTag
    ensures |p| >= 3 && p[0] == '<' && p[1] == 's' && '>' !in p
  {
  }

  lemma SpanOpenOnce(p: string)
    requires p == SpanTag
    ensures Sealed(SpanOpen, p) && Occ(SpanOpen, p) == 1
  {
    SpanOpenCount();
  }

  /** The article page holds one `<span` when the item has a date, none otherwise. */
  lemma DetailSpans(it: Item)
    ensures Occ(DetailView(it), SpanTag) == if it.date != "" then 1 else 0
  {
    DetailSpansFor(it, SpanTag);
  }

  lemma DetailSpansFor(it: Item, p: string)
    requires p == SpanTag
    ensures Occ(DetailView(it), p) == if it.date != "" then 1 else 0
  {
    SpanTagShape(p);
    SpanOpenOnce(p);
    DetailSpansAt(it, p);
  }

  lemma DetailSpansAt(it: Item, p: string)
    requires |p| >= 3 && p[0] == '<' && p[1] == 's' && '>' !in p
    requires Sealed(SpanOpen, p) && Occ(SpanOpen, p) == 1
    ensures Occ(DetailView(it), p) == if it.date != "" then 1 else 0
  {
    var text := Or(it.body, it.summary);
    MetaOpens(it.date, p);
    EscapedQuiet(it.title, p);
    BreakLinesQuiet(text, p);
    SourceQuiet(it.link, p);
    DetailMetaFrame(Meta(it.date), EscapeHtml(it.title), BreakLines(text), Source(it.link), p);
  }

  /** Every line break of the article text becomes one `<br>` on the page, and nothing
      else on the page opens a `<br`. */
  lemma DetailBreaks(it: Item)
    ensures Occ(DetailView(it), BreakTag) == Occ(Or(it.body, it.summary), "\n")
  {
    DetailBreaksFor(it, BreakTag);
    BreakLinesCount(Or(it.body, it.summary));
  }

  lemma DetailBreaksFor(it: Item, p: string)
    requires p == BreakTag
    ensures Occ(DetailView(it), p) == Occ(BreakLines(Or(it.body, it.summary)), p)
  {
    BreakLinesSealed(Or(it.body, it.summary));
    DetailBreaksAt(it, p);
  }

  lemma DetailBreaksAt(it: Item, p: string)
    requires |p| == 3 && p[0] == '<' && p[1] == 'b' && p[2] == 'r' && '>' !in p
    requires Sealed(BreakLines(Or(it.body, it.summary)), p)
    ensures Occ(DetailView(it), p) == Occ(BreakLines(Or(it.body, it.summary)), p)
  {
    var text := Or(it.body, it.summary);
    MetaQuiet(it.date, p);
    EscapedQuiet(it.title, p);
    SourceQuiet(it.link, p);
    DetailBodyFrame(Meta(it.date), EscapeHtml(it.title), BreakLines(text), Source(it.link), p);
  }

  /** The article page starts with the date line's `<div`; the messages with `<p`. */
  lemma DetailViewHead(it: Item)
    ensures |DetailView(it)| > 1 && DetailView(it)[1] == 'd'
  {
    DetailOfHead(Meta(it.date), EscapeHtml(it.title), BreakLines(Or(it.body, it.summary)),
                 Source(it.link));
  }

  lemma DetailOfHead(m: string, t: string, b: string, src: string)
    ensures |DetailOf(m, t, b, src)| > 1 && DetailOf(m, t, b, src)[1] == 'd'
  {
    var rest := [m, DivClose, DetailTitleOpen, t, DetailTitleClose, BodyOpen, b, ParaClose, src];
    ConcatCons(MetaOpen, rest);
    assert [MetaOpen] + rest
        == [MetaOpen, m, DivClose, DetailTitleOpen, t, DetailTitleClose, BodyOpen, b, ParaClose, src];
    assert MetaOpen[1] == 'd';
  }

  /** The three outcomes of the article page: no `id` asks the reader to choose, an `id`
      no item has is not found, and otherwise the first item with that key is shown. */
  lemma RenderDetailCases(items: seq<Item>, id: Option<string>)
    ensures id.None? || id.value == "" ==> RenderDetail(items, id) == ChooseNews
    ensures id.Some? && id.value != "" && (forall j :: 0 <= j < |items| ==> ItemKey(items[j]) != id.value)
            ==> RenderDetail(items, id) == NotFound
    ensures forall i :: 0 <= i < |items| && id.Some? && id.value != "" && ItemKey(items[i]) == id.value
                        && (forall j :: 0 <= j < i ==> ItemKey(items[j]) != id.value)
                        ==> RenderDetail(items, id) == DetailView(items[i])
  {
    if id.Some? && id.value != "" {
      var keys := ItemKeys(items);
      match Find(keys, id.value)
      case None =>
      case Some(k) =>
        forall i | 0 <= i < |items| && ItemKey(items[i]) == id.value
                   && (forall j :: 0 <= j < i ==> ItemKey(items[j]) != id.value)
          ensures i == k
        {
          assert keys[i] == id.value;
        }
    }
  }

  /** Each outcome is recognisable from the page: the two messages differ from each
      other and from any article, so the choice message appears exactly when there is
      no `id` and the not-found message exactly when no item has that key. */
  lemma RenderDetailOutcome(items: seq<Item>, id: Option<string>)
    ensures RenderDetail(items, id) == ChooseNews <==> id.None? || id.value == ""
    ensures RenderDetail(items, id) == NotFound
        <==> id.Some? && id.value != "" && forall j :: 0 <= j < |items| ==> ItemKey(items[j]) != id.value
  {
    MessagesDiffer();
    RenderDetailCases(items, id);
    if id.Some? && id.value != "" {
      FoundIsArticle(items, id.value);
    }
  }

  /** With a key, the page is an article, starting `<d`, exactly when some item has
      that key. */
  lemma FoundIsArticle(items: seq<Item>, key: string)
    requires key != ""
    ensures Find(ItemKeys(items), key).Some? ==>
              |RenderDetail(items, Some(key))| > 1 && RenderDetail(items, Some(key))[1] == 'd'
    ensures Find(ItemKeys(items), key).None? <==> forall j :: 0 <= j < |items| ==> ItemKey(items[j]) != key
  {
    match Find(ItemKeys(items), key)
    case None =>
    case Some(i) =>
      DetailViewHead(items[i]);
      assert ItemKey(items[i]) == key;
  }

  /** An item without a link of its own links to the article page with its key
      percent-encoded; decoding the parameter gives the key's UTF-8 bytes back, and the
      article page for that key shows the item, unless an earlier item has the key. */
  lemma LinkLeadsToDetail(items: seq<Item>, i: nat)
    requires i < |items| && items[i].link == "" && ItemKey(items[i]) != ""
    requires forall j :: 0 <= j < i ==> ItemKey(items[j]) != ItemKey(items[i])
    ensures ItemLink(items[i]) == DetailPage + EncodeURIComponent(ItemKey(items[i]))
    ensures PercentDecode(EncodeURIComponent(ItemKey(items[i]))) == Utf8Bytes(ItemKey(items[i]))
    ensures RenderDetail(items, Some(ItemKey(items[i]))) == DetailView(items[i])
  {
    DecodeEncode(ItemKey(items[i]));
    RenderDetailCases(items, Some(ItemKey(items[i])));
  }

  /** An item titled `Hello` with no id and no link links to `news.html?id=hello`. */
  lemma HelloLink()
    ensures ItemLink(Item("", "", "Hello", "", "", "")) == DetailPage + "hello"
  {
    var it := Item("", "", "Hello", "", "", "");
    SlugifyHello();
    HelloEncoded();
    LinkOfKey(it, "hello");
  }

  lemma HelloEncoded()
    ensures EncodeURIComponent("hello") == "hello"
  {
    assert forall c :: c in "hello" ==> IsUnreserved(c);
    EncodeUnreserved("hello");
  }

  /** An item without a link of its own links to the article page of its key. */
  lemma LinkOfKey(it: Item, key: string)
    requires it.link == "" && ItemKey(it) == key
    ensures ItemLink(it) == DetailPage + EncodeURIComponent(key)
  {
  }

  /** What the script writes into the page: the new `innerHTML` of the list element and
      of the article element, `None` where it leaves an element alone. */
  datatype Targets = Targets(list: Option<string>, detail: Option<string>)

  /** The rendering `processResponse` chooses: the article element when the page has
      one, else the list element. */
  function Dispatch(items: seq<Item>, hasList: bool, hasDetail: bool, maxItems: Option<nat>,
                    id: Option<string>): (w: Targets)
    ensures w.list.Some? <==> hasList && !hasDetail
    ensures w.detail.Some? <==> hasDetail
    ensures w.list.Some? ==> w.list.value == RenderList(items, maxItems)
    ensures w.detail.Some? ==> w.detail.value == RenderDetail(items, id)
  {
    if hasDetail then Targets(None, Some(RenderDetail(items, id)))
    else if hasList then Targets(Some(RenderList(items, maxItems)), None)
    else Targets(None, None)
  }

  /** `processResponse`: a response without a table is read as the empty table `{}`. */
  method ProcessResponse(response: Option<Table>, hasList: bool, hasDetail: bool,
                         maxItems: Option<nat>, id: Option<string>) returns (w: Targets)
    ensures w == Dispatch(TableItems(response.GetOr(Table(None, None))), hasList, hasDetail, maxItems, id)
  {
    var items := TableToItems(response.GetOr(Table(None, None)));
    w := Dispatch(items, hasList, hasDetail, maxItems, id);
  }

  /** `handleError`: every element present gets its fallback message. */
  function HandleError(hasList: bool, hasDetail: bool): (w: Targets)
    ensures w.list.Some? <==> hasList
    ensures w.detail.Some? <==> hasDetail
    ensures w.list.Some? ==> w.list.value == EmptyList
    ensures w.detail.Some? ==> w.detail.value == NotFound
  {
    Targets(if hasList then Some(EmptyList) else None, if hasDetail then Some(NotFound) else None)
  }

  /** A response without a table gives no item. */
  lemma EmptyResponse()
    ensures TableItems(Table(None, None)) == []
  {
  }

  /** On a page with one of the two elements, and an `id` on an article page, a failed
      load shows what an empty feed would. */
  lemma ErrorLikeEmptyFeed(hasList: bool, hasDetail: bool, maxItems: Option<nat>, id: Option<string>)
    requires hasList != hasDetail
    requires hasDetail ==> id.Some? && id.value != ""
    ensures HandleError(hasList, hasDetail) == Dispatch([], hasList, hasDetail, maxItems, id)
  {
    RenderListEmpty([], maxItems);
    RenderDetailCases([], id);
  }

  /** An empty response and a failed load differ on an article page without an `id`:
      the former asks the reader to choose, the latter says the article is missing. */
  lemma ErrorWithoutId(maxItems: Option<nat>)
    ensures HandleError(false, true) != Dispatch([], false, true, maxItems, None)
  {
    MessagesDiffer();
  }

  /** The two messages of the article page differ, and both start with `<p`. */
  lemma MessagesDiffer()
    ensures ChooseNews != NotFound
    ensures |ChooseNews| > 1 && ChooseNews[1] == 'p' && |NotFound| > 1 && NotFound[1] == 'p'
  {
    var k := |EmptyOpen| + 1;
    assert ChooseNews[k] == 'ä' && NotFound[k] == 'i';
  }
}
