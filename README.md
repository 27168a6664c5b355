# News feed normaliser and renderer

This project models the data path of the news widget in `assets/news.js` and proves
properties of it. The widget reads a Google Sheets table and turns it into news items.
It then writes either a list of cards (start page) or one article (article page) into
the page.

What is modelled:

- **Cells.** `cellValue` gives the displayed text of a spreadsheet cell.
- **Header keys.** `normalizeKey` folds a column label to a lower-case key with no
  whitespace and no `å`, `ä` or `ö`. The `keyMap` alias table maps Swedish and English
  keys onto the six fields `id`, `date`, `title`, `summary`, `body` and `link`.
- **Table to items.** `tableToItems` keys each column, falls back to the first row as
  the header when no column has a label, builds one object per row and keeps the rows
  that have a title. `normalizeItem` completes each object to the six fields.
- **Slugs.** `slugify` gives the key an item is linked by when it has no `id`.
- **Escaping.** `escapeHtml` escapes five characters; the article page also turns line
  breaks into `<br>`.
- **Rendering.** `renderList` and `renderDetail` are functions returning the string
  written into the target's `innerHTML`.
- **Dispatch.** `processResponse` picks the renderer; `handleError` writes the fallback
  messages.

The JavaScript string primitives the script relies on are defined in module `Text`:
`toLowerCase`, `trim`, the `\s` class and `replace` with a one-character class.
`encodeURIComponent` is defined in module `Uri`.

Tag-count properties are stated with `Markup.Occ(s, p)`, the number of positions of
`s` where `p` starts. They hold whatever the item's text contains, because escaped text
holds no `<`.

Modules: `Wrappers` (Option), `Text`, `Markup`, `Escape`, `Slug`, `Uri`, `Keys`,
`Table`, `Render`, one per file.

`cellValue` returns `f.trim()` whenever `f` is a string, even when the trimmed text is
empty: an `f` of only spaces gives `""`, and `v` is not consulted.

## Model

| member | source | states |
|---|---|---|
| Text.Trim | assets/news.js:132 | `String.prototype.trim`: strips JavaScript whitespace from both ends (its properties are the rows `Text.TrimIsInfix` and `Text.TrimOfTrimmed`) |
| Text.ReplaceAny | assets/news.js:134-135 | a global `replace` of a one-character class: every character of the class becomes the replacement, every other character stays, in order |
| Text.RemoveWhitespace | assets/news.js:133 | `replace(/\s+/g, "")`: drops every whitespace character and keeps the rest in order |
| Text.ToLowerCase | assets/news.js:131 | same length, each character lowered, no upper-case letter left |
| Text.TrimIsInfix | assets/news.js:132 | `trim` returns an infix `s[i..j]`; everything cut away is whitespace and the result neither starts nor ends with whitespace |
| Text.TrimOfTrimmed | assets/news.js:132 | a string with no whitespace at its ends is left as it is |
| Text.RemoveWhitespaceMembers | assets/news.js:133 | a character survives `replace(/\s+/g, "")` exactly when it is in the input and is not whitespace |
| Text.ReplaceAnyMembers | assets/news.js:134-135 | every character after a replacement is an untouched non-target character of the input or comes from the replacement |
| Text.ReplaceAnyAppend | assets/news.js:174-179 | a global one-character `replace` distributes over concatenation |
| Keys.NormalizeKey | assets/news.js:129-138 | `normalizeKey`: lower-case, `trim`, drop whitespace, then fold `å`/`ä` to `a` and `ö` to `o`, in that order |
| Keys.KeyMap | assets/news.js:140-159 | the 18-entry alias table, entry for entry |
| Keys.NormalizeKeyIsNormal | assets/news.js:129-138 | the key has no upper-case letter, no whitespace and no `å`, `ä`, `ö` |
| Keys.NormalizeKeyOfNormal | assets/news.js:129-138 | a key already in that form is returned unchanged |
| Keys.NormalizeKeyIdempotent | assets/news.js:129-138 | normalising twice equals normalising once |
| Keys.NormalizeUnspaced | assets/news.js:129-138 | without whitespace, the key is the lower-cased label with `å`/`ä` folded to `a` and `ö` to `o`, character by character |
| Keys.FoldSteps | assets/news.js:134-135 | the two accent replacements together fold each character independently |
| Keys.Canonical | assets/news.js:97 | an alias gives one of the six fields, any other key passes through unchanged |
| Keys.KeyMapOntoFields | assets/news.js:140-159 | every alias maps to one of the six fields, and each field is an alias of itself |
| Keys.CanonicalIdempotent | assets/news.js:97 | a canonical field maps to itself |
| Keys.CanonicalEmpty | assets/news.js:94-97 | only the empty key maps to the empty key |
| Keys.AliasesAreNormal | assets/news.js:140-159 | every alias is already a normalised key, so some header reaches it |
| Keys.RubrikHeader | assets/news.js:147 | the header `Rubrik` names the title |
| Keys.TitelHeader | assets/news.js:148 | the header `Titel` names the title |
| Keys.TitleHeader | assets/news.js:146 | the header `Title` names the title |
| Keys.DateHeader | assets/news.js:145 | the header `Datum` names the date |
| Keys.BodyHeader | assets/news.js:154 | the header `Innehåll` names the body, once its `å` is folded |
| Keys.LinkHeader | assets/news.js:157 | the header `Länk` names the link, once its `ä` is folded |
| Table.CellAt | assets/news.js:99 | `cellValue(row.c && row.c[index])`: a missing cell array or an index past its end reads as `""` |
| Table.ColumnKeys | assets/news.js:81 | one key per column, the normalised label, an absent label read as `""` |
| Table.HeaderKeys | assets/news.js:86-87 | one key per cell of the first row, the normalised displayed text of that cell |
| Table.Layout | assets/news.js:81-89 | the keys and data rows `tableToItems` works on: the column keys and all rows, or, when no key is non-empty and there are rows, the first row's keys and the rows after it |
| Table.Record | assets/news.js:93-100 | the object built from the first `n` columns: a column with an empty key is skipped, any other stores its cell under the key's alias, a later column overwriting an earlier one |
| Table.ItemsOf | assets/news.js:91-104 | `map` each row to its normalised object, then keep those with a non-empty title, in order |
| Table.CellValue | assets/news.js:106-120 | a missing cell gives `""`; a string `f` gives `f.trim()`, even when empty; a missing `v` gives `""`; a string `v` gives its trimmed text |
| Table.NormalizeItem | assets/news.js:161-170 | the body is set exactly when the object's body or summary is; it is the body when there is one, else the summary |
| Table.RowToItem | assets/news.js:92-101 | the `forEach` over the columns, then `normalizeItem`, builds the item that `RowItem` specifies |
| Table.RowsToItems | assets/news.js:91-104 | the `map`/`filter` chain returns the items that `ItemsOf` specifies |
| Table.TableToItems | assets/news.js:80-104 | the header fallback, then mapping and filtering, gives `TableItems(t)`; every returned item has a non-empty title |
| Table.ItemsTitled | assets/news.js:104 | every item `ItemsOf` keeps has a title |
| Table.ItemsAreKeptRows | assets/news.js:91-104 | the items are the items of the titled rows, one each, in increasing row order; there are at most as many items as rows |
| Table.ItemsMembers | assets/news.js:91-104 | an item is returned exactly when some data row yields it with a title |
| Table.LastColumn | assets/news.js:93-100 | the last column among the first `n` whose key is non-empty and canonically `f`, or none |
| Table.RecordLookup | assets/news.js:93-100 | a field is in the object exactly when some column maps to it; it holds the cell of the last such column, so a later column overwrites an earlier one |
| Table.RecordNoEmptyKey | assets/news.js:95-97 | columns with the empty key are skipped: the object never has an empty key |
| Table.RowItemFields | assets/news.js:92-101 | each field of a row's item is the cell of the last column mapped to it, or `""` when none is; the body falls back to the summary |
| Table.HeaderFallback | assets/news.js:81-89 | when no column has a label and there are rows, the first row's cells give the keys and the items come from the remaining rows; otherwise from all rows; at most as many items as data rows |
| Table.HeaderRowDropped | assets/news.js:84-89 | after the fallback, every item comes from a row after the header row |
| Slug.DropRun | assets/news.js:125 | drops exactly the leading run of characters outside `[a-z0-9]` |
| Slug.CollapseRuns | assets/news.js:125 | the result holds only `a-z`, `0-9` and `-`, never `--`, and keeps a leading letter or digit |
| Slug.Slugify | assets/news.js:122-127 | every slug holds only `a-z`, `0-9` and single dashes, and neither starts nor ends with `-` |
| Slug.CollapseRunsOfSlug | assets/news.js:125 | text with no run to collapse is unchanged |
| Slug.SlugifyOfSlug | assets/news.js:122-127 | a slug is its own slug |
| Slug.SlugifyIdempotent | assets/news.js:122-127 | slugifying twice equals slugifying once |
| Slug.AlnumCollapseRuns | assets/news.js:125 | collapsing runs keeps the letters and digits, in order |
| Slug.AlnumTrimDashes | assets/news.js:126 | trimming the end dashes keeps the letters and digits |
| Slug.SlugifyKeepsAlnum | assets/news.js:122-127 | the slug keeps exactly the ASCII letters and digits of the lower-cased value, in order |
| Slug.SlugifyHello | assets/news.js:122-127 | `Hello` gets the slug `hello` |
| Uri.EncodeURIComponent | assets/news.js:193 | `encodeURIComponent`: each character unreserved kept, every other character written as `%XY` escapes of its UTF-8 bytes |
| Uri.Utf8 | assets/news.js:193 | one to four bytes, a single byte exactly for ASCII |
| Uri.EncodeUnreserved | assets/news.js:193 | a string of unreserved characters is its own encoding |
| Uri.EncodeAlphabet | assets/news.js:193 | the encoding holds only unreserved characters, `%` and upper-case hex digits |
| Uri.DecodePercentBytes | assets/news.js:193 | decoding `%XY` escapes gives back the encoded bytes |
| Uri.DecodeEncode | assets/news.js:193 | percent-decoding an encoded key gives the key's UTF-8 bytes, so the encoding loses nothing |
| Escape.EscapeHtml | assets/news.js:172-180 | `escapeHtml`: the five global replacements of `&`, `<`, `>`, `"`, `'` by their entities, `&` first |
| Escape.EscapeHtmlOne | assets/news.js:174-179 | since `&` goes first, the chain escapes one character to exactly its own entity |
| Escape.EscapeHtmlCons | assets/news.js:174-179 | the chain works character by character |
| Escape.EscapeHtmlEmpty | assets/news.js:173 | an empty value escapes to `""` |
| Escape.EscapeHtmlNoMarkup | assets/news.js:174-179 | the output holds no `<`, `>`, `"` or `'` |
| Escape.EscapeHtmlAmpersands | assets/news.js:175-179 | every `&` of the output begins `&amp;`, `&lt;`, `&gt;`, `&quot;` or `&#39;` |
| Escape.UnescapeEscapeHtml | assets/news.js:172-180 | decoding the five entities gives back the original text |
| Escape.BreakLines | assets/news.js:239 | the article body: the escaped text with every newline replaced by `<br>` |
| Escape.BreakLinesMarkup | assets/news.js:239 | the article body holds no newline, and each of its `<` begins `<br>` |
| Escape.BreakLinesCount | assets/news.js:239 | the article body holds as many `<br` as the text had newlines |
| Render.ItemKey | assets/news.js:192 | an item's key: its `id`, or the slug of its title when the `id` is empty |
| Render.ItemLink | assets/news.js:193 | an item's link: its `link`, or `news.html?id=` and its encoded key when the link is empty |
| Render.Meta | assets/news.js:195 | the date line: `<span>` with the escaped date, or nothing when there is no date |
| Render.Card | assets/news.js:200-215 | one card: the article tag, date line, escaped title, escaped summary (the body when the summary is empty) and escaped link, in the order the script joins them |
| Render.RenderList | assets/news.js:182-218 | the start page: the empty-list message when no item is shown, else the cards of the first `maxItems` items joined in order |
| Render.Take | assets/news.js:183 | without `maxItems`, all items; with `n`, the first `min(n, len)` items, in order, for `len` items |
| Render.CardArticles | assets/news.js:200-215 | a card opens exactly one `<article`, whatever its item's text holds |
| Render.CardSpans | assets/news.js:195 | a card holds one `<span` when its item has a date and none otherwise |
| Render.RenderListArticles | assets/news.js:182-218 | the start page holds one `<article` per shown item: `min(n, len)` of `len` items with `maxItems = n`, all otherwise, none for the empty message |
| Render.RenderListEmpty | assets/news.js:185-188 | the empty-list message is written exactly when no item is shown |
| Render.MetaSpans | assets/news.js:195 | the date line holds a `<span` exactly when there is a date |
| Render.RenderDetail | assets/news.js:220-236 | the article page: the choose message without an `id`, the not-found message when no item has the key, else the view of the first item with it |
| Render.DetailView | assets/news.js:238-259 | one article: the date line, escaped title, body with line breaks, and the source link, in the order the script joins them |
| Render.Source | assets/news.js:242-247 | the source paragraph with the escaped link when the item has one, nothing otherwise |
| Render.Find | assets/news.js:230 | `find` returns the first position holding the key, or none when no position holds it |
| Render.RenderDetailCases | assets/news.js:220-236 | no `id` gives the choose-an-item message; an `id` no item has gives the not-found message; otherwise the first item with that key is shown |
| Render.RenderDetailOutcome | assets/news.js:224-236 | the choose message appears exactly when there is no `id`, and the not-found message exactly when no item has the key |
| Render.DetailViewHead | assets/news.js:249-250 | an article page starts with the date line's `<div`, so it differs from both messages |
| Render.DetailAnchors | assets/news.js:242-247 | the article page links out, with one `<a`, exactly when the item has a link |
| Render.DetailSpans | assets/news.js:240 | the article page holds one `<span` when the item has a date, none otherwise |
| Render.DetailBreaks | assets/news.js:238-239 | the article page holds one `<br` per newline of the body (the summary when the body is empty), and no other |
| Render.LinkOfKey | assets/news.js:193 | an item without a link links to `news.html?id=` and its encoded key |
| Render.LinkLeadsToDetail | assets/news.js:192-193 | a default link carries the item's key; decoding it gives the key's bytes back; the article page for that key shows the item unless an earlier item has the same key |
| Render.HelloLink | assets/news.js:192-193 | an item titled `Hello` without id or link links to `news.html?id=hello` |
| Render.Dispatch | assets/news.js:23-27 | the article element, when present, gets `RenderDetail` of the items; the list element gets `RenderList` of the items exactly when there is a list element and no article element |
| Render.ProcessResponse | assets/news.js:20-28 | a response without a table is read as an empty table; the result is that dispatch |
| Render.EmptyResponse | assets/news.js:21 | an empty table gives no items |
| Render.HandleError | assets/news.js:30-38 | the list element, when present, gets the empty-list message and the article element, when present, the not-found message; no other element is written |
| Render.ErrorLikeEmptyFeed | assets/news.js:30-38 | on a page with exactly one of the two elements, and with an `id` on an article page, a failed load shows what an empty feed shows |
| Render.ErrorWithoutId | assets/news.js:30-38 | on an article page without an `id`, a failed load says not found, where an empty feed asks the reader to choose |

## Left out

- `loadViaScript` (the script tag, the 8000 ms timeout, the JSONP hook swap) is left out. It is asynchronous browser I/O; its two outcomes enter the model as the calls `ProcessResponse` and `HandleError`.
- Reading `window.SITE_CONFIG`, `document.getElementById` and the early exit are left out. Whether each element exists becomes the parameters `hasList` and `hasDetail`.
- The sheet URL and the `Date.now()` cache-buster are left out; they only address the request.
- `URLSearchParams` decoding of the `id` parameter is left out. The article page takes `id` as an `Option<string>`, where `None` means absent. `Uri.PercentDecode` models only the percent decoding of an encoded key, up to UTF-8 bytes.
- The `innerHTML` assignments are left out; each renderer returns the string that would be assigned, and `Render.Targets` says which elements are written.
- Text.ToLowerCase: lowers only ASCII and Latin-1 capitals (which include Å, Ä and Ö), not JavaScript's full Unicode case mapping.
- `maxItems` is an `Option<nat>`. A NaN, negative or fractional number, with JavaScript's `slice` semantics for it, is not modelled.
- `keyMap` lookups of names on `Object.prototype` (such as `constructor`) are not modelled; the alias table is a plain map.
- Table.CellValue: `String(v)` for a non-string, non-null `v` is taken as given (`Other(shown)`), since number and date formatting belong to the JavaScript runtime. The model does not check that `row.c[index]` is an object.
- A row that is `null`, or a header fallback on a `rows[0]` that is `null`, makes the script throw. The model has no such rows: a row is a value whose cell array may be missing.
- Render.RenderListArticles: counts the `<article` tags the start page holds rather than comparing the whole page against the card of each item. The page itself is `Render.RenderList` by definition.
- The summary shown on a card (`summary || body`) and the `target="_blank" rel="noopener noreferrer"` attributes of the source link are part of the definitions `Render.CardBody` and `Render.Source`; no separate lemma restates them.
