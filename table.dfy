/** From the spreadsheet table to news items: `cellValue` (assets/news.js:106-120),
    `tableToItems` (assets/news.js:80-104) and `normalizeItem` (assets/news.js:161-170).
    A cell's `f` is its formatted text and `v` its raw value; `tableToItems` keys every
    column by its normalised header, falls back to the first row as the header when no
    column has a label, and keeps the rows whose item has a title. */
module Table {
  import opened Wrappers
  import opened Text
  import opened Keys

  /** A cell's raw value `v`: missing (`null` or `undefined`), a string, or anything
      else, which the script shows through `String(v)`. */
  datatype Value = Null | Str(s: string) | Other(shown: string)

  /** `f` is `Some` exactly when it is a string. */
  datatype Cell = Cell(f: Option<string>, v: Value)

  datatype Column = Column(header: Option<string>)

  /** `c` is `None` when the row has no cell array. */
  datatype Row = Row(c: Option<seq<Option<Cell>>>)

  /** A missing `cols` or `rows` reads as empty. */
  datatype Table = Table(cols: Option<seq<Column>>, rows: Option<seq<Row>>)

  datatype Item = Item(id: string, date: string, title: string, summary: string,
                       body: string, link: string)

  /** The displayed text of a cell. */
  function CellValue(cell: Option<Cell>): (r: string)
    ensures cell.None? ==> r == ""
    ensures cell.Some? && cell.value.f.Some? ==> IsTrimmed(r) && r == Trim(cell.value.f.value)
    ensures cell.Some? && cell.value.f.None? && cell.value.v.Null? ==> r == ""
    ensures cell.Some? && cell.value.f.None? && cell.value.v.Str? ==> r == Trim(cell.value.v.s) && IsTrimmed(r)
  {
    match cell
    case None => ""
    case Some(Cell(f, v)) =>
      if f.Some? then TrimmedResult(f.value)
      else match v
        case Null => ""
        case Str(s) => TrimmedResult(s)
        case Other(shown) => shown
  }

  /** No whitespace at either end. */
  predicate IsTrimmed(s: string) {
    s == [] || (!IsWhitespace(s[0]) && !IsWhitespace(s[|s| - 1]))
  }

  function TrimmedResult(s: string): (r: string)
    ensures r == Trim(s) && IsTrimmed(r)
  {
    TrimIsInfix(s);
    Trim(s)
  }

  /** The value of cell `i` of a row; a missing cell array or cell reads as `""`. */
  function CellAt(row: Row, i: nat): string {
    if row.c.Some? && i < |row.c.value| then CellValue(row.c.value[i]) else ""
  }

  /** The keys from the column headers, `normalizeKey(col.label || "")`. */
  function ColumnKeys(cols: seq<Column>): (r: seq<string>)
    ensures |r| == |cols|
    ensures forall i :: 0 <= i < |cols| ==> r[i] == NormalizeKey(cols[i].header.GetOr(""))
  {
    seq(|cols|, i requires 0 <= i < |cols| => NormalizeKey(cols[i].header.GetOr("")))
  }

  /** The keys read from a header row's cell values. */
  function HeaderKeys(row: Row): (r: seq<string>)
    ensures |r| == |row.c.GetOr([])|
    ensures forall i :: 0 <= i < |r| ==> r[i] == NormalizeKey(CellAt(row, i))
  {
    var cs := row.c.GetOr([]);
    seq(|cs|, i requires 0 <= i < |cs| => NormalizeKey(CellValue(cs[i])))
  }

  /** No key is truthy: `!rawCols.some((label) => label)`. */
  predicate AllBlank(keys: seq<string>) {
    forall i :: 0 <= i < |keys| ==> keys[i] == ""
  }

  /** The keys and the data rows `tableToItems` works with: the first row becomes the
      header when no column has a label and there is a row to take. */
  function Layout(t: Table): (seq<string>, seq<Row>) {
    var keys := ColumnKeys(t.cols.GetOr([]));
    var rows := t.rows.GetOr([]);
    if AllBlank(keys) && |rows| > 0 then (HeaderKeys(rows[0]), rows[1..]) else (keys, rows)
  }

  /** The item object after the first `n` columns of the `forEach`: a column with the
      empty key is skipped, any other writes its cell under the key's canonical field,
      over whatever an earlier column wrote there. */
  function Record(keys: seq<string>, row: Row, n: nat): map<string, string>
    requires n <= |keys|
  {
    if n == 0 then map[]
    else
      var m := Record(keys, row, n - 1);
      if keys[n - 1] == "" then m else m[Canonical(keys[n - 1]) := CellAt(row, n - 1)]
  }

  /** A field of the object, `""` when it was never written. */
  function Field(m: map<string, string>, k: string): string {
    if k in m then m[k] else ""
  }

  /** `normalizeItem`: the six fields, with `body || summary` as the body. */
  function NormalizeItem(m: map<string, string>): (r: Item)
    ensures r.body != "" <==> Field(m, "body") != "" || Field(m, "summary") != ""
    ensures Field(m, "body") != "" ==> r.body == Field(m, "body")
    ensures Field(m, "body") == "" ==> r.body == Field(m, "summary")
  {
    Item(Field(m, "id"), Field(m, "date"), Field(m, "title"), Field(m, "summary"),
         Or(Field(m, "body"), Field(m, "summary")), Field(m, "link"))
  }

  /** `a || b` on strings. */
  function Or(a: string, b: string): string {
    if a != "" then a else b
  }

  function RowItem(keys: seq<string>, row: Row): Item {
    NormalizeItem(Record(keys, row, |keys|))
  }

  predicate Titled(it: Item) {
    it.title != ""
  }

  /** The items of the rows, in order, keeping those with a title. */
  function ItemsOf(keys: seq<string>, rows: seq<Row>): seq<Item>
    decreases |rows|
  {
    if rows == [] then []
    else
      var it := RowItem(keys, rows[|rows| - 1]);
      ItemsOf(keys, rows[..|rows| - 1]) + (if Titled(it) then [it] else [])
  }

  /** What `tableToItems` returns. */
  function TableItems(t: Table): seq<Item> {
    var (keys, rows) := Layout(t);
    ItemsOf(keys, rows)
  }

  /** `tableToItems`: the header fallback reassigns `cols` and `rows`, then the rows
      are mapped to items and filtered. */
  method TableToItems(t: Table) returns (items: seq<Item>)
    ensures items == TableItems(t)
    ensures forall i :: 0 <= i < |items| ==> items[i].title != ""
  {
    var rows := t.rows.GetOr([]);
    var cols := ColumnKeys(t.cols.GetOr([]));
    if AllBlank(cols) && |rows| > 0 {
      cols := HeaderKeys(rows[0]);
      rows := rows[1..];
    }
    assert (cols, rows) == Layout(t);
    items := RowsToItems(cols, rows);
    ItemsTitled(cols, rows);
  }

  /** `rows.map(...).filter((item) => item.title)`: each row's item, kept when it has a
      title. */
  method RowsToItems(cols: seq<string>, rows: seq<Row>) returns (items: seq<Item>)
    ensures items == ItemsOf(cols, rows)
  {
    items := [];
    var r := 0;
    while r < |rows|
      invariant 0 <= r <= |rows|
      invariant items == ItemsOf(cols, rows[..r])
    {
      var normalized := RowToItem(cols, rows[r]);
      ItemsOfPrefix(cols, rows, r, normalized);
      if normalized.title != "" {
        items := items + [normalized];
      }
      r := r + 1;
    }
    assert rows[..r] == rows;
  }

  /** One more row adds its item when it has a title. */
  lemma ItemsOfPrefix(keys: seq<string>, rows: seq<Row>, r: nat, it: Item)
    requires r < |rows| && it == RowItem(keys, rows[r])
    ensures ItemsOf(keys, rows[..r + 1])
         == ItemsOf(keys, rows[..r]) + (if it.title != "" then [it] else [])
  {
    assert rows[..r + 1][..r] == rows[..r];
  }

  /** The `map` callback of `tableToItems`: the `forEach` over the columns fills the
      item object, which `normalizeItem` then completes. */
  method RowToItem(cols: seq<string>, row: Row) returns (it: Item)
    ensures it == RowItem(cols, row)
  {
    var item: map<string, string> := map[];
    var i := 0;
    while i < |cols|
      invariant 0 <= i <= |cols|
      invariant item == Record(cols, row, i)
    {
      if cols[i] != "" {
        item := item[Canonical(cols[i]) := CellAt(row, i)];
      }
      i := i + 1;
    }
    it := NormalizeItem(item);
  }

  /** Every item kept has a title. */
  lemma {:induction false} ItemsTitled(keys: seq<string>, rows: seq<Row>)
    ensures forall i :: 0 <= i < |ItemsOf(keys, rows)| ==> ItemsOf(keys, rows)[i].title != ""
    decreases |rows|
  {
    if rows != [] {
      ItemsTitled(keys, rows[..|rows| - 1]);
    }
  }

  /** The indices of the rows whose item is kept, in increasing order. */
  function Kept(keys: seq<string>, rows: seq<Row>): seq<nat>
    decreases |rows|
  {
    if rows == [] then []
    else
      Kept(keys, rows[..|rows| - 1])
        + (if Titled(RowItem(keys, rows[|rows| - 1])) then [|rows| - 1] else [])
  }

  /** The items are the titled rows' items, in row order: the `k`-th item comes from row
      `Kept[k]`, the kept indices increase, and exactly the rows with a title are kept. */
  lemma {:induction false} ItemsAreKeptRows(keys: seq<string>, rows: seq<Row>)
    ensures |Kept(keys, rows)| == |ItemsOf(keys, rows)| <= |rows|
    ensures forall k :: 0 <= k < |Kept(keys, rows)| ==>
              Kept(keys, rows)[k] < |rows|
              && ItemsOf(keys, rows)[k] == RowItem(keys, rows[Kept(keys, rows)[k]])
    ensures forall k, l :: 0 <= k < l < |Kept(keys, rows)| ==>
              Kept(keys, rows)[k] < Kept(keys, rows)[l]
    ensures forall j :: 0 <= j < |rows| ==>
              (j in Kept(keys, rows) <==> Titled(RowItem(keys, rows[j])))
    decreases |rows|
  {
    KeptMatchItems(keys, rows);
    KeptIncrease(keys, rows);
    KeptAreTitled(keys, rows);
  }

  /** `Kept` and `ItemsOf` grow together by one row. */
  lemma KeptStep(keys: seq<string>, rows: seq<Row>)
    requires rows != []
    ensures var it := RowItem(keys, rows[|rows| - 1]);
            && Kept(keys, rows)
               == Kept(keys, rows[..|rows| - 1]) + (if Titled(it) then [|rows| - 1] else [])
            && ItemsOf(keys, rows)
               == ItemsOf(keys, rows[..|rows| - 1]) + (if Titled(it) then [it] else [])
  {
  }

  lemma {:induction false} KeptMatchItems(keys: seq<string>, rows: seq<Row>)
    ensures |Kept(keys, rows)| == |ItemsOf(keys, rows)| <= |rows|
    ensures forall k :: 0 <= k < |Kept(keys, rows)| ==>
              Kept(keys, rows)[k] < |rows|
              && ItemsOf(keys, rows)[k] == RowItem(keys, rows[Kept(keys, rows)[k]])
    decreases |rows|
  {
    if rows != [] {
      var init := rows[..|rows| - 1];
      KeptMatchItems(keys, init);
      KeptStep(keys, rows);
      var kept, items := Kept(keys, init), ItemsOf(keys, init);
      forall k | 0 <= k < |kept| ensures rows[kept[k]] == init[kept[k]] { }
    }
  }

  lemma {:induction false} KeptIncrease(keys: seq<string>, rows: seq<Row>)
    ensures forall k, l :: 0 <= k < l < |Kept(keys, rows)| ==>
              Kept(keys, rows)[k] < Kept(keys, rows)[l]
    decreases |rows|
  {
    if rows != [] {
      var init := rows[..|rows| - 1];
      KeptIncrease(keys, init);
      KeptMatchItems(keys, init);
      KeptStep(keys, rows);
    }
  }

  lemma {:induction false} KeptAreTitled(keys: seq<string>, rows: seq<Row>)
    ensures forall j :: 0 <= j < |rows| ==>
              (j in Kept(keys, rows) <==> Titled(RowItem(keys, rows[j])))
    decreases |rows|
  {
    if rows != [] {
      var last := |rows| - 1;
      var init := rows[..last];
      KeptAreTitled(keys, init);
      KeptMatchItems(keys, init);
      KeptStep(keys, rows);
      var kept := Kept(keys, init);
      forall j | 0 <= j < |rows|
        ensures j in kept + (if Titled(RowItem(keys, rows[last])) then [last] else [])
                <==> Titled(RowItem(keys, rows[j]))
      {
        KeptTitledAt(keys, rows, kept, j);
      }
    }
  }

  /** Row `j` after one more row: the kept indices of the shorter table plus, when the
      last row has a title, the last index. */
  lemma KeptTitledAt(keys: seq<string>, rows: seq<Row>, kept: seq<nat>, j: nat)
    requires j < |rows|
    requires forall i :: 0 <= i < |rows| - 1 ==> (i in kept <==> Titled(RowItem(keys, rows[i])))
    requires forall k :: 0 <= k < |kept| ==> kept[k] < |rows| - 1
    ensures var last := |rows| - 1;
            j in kept + (if Titled(RowItem(keys, rows[last])) then [last] else [])
            <==> Titled(RowItem(keys, rows[j]))
  {
    var last := |rows| - 1;
    if j < last {
      assert j in kept <==> Titled(RowItem(keys, rows[j]));
    } else {
      assert j !in kept;
    }
  }

  /** An item is returned exactly when some data row yields it with a title. */
  lemma ItemsMembers(keys: seq<string>, rows: seq<Row>, it: Item)
    ensures it in ItemsOf(keys, rows) <==>
              exists j :: 0 <= j < |rows| && RowItem(keys, rows[j]) == it && Titled(it)
  {
    ItemsAreKeptRows(keys, rows);
    var items, kept := ItemsOf(keys, rows), Kept(keys, rows);
    if it in items {
      var k :| 0 <= k < |items| && items[k] == it;
      ItemsTitled(keys, rows);
      assert RowItem(keys, rows[kept[k]]) == it;
    }
    if j :| 0 <= j < |rows| && RowItem(keys, rows[j]) == it && Titled(it) {
      assert j in kept;
      var k :| 0 <= k < |kept| && kept[k] == j;
      assert items[k] == it;
    }
  }

  /** The last column whose key is non-empty and canonically `f`, among the first `n`. */
  function LastColumn(keys: seq<string>, f: string, n: nat): (r: Option<nat>)
    requires n <= |keys|
    ensures r.Some? ==> r.value < n && keys[r.value] != "" && Canonical(keys[r.value]) == f
    ensures r.Some? ==> forall j :: r.value < j < n ==> keys[j] == "" || Canonical(keys[j]) != f
    ensures r.None? ==> forall j :: 0 <= j < n ==> keys[j] == "" || Canonical(keys[j]) != f
  {
    if n == 0 then None
    else if keys[n - 1] != "" && Canonical(keys[n - 1]) == f then Some(n - 1)
    else LastColumn(keys, f, n - 1)
  }

  /** A field holds the cell of the last column mapped to it, and is absent when no
      column maps to it: a later column overwrites an earlier one. */
  lemma {:induction false} RecordLookup(keys: seq<string>, row: Row, n: nat, f: string)
    requires n <= |keys|
    ensures f in Record(keys, row, n) <==> LastColumn(keys, f, n).Some?
    ensures LastColumn(keys, f, n).Some? ==>
              Record(keys, row, n)[f] == CellAt(row, LastColumn(keys, f, n).value)
  {
    if n > 0 {
      RecordLookup(keys, row, n - 1, f);
      RecordStep(keys, row, n, f);
    }
  }

  /** Column `n - 1` writes field `f` when its key is non-empty and canonically `f`,
      and leaves it as it was otherwise. */
  lemma RecordStep(keys: seq<string>, row: Row, n: nat, f: string)
    requires 0 < n <= |keys|
    ensures var hit := keys[n - 1] != "" && Canonical(keys[n - 1]) == f;
            && (hit ==> f in Record(keys, row, n) && Record(keys, row, n)[f] == CellAt(row, n - 1))
            && (hit ==> LastColumn(keys, f, n) == Some(n - 1))
            && (!hit ==> (f in Record(keys, row, n) <==> f in Record(keys, row, n - 1)))
            && (!hit && f in Record(keys, row, n) ==>
                  Record(keys, row, n)[f] == Record(keys, row, n - 1)[f])
            && (!hit ==> LastColumn(keys, f, n) == LastColumn(keys, f, n - 1))
  {
  }

  /** Columns with the empty key are skipped: the object never gets an empty key. */
  lemma RecordNoEmptyKey(keys: seq<string>, row: Row, n: nat)
    requires n <= |keys|
    ensures "" !in Record(keys, row, n)
  {
    RecordLookup(keys, row, n, "");
    if LastColumn(keys, "", n).Some? {
      CanonicalEmpty(keys[LastColumn(keys, "", n).value]);
    }
  }

  /** The cell a row gives to field `f`: that of the last column mapped to `f`, or `""`. */
  function ColumnValue(keys: seq<string>, row: Row, f: string): string {
    match LastColumn(keys, f, |keys|)
    case Some(j) => CellAt(row, j)
    case None => ""
  }

  /** Each field of a row's item is the cell of the last column mapped to it, or `""`
      when no column is; the body falls back to the summary. */
  lemma RowItemFields(keys: seq<string>, row: Row)
    ensures RowItem(keys, row).id == ColumnValue(keys, row, "id")
    ensures RowItem(keys, row).date == ColumnValue(keys, row, "date")
    ensures RowItem(keys, row).title == ColumnValue(keys, row, "title")
    ensures RowItem(keys, row).summary == ColumnValue(keys, row, "summary")
    ensures RowItem(keys, row).body == Or(ColumnValue(keys, row, "body"), ColumnValue(keys, row, "summary"))
    ensures RowItem(keys, row).link == ColumnValue(keys, row, "link")
  {
    RecordLookup(keys, row, |keys|, "id");
    RecordLookup(keys, row, |keys|, "date");
    RecordLookup(keys, row, |keys|, "title");
    RecordLookup(keys, row, |keys|, "summary");
    RecordLookup(keys, row, |keys|, "body");
    RecordLookup(keys, row, |keys|, "link");
  }

  /** When no column has a label and there are rows, the first row is the header and
      the items come from the rows after it; otherwise from all rows under the column
      keys. */
  lemma HeaderFallback(t: Table)
    ensures var keys, rows := ColumnKeys(t.cols.GetOr([])), t.rows.GetOr([]);
            if AllBlank(keys) && |rows| > 0
            then TableItems(t) == ItemsOf(HeaderKeys(rows[0]), rows[1..])
                 && |TableItems(t)| < |rows|
            else TableItems(t) == ItemsOf(keys, rows) && |TableItems(t)| <= |rows|
  {
    var keys, rows := ColumnKeys(t.cols.GetOr([])), t.rows.GetOr([]);
    if AllBlank(keys) && |rows| > 0 {
      ItemsAreKeptRows(HeaderKeys(rows[0]), rows[1..]);
    } else {
      ItemsAreKeptRows(keys, rows);
    }
  }

  /** The header row itself never becomes an item: every item is the item of a row
      after it. */
  lemma HeaderRowDropped(t: Table, it: Item)
    requires AllBlank(ColumnKeys(t.cols.GetOr([]))) && t.rows.GetOr([]) != []
    requires it in TableItems(t)
    ensures exists j :: 1 <= j < |t.rows.value|
              && it == RowItem(HeaderKeys(t.rows.value[0]), t.rows.value[j])
  {
    var rows := t.rows.value;
    var keys := HeaderKeys(rows[0]);
    ItemsMembers(keys, rows[1..], it);
    var j :| 0 <= j < |rows[1..]| && RowItem(keys, rows[1..][j]) == it && Titled(it);
    assert rows[1..][j] == rows[j + 1];
  }
}
