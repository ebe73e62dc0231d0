/**
 * The CSV serialiser (reel_io.c): a header row naming the visible columns,
 * then one row for the root context and one for each child in ascending key
 * order, appended to a character buffer that doubles when a text does not fit.
 */
module ReelIo {
  import opened Reel
  import opened Growth
  import opened ReelStd

  /** CSV_BUFFER_SIZE: the initial capacity of the output buffer. */
  const CSV_BUFFER_SIZE: nat := 100000

  /* ---------------- formatting ---------------- */

  predicate IsDigit(c: char) {
    '0' <= c <= '9'
  }

  predicate AllDigits(s: string) {
    forall i | 0 <= i < |s| :: IsDigit(s[i])
  }

  /** The digit character for `k`. */
  function DigitChar(k: nat): (c: char)
    requires k < 10
    ensures IsDigit(c) && c as int - '0' as int == k
  {
    ('0' as int + k) as char
  }

  /** The PRIu64 conversion: the decimal digits of `n`, without leading zeros. */
  function Decimal(n: nat): (s: string)
    ensures |s| > 0 && AllDigits(s)
    ensures s[0] == '0' <==> n == 0
    ensures n == 0 ==> s == "0"
    decreases n
  {
    if n < 10 then [DigitChar(n)] else Decimal(n / 10) + [DigitChar(n % 10)]
  }

  /** Reading a string of digits back as a number. */
  function ParseDecimal(s: string): nat
    requires AllDigits(s)
  {
    if s == [] then 0
    else ParseDecimal(s[..|s| - 1]) * 10 + (s[|s| - 1] as int - '0' as int)
  }

  /** The decimal text of a number reads back as that number. */
  lemma {:induction false} DecimalRoundTrip(n: nat)
    ensures ParseDecimal(Decimal(n)) == n
    decreases n
  {
    if n >= 10 {
      DecimalRoundTrip(n / 10);
      var s := Decimal(n);
      assert s[..|s| - 1] == Decimal(n / 10);
    }
  }

  /** Two numbers have the same decimal text only if they are equal. */
  lemma DecimalInjective(a: nat, b: nat)
    requires Decimal(a) == Decimal(b)
    ensures a == b
  {
    DecimalRoundTrip(a);
    DecimalRoundTrip(b);
  }

  /**
   * Cells joined with `sep`: the separator goes between consecutive cells,
   * none before the first (the `if (j++)` / `if (m++)` pattern).
   */
  function Join(cells: seq<string>, sep: string): string
    decreases |cells|
  {
    if |cells| == 0 then ""
    else if |cells| == 1 then cells[0]
    else Join(cells[..|cells| - 1], sep) + sep + cells[|cells| - 1]
  }

  /** Appending a cell appends a separator and the cell, except after no cell. */
  lemma JoinSnoc(cells: seq<string>, c: string, sep: string)
    ensures Join(cells + [c], sep) == if cells == [] then c else Join(cells, sep) + sep + c
  {
    assert (cells + [c])[..|cells|] == cells;
  }

  /* ---------------- delimiter counting ---------------- */

  /** How many times `d` occurs in `s`. */
  function Count(s: string, d: char): nat {
    multiset(s)[d]
  }

  /** The occurrences of `d` in all of `cells`. */
  function CountAll(cells: seq<string>, d: char): nat
    decreases |cells|
  {
    if cells == [] then 0 else CountAll(cells[..|cells| - 1], d) + Count(cells[|cells| - 1], d)
  }

  /** Joining `n > 0` cells with `d` adds exactly `n - 1` occurrences of `d`. */
  lemma {:induction false} JoinCount(cells: seq<string>, d: char)
    ensures Count(Join(cells, [d]), d) == (if cells == [] then 0 else |cells| - 1) + CountAll(cells, d)
    decreases |cells|
  {
    if |cells| == 1 {
      assert cells[..0] == [];
    } else if |cells| > 1 {
      var front := cells[..|cells| - 1];
      JoinCount(front, d);
      assert multiset(Join(cells, [d])) == multiset(Join(front, [d])) + multiset([d]) + multiset(cells[|cells| - 1]);
    }
  }

  /** A delimiter that is not a digit does not occur in a string of digits. */
  lemma NoDigitDelimiter(s: string, d: char)
    requires AllDigits(s) && !IsDigit(d)
    ensures d !in s
  {
    assert forall j | 0 <= j < |s| :: s[j] != d;
  }

  /** Adding a cell adds its occurrences. */
  lemma CountAllSnoc(cells: seq<string>, c: string, d: char)
    ensures CountAll(cells + [c], d) == CountAll(cells, d) + Count(c, d)
  {
    assert (cells + [c])[..|cells|] == cells;
  }

  /** Cells none of which holds `d`. */
  lemma {:induction false} CountAllZero(cells: seq<string>, d: char)
    requires forall i | 0 <= i < |cells| :: d !in cells[i]
    ensures CountAll(cells, d) == 0
    decreases |cells|
  {
    if cells != [] {
      CountAllZero(cells[..|cells| - 1], d);
      assert multiset(cells[|cells| - 1])[d] == 0;
    }
  }

  /* ---------------- rows and the header ---------------- */

  /** Visible columns: the name starts with an uppercase letter (so not with `_`). */
  predicate Visible(v: Var) {
    |v.name| > 0 && v.name[0] != '_' && 'A' <= v.name[0] <= 'Z'
  }

  /** A visible table, written as one cell per slot. */
  predicate ShownTable(v: Var) {
    Visible(v) && v.kind == UintTable
  }

  /** A row is suppressed when a variable `_HIDE` holds a nonzero word. */
  predicate Hidden(vars: seq<Var>) {
    exists i | 0 <= i < |vars| :: vars[i].name == "_HIDE" && WordNonZero(vars[i])
  }

  /**
   * A visible table's slots can be read: it has none (an unbound table,
   * as reel_init_table leaves it for an unknown field, has a null pointer
   * and length 0), or its pointer is set and long enough.
   */
  predicate Readable(v: Var) {
    ShownTable(v) ==> v.tableLength == 0 || (v.table != null && v.tableLength <= v.table.Length)
  }

  predicate AllReadable(vars: seq<Var>) {
    forall i | 0 <= i < |vars| :: Readable(vars[i])
  }

  /** The table arrays the variables point to. */
  function TablesOf(vars: seq<Var>): set<array<u64>> {
    set i | 0 <= i < |vars| && vars[i].table != null :: vars[i].table
  }

  /**
   * Slot values for the variables: `views[i]` lists the slots of variable `i`
   * when it is a visible table. The text functions below are stated over such
   * values, so what a row says does not depend on when its tables are read.
   */
  predicate Shaped(vars: seq<Var>, views: seq<seq<u64>>) {
    |views| == |vars| && forall i | 0 <= i < |vars| && ShownTable(vars[i]) :: |views[i]| == vars[i].tableLength
  }

  /** `views` are the slot values the tables of `vars` hold now. */
  predicate Agrees(vars: seq<Var>, views: seq<seq<u64>>)
    reads TablesOf(vars)
  {
    AllReadable(vars) && Shaped(vars, views) &&
    forall i, k | 0 <= i < |vars| && ShownTable(vars[i]) && 0 <= k < vars[i].tableLength :: vars[i].table[k] == views[i][k]
  }

  /** The slot values the tables of `vars` hold now. */
  ghost function Views(vars: seq<Var>): (views: seq<seq<u64>>)
    requires AllReadable(vars)
    reads TablesOf(vars)
    ensures |views| == |vars|
    decreases |vars|
  {
    if vars == [] then []
    else
      var front, v := vars[..|vars| - 1], vars[|vars| - 1];
      assert TablesOf(front) <= TablesOf(vars) by {
        forall i | 0 <= i < |front| ensures front[i] == vars[i] { }
      }
      Views(front) + [if ShownTable(v) && v.tableLength > 0 then v.table[..v.tableLength] else []]
  }

  /** Views reads the tables correctly. */
  lemma {:induction false} ViewsAgree(vars: seq<Var>)
    requires AllReadable(vars)
    ensures Agrees(vars, Views(vars))
    decreases |vars|
  {
    if vars != [] {
      var n := |vars| - 1;
      var front := vars[..n];
      assert AllReadable(front) by {
        forall i | 0 <= i < n ensures front[i] == vars[i] { }
      }
      ViewsAgree(front);
      var views := Views(vars);
      assert views == Views(front) + [views[n]];
      forall i | 0 <= i < n ensures vars[i] == front[i] && views[i] == Views(front)[i] { }
    }
  }

  /** The decimal texts of table slots. */
  function DecimalCells(slots: seq<u64>): (r: seq<string>)
    ensures |r| == |slots|
  {
    seq(|slots|, k requires 0 <= k < |slots| => Decimal(slots[k]))
  }

  /**
   * The row cell of a visible variable: a UINT in decimal, an ITEM as its
   * value text (nothing for item 0), a table as its slots in decimal
   * separated by the delimiter.
   */
  function RowCell(v: Var, slots: seq<u64>, db: Db, d: char): string {
    match v.kind
    case Uint => Decimal(v.value)
    case Item => if v.value != 0 then db.itemText(v.value) else ""
    case UintTable => Join(DecimalCells(slots), [d])
  }

  /** The row cells of the visible variables, in declaration order. */
  function RowCells(vars: seq<Var>, views: seq<seq<u64>>, db: Db, d: char): seq<string>
    requires |views| == |vars|
    decreases |vars|
  {
    if vars == [] then []
    else
      var n := |vars| - 1;
      RowCells(vars[..n], views[..n], db, d) + if Visible(vars[n]) then [RowCell(vars[n], views[n], db, d)] else []
  }

  /** The text reel_output_csv_ctx appends for a context with these variables. */
  function RowText(vars: seq<Var>, views: seq<seq<u64>>, db: Db, d: char): string
    requires |views| == |vars|
  {
    if Hidden(vars) then "" else Join(RowCells(vars, views, db, d), [d]) + "\n"
  }

  /** The header columns of a table: `Name:value` for each slot's lexicon value. */
  function HeaderParts(v: Var, db: Db): (r: seq<string>)
    ensures |r| == v.tableLength
  {
    seq(v.tableLength, k requires 0 <= k < v.tableLength => v.name + ":" + LexiconValue(db, v.tableField, k))
  }

  /** The header cell of a visible variable. */
  function HeaderCell(v: Var, db: Db, d: char): string {
    if v.kind == UintTable then Join(HeaderParts(v, db), [d]) else v.name
  }

  /** The header cells of the visible variables, in declaration order. */
  function HeaderCells(vars: seq<Var>, db: Db, d: char): seq<string>
    decreases |vars|
  {
    if vars == [] then []
    else
      var front, v := vars[..|vars| - 1], vars[|vars| - 1];
      HeaderCells(front, db, d) + if Visible(v) then [HeaderCell(v, db, d)] else []
  }

  /** The header line. */
  function HeaderText(vars: seq<Var>, db: Db, d: char): string {
    Join(HeaderCells(vars, db, d), [d]) + "\n"
  }

  /**
   * A visible table left unbound by reel_init_table (null pointer, length 0)
   * can be written: it has no slots, and its header and row cells are empty.
   */
  lemma UnboundTableCells(v: Var, db: Db, d: char)
    requires ShownTable(v) && v.table == null && v.tableLength == 0
    ensures Readable(v) && Views([v]) == [[]]
    ensures HeaderCell(v, db, d) == "" && RowCell(v, [], db, d) == ""
  {
    assert HeaderParts(v, db) == [];
    assert DecimalCells([]) == [];
  }

  /* ---------------- the column count ---------------- */

  /** Two variable lists of the same struct: same kinds, names and table lengths. */
  predicate SameSchema(a: seq<Var>, b: seq<Var>) {
    |a| == |b| &&
    forall i | 0 <= i < |a| :: a[i].kind == b[i].kind && a[i].name == b[i].name && a[i].tableLength == b[i].tableLength
  }

  /** No text that ends up in a header or row cell contains the delimiter. */
  predicate DelimiterFree(header: seq<Var>, row: seq<Var>, db: Db, d: char) {
    d != ':' && !IsDigit(d) &&
    (forall i | 0 <= i < |header| :: d !in header[i].name) &&
    (forall i, k | 0 <= i < |header| && 0 <= k < header[i].tableLength :: d !in LexiconValue(db, header[i].tableField, k)) &&
    (forall i | 0 <= i < |row| && row[i].kind == Item && row[i].value != 0 :: d !in db.itemText(row[i].value))
  }

  /** A table cell holds one delimiter fewer than it has slots (none when empty). */
  lemma TableCellCounts(h: Var, slots: seq<u64>, db: Db, d: char)
    requires h.kind == UintTable && |slots| == h.tableLength
    requires d != ':' && !IsDigit(d) && d !in h.name
    requires forall k | 0 <= k < h.tableLength :: d !in LexiconValue(db, h.tableField, k)
    ensures Count(Join(HeaderParts(h, db), [d]), d) == Count(Join(DecimalCells(slots), [d]), d)
  {
    var hp := HeaderParts(h, db);
    var rp := DecimalCells(slots);
    forall k | 0 <= k < |hp| ensures d !in hp[k] {
      assert hp[k] == h.name + ":" + LexiconValue(db, h.tableField, k);
    }
    forall k | 0 <= k < |rp| ensures d !in rp[k] {
      NoDigitDelimiter(rp[k], d);
    }
    JoinCount(hp, d);
    JoinCount(rp, d);
    CountAllZero(hp, d);
    CountAllZero(rp, d);
  }

  /** The header cell and the row cell of one column hold the delimiter equally often. */
  lemma CellCounts(h: Var, r: Var, slots: seq<u64>, db: Db, d: char)
    requires h.kind == r.kind && h.name == r.name && h.tableLength == r.tableLength
    requires r.kind == UintTable ==> |slots| == r.tableLength
    requires d != ':' && !IsDigit(d) && d !in h.name
    requires forall k | 0 <= k < h.tableLength :: d !in LexiconValue(db, h.tableField, k)
    requires r.kind == Item && r.value != 0 ==> d !in db.itemText(r.value)
    ensures Count(HeaderCell(h, db, d), d) == Count(RowCell(r, slots, db, d), d)
  {
    match r.kind
    case Uint =>
      NoDigitDelimiter(Decimal(r.value), d);
    case Item =>
    case UintTable =>
      TableCellCounts(h, slots, db, d);
  }

  /** Over a prefix of the columns, header and row have as many cells and delimiters. */
  lemma {:induction false} CellsCounts(header: seq<Var>, row: seq<Var>, views: seq<seq<u64>>, db: Db, d: char)
    requires SameSchema(header, row) && Shaped(row, views) && DelimiterFree(header, row, db, d)
    ensures |HeaderCells(header, db, d)| == |RowCells(row, views, db, d)|
    ensures CountAll(HeaderCells(header, db, d), d) == CountAll(RowCells(row, views, db, d), d)
    decreases |header|
  {
    if header != [] {
      var n := |header| - 1;
      var hf, rf, vf := header[..n], row[..n], views[..n];
      assert SameSchema(hf, rf) && Shaped(rf, vf);
      assert DelimiterFree(hf, rf, db, d) by {
        assert forall i | 0 <= i < n :: hf[i] == header[i] && rf[i] == row[i];
      }
      CellsCounts(hf, rf, vf, db, d);
      if Visible(row[n]) {
        CellCounts(header[n], row[n], views[n], db, d);
        CountAllSnoc(HeaderCells(hf, db, d), HeaderCell(header[n], db, d), d);
        CountAllSnoc(RowCells(rf, vf, db, d), RowCell(row[n], views[n], db, d), d);
      } else {
        assert HeaderCells(header, db, d) == HeaderCells(hf, db, d);
        assert RowCells(row, views, db, d) == RowCells(rf, vf, db, d);
      }
    }
  }

  /**
   * The header and every row written for a context of the same struct have
   * the same number of columns, as long as no name, lexicon value or item
   * text contains the delimiter (and it is neither a digit nor `:`).
   */
  lemma HeaderMatchesRow(header: seq<Var>, row: seq<Var>, views: seq<seq<u64>>, db: Db, d: char)
    requires SameSchema(header, row) && Shaped(row, views) && DelimiterFree(header, row, db, d)
    requires !Hidden(row)
    ensures Count(HeaderText(header, db, d), d) == Count(RowText(row, views, db, d), d)
  {
    CellsCounts(header, row, views, db, d);
    JoinCount(HeaderCells(header, db, d), d);
    JoinCount(RowCells(row, views, db, d), d);
    assert multiset(HeaderText(header, db, d)) == multiset(Join(HeaderCells(header, db, d), [d])) + multiset("\n");
    assert multiset(RowText(row, views, db, d)) == multiset(Join(RowCells(row, views, db, d), [d])) + multiset("\n");
  }

  /* ---------------- the whole table ---------------- */

  /** A context's row as values: its variables, its store and its table slots. */
  datatype Row = Row(vars: seq<Var>, db: Db, views: seq<seq<u64>>)

  /** Every row has one slot list per variable. */
  predicate RowsShaped(rows: seq<Row>) {
    forall i | 0 <= i < |rows| :: |rows[i].views| == |rows[i].vars|
  }

  /** Texts one after the other. */
  function Concat(texts: seq<string>): string
    decreases |texts|
  {
    if texts == [] then "" else Concat(texts[..|texts| - 1]) + texts[|texts| - 1]
  }

  /** The text of each row. */
  function RowTexts(rows: seq<Row>, d: char): (r: seq<string>)
    requires RowsShaped(rows)
    ensures |r| == |rows|
    ensures forall i | 0 <= i < |rows| :: r[i] == RowText(rows[i].vars, rows[i].views, rows[i].db, d)
  {
    seq(|rows|, i requires 0 <= i < |rows| => RowText(rows[i].vars, rows[i].views, rows[i].db, d))
  }

  /** The rows one after the other. */
  function RowsText(rows: seq<Row>, d: char): string
    requires RowsShaped(rows)
  {
    Concat(RowTexts(rows, d))
  }

  /** Contexts whose rows can be written: present and with readable tables. */
  predicate RowsReadable(cs: seq<Context?>)
    reads set i | 0 <= i < |cs| && cs[i] != null :: cs[i]
  {
    forall i | 0 <= i < |cs| :: cs[i] != null && AllReadable(cs[i].vars)
  }

  /** The tables the variables of the contexts point to. */
  ghost function TablesOfAll(cs: seq<Context?>): set<array<u64>>
    requires RowsReadable(cs)
    reads set i | 0 <= i < |cs| :: cs[i]
  {
    set i, j | 0 <= i < |cs| && 0 <= j < |cs[i].vars| && cs[i].vars[j].table != null :: cs[i].vars[j].table
  }

  /** `row` is the row of context `c` as it stands. */
  ghost predicate Represents(c: Context?, row: Row)
    reads c
    reads if c != null then TablesOf(c.vars) else {}
  {
    c != null && c.vars == row.vars && c.db == row.db && Agrees(row.vars, row.views)
  }

  /** The rows of the contexts as they stand. */
  ghost function RowsOf(cs: seq<Context?>): (rows: seq<Row>)
    requires RowsReadable(cs)
    reads set i | 0 <= i < |cs| :: cs[i]
    reads TablesOfAll(cs)
    ensures |rows| == |cs| && RowsShaped(rows)
    decreases |cs|
  {
    if cs == [] then []
    else
      var front, c := cs[..|cs| - 1], cs[|cs| - 1];
      assert forall i | 0 <= i < |front| :: front[i] == cs[i];
      assert TablesOf(c.vars) <= TablesOfAll(cs);
      RowsOf(front) + [Row(c.vars, c.db, Views(c.vars))]
  }

  /** RowsOf reads every context correctly. */
  lemma {:induction false} RowsOfRepresents(cs: seq<Context?>)
    requires RowsReadable(cs)
    ensures forall i | 0 <= i < |cs| :: Represents(cs[i], RowsOf(cs)[i])
    decreases |cs|
  {
    if cs != [] {
      var n := |cs| - 1;
      var front := cs[..n];
      assert forall i | 0 <= i < n :: front[i] == cs[i];
      RowsOfRepresents(front);
      ViewsAgree(cs[n].vars);
      assert RowsOf(cs) == RowsOf(front) + [RowsOf(cs)[n]];
    }
  }

  /** Every child is present and its tables can be read. */
  predicate ChildrenReadable(m: map<u64, Context?>)
    reads m.Values
  {
    forall k | k in m :: m[k] != null && AllReadable(m[k].vars)
  }

  /** The tables the variables of the children point to. */
  ghost function ChildTables(m: map<u64, Context?>): set<array<u64>>
    reads m.Values
  {
    set c, j | c in m.Values && c != null && 0 <= j < |c.vars| && c.vars[j].table != null :: c.vars[j].table
  }

  /** The children in key order are children of the map. */
  lemma ChildrenInValues(m: map<u64, Context?>)
    ensures forall i | 0 <= i < |ChildrenInKeyOrder(m)| :: ChildrenInKeyOrder(m)[i] in m.Values
  {
    forall i | 0 <= i < |ChildrenInKeyOrder(m)| ensures ChildrenInKeyOrder(m)[i] in m.Values {
      ChildAt(m, i);
    }
  }

  /** `rows` are the rows of the children of `m` in key order, as they stand. */
  ghost predicate ChildrenRepresent(m: map<u64, Context?>, rows: seq<Row>)
    reads m.Values, ChildTables(m)
  {
    ChildrenInValues(m);
    |rows| == |ChildrenInKeyOrder(m)| &&
    forall i | 0 <= i < |rows| :: Represents(ChildrenInKeyOrder(m)[i], rows[i])
  }

  /** The children in key order are children of the map, so readable when those are. */
  lemma ChildrenInKeyOrderReadable(m: map<u64, Context?>)
    requires ChildrenReadable(m)
    ensures forall i | 0 <= i < |ChildrenInKeyOrder(m)| :: ChildrenInKeyOrder(m)[i] in m.Values
    ensures RowsReadable(ChildrenInKeyOrder(m))
    ensures TablesOfAll(ChildrenInKeyOrder(m)) <= ChildTables(m)
  {
    var cs := ChildrenInKeyOrder(m);
    forall i | 0 <= i < |cs| ensures cs[i] in m.Values && cs[i] != null && AllReadable(cs[i].vars) {
      ChildAt(m, i);
    }
  }

  /**
   * The text reel_output_csv builds for `ctx`: the header from its variables,
   * its own row, then the rows of its children in ascending key order.
   */
  ghost function CsvText(ctx: Context, d: char): string
    requires AllReadable(ctx.vars) && ChildrenReadable(ctx.childContexts)
    reads ctx, ctx.childContexts.Values, TablesOf(ctx.vars), ChildTables(ctx.childContexts)
  {
    ChildrenInKeyOrderReadable(ctx.childContexts);
    HeaderText(ctx.vars, ctx.db, d) + RowText(ctx.vars, Views(ctx.vars), ctx.db, d)
      + RowsText(RowsOf(ChildrenInKeyOrder(ctx.childContexts)), d)
  }

  /* ---------------- the buffer ---------------- */

  /** `buf` holds `offset` characters and a terminator, at the capacity doubling gives. */
  predicate Sized(buf: array<char>, offset: nat, size: nat, start: nat) {
    0 < start && offset < size == buf.Length && size == GrownSize(start, offset)
  }

  /**
   * vsnprintf of an already formatted `text` into the `avail` characters at
   * `offset`: it writes as much of the text as fits before a terminating NUL
   * and returns the text's full length.
   */
  method Vsnprintf(buf: array<char>, offset: nat, avail: nat, text: string) returns (len: nat)
    requires 0 < avail && offset + avail <= buf.Length
    modifies buf
    ensures len == |text|
    ensures buf[..offset] == old(buf[..offset])
    ensures |text| < avail ==> buf[offset..offset + |text|] == text && buf[offset + |text|] == '\0'
    ensures avail <= |text| ==> buf[offset..offset + avail - 1] == text[..avail - 1] && buf[offset + avail - 1] == '\0'
  {
    var w := if |text| < avail then |text| else avail - 1;
    forall k | 0 <= k < w {
      buf[offset + k] := text[k];
    }
    buf[offset + w] := '\0';
    len := |text|;
  }

  /**
   * reel_str_append: writes `text` at `offset`, doubling the buffer until it
   * fits. On success the text follows the old contents and a NUL follows
   * the text; when realloc fails the buffer is released and null returned.
   */
  method StrAppend(buf: array<char>, offset: nat, size: nat, text: string)
    returns (r: array?<char>, newOffset: nat, newSize: nat)
    requires offset < size == buf.Length
    modifies buf
    ensures r != null ==> (r == buf || fresh(r)) && newOffset == offset + |text|
    ensures r != null ==> newOffset < newSize == r.Length && newSize == GrownSize(size, newOffset)
    ensures r != null ==> r[..newOffset] == old(buf[..offset]) + text && r[newOffset] == '\0'
  {
    r, newOffset, newSize := buf, offset, size;
    while true
      invariant r != null && (r == buf || fresh(r))
      invariant newOffset == offset && offset < newSize == r.Length && size <= newSize
      invariant r[..offset] == old(buf[..offset])
      invariant GrownSize(newSize, offset + |text|) == GrownSize(size, offset + |text|)
      decreases offset + |text| + 1 - newSize
    {
      var len := Vsnprintf(r, offset, newSize - offset, text);
      if len < newSize - offset {
        newOffset := offset + len;
        assert r[..newOffset] == r[..offset] + r[offset..newOffset];
        return;
      }
      newSize := newSize * 2;
      var p := Realloc(r, newSize);
      if p == null {
        return null, offset, newSize;
      }
      r := p;
    }
  }

  /**
   * The STRADD macro: appends `text`, keeping the capacity the one doubling
   * from the buffer's first size `start` gives for the text written so far.
   */
  method StrAdd(buf: array<char>, offset: nat, size: nat, ghost start: nat, text: string)
    returns (r: array?<char>, newOffset: nat, newSize: nat)
    requires Sized(buf, offset, size, start)
    modifies buf
    ensures r != null ==> (r == buf || fresh(r)) && Sized(r, newOffset, newSize, start)
    ensures r != null ==> r[..newOffset] == old(buf[..offset]) + text && r[newOffset] == '\0'
  {
    r, newOffset, newSize := StrAppend(buf, offset, size, text);
    if r != null {
      GrownSizeCompose(start, offset, newOffset);
    }
  }

  /** The delimiter reel_output_csv_ctx writes before column `j`: none before the first. */
  function Separator(j: nat, d: char): string {
    if j > 0 then [d] else []
  }

  /** Writing column `|cells|` after the joined `cells` writes the joined `cells + [c]`. */
  lemma JoinAppend(prefix: string, cells: seq<string>, c: string, d: char)
    ensures prefix + Join(cells, [d]) + Separator(|cells|, d) + c == prefix + Join(cells + [c], [d])
  {
    JoinSnoc(cells, c, [d]);
    var w := Join(cells, [d]);
    var s := Separator(|cells|, d);
    assert Join(cells + [c], [d]) == w + s + c;
    AppendAssoc(prefix, w + s, c);
    AppendAssoc(prefix, w, s);
  }

  /** The same, for the first `k + 1` of a list of cells. */
  lemma JoinStep(prefix: string, cells: seq<string>, k: nat, d: char)
    requires k < |cells|
    ensures prefix + Join(cells[..k], [d]) + Separator(k, d) + cells[k] == prefix + Join(cells[..k + 1], [d])
  {
    JoinAppend(prefix, cells[..k], cells[k], d);
    assert cells[..k + 1] == cells[..k] + [cells[k]];
  }

  /** One more variable adds its cell to the row cells when it is visible. */
  lemma RowCellsStep(vars: seq<Var>, views: seq<seq<u64>>, i: nat, db: Db, d: char)
    requires |views| == |vars| && i < |vars|
    ensures RowCells(vars[..i + 1], views[..i + 1], db, d)
      == RowCells(vars[..i], views[..i], db, d) + if Visible(vars[i]) then [RowCell(vars[i], views[i], db, d)] else []
  {
    assert vars[..i + 1][..i] == vars[..i];
    assert views[..i + 1][..i] == views[..i];
  }

  /** One more variable adds its cell to the header cells when it is visible. */
  lemma HeaderCellsStep(vars: seq<Var>, i: nat, db: Db, d: char)
    requires i < |vars|
    ensures HeaderCells(vars[..i + 1], db, d) == HeaderCells(vars[..i], db, d) + if Visible(vars[i]) then [HeaderCell(vars[i], db, d)] else []
  {
    assert vars[..i + 1][..i] == vars[..i];
  }

  /** One more text adds itself at the end. */
  lemma ConcatStep(texts: seq<string>, n: nat)
    requires n < |texts|
    ensures Concat(texts[..n + 1]) == Concat(texts[..n]) + texts[n]
  {
    assert texts[..n + 1][..n] == texts[..n];
  }

  /** Column `j` of a list: the delimiter unless it is the first, then `text`. */
  method StrAddCell(buf: array<char>, offset: nat, size: nat, ghost start: nat, j: nat, d: char, text: string)
    returns (r: array?<char>, newOffset: nat, newSize: nat)
    requires Sized(buf, offset, size, start)
    modifies buf
    ensures r != null ==> (r == buf || fresh(r)) && Sized(r, newOffset, newSize, start)
    ensures r != null ==> r[..newOffset] == old(buf[..offset]) + Separator(j, d) + text
  {
    r, newOffset, newSize := buf, offset, size;
    if j > 0 {
      r, newOffset, newSize := StrAdd(r, newOffset, newSize, start, [d]);
      if r == null {
        return;
      }
    }
    r, newOffset, newSize := StrAdd(r, newOffset, newSize, start, text);
  }

  /** The slots of a table in decimal, separated by the delimiter. */
  method OutputTableSlots(table: array?<u64>, length: nat, ghost slots: seq<u64>, d: char,
                          buf: array<char>, offset: nat, size: nat, ghost start: nat)
    returns (r: array?<char>, newOffset: nat, newSize: nat)
    requires length > 0 ==> table != null && length <= table.Length
    requires |slots| == length && forall k | 0 <= k < length :: table[k] == slots[k]
    requires Sized(buf, offset, size, start)
    modifies buf
    ensures r != null ==> (r == buf || fresh(r)) && Sized(r, newOffset, newSize, start)
    ensures r != null ==> r[..newOffset] == old(buf[..offset]) + Join(DecimalCells(slots), [d])
  {
    ghost var prefix := buf[..offset];
    ghost var cells := DecimalCells(slots);
    r, newOffset, newSize := buf, offset, size;
    var k := 0;
    while k < length
      invariant k <= length
      invariant r != null && (r == buf || fresh(r)) && Sized(r, newOffset, newSize, start)
      invariant r[..newOffset] == prefix + Join(cells[..k], [d])
    {
      JoinStep(prefix, cells, k, d);
      r, newOffset, newSize := StrAddCell(r, newOffset, newSize, start, k, d, Decimal(table[k]));
      if r == null {
        return;
      }
      k := k + 1;
    }
    assert cells[..k] == cells;
  }

  /**
   * Column `j` of a row: the delimiter unless it is the first column, then
   * the cell of the visible variable `v` (the switch of reel_output_csv_ctx).
   */
  method OutputRowCell(v: Var, ghost slots: seq<u64>, db: Db, d: char, j: nat,
                       buf: array<char>, offset: nat, size: nat, ghost start: nat)
    returns (r: array?<char>, newOffset: nat, newSize: nat)
    requires Visible(v) && Readable(v)
    requires v.kind == UintTable ==> |slots| == v.tableLength && forall k | 0 <= k < v.tableLength :: v.table[k] == slots[k]
    requires Sized(buf, offset, size, start)
    modifies buf
    ensures r != null ==> (r == buf || fresh(r)) && Sized(r, newOffset, newSize, start)
    ensures r != null ==> r[..newOffset] == old(buf[..offset]) + Separator(j, d) + RowCell(v, slots, db, d)
  {
    r, newOffset, newSize := buf, offset, size;
    if j > 0 {
      r, newOffset, newSize := StrAdd(r, newOffset, newSize, start, [d]);
      if r == null {
        return;
      }
    }
    match v.kind
    case Uint =>
      r, newOffset, newSize := StrAdd(r, newOffset, newSize, start, Decimal(v.value));
    case Item =>
      if v.value != 0 {
        r, newOffset, newSize := StrAdd(r, newOffset, newSize, start, db.itemText(v.value));
      }
    case UintTable =>
      r, newOffset, newSize := OutputTableSlots(v.table, v.tableLength, slots, d, r, newOffset, newSize, start);
  }

  /** The `_HIDE` scan of reel_output_csv_ctx. */
  method FindHide(vars: seq<Var>) returns (hidden: bool)
    ensures hidden == Hidden(vars)
  {
    var i := 0;
    while i < |vars|
      invariant i <= |vars|
      invariant forall k | 0 <= k < i :: !(vars[k].name == "_HIDE" && WordNonZero(vars[k]))
    {
      if vars[i].name == "_HIDE" && WordNonZero(vars[i]) {
        return true;
      }
      i := i + 1;
    }
    return false;
  }

  /** The visible columns of a row, separated by the delimiter. */
  method OutputRowCells(vars: seq<Var>, ghost views: seq<seq<u64>>, db: Db, d: char,
                        buf: array<char>, offset: nat, size: nat, ghost start: nat)
    returns (r: array?<char>, newOffset: nat, newSize: nat)
    requires Agrees(vars, views) && Sized(buf, offset, size, start)
    modifies buf
    ensures r != null ==> (r == buf || fresh(r)) && Sized(r, newOffset, newSize, start)
    ensures r != null ==> r[..newOffset] == old(buf[..offset]) + Join(RowCells(vars, views, db, d), [d])
  {
    ghost var prefix := buf[..offset];
    r, newOffset, newSize := buf, offset, size;
    var i := 0;
    var j := 0;
    while i < |vars|
      invariant i <= |vars|
      invariant r != null && (r == buf || fresh(r)) && Sized(r, newOffset, newSize, start)
      invariant j == |RowCells(vars[..i], views[..i], db, d)|
      invariant r[..newOffset] == prefix + Join(RowCells(vars[..i], views[..i], db, d), [d])
    {
      RowCellsStep(vars, views, i, db, d);
      if Visible(vars[i]) {
        JoinAppend(prefix, RowCells(vars[..i], views[..i], db, d), RowCell(vars[i], views[i], db, d), d);
        r, newOffset, newSize := OutputRowCell(vars[i], views[i], db, d, j, r, newOffset, newSize, start);
        if r == null {
          return;
        }
        j := j + 1;
      } else {
        assert RowCells(vars[..i + 1], views[..i + 1], db, d) == RowCells(vars[..i], views[..i], db, d);
      }
      i := i + 1;
    }
    assert vars[..i] == vars && views[..i] == views;
  }

  /**
   * reel_output_csv_ctx: appends the row of `ctx`, or nothing when the
   * context is hidden, in which case buffer, offset and size are unchanged.
   */
  method OutputCsvCtx(ctx: Context, ghost row: Row, d: char,
                      buf: array<char>, offset: nat, size: nat, ghost start: nat)
    returns (r: array?<char>, newOffset: nat, newSize: nat)
    requires Represents(ctx, row) && Sized(buf, offset, size, start) && buf[offset] == '\0'
    modifies buf
    ensures r != null ==> (r == buf || fresh(r)) && Sized(r, newOffset, newSize, start) && r[newOffset] == '\0'
    ensures r != null ==> r[..newOffset] == old(buf[..offset]) + RowText(row.vars, row.views, row.db, d)
    ensures Hidden(ctx.vars) ==> r == buf && newOffset == offset && newSize == size && unchanged(buf)
  {
    var hidden := FindHide(ctx.vars);
    if hidden {
      return buf, offset, size;
    }
    r, newOffset, newSize := OutputRowCells(ctx.vars, row.views, ctx.db, d, buf, offset, size, start);
    if r == null {
      return;
    }
    r, newOffset, newSize := StrAdd(r, newOffset, newSize, start, "\n");
  }

  /** The `Name:value` columns of a table variable, separated by the delimiter. */
  method OutputHeaderParts(v: Var, db: Db, d: char, buf: array<char>, offset: nat, size: nat, ghost start: nat)
    returns (r: array?<char>, newOffset: nat, newSize: nat)
    requires Sized(buf, offset, size, start)
    modifies buf
    ensures r != null ==> (r == buf || fresh(r)) && Sized(r, newOffset, newSize, start)
    ensures r != null ==> r[..newOffset] == old(buf[..offset]) + Join(HeaderParts(v, db), [d])
  {
    ghost var prefix := buf[..offset];
    ghost var parts := HeaderParts(v, db);
    r, newOffset, newSize := buf, offset, size;
    var k := 0;
    while k < v.tableLength
      invariant k <= v.tableLength
      invariant r != null && (r == buf || fresh(r)) && Sized(r, newOffset, newSize, start)
      invariant r[..newOffset] == prefix + Join(parts[..k], [d])
    {
      JoinStep(prefix, parts, k, d);
      r, newOffset, newSize := StrAddCell(r, newOffset, newSize, start, k, d, v.name + ":" + LexiconValue(db, v.tableField, k));
      if r == null {
        return;
      }
      k := k + 1;
    }
    assert parts[..k] == parts;
  }

  /** Column `j` of the header: the delimiter unless it is the first, then the header cell of `v`. */
  method OutputHeaderCell(v: Var, db: Db, d: char, j: nat, buf: array<char>, offset: nat, size: nat, ghost start: nat)
    returns (r: array?<char>, newOffset: nat, newSize: nat)
    requires Sized(buf, offset, size, start)
    modifies buf
    ensures r != null ==> (r == buf || fresh(r)) && Sized(r, newOffset, newSize, start)
    ensures r != null ==> r[..newOffset] == old(buf[..offset]) + Separator(j, d) + HeaderCell(v, db, d)
  {
    r, newOffset, newSize := buf, offset, size;
    if j > 0 {
      r, newOffset, newSize := StrAdd(r, newOffset, newSize, start, [d]);
      if r == null {
        return;
      }
    }
    if v.kind == UintTable {
      r, newOffset, newSize := OutputHeaderParts(v, db, d, r, newOffset, newSize, start);
    } else {
      r, newOffset, newSize := StrAdd(r, newOffset, newSize, start, v.name);
    }
  }

  /** The header line of reel_output_csv: the visible columns, then a newline. */
  method OutputHeader(vars: seq<Var>, db: Db, d: char, buf: array<char>, offset: nat, size: nat, ghost start: nat)
    returns (r: array?<char>, newOffset: nat, newSize: nat)
    requires Sized(buf, offset, size, start)
    modifies buf
    ensures r != null ==> (r == buf || fresh(r)) && Sized(r, newOffset, newSize, start) && r[newOffset] == '\0'
    ensures r != null ==> r[..newOffset] == old(buf[..offset]) + HeaderText(vars, db, d)
  {
    ghost var prefix := buf[..offset];
    r, newOffset, newSize := buf, offset, size;
    var i := 0;
    var j := 0;
    while i < |vars|
      invariant i <= |vars|
      invariant r != null && (r == buf || fresh(r)) && Sized(r, newOffset, newSize, start)
      invariant j == |HeaderCells(vars[..i], db, d)|
      invariant r[..newOffset] == prefix + Join(HeaderCells(vars[..i], db, d), [d])
    {
      HeaderCellsStep(vars, i, db, d);
      if Visible(vars[i]) {
        JoinAppend(prefix, HeaderCells(vars[..i], db, d), HeaderCell(vars[i], db, d), d);
        r, newOffset, newSize := OutputHeaderCell(vars[i], db, d, j, r, newOffset, newSize, start);
        if r == null {
          return;
        }
        j := j + 1;
      } else {
        assert HeaderCells(vars[..i + 1], db, d) == HeaderCells(vars[..i], db, d);
      }
      i := i + 1;
    }
    assert vars[..i] == vars;
    r, newOffset, newSize := StrAdd(r, newOffset, newSize, start, "\n");
  }

  /** The rows CsvText is made of, as OutputCsv writes them. */
  lemma CsvParts(ctx: Context, d: char) returns (row: Row, rows: seq<Row>, texts: seq<string>)
    requires AllReadable(ctx.vars) && ChildrenReadable(ctx.childContexts)
    ensures Represents(ctx, row)
    ensures ChildrenRepresent(ctx.childContexts, rows) && RowsShaped(rows)
    ensures |texts| == |rows|
    ensures forall i | 0 <= i < |rows| :: texts[i] == RowText(rows[i].vars, rows[i].views, rows[i].db, d)
    ensures CsvText(ctx, d) == HeaderText(ctx.vars, ctx.db, d) + RowText(row.vars, row.views, row.db, d) + Concat(texts)
  {
    ViewsAgree(ctx.vars);
    row := Row(ctx.vars, ctx.db, Views(ctx.vars));
    ChildrenInKeyOrderReadable(ctx.childContexts);
    var children := ChildrenInKeyOrder(ctx.childContexts);
    RowsOfRepresents(children);
    rows := RowsOf(children);
    texts := RowTexts(rows, d);
  }

  /** The row of one child, whose text is `text`. */
  method OutputChildRow(c: Context, ghost row: Row, ghost text: string, d: char,
                        buf: array<char>, offset: nat, size: nat, ghost start: nat)
    returns (r: array?<char>, newOffset: nat, newSize: nat)
    requires Represents(c, row) && text == RowText(row.vars, row.views, row.db, d)
    requires Sized(buf, offset, size, start) && buf[offset] == '\0'
    modifies buf
    ensures r != null ==> (r == buf || fresh(r)) && Sized(r, newOffset, newSize, start) && r[newOffset] == '\0'
    ensures r != null ==> r[..newOffset] == old(buf[..offset]) + text
  {
    r, newOffset, newSize := OutputCsvCtx(c, row, d, buf, offset, size, start);
  }

  /**
   * The child loop of reel_output_csv: the rows of the children of a root,
   * in ascending key order (JLF, then JLN from the last key); `texts` are
   * their texts.
   */
  method OutputChildren(m: map<u64, Context?>, ghost rows: seq<Row>, ghost texts: seq<string>, d: char,
                        buf: array<char>, offset: nat, size: nat, ghost start: nat)
    returns (r: array?<char>, newOffset: nat, newSize: nat)
    requires ChildrenRepresent(m, rows) && RowsShaped(rows)
    requires |texts| == |rows|
    requires forall i {:trigger RowText(rows[i].vars, rows[i].views, rows[i].db, d)} | 0 <= i < |rows| ::
      texts[i] == RowText(rows[i].vars, rows[i].views, rows[i].db, d)
    requires Sized(buf, offset, size, start) && buf[offset] == '\0'
    modifies buf
    ensures r != null ==> (r == buf || fresh(r)) && Sized(r, newOffset, newSize, start) && r[newOffset] == '\0'
    ensures r != null ==> r[..newOffset] == old(buf[..offset]) + Concat(texts)
  {
    ghost var prefix := buf[..offset];
    ChildrenInValues(m);
    assert forall i | 0 <= i < |rows| :: Represents(ChildrenInKeyOrder(m)[i], rows[i]);
    r, newOffset, newSize := buf, offset, size;
    var n := 0;
    var found, key := JudyFirst(m);
    while found
      invariant n <= |m.Keys|
      invariant found ==> n < |m.Keys| && key == SortedKeys(m.Keys)[n] && key in m
      invariant !found ==> n == |m.Keys|
      invariant r != null && (r == buf || fresh(r)) && Sized(r, newOffset, newSize, start) && r[newOffset] == '\0'
      invariant r[..newOffset] == prefix + Concat(texts[..n])
      decreases |m.Keys| - n
    {
      ChildAt(m, n);
      ConcatStep(texts, n);
      AppendAssoc(prefix, Concat(texts[..n]), texts[n]);
      r, newOffset, newSize := OutputChildRow(m[key], rows[n], texts[n], d, r, newOffset, newSize, start);
      if r == null {
        return;
      }
      found, key := JudyNext(m, key, n);
      n := n + 1;
    }
    assert texts[..n] == texts;
  }

  /** The rows reel_output_csv writes after the header: that of `ctx`, then those of its children. */
  method OutputRows(ctx: Context, ghost row: Row, ghost first: string, ghost rows: seq<Row>, ghost texts: seq<string>,
                    d: char, buf: array<char>, offset: nat, size: nat, ghost start: nat)
    returns (r: array?<char>, newOffset: nat, newSize: nat)
    requires Represents(ctx, row) && first == RowText(row.vars, row.views, row.db, d)
    requires ChildrenRepresent(ctx.childContexts, rows) && RowsShaped(rows) && |texts| == |rows|
    requires forall i {:trigger RowText(rows[i].vars, rows[i].views, rows[i].db, d)} | 0 <= i < |rows| ::
      texts[i] == RowText(rows[i].vars, rows[i].views, rows[i].db, d)
    requires Sized(buf, offset, size, start) && buf[offset] == '\0'
    modifies buf
    ensures r != null ==> (r == buf || fresh(r)) && Sized(r, newOffset, newSize, start) && r[newOffset] == '\0'
    ensures r != null ==> r[..newOffset] == old(buf[..offset]) + first + Concat(texts)
  {
    ghost var objs := set c | c in ctx.childContexts.Values && c != null;
    ghost var tabs := ChildTables(ctx.childContexts);
    r, newOffset, newSize := OutputChildRow(ctx, row, first, d, buf, offset, size, start);
    if r == null {
      return;
    }
    assert unchanged(ctx) && unchanged(objs);
    assert unchanged(tabs);
    r, newOffset, newSize := OutputChildren(ctx.childContexts, rows, texts, d, r, newOffset, newSize, start);
  }

  /**
   * reel_output_csv: the header, the row of `ctx` and the rows of its
   * children in ascending key order, in a buffer of CSV_BUFFER_SIZE
   * characters grown by doubling; the text is that of the tree as it stood
   * at the call. Null when an allocation fails.
   */
  method OutputCsv(ctx: Context, d: char) returns (r: array?<char>, length: nat)
    requires AllReadable(ctx.vars) && ChildrenReadable(ctx.childContexts)
    ensures r != null ==> fresh(r) && length < r.Length && r.Length == GrownSize(CSV_BUFFER_SIZE, length)
    ensures r != null ==> r[..length] == old(CsvText(ctx, d)) && r[length] == '\0'
  {
    ghost var row, rows, texts := CsvParts(ctx, d);
    ghost var header, first := HeaderText(ctx.vars, ctx.db, d), RowText(row.vars, row.views, row.db, d);
    ghost var full := CsvText(ctx, d);
    ghost var objs, tabs, own := ctx.childContexts.Values, ChildTables(ctx.childContexts), TablesOf(ctx.vars);
    var offset: nat := 0;
    var size: nat := CSV_BUFFER_SIZE;
    var buf := Malloc<char>(size);
    if buf == null {
      return null, 0;
    }
    r, offset, size := OutputHeader(ctx.vars, ctx.db, d, buf, offset, size, CSV_BUFFER_SIZE);
    if r == null {
      return null, 0;
    }
    assert r[..offset] == header by {
      assert buf[..0] + header == header;
    }
    assert unchanged(ctx) && unchanged(objs);
    assert unchanged(tabs) && unchanged(own);
    r, offset, size := OutputRows(ctx, row, first, rows, texts, d, r, offset, size, CSV_BUFFER_SIZE);
    if r == null {
      return null, 0;
    }
    assert r[..offset] == full;
    length := offset;
  }
}
