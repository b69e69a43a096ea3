/** The quick-ratio pipeline: the three balance-sheet concepts are labelled and stacked into
    one long table, the fiscal year is coerced to a number, annual rows from 2011 on are
    kept, the table is pivoted to one row per (accession, period end, fiscal year) with one
    column per label, incomplete rows are dropped, the quick ratio is added, and the latest
    period of every fiscal year is kept. */
module QuickRatio {
  import opened Options
  import opened Ordering
  import opened Frame
  import opened Facts

  /** The first fiscal year reported. */
  const FyCutoff: int := 2011

  // ---------------------------------------------------------------------------
  // Labelling and stacking

  /** The value of the `label` column: which concept a long-table row came from. */
  datatype Label = Assets | Liabilities | Inventory

  /** The column names `dropna` insists on. */
  const AllLabels: set<Label> := {Assets, Liabilities, Inventory}

  lemma AllLabelsComplete()
    ensures forall c: Label :: c in AllLabels
  {
    forall c: Label ensures c in AllLabels {
      if c.Assets? {
      } else if c.Liabilities? {
      }
    }
  }

  /** A row of the stacked table: the fact's columns and its label. */
  datatype LongRow = LongRow(accn: string, end: string, val: real, form: string, fy: FyCell, concept: Label)

  /** `df['label'] = label`: every row of the table gets the constant column. */
  function Tag(s: seq<Fact>, concept: Label): (r: seq<LongRow>)
    ensures |r| == |s|
    ensures forall i | 0 <= i < |s| ::
      r[i] == LongRow(s[i].accn, s[i].end, s[i].val, s[i].form, s[i].fy, concept)
  {
    seq(|s|, i requires 0 <= i < |s| => LongRow(s[i].accn, s[i].end, s[i].val, s[i].form, s[i].fy, concept))
  }

  /** `pd.concat([assets, liabilities, inventory], ignore_index=True)`: the three labelled
      tables one after another. */
  function Concat(assets: seq<Fact>, liabilities: seq<Fact>, inventory: seq<Fact>): (r: seq<LongRow>)
    ensures |r| == |assets| + |liabilities| + |inventory|
    ensures r[..|assets|] == Tag(assets, Assets)
    ensures r[|assets|..|assets| + |liabilities|] == Tag(liabilities, Liabilities)
    ensures r[|assets| + |liabilities|..] == Tag(inventory, Inventory)
    ensures forall i | 0 <= i < |r| ::
      r[i].concept == (if i < |assets| then Assets
                     else if i < |assets| + |liabilities| then Liabilities
                     else Inventory)
  {
    var a, l, i := Tag(assets, Assets), Tag(liabilities, Liabilities), Tag(inventory, Inventory);
    assert (a + l + i)[..|a|] == a;
    assert (a + l + i)[|a|..|a| + |l|] == l;
    assert (a + l + i)[|a| + |l|..] == i;
    a + l + i
  }

  // ---------------------------------------------------------------------------
  // `pd.to_numeric(fy, errors='coerce')`

  predicate IsDigit(c: char) {
    '0' <= c <= '9'
  }

  predicate AllDigits(s: string) {
    forall i | 0 <= i < |s| :: IsDigit(s[i])
  }

  /** The number a string of decimal digits denotes. */
  function DigitsValue(s: string): nat
    requires AllDigits(s)
  {
    if s == [] then 0
    else DigitsValue(s[..|s| - 1]) * 10 + (s[|s| - 1] as int - '0' as int)
  }

  /** The decimal spelling of `n`, without leading zeros. */
  function Decimal(n: nat): (s: string)
    ensures |s| > 0 && AllDigits(s)
  {
    if n < 10 then [('0' as int + n) as char]
    else Decimal(n / 10) + [('0' as int + n % 10) as char]
  }

  /** A number stays, a text of decimal digits becomes the number it spells, and anything
      else (null, a text that is not a number) becomes the missing value. */
  function ToNumeric(c: FyCell): (r: FyCell)
    ensures !r.FyText?
    ensures c.FyNumber? ==> r == c
    ensures c.FyNull? ==> r == FyNull
    ensures c.FyText? ==> (r.FyNumber? <==> |c.text| > 0 && AllDigits(c.text))
  {
    match c
    case FyNumber(_) => c
    case FyText(t) => if |t| > 0 && AllDigits(t) then FyNumber(DigitsValue(t)) else FyNull
    case FyNull => FyNull
  }

  lemma {:induction false} DigitsValueOfDecimal(n: nat)
    ensures DigitsValue(Decimal(n)) == n
  {
    var s := Decimal(n);
    if n >= 10 {
      DigitsValueOfDecimal(n / 10);
      assert s[..|s| - 1] == Decimal(n / 10);
    }
  }

  /** A fiscal year written out as text is read back as that year. */
  lemma ToNumericOfDecimal(n: nat)
    ensures ToNumeric(FyText(Decimal(n))) == FyNumber(n)
  {
    DigitsValueOfDecimal(n);
  }

  /** Coercion is idempotent. */
  lemma ToNumericIdempotent(c: FyCell)
    ensures ToNumeric(ToNumeric(c)) == ToNumeric(c)
  {
  }

  /** `all_df['fy'] = pd.to_numeric(all_df['fy'], errors='coerce')`. */
  function CoerceFy(s: seq<LongRow>): (r: seq<LongRow>)
    ensures |r| == |s|
    ensures forall i | 0 <= i < |s| :: r[i] == s[i].(fy := ToNumeric(s[i].fy))
  {
    seq(|s|, i requires 0 <= i < |s| => s[i].(fy := ToNumeric(s[i].fy)))
  }

  lemma CoerceFyConcat(a: seq<LongRow>, b: seq<LongRow>)
    ensures CoerceFy(a + b) == CoerceFy(a) + CoerceFy(b)
  {
    assert forall i | 0 <= i < |a + b| :: CoerceFy(a + b)[i] == (CoerceFy(a) + CoerceFy(b))[i];
  }

  // ---------------------------------------------------------------------------
  // `all_df[(form == '10-K') & (fy >= 2011)]`

  /** The row index of the pivot: accession number, period end and fiscal year. */
  datatype PivotKey = PivotKey(accn: string, end: string, fy: int)

  /** A selected row reduced to what the pivot reads: its index, its label and its value. */
  datatype Entry = Entry(key: PivotKey, concept: Label, val: real)

  /** A missing fiscal year compares false with 2011, so only numeric years pass. */
  predicate Eligible(r: LongRow) {
    r.form == AnnualForm && r.fy.FyNumber? && r.fy.n >= FyCutoff
  }

  function EntryOf(r: LongRow): Entry
    requires r.fy.FyNumber?
  {
    Entry(PivotKey(r.accn, r.end, r.fy.n), r.concept, r.val)
  }

  /** The eligible rows, in order, as pivot entries. */
  function Select(s: seq<LongRow>): (r: seq<Entry>)
    ensures forall e :: e in r <==> exists x :: x in s && Eligible(x) && e == EntryOf(x)
    ensures forall e | e in r :: e.key.fy >= FyCutoff
    ensures |r| <= |s|
  {
    if s == [] then []
    else
      assert s == [s[0]] + s[1..];
      (if Eligible(s[0]) then [EntryOf(s[0])] else []) + Select(s[1..])
  }

  lemma {:induction false} SelectConcat(a: seq<LongRow>, b: seq<LongRow>)
    ensures Select(a + b) == Select(a) + Select(b)
  {
    if a == [] {
      assert a + b == b;
    } else {
      var ab := a + b;
      assert ab[0] == a[0] && ab[1..] == a[1..] + b;
      SelectConcat(a[1..], b);
      var head := if Eligible(a[0]) then [EntryOf(a[0])] else [];
      calc {
        Select(ab);
        head + Select(a[1..] + b);
        head + (Select(a[1..]) + Select(b));
        (head + Select(a[1..])) + Select(b);
        Select(a) + Select(b);
      }
    }
  }

  // ---------------------------------------------------------------------------
  // `pivot_table(index=['accn', 'end', 'fy'], columns='label', values='val', aggfunc='first')`

  /** The order of the pivot's row index: by accession number, then period end, then fiscal
      year, as a grouping on the three columns sorts its groups. */
  predicate PivotKeyLe(a: PivotKey, b: PivotKey) {
    || StrLt(a.accn, b.accn)
    || (a.accn == b.accn && (StrLt(a.end, b.end) || (a.end == b.end && a.fy <= b.fy)))
  }

  lemma PivotKeyLeTotal(a: PivotKey, b: PivotKey)
    ensures PivotKeyLe(a, b) || PivotKeyLe(b, a)
  {
    StrLeTotal(a.accn, b.accn);
    StrLeTotal(a.end, b.end);
    if StrLe(a.accn, b.accn) && StrLe(b.accn, a.accn) {
      StrLeAntisymmetric(a.accn, b.accn);
    }
    if StrLe(a.end, b.end) && StrLe(b.end, a.end) {
      StrLeAntisymmetric(a.end, b.end);
    }
  }

  lemma PivotKeyLeTransitive(a: PivotKey, b: PivotKey, c: PivotKey)
    requires PivotKeyLe(a, b) && PivotKeyLe(b, c)
    ensures PivotKeyLe(a, c)
  {
    if StrLt(a.accn, b.accn) && StrLt(b.accn, c.accn) {
      StrLtTransitive(a.accn, b.accn, c.accn);
    } else if a.accn == b.accn && b.accn == c.accn {
      if StrLt(a.end, b.end) && StrLt(b.end, c.end) {
        StrLtTransitive(a.end, b.end, c.end);
      }
    }
  }

  lemma PivotKeyLeTotalPreorder()
    ensures TotalPreorder(PivotKeyLe)
  {
    forall a, b ensures PivotKeyLe(a, b) || PivotKeyLe(b, a) {
      PivotKeyLeTotal(a, b);
    }
    forall a, b, c | PivotKeyLe(a, b) && PivotKeyLe(b, c) ensures PivotKeyLe(a, c) {
      PivotKeyLeTransitive(a, b, c);
    }
  }

  function KeyOf(e: Entry): PivotKey {
    e.key
  }

  function Id(k: PivotKey): PivotKey {
    k
  }

  /** The index column of the entries. */
  function Keys(es: seq<Entry>): (ks: seq<PivotKey>)
    ensures |ks| == |es|
    ensures forall i | 0 <= i < |es| :: ks[i] == es[i].key
  {
    seq(|es|, i requires 0 <= i < |es| => es[i].key)
  }

  lemma KeysOfId(ks: seq<PivotKey>)
    ensures forall k :: k in KeysOf(ks, Id) <==> k in ks
  {
    forall k | k in ks ensures k in KeysOf(ks, Id) {
      KeyInKeysOf(ks, Id, k);
    }
  }

  lemma KeysMembers(es: seq<Entry>)
    ensures forall k :: k in Keys(es) <==> k in KeysOf(es, KeyOf)
  {
    forall k | k in KeysOf(es, KeyOf) ensures k in Keys(es) {
      var e :| e in es && e.key == k;
      var i :| 0 <= i < |es| && es[i] == e;
      assert Keys(es)[i] == k;
    }
    forall k | k in Keys(es) ensures k in KeysOf(es, KeyOf) {
      var i :| 0 <= i < |es| && Keys(es)[i] == k;
      KeyInKeysOf(es, KeyOf, es[i]);
    }
  }

  lemma SortByMembers(s: seq<PivotKey>)
    ensures forall k :: k in SortBy(s, PivotKeyLe) <==> k in s
  {
    forall k ensures k in SortBy(s, PivotKeyLe) <==> k in s {
      assert k in SortBy(s, PivotKeyLe) <==> k in multiset(SortBy(s, PivotKeyLe));
      assert k in s <==> k in multiset(s);
    }
  }

  /** The distinct index values of the entries, in increasing order. */
  function GroupKeys(es: seq<Entry>): (ks: seq<PivotKey>)
    ensures forall k :: k in ks <==> k in KeysOf(es, KeyOf)
    ensures UniqueBy(ks, Id)
    ensures SortedBy(ks, PivotKeyLe)
  {
    var sorted := SortBy(Keys(es), PivotKeyLe);
    PivotKeyLeTotalPreorder();
    SortBySorted(Keys(es), PivotKeyLe);
    DedupLastSorted(sorted, Id, PivotKeyLe);
    var ks := DedupLast(sorted, Id);
    KeysOfId(ks);
    KeysOfId(sorted);
    SortByMembers(Keys(es));
    KeysMembers(es);
    ks
  }

  /** Entry `e` is a value for index `k` in column `c`. */
  predicate At(e: Entry, k: PivotKey, c: Label) {
    e.key == k && e.concept == c
  }

  /** `aggfunc='first'`: the value of the first entry for index `k` in column `c`, or a
      missing cell when there is none. */
  function FirstValue(es: seq<Entry>, k: PivotKey, c: Label): (v: Option<real>)
    ensures v.None? <==> forall i | 0 <= i < |es| :: !At(es[i], k, c)
    ensures v.Some? ==> exists i | 0 <= i < |es| ::
      At(es[i], k, c) && es[i].val == v.value && forall j | 0 <= j < i :: !At(es[j], k, c)
  {
    if es == [] then None
    else if At(es[0], k, c) then
      assert At(es[0], k, c) && es[0].val == es[0].val;
      Some(es[0].val)
    else
      var v := FirstValue(es[1..], k, c);
      assert forall i | 1 <= i < |es| :: es[i] == es[1..][i - 1];
      if v.Some? then
        var i :| 0 <= i < |es[1..]| && At(es[1..][i], k, c) && es[1..][i].val == v.value
          && forall j | 0 <= j < i :: !At(es[1..][j], k, c);
        assert At(es[i + 1], k, c) && es[i + 1].val == v.value && forall j | 0 <= j < i + 1 :: !At(es[j], k, c);
        v
      else v
  }

  /** The first value over two tables one after the other. */
  lemma {:induction false} FirstValueConcat(a: seq<Entry>, b: seq<Entry>, k: PivotKey, c: Label)
    ensures FirstValue(a + b, k, c) == if FirstValue(a, k, c).Some? then FirstValue(a, k, c) else FirstValue(b, k, c)
  {
    if a == [] {
      assert a + b == b;
    } else {
      assert (a + b)[0] == a[0] && (a + b)[1..] == a[1..] + b;
      FirstValueConcat(a[1..], b, k, c);
    }
  }

  /** A row of the pivot: its index and one cell per label, missing where no entry had it. */
  datatype PivotRow = PivotRow(key: PivotKey, assets: Option<real>, liabilities: Option<real>, inventory: Option<real>)

  function Cell(r: PivotRow, c: Label): Option<real> {
    match c
    case Assets => r.assets
    case Liabilities => r.liabilities
    case Inventory => r.inventory
  }

  /** The pivoted table: the label columns it has, and its rows. */
  datatype Pivot = Pivot(columns: set<Label>, rows: seq<PivotRow>)

  function RowFor(es: seq<Entry>, k: PivotKey): PivotRow {
    PivotRow(k, FirstValue(es, k, Assets), FirstValue(es, k, Liabilities), FirstValue(es, k, Inventory))
  }

  function PivotRowKey(r: PivotRow): PivotKey {
    r.key
  }

  function LabelOf(e: Entry): Label {
    e.concept
  }

  /** One row per distinct index value, in index order, each cell the first value for it; a
      label becomes a column only when some entry carries it. */
  function PivotTable(es: seq<Entry>): (p: Pivot)
    ensures forall c :: c in p.columns <==> exists e :: e in es && e.concept == c
    ensures KeysOf(p.rows, PivotRowKey) == KeysOf(es, KeyOf)
    ensures UniqueBy(p.rows, PivotRowKey)
    ensures forall i, j | 0 <= i < j < |p.rows| :: PivotKeyLe(p.rows[i].key, p.rows[j].key)
    ensures forall r, c | r in p.rows :: Cell(r, c) == FirstValue(es, r.key, c)
  {
    var ks := GroupKeys(es);
    var rows := RowsFor(es, ks);
    RowsForKeys(es, ks);
    Pivot(KeysOf(es, LabelOf), rows)
  }

  /** The pivot's rows for the index values `ks`, in that order. */
  function RowsFor(es: seq<Entry>, ks: seq<PivotKey>): (rows: seq<PivotRow>)
    ensures |rows| == |ks|
    ensures forall i | 0 <= i < |ks| :: rows[i] == RowFor(es, ks[i])
  {
    seq(|ks|, i requires 0 <= i < |ks| => RowFor(es, ks[i]))
  }

  lemma RowsForKeys(es: seq<Entry>, ks: seq<PivotKey>)
    ensures forall k :: k in KeysOf(RowsFor(es, ks), PivotRowKey) <==> k in ks
  {
    var rows := RowsFor(es, ks);
    forall k | k in ks ensures k in KeysOf(rows, PivotRowKey) {
      var i :| 0 <= i < |ks| && ks[i] == k;
      KeyInKeysOf(rows, PivotRowKey, rows[i]);
    }
  }

  // ---------------------------------------------------------------------------
  // `dropna(subset=['assets', 'inventory', 'liabilities'])`

  /** A pivot row with all three cells present. */
  datatype BalanceRow = BalanceRow(key: PivotKey, assets: real, liabilities: real, inventory: real)

  predicate Complete(r: PivotRow) {
    r.assets.Some? && r.liabilities.Some? && r.inventory.Some?
  }

  function Filled(r: PivotRow): BalanceRow
    requires Complete(r)
  {
    BalanceRow(r.key, r.assets.value, r.liabilities.value, r.inventory.value)
  }

  /** The rows with no missing cell, in order: `dropna` on a table that has all three
      columns. */
  function DropIncomplete(rows: seq<PivotRow>): (r: seq<BalanceRow>)
    ensures forall b :: b in r <==> exists x :: x in rows && Complete(x) && b == Filled(x)
    ensures |r| <= |rows|
  {
    if rows == [] then []
    else
      assert rows == [rows[0]] + rows[1..];
      (if Complete(rows[0]) then [Filled(rows[0])] else []) + DropIncomplete(rows[1..])
  }

  /** The `KeyError` `dropna` raises for subset columns the table does not have. */
  datatype MissingColumns = MissingColumns(labels: set<Label>)

  /** `dropna` as the source calls it: a pivot without one of the three label columns
      raises instead of returning the (empty) table of complete rows. */
  function DropNa(p: Pivot): (r: Result<seq<BalanceRow>, MissingColumns>)
    ensures r.Err? <==> !(AllLabels <= p.columns)
    ensures r.Err? ==> r.error.labels != {} && forall c :: c in r.error.labels <==> c !in p.columns
    ensures r.Ok? ==> r.value == DropIncomplete(p.rows)
  {
    if AllLabels <= p.columns then Ok(DropIncomplete(p.rows))
    else
      AllLabelsComplete();
      var c :| c in AllLabels && c !in p.columns;
      assert c in AllLabels - p.columns;
      Err(MissingColumns(AllLabels - p.columns))
  }

  // ---------------------------------------------------------------------------
  // `quick_ratio = (assets - inventory) / liabilities`

  /** A complete row with its quick ratio. */
  datatype QuickRow = QuickRow(key: PivotKey, assets: real, liabilities: real, inventory: real, quickRatio: Ratio)

  function WithQuickRatio(b: BalanceRow): (q: QuickRow)
    ensures q.key == b.key && q.assets == b.assets && q.liabilities == b.liabilities && q.inventory == b.inventory
    ensures q.quickRatio.Finite? <==> b.liabilities != 0.0
    ensures q.quickRatio.Finite? ==> q.quickRatio.value * b.liabilities == b.assets - b.inventory
  {
    QuickRow(b.key, b.assets, b.liabilities, b.inventory, Divide(b.assets - b.inventory, b.liabilities))
  }

  /** The quick ratio of `q` is (assets - inventory) / liabilities, non-finite exactly when
      liabilities are zero. */
  predicate RatioHolds(q: QuickRow) {
    && (q.quickRatio.Finite? <==> q.liabilities != 0.0)
    && (q.quickRatio.Finite? ==> q.quickRatio.value * q.liabilities == q.assets - q.inventory)
  }

  lemma WithQuickRatioHolds(b: BalanceRow)
    ensures RatioHolds(WithQuickRatio(b))
  {
    var q := WithQuickRatio(b);
    assert q.liabilities == b.liabilities && q.assets == b.assets && q.inventory == b.inventory;
  }

  function AddQuickRatio(rows: seq<BalanceRow>): (r: seq<QuickRow>)
    ensures |r| == |rows|
    ensures forall i | 0 <= i < |rows| :: r[i] == WithQuickRatio(rows[i])
  {
    seq(|rows|, i requires 0 <= i < |rows| => WithQuickRatio(rows[i]))
  }

  // ---------------------------------------------------------------------------
  // `sort_values('end').drop_duplicates('fy', keep='last')`

  function QuickEnd(q: QuickRow): string {
    q.key.end
  }

  function QuickFy(q: QuickRow): int {
    q.key.fy
  }

  /** One row per fiscal year, taken from the input. */
  function LatestPerYear(rows: seq<QuickRow>): (r: seq<QuickRow>)
    ensures UniqueBy(r, QuickFy)
    ensures KeysOf(r, QuickFy) == KeysOf(rows, QuickFy)
    ensures forall q | q in r :: q in rows
  {
    var r := SortThenDedup(rows, QuickEnd, QuickFy);
    assert forall q | q in r :: q in rows by {
      forall q | q in r ensures q in rows {
        assert q in multiset(r);
      }
    }
    r
  }

  /** The row kept for a fiscal year has the latest period end among that year's rows. */
  lemma LatestPerYearKeepsLatest(rows: seq<QuickRow>, q: QuickRow, x: QuickRow)
    requires q in LatestPerYear(rows) && x in rows && x.key.fy == q.key.fy
    ensures StrLe(x.key.end, q.key.end)
  {
    SortThenDedupKeepsLatest(rows, QuickEnd, QuickFy, q, x);
  }

  // ---------------------------------------------------------------------------
  // The pipeline

  const AssetsTag: string := "AssetsCurrent"
  const LiabilitiesTag: string := "LiabilitiesCurrent"
  const InventoryTag: string := "InventoryNet"

  /** The pivot's entries: the stacked, coerced and selected rows, every one from 2011 on. */
  function EntriesOf(assets: seq<Fact>, liabilities: seq<Fact>, inventory: seq<Fact>): (es: seq<Entry>)
    ensures forall e | e in es :: e.key.fy >= FyCutoff
    ensures |es| <= |assets| + |liabilities| + |inventory|
  {
    Select(CoerceFy(Concat(assets, liabilities, inventory)))
  }

  /** The pivot of the three fact tables: one row per index, all from 2011 on. */
  function PivotOf(assets: seq<Fact>, liabilities: seq<Fact>, inventory: seq<Fact>): (p: Pivot)
    ensures UniqueBy(p.rows, PivotRowKey)
    ensures forall x | x in p.rows :: x.key.fy >= FyCutoff
  {
    var es := EntriesOf(assets, liabilities, inventory);
    var p := PivotTable(es);
    assert forall x | x in p.rows :: x.key.fy >= FyCutoff by {
      forall x | x in p.rows ensures x.key.fy >= FyCutoff {
        KeyInKeysOf(p.rows, PivotRowKey, x);
        assert x.key in KeysOf(es, KeyOf);
      }
    }
    p
  }

  /** The intended quick-ratio table, with `dropna` reading a missing label column as
      missing cells: one row per fiscal year (see QuickRatioRowFacts and
      QuickRatioCoversYear for its contents). */
  function QuickRatioOf(assets: seq<Fact>, liabilities: seq<Fact>, inventory: seq<Fact>): (r: seq<QuickRow>)
    ensures UniqueBy(r, QuickFy)
  {
    Report(PivotOf(assets, liabilities, inventory).rows)
  }

  /** The quick-ratio table as the source computes it from three tables that have the fact
      columns: `dropna` raises, naming the absent label columns, unless the pivot has all
      three. */
  function QuickRatioOfAsWritten(assets: seq<Fact>, liabilities: seq<Fact>, inventory: seq<Fact>): (r: Result<seq<QuickRow>, MissingColumns>)
    ensures r.Err? <==> !(AllLabels <= PivotOf(assets, liabilities, inventory).columns)
    ensures r.Err? ==> forall c :: c in r.error.labels <==> c !in PivotOf(assets, liabilities, inventory).columns
    ensures r.Ok? ==> UniqueBy(r.value, QuickFy)
  {
    match DropNa(PivotOf(assets, liabilities, inventory))
    case Err(e) => Err(e)
    case Ok(rows) => Ok(LatestPerYear(AddQuickRatio(rows)))
  }

  /** The steps after the pivot: complete rows, their ratio, one row per fiscal year. */
  function Report(rows: seq<PivotRow>): (r: seq<QuickRow>)
    ensures UniqueBy(r, QuickFy)
  {
    LatestPerYear(AddQuickRatio(DropIncomplete(rows)))
  }

  /** The intended quick-ratio table of the document. */
  function QuickRatioReport(doc: CompanyFacts): (r: seq<QuickRow>)
    ensures UniqueBy(r, QuickFy)
  {
    QuickRatioOf(TagFacts(doc, AssetsTag), TagFacts(doc, LiabilitiesTag), TagFacts(doc, InventoryTag))
  }

  /** How the source's quick-ratio section fails: `all_df['fy']` raises when no stacked table
      has an `fy` column, `dropna` when the pivot lacks a label column. */
  datatype QuickRatioError = CoerceFailed(key: KeyError) | DropNaFailed(missing: MissingColumns)

  /** All three concepts have an empty USD list: each table has no columns, so after
      labelling the stacked table has only the `label` column. */
  predicate StackLacksFy(doc: CompanyFacts) {
    GetTag(doc, AssetsTag).NoColumns? && GetTag(doc, LiabilitiesTag).NoColumns? && GetTag(doc, InventoryTag).NoColumns?
  }

  /** The quick-ratio section as the source runs it on the document: it fails where the
      intended table is empty, and otherwise gives the intended table. */
  function QuickRatioReportAsWritten(doc: CompanyFacts): (r: Result<seq<QuickRow>, QuickRatioError>)
    ensures r.Err? && r.error.CoerceFailed? <==> StackLacksFy(doc)
    ensures StackLacksFy(doc) ==> r == Err(CoerceFailed(KeyError("fy")))
    ensures r.Ok? ==> r.value == QuickRatioReport(doc)
    ensures r.Err? ==> QuickRatioReport(doc) == []
  {
    var a, l, i := TagFacts(doc, AssetsTag), TagFacts(doc, LiabilitiesTag), TagFacts(doc, InventoryTag);
    if StackLacksFy(doc) then
      EmptyTableReport([], [], []);
      Err(CoerceFailed(KeyError("fy")))
    else
      AsWrittenAgrees(a, l, i);
      match QuickRatioOfAsWritten(a, l, i)
      case Err(e) => Err(DropNaFailed(e))
      case Ok(rows) => Ok(rows)
  }

  // ---------------------------------------------------------------------------
  // Properties of the pipeline, stated on the fact tables

  /** Fact `f` is an annual fact from 2011 on whose row index is `k`. */
  predicate FactAt(f: Fact, k: PivotKey) {
    && f.form == AnnualForm && ToNumeric(f.fy) == FyNumber(k.fy) && k.fy >= FyCutoff
    && f.accn == k.accn && f.end == k.end
  }

  /** The value of the first fact of `facts` at index `k`, if any. */
  function FirstFact(facts: seq<Fact>, k: PivotKey): (v: Option<real>)
    ensures v.None? <==> forall f | f in facts :: !FactAt(f, k)
    ensures v.Some? ==> exists f :: f in facts && FactAt(f, k) && f.val == v.value
  {
    if facts == [] then None
    else if FactAt(facts[0], k) then Some(facts[0].val)
    else
      assert facts == [facts[0]] + facts[1..];
      FirstFact(facts[1..], k)
  }

  /** The entries one concept's table contributes. */
  function EntriesOfConcept(facts: seq<Fact>, c: Label): seq<Entry> {
    Select(CoerceFy(Tag(facts, c)))
  }

  lemma TagCons(facts: seq<Fact>, c: Label)
    requires facts != []
    ensures Tag(facts, c) == Tag([facts[0]], c) + Tag(facts[1..], c)
  {
  }

  /** A concept's own column takes the first of its facts at each index. */
  lemma {:induction false} FirstValueOfConcept(facts: seq<Fact>, c: Label, k: PivotKey)
    ensures FirstValue(EntriesOfConcept(facts, c), k, c) == FirstFact(facts, k)
  {
    if facts != [] {
      var head := Tag([facts[0]], c);
      var tail := Tag(facts[1..], c);
      TagCons(facts, c);
      CoerceFyConcat(head, tail);
      SelectConcat(CoerceFy(head), CoerceFy(tail));
      FirstValueConcat(Select(CoerceFy(head)), Select(CoerceFy(tail)), k, c);
      FirstValueOfConcept(facts[1..], c, k);
      var row := CoerceFy(head)[0];
      assert CoerceFy(head) == [row];
      assert Select([row]) == (if Eligible(row) then [EntryOf(row)] else []) by {
        assert [row][1..] == [];
      }
    }
  }

  /** Every entry of a concept's table carries that concept. */
  lemma ConceptEntries(facts: seq<Fact>, c: Label)
    ensures forall e | e in EntriesOfConcept(facts, c) :: e.concept == c
  {
    var rows := CoerceFy(Tag(facts, c));
    forall e | e in EntriesOfConcept(facts, c) ensures e.concept == c {
      var x :| x in rows && Eligible(x) && e == EntryOf(x);
      var i :| 0 <= i < |rows| && rows[i] == x;
    }
  }

  lemma EntriesOfSplit(assets: seq<Fact>, liabilities: seq<Fact>, inventory: seq<Fact>)
    ensures EntriesOf(assets, liabilities, inventory)
      == EntriesOfConcept(assets, Assets) + EntriesOfConcept(liabilities, Liabilities) + EntriesOfConcept(inventory, Inventory)
  {
    var a := Tag(assets, Assets);
    var l := Tag(liabilities, Liabilities);
    var i := Tag(inventory, Inventory);
    CoerceFyConcat(a + l, i);
    CoerceFyConcat(a, l);
    SelectConcat(CoerceFy(a) + CoerceFy(l), CoerceFy(i));
    SelectConcat(CoerceFy(a), CoerceFy(l));
  }

  lemma NoEntriesFor(es: seq<Entry>, k: PivotKey, c: Label)
    requires forall e | e in es :: e.concept != c
    ensures FirstValue(es, k, c).None?
  {
    assert forall i | 0 <= i < |es| :: es[i] in es;
  }

  /** In three concept tables one after another, column `c` is read from `c`'s table only. */
  lemma FirstValueOfThree(ea: seq<Entry>, el: seq<Entry>, ei: seq<Entry>, k: PivotKey, c: Label)
    requires forall e | e in ea :: e.concept == Assets
    requires forall e | e in el :: e.concept == Liabilities
    requires forall e | e in ei :: e.concept == Inventory
    ensures FirstValue(ea + el + ei, k, c)
      == match c
         case Assets => FirstValue(ea, k, c)
         case Liabilities => FirstValue(el, k, c)
         case Inventory => FirstValue(ei, k, c)
  {
    FirstValueConcat(ea + el, ei, k, c);
    FirstValueConcat(ea, el, k, c);
    match c
    case Assets =>
      NoEntriesFor(el, k, c);
      NoEntriesFor(ei, k, c);
    case Liabilities =>
      NoEntriesFor(ea, k, c);
      NoEntriesFor(ei, k, c);
    case Inventory =>
      NoEntriesFor(ea, k, c);
      NoEntriesFor(el, k, c);
  }

  /** The assets cell of the pivot row at index `k` is the value of the first annual
      current-assets fact at `k`, and likewise for the other two columns: rows of one
      concept never feed another concept's column. */
  lemma PivotCells(assets: seq<Fact>, liabilities: seq<Fact>, inventory: seq<Fact>, k: PivotKey)
    ensures FirstValue(EntriesOf(assets, liabilities, inventory), k, Assets) == FirstFact(assets, k)
    ensures FirstValue(EntriesOf(assets, liabilities, inventory), k, Liabilities) == FirstFact(liabilities, k)
    ensures FirstValue(EntriesOf(assets, liabilities, inventory), k, Inventory) == FirstFact(inventory, k)
  {
    var ea := EntriesOfConcept(assets, Assets);
    var el := EntriesOfConcept(liabilities, Liabilities);
    var ei := EntriesOfConcept(inventory, Inventory);
    EntriesOfSplit(assets, liabilities, inventory);
    ConceptEntries(assets, Assets);
    ConceptEntries(liabilities, Liabilities);
    ConceptEntries(inventory, Inventory);
    FirstValueOfThree(ea, el, ei, k, Assets);
    FirstValueOfThree(ea, el, ei, k, Liabilities);
    FirstValueOfThree(ea, el, ei, k, Inventory);
    FirstValueOfConcept(assets, Assets, k);
    FirstValueOfConcept(liabilities, Liabilities, k);
    FirstValueOfConcept(inventory, Inventory, k);
  }

  /** All three concepts have an annual fact at index `k`. */
  predicate CompleteAt(assets: seq<Fact>, liabilities: seq<Fact>, inventory: seq<Fact>, k: PivotKey) {
    FirstFact(assets, k).Some? && FirstFact(liabilities, k).Some? && FirstFact(inventory, k).Some?
  }

  /** Every reported row comes from a complete pivot row. */
  lemma ReportRow(rows: seq<PivotRow>, q: QuickRow)
    requires q in Report(rows)
    ensures exists x :: (x in rows && x.key == q.key && x.assets == Some(q.assets)
      && x.liabilities == Some(q.liabilities) && x.inventory == Some(q.inventory))
    ensures q == WithQuickRatio(BalanceRow(q.key, q.assets, q.liabilities, q.inventory))
    ensures RatioHolds(q)
  {
    var bs := DropIncomplete(rows);
    AddQuickRatioRow(bs, q);
    var b :| b in bs && q == WithQuickRatio(b);
    var x :| x in rows && Complete(x) && b == Filled(x);
    WithQuickRatioHolds(b);
  }

  lemma AddQuickRatioRow(bs: seq<BalanceRow>, q: QuickRow)
    requires q in LatestPerYear(AddQuickRatio(bs))
    ensures exists b :: b in bs && q == WithQuickRatio(b)
  {
    var qs := AddQuickRatio(bs);
    assert q in qs;
    var j :| 0 <= j < |qs| && qs[j] == q;
    assert bs[j] in bs;
  }

  /** The fiscal year of every complete pivot row is reported, by a row whose period end is
      at least as late. */
  lemma ReportCovers(rows: seq<PivotRow>, x: PivotRow)
    requires x in rows && Complete(x)
    ensures exists q :: q in Report(rows) && q.key.fy == x.key.fy
    ensures forall q | q in Report(rows) && q.key.fy == x.key.fy :: StrLe(x.key.end, q.key.end)
  {
    var bs := DropIncomplete(rows);
    assert Filled(x) in bs;
    var j :| 0 <= j < |bs| && bs[j] == Filled(x);
    var qs := AddQuickRatio(bs);
    var w := qs[j];
    KeyInKeysOf(qs, QuickFy, w);
    var r := LatestPerYear(qs);
    assert x.key.fy in KeysOf(r, QuickFy);
    forall q | q in r && q.key.fy == x.key.fy ensures StrLe(x.key.end, q.key.end) {
      LatestPerYearKeepsLatest(qs, q, w);
    }
  }

  lemma {:induction false} DropIncompleteNone(rows: seq<PivotRow>)
    requires forall x | x in rows :: !Complete(x)
    ensures DropIncomplete(rows) == []
  {
    if rows != [] {
      assert rows[0] in rows;
      DropIncompleteNone(rows[1..]);
    }
  }

  /** With no complete pivot row nothing is reported. */
  lemma ReportEmpty(rows: seq<PivotRow>)
    requires forall x | x in rows :: !Complete(x)
    ensures Report(rows) == []
  {
    DropIncompleteNone(rows);
    assert AddQuickRatio([]) == [];
  }

  /** The cells of a pivot row are the first facts of the three concepts at its index. */
  lemma PivotRowCells(assets: seq<Fact>, liabilities: seq<Fact>, inventory: seq<Fact>, x: PivotRow)
    requires x in PivotOf(assets, liabilities, inventory).rows
    ensures x.assets == FirstFact(assets, x.key)
    ensures x.liabilities == FirstFact(liabilities, x.key)
    ensures x.inventory == FirstFact(inventory, x.key)
  {
    var es := EntriesOf(assets, liabilities, inventory);
    assert Cell(x, Assets) == FirstValue(es, x.key, Assets);
    assert Cell(x, Liabilities) == FirstValue(es, x.key, Liabilities);
    assert Cell(x, Inventory) == FirstValue(es, x.key, Inventory);
    PivotCells(assets, liabilities, inventory, x.key);
  }

  /** An index at which current assets have an annual fact is a row of the pivot. */
  lemma PivotRowAt(assets: seq<Fact>, liabilities: seq<Fact>, inventory: seq<Fact>, k: PivotKey)
    requires FirstFact(assets, k).Some?
    ensures exists x :: x in PivotOf(assets, liabilities, inventory).rows && x.key == k
  {
    var es := EntriesOf(assets, liabilities, inventory);
    PivotCells(assets, liabilities, inventory, k);
    var n :| 0 <= n < |es| && At(es[n], k, Assets);
    KeyInKeysOf(es, KeyOf, es[n]);
    assert k in KeysOf(PivotTable(es).rows, PivotRowKey);
  }

  /** Every reported row is an index from 2011 on at which all three concepts have an annual
      fact; its values are the first such facts and its ratio is (assets - inventory) /
      liabilities, non-finite when liabilities are zero. */
  lemma QuickRatioRowFacts(assets: seq<Fact>, liabilities: seq<Fact>, inventory: seq<Fact>, q: QuickRow)
    requires q in QuickRatioOf(assets, liabilities, inventory)
    ensures q.key.fy >= FyCutoff
    ensures FirstFact(assets, q.key) == Some(q.assets)
    ensures FirstFact(liabilities, q.key) == Some(q.liabilities)
    ensures FirstFact(inventory, q.key) == Some(q.inventory)
    ensures q == WithQuickRatio(BalanceRow(q.key, q.assets, q.liabilities, q.inventory))
    ensures RatioHolds(q)
  {
    var rows := PivotOf(assets, liabilities, inventory).rows;
    ReportRow(rows, q);
    var x :| x in rows && x.key == q.key && x.assets == Some(q.assets)
      && x.liabilities == Some(q.liabilities) && x.inventory == Some(q.inventory);
    PivotRowCells(assets, liabilities, inventory, x);
    FirstFactYear(assets, x.key);
  }

  lemma FirstFactYear(facts: seq<Fact>, k: PivotKey)
    requires FirstFact(facts, k).Some?
    ensures k.fy >= FyCutoff
  {
  }

  /** Every index from 2011 on at which all three concepts have an annual fact has its fiscal
      year reported, by a row whose period end is at least as late. */
  lemma QuickRatioCoversYear(assets: seq<Fact>, liabilities: seq<Fact>, inventory: seq<Fact>, k: PivotKey)
    requires CompleteAt(assets, liabilities, inventory, k)
    ensures exists q :: q in QuickRatioOf(assets, liabilities, inventory) && q.key.fy == k.fy
    ensures forall q | q in QuickRatioOf(assets, liabilities, inventory) && q.key.fy == k.fy :: StrLe(k.end, q.key.end)
  {
    var rows := PivotOf(assets, liabilities, inventory).rows;
    PivotRowAt(assets, liabilities, inventory, k);
    var x :| x in rows && x.key == k;
    PivotRowCells(assets, liabilities, inventory, x);
    ReportCovers(rows, x);
  }

  lemma EmptyConceptTable(c: Label)
    ensures EntriesOfConcept([], c) == []
  {
    assert |Tag([], c)| == 0;
  }

  /** A concept with no facts gives the pivot no column for it. */
  lemma EmptyConceptNoColumn(assets: seq<Fact>, liabilities: seq<Fact>, inventory: seq<Fact>, c: Label)
    requires (c == Assets && assets == []) || (c == Liabilities && liabilities == []) || (c == Inventory && inventory == [])
    ensures c !in PivotOf(assets, liabilities, inventory).columns
  {
    var ea := EntriesOfConcept(assets, Assets);
    var el := EntriesOfConcept(liabilities, Liabilities);
    var ei := EntriesOfConcept(inventory, Inventory);
    EntriesOfSplit(assets, liabilities, inventory);
    ConceptEntries(assets, Assets);
    ConceptEntries(liabilities, Liabilities);
    ConceptEntries(inventory, Inventory);
    EmptyConceptTable(c);
    forall e: Entry | e in ea + el + ei ensures e.concept != c {
      assert e in ea || e in el || e in ei;
    }
  }

  /** With all three label columns present the source's `dropna` computes the intended table;
      when one is missing it raises where the intended table is empty. */
  lemma AsWrittenAgrees(assets: seq<Fact>, liabilities: seq<Fact>, inventory: seq<Fact>)
    ensures AllLabels <= PivotOf(assets, liabilities, inventory).columns ==>
      QuickRatioOfAsWritten(assets, liabilities, inventory) == Ok(QuickRatioOf(assets, liabilities, inventory))
    ensures !(AllLabels <= PivotOf(assets, liabilities, inventory).columns) ==>
      QuickRatioOfAsWritten(assets, liabilities, inventory).Err? && QuickRatioOf(assets, liabilities, inventory) == []
  {
    var es := EntriesOf(assets, liabilities, inventory);
    var p := PivotTable(es);
    if !(AllLabels <= p.columns) {
      var c :| c in AllLabels && c !in p.columns;
      NoEntriesForEach(es, c);
      forall x | x in p.rows ensures !Complete(x) {
        assert Cell(x, c) == FirstValue(es, x.key, c);
      }
      ReportEmpty(p.rows);
    }
  }

  lemma NoEntriesForEach(es: seq<Entry>, c: Label)
    requires forall e | e in es :: e.concept != c
    ensures forall k :: FirstValue(es, k, c).None?
  {
    forall k ensures FirstValue(es, k, c).None? {
      NoEntriesFor(es, k, c);
    }
  }

  /** With one of the three fact tables empty, the intended pipeline gives no rows and the
      code as written raises, naming every empty concept among the missing columns. */
  lemma EmptyTableReport(a: seq<Fact>, l: seq<Fact>, i: seq<Fact>)
    requires a == [] || l == [] || i == []
    ensures QuickRatioOf(a, l, i) == []
    ensures QuickRatioOfAsWritten(a, l, i).Err?
    ensures i == [] ==> Inventory in QuickRatioOfAsWritten(a, l, i).error.labels
    ensures a == [] ==> Assets in QuickRatioOfAsWritten(a, l, i).error.labels
    ensures l == [] ==> Liabilities in QuickRatioOfAsWritten(a, l, i).error.labels
  {
    if a == [] {
      EmptyConceptNoColumn(a, l, i, Assets);
    }
    if l == [] {
      EmptyConceptNoColumn(a, l, i, Liabilities);
    }
    if i == [] {
      EmptyConceptNoColumn(a, l, i, Inventory);
    }
    AsWrittenAgrees(a, l, i);
  }

  /** A company that does not report one of the three concepts, or reports it with an
      empty USD list, gets no quick-ratio rows from the intended pipeline, while the source
      raises: for the missing `fy` column when all three lists are empty, and otherwise in
      `dropna`, naming every concept without rows among the missing columns. */
  lemma MissingConceptReport(doc: CompanyFacts)
    requires TagFacts(doc, AssetsTag) == [] || TagFacts(doc, LiabilitiesTag) == [] || TagFacts(doc, InventoryTag) == []
    ensures QuickRatioReport(doc) == []
    ensures QuickRatioReportAsWritten(doc).Err?
    ensures StackLacksFy(doc) ==> QuickRatioReportAsWritten(doc) == Err(CoerceFailed(KeyError("fy")))
    ensures !StackLacksFy(doc) ==> QuickRatioReportAsWritten(doc).error.DropNaFailed?
    ensures !StackLacksFy(doc) && TagFacts(doc, InventoryTag) == [] ==>
      Inventory in QuickRatioReportAsWritten(doc).error.missing.labels
    ensures !StackLacksFy(doc) && TagFacts(doc, AssetsTag) == [] ==>
      Assets in QuickRatioReportAsWritten(doc).error.missing.labels
    ensures !StackLacksFy(doc) && TagFacts(doc, LiabilitiesTag) == [] ==>
      Liabilities in QuickRatioReportAsWritten(doc).error.missing.labels
  {
    EmptyTableReport(TagFacts(doc, AssetsTag), TagFacts(doc, LiabilitiesTag), TagFacts(doc, InventoryTag));
  }

  /** The facts of a concept. */
  function TableOf(assets: seq<Fact>, liabilities: seq<Fact>, inventory: seq<Fact>, c: Label): seq<Fact> {
    match c
    case Assets => assets
    case Liabilities => liabilities
    case Inventory => inventory
  }

  /** A concept with an annual fact from 2011 on gives the pivot a column for it. */
  lemma ColumnPresent(assets: seq<Fact>, liabilities: seq<Fact>, inventory: seq<Fact>, c: Label, k: PivotKey)
    requires FirstFact(TableOf(assets, liabilities, inventory, c), k).Some?
    ensures c in PivotOf(assets, liabilities, inventory).columns
  {
    var es := EntriesOf(assets, liabilities, inventory);
    PivotCells(assets, liabilities, inventory, k);
    var n :| 0 <= n < |es| && At(es[n], k, c);
    assert es[n] in es;
  }

  /** Without a complete index nothing is reported. */
  lemma NoCompleteIndex(assets: seq<Fact>, liabilities: seq<Fact>, inventory: seq<Fact>)
    requires forall k :: !CompleteAt(assets, liabilities, inventory, k)
    ensures QuickRatioOf(assets, liabilities, inventory) == []
  {
    var rows := PivotOf(assets, liabilities, inventory).rows;
    forall x | x in rows ensures !Complete(x) {
      PivotRowCells(assets, liabilities, inventory, x);
      assert !CompleteAt(assets, liabilities, inventory, x.key);
    }
    ReportEmpty(rows);
  }

  /** The complete row at index `k`. */
  function BalanceAt(assets: seq<Fact>, liabilities: seq<Fact>, inventory: seq<Fact>, k: PivotKey): BalanceRow
    requires CompleteAt(assets, liabilities, inventory, k)
  {
    BalanceRow(k, FirstFact(assets, k).value, FirstFact(liabilities, k).value, FirstFact(inventory, k).value)
  }

  /** When every other complete index is an earlier period of the same fiscal year as `k`,
      the table is the one row for `k`. */
  lemma OneReportedRow(assets: seq<Fact>, liabilities: seq<Fact>, inventory: seq<Fact>, k: PivotKey)
    requires CompleteAt(assets, liabilities, inventory, k)
    requires forall k' | CompleteAt(assets, liabilities, inventory, k') && k' != k :: k'.fy == k.fy && StrLt(k'.end, k.end)
    ensures QuickRatioOf(assets, liabilities, inventory) == [WithQuickRatio(BalanceAt(assets, liabilities, inventory, k))]
  {
    var r := QuickRatioOf(assets, liabilities, inventory);
    var w := WithQuickRatio(BalanceAt(assets, liabilities, inventory, k));
    QuickRatioCoversYear(assets, liabilities, inventory, k);
    forall q | q in r ensures q == w {
      RowIsAt(assets, liabilities, inventory, k, q);
    }
    assert UniqueBy(r, QuickFy);
    Singleton(r, w);
  }

  lemma RowIsAt(assets: seq<Fact>, liabilities: seq<Fact>, inventory: seq<Fact>, k: PivotKey, q: QuickRow)
    requires CompleteAt(assets, liabilities, inventory, k)
    requires forall k' | CompleteAt(assets, liabilities, inventory, k') && k' != k :: k'.fy == k.fy && StrLt(k'.end, k.end)
    requires q in QuickRatioOf(assets, liabilities, inventory)
    ensures q == WithQuickRatio(BalanceAt(assets, liabilities, inventory, k))
  {
    QuickRatioRowFacts(assets, liabilities, inventory, q);
    assert CompleteAt(assets, liabilities, inventory, q.key);
    if q.key != k {
      QuickRatioCoversYear(assets, liabilities, inventory, k);
      assert false;
    }
  }

  /** A table with unique fiscal years, all of whose rows are `w`, and that is not empty, is
      just `w`. */
  lemma Singleton(r: seq<QuickRow>, w: QuickRow)
    requires UniqueBy(r, QuickFy)
    requires forall q | q in r :: q == w
    requires exists q :: q in r
    ensures r == [w]
  {
    assert r[0] in r;
    if |r| > 1 {
      ElementIn(r, 1);
      assert false;
    }
  }

  lemma ElementIn(r: seq<QuickRow>, j: int)
    requires 0 <= j < |r|
    ensures r[j] in r
  {
  }

  // ---------------------------------------------------------------------------
  // Worked examples

  function AnnualFact(accn: string, end: string, val: real, fy: FyCell): Fact {
    Fact(accn, end, val, AnnualForm, fy)
  }

  lemma DigitsValue2015()
    ensures ToNumeric(FyText("2015")) == FyNumber(2015)
  {
    assert Decimal(2015) == "2015" by {
      assert Decimal(2) == "2";
      assert Decimal(20) == "20";
      assert Decimal(201) == "201";
    }
    ToNumericOfDecimal(2015);
  }

  /** One fiscal-2015 filing with current assets 150, current liabilities 50 (their fiscal
      year written as text) and inventory 50 gives one row with quick ratio 2. */
  lemma QuickRatioExample()
    ensures QuickRatioOf(
      [AnnualFact("A1", "2015-12-31", 150.0, FyNumber(2015))],
      [AnnualFact("A1", "2015-12-31", 50.0, FyText("2015"))],
      [AnnualFact("A1", "2015-12-31", 50.0, FyNumber(2015))])
      == [QuickRow(PivotKey("A1", "2015-12-31", 2015), 150.0, 50.0, 50.0, Finite(2.0))]
  {
    var a := [AnnualFact("A1", "2015-12-31", 150.0, FyNumber(2015))];
    var l := [AnnualFact("A1", "2015-12-31", 50.0, FyText("2015"))];
    var i := [AnnualFact("A1", "2015-12-31", 50.0, FyNumber(2015))];
    var k := PivotKey("A1", "2015-12-31", 2015);
    DigitsValue2015();
    assert FirstFact(a, k) == Some(150.0) && FirstFact(l, k) == Some(50.0) && FirstFact(i, k) == Some(50.0);
    forall k' | CompleteAt(a, l, i, k') ensures k' == k {
      assert FactAt(a[0], k');
    }
    OneReportedRow(a, l, i, k);
  }

  /** Fiscal years before 2011 are not reported. */
  lemma EarlyYearExcluded()
    ensures QuickRatioOf(
      [AnnualFact("A1", "2010-12-31", 150.0, FyNumber(2010))],
      [AnnualFact("A1", "2010-12-31", 50.0, FyNumber(2010))],
      [AnnualFact("A1", "2010-12-31", 50.0, FyNumber(2010))]) == []
  {
    var a := [AnnualFact("A1", "2010-12-31", 150.0, FyNumber(2010))];
    var l := [AnnualFact("A1", "2010-12-31", 50.0, FyNumber(2010))];
    var i := [AnnualFact("A1", "2010-12-31", 50.0, FyNumber(2010))];
    forall k ensures !CompleteAt(a, l, i, k) {
      assert !FactAt(a[0], k);
    }
    NoCompleteIndex(a, l, i);
  }

  /** A fiscal-2016 annual report also carries the prior year-end as a comparative under the
      same fiscal year; the row of the later period end is the one reported. */
  lemma ComparativePeriodSuperseded()
    ensures QuickRatioOf(
      [AnnualFact("A2", "2015-12-31", 100.0, FyNumber(2016)), AnnualFact("A2", "2016-12-31", 150.0, FyNumber(2016))],
      [AnnualFact("A2", "2015-12-31", 40.0, FyNumber(2016)), AnnualFact("A2", "2016-12-31", 50.0, FyNumber(2016))],
      [AnnualFact("A2", "2015-12-31", 20.0, FyNumber(2016)), AnnualFact("A2", "2016-12-31", 50.0, FyNumber(2016))])
      == [QuickRow(PivotKey("A2", "2016-12-31", 2016), 150.0, 50.0, 50.0, Finite(2.0))]
  {
    var a := [AnnualFact("A2", "2015-12-31", 100.0, FyNumber(2016)), AnnualFact("A2", "2016-12-31", 150.0, FyNumber(2016))];
    var l := [AnnualFact("A2", "2015-12-31", 40.0, FyNumber(2016)), AnnualFact("A2", "2016-12-31", 50.0, FyNumber(2016))];
    var i := [AnnualFact("A2", "2015-12-31", 20.0, FyNumber(2016)), AnnualFact("A2", "2016-12-31", 50.0, FyNumber(2016))];
    var k := PivotKey("A2", "2016-12-31", 2016);
    var earlier := PivotKey("A2", "2015-12-31", 2016);
    ComparativeFacts(a, 150.0, k, earlier);
    ComparativeFacts(l, 50.0, k, earlier);
    ComparativeFacts(i, 50.0, k, earlier);
    assert StrLt(earlier.end, k.end);
    OneReportedRow(a, l, i, k);
  }

  /** A concept table holding an earlier-period comparative followed by the current period. */
  lemma ComparativeFacts(facts: seq<Fact>, v: real, k: PivotKey, earlier: PivotKey)
    requires k == PivotKey("A2", "2016-12-31", 2016) && earlier == PivotKey("A2", "2015-12-31", 2016)
    requires |facts| == 2 && facts[0].accn == "A2" && facts[0].end == "2015-12-31" && facts[0].fy == FyNumber(2016)
    requires facts[1] == AnnualFact("A2", "2016-12-31", v, FyNumber(2016))
    ensures FirstFact(facts, k) == Some(v)
    ensures forall k' | FirstFact(facts, k').Some? :: k' == k || k' == earlier
  {
    assert !FactAt(facts[0], k) && FactAt(facts[1], k);
    assert facts[1..] == [facts[1]];
    forall k' | FirstFact(facts, k').Some? ensures k' == k || k' == earlier {
      var f :| f in facts && FactAt(f, k') && f.val == FirstFact(facts, k').value;
      assert f == facts[0] || f == facts[1];
    }
  }

  /** The pivot of a company without an inventory concept has only the other two columns. */
  lemma MissingInventoryColumns(a: seq<Fact>, l: seq<Fact>, k: PivotKey)
    requires FirstFact(a, k).Some? && FirstFact(l, k).Some?
    ensures PivotOf(a, l, []).columns == {Assets, Liabilities}
  {
    ColumnPresent(a, l, [], Assets, k);
    ColumnPresent(a, l, [], Liabilities, k);
    EmptyConceptNoColumn(a, l, [], Inventory);
    TwoColumns(PivotOf(a, l, []).columns);
  }

  lemma TwoColumns(columns: set<Label>)
    requires Assets in columns && Liabilities in columns && Inventory !in columns
    ensures columns == {Assets, Liabilities}
  {
    forall c | c in columns ensures c in {Assets, Liabilities} {
      assert c != Inventory;
    }
  }

  /** The source raises `KeyError` for a company that reports current assets and current
      liabilities at some index but no inventory concept; the intended table is empty. */
  lemma MissingInventoryRaises(a: seq<Fact>, l: seq<Fact>, k: PivotKey)
    requires FirstFact(a, k).Some? && FirstFact(l, k).Some?
    ensures QuickRatioOfAsWritten(a, l, []) == Err(MissingColumns({Inventory}))
    ensures QuickRatioOf(a, l, []) == []
  {
    MissingInventoryColumns(a, l, k);
    MissingColumnsRaise(PivotOf(a, l, []));
    EmptyConceptNoColumn(a, l, [], Inventory);
    AsWrittenAgrees(a, l, []);
  }

  lemma MissingColumnsRaise(p: Pivot)
    requires p.columns == {Assets, Liabilities}
    ensures DropNa(p) == Err(MissingColumns({Inventory}))
  {
    assert AllLabels - p.columns == {Inventory};
  }

  /** The same for one fiscal-2015 filing. */
  lemma MissingInventoryExample()
    ensures QuickRatioOfAsWritten(
      [AnnualFact("A1", "2015-12-31", 150.0, FyNumber(2015))],
      [AnnualFact("A1", "2015-12-31", 50.0, FyNumber(2015))],
      []) == Err(MissingColumns({Inventory}))
  {
    var k := PivotKey("A1", "2015-12-31", 2015);
    MissingInventoryRaises(
      [AnnualFact("A1", "2015-12-31", 150.0, FyNumber(2015))],
      [AnnualFact("A1", "2015-12-31", 50.0, FyNumber(2015))], k);
  }
}
