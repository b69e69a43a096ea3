/** The income-statement metrics: annual revenue, net income and gross profit, one value per
    filing, joined on (accession, period end), with the two profit margins. */
module IncomeStatement {
  import opened Options
  import opened Ordering
  import opened Frame
  import opened Facts

  function AccnOf(f: Fact): string { f.accn }
  function EndOf(f: Fact): string { f.end }

  /** The join key `on=['accn', 'end']`. */
  datatype Key = Key(accn: string, end: string)

  function FactKey(f: Fact): Key { Key(f.accn, f.end) }

  predicate IsAnnual(f: Fact) { f.form == AnnualForm }

  // ---------------------------------------------------------------------------
  // `df[df['form'] == '10-K']`

  /** The 10-K facts of `s`: every one of them, each as often as in `s`, and nothing else. */
  function AnnualFacts(s: seq<Fact>): (r: seq<Fact>)
    ensures forall f | f in r :: f.form == AnnualForm
    ensures forall f :: multiset(r)[f] == if f.form == AnnualForm then multiset(s)[f] else 0
  {
    Filter(s, IsAnnual)
  }

  /** The form filter keeps the rows in their original relative order. */
  lemma AnnualFactsKeepsOrder(a: seq<Fact>, b: seq<Fact>)
    ensures AnnualFacts(a + b) == AnnualFacts(a) + AnnualFacts(b)
    ensures forall f :: AnnualFacts([f]) == if f.form == AnnualForm then [f] else []
  {
    FilterConcat(a, b, IsAnnual);
    forall f ensures AnnualFacts([f]) == if f.form == AnnualForm then [f] else [] {
      FilterSingleton(f, IsAnnual);
    }
  }

  // ---------------------------------------------------------------------------
  // `sort_values('end').drop_duplicates('accn', keep='last')`

  /** One fact per filing: the accession numbers are those of `s`, each once, and every
      kept fact is a fact of `s`. */
  function LatestPerFiling(s: seq<Fact>): (r: seq<Fact>)
    ensures UniqueBy(r, AccnOf)
    ensures KeysOf(r, AccnOf) == KeysOf(s, AccnOf)
    ensures forall f | f in r :: f in s
  {
    var r := SortThenDedup(s, EndOf, AccnOf);
    assert forall f | f in r :: f in s by {
      forall f | f in r ensures f in s {
        assert f in multiset(r);
      }
    }
    r
  }

  /** The fact kept for a filing has the latest period end among that filing's facts. */
  lemma LatestPerFilingKeepsLatest(s: seq<Fact>, f: Fact, g: Fact)
    requires f in LatestPerFiling(s) && g in s && g.accn == f.accn
    ensures StrLe(g.end, f.end)
  {
    SortThenDedupKeepsLatest(s, EndOf, AccnOf, f, g);
  }

  /** Deduplicating a second time leaves the table unchanged. */
  lemma LatestPerFilingIdempotent(s: seq<Fact>)
    ensures LatestPerFiling(LatestPerFiling(s)) == LatestPerFiling(s)
  {
    SortThenDedupIdempotent(s, EndOf, AccnOf);
  }

  // ---------------------------------------------------------------------------
  // The two inner merges on ['accn', 'end']

  /** A row after the first merge: columns accn, end, revenue, net_income. */
  datatype RevenueIncome = RevenueIncome(accn: string, end: string, revenue: real, netIncome: real)

  /** A row after the second merge: columns accn, end, revenue, net_income, gross_profit. */
  datatype IncomeRow = IncomeRow(accn: string, end: string, revenue: real, netIncome: real, grossProfit: real)

  function PairKey(p: RevenueIncome): Key { Key(p.accn, p.end) }
  function RowKey(r: IncomeRow): Key { Key(r.accn, r.end) }

  function Pair(rev: Fact, ni: Fact): RevenueIncome {
    RevenueIncome(rev.accn, rev.end, rev.val, ni.val)
  }

  function Triple(p: RevenueIncome, gp: Fact): IncomeRow {
    IncomeRow(p.accn, p.end, p.revenue, p.netIncome, gp.val)
  }

  /** The three-way inner join of the revenue, net-income and gross-profit tables. */
  function Join(rev: seq<Fact>, ni: seq<Fact>, gp: seq<Fact>): (r: seq<IncomeRow>)
    ensures rev == [] || ni == [] || gp == [] ==> r == []
  {
    Merge(Merge(rev, ni, FactKey, FactKey, Pair), gp, PairKey, FactKey, Triple)
  }

  /** Every joined row comes from a revenue, a net-income and a gross-profit fact that
      share its (accn, end) and give its three values. */
  lemma JoinRowHasSources(rev: seq<Fact>, ni: seq<Fact>, gp: seq<Fact>, o: IncomeRow)
    requires o in Join(rev, ni, gp)
    ensures exists a, b, c ::
      (a in rev && b in ni && c in gp && FactKey(a) == FactKey(b) == FactKey(c)
       && o == IncomeRow(a.accn, a.end, a.val, b.val, c.val))
    ensures RowKey(o) in KeysOf(rev, FactKey) && RowKey(o) in KeysOf(ni, FactKey) && RowKey(o) in KeysOf(gp, FactKey)
  {
    var first := Merge(rev, ni, FactKey, FactKey, Pair);
    var p, c :| p in first && c in gp && PairKey(p) == FactKey(c) && o == Triple(p, c);
    var a, b :| a in rev && b in ni && FactKey(a) == FactKey(b) && p == Pair(a, b);
    assert FactKey(a) == FactKey(b) == FactKey(c) == RowKey(o);
    KeyInKeysOf(rev, FactKey, a);
    KeyInKeysOf(ni, FactKey, b);
    KeyInKeysOf(gp, FactKey, c);
  }

  /** Conversely, facts of the three tables that share (accn, end) give a joined row. */
  lemma JoinRowFromSources(rev: seq<Fact>, ni: seq<Fact>, gp: seq<Fact>, a: Fact, b: Fact, c: Fact)
    requires a in rev && b in ni && c in gp && FactKey(a) == FactKey(b) == FactKey(c)
    ensures IncomeRow(a.accn, a.end, a.val, b.val, c.val) in Join(rev, ni, gp)
  {
    var first := Merge(rev, ni, FactKey, FactKey, Pair);
    assert Pair(a, b) in first;
    assert IncomeRow(a.accn, a.end, a.val, b.val, c.val) == Triple(Pair(a, b), c);
  }

  /** With one fact per filing in each input, the join has at most one row per key. */
  lemma JoinUnique(rev: seq<Fact>, ni: seq<Fact>, gp: seq<Fact>)
    requires UniqueBy(rev, AccnOf) && UniqueBy(ni, AccnOf) && UniqueBy(gp, AccnOf)
    ensures UniqueBy(Join(rev, ni, gp), RowKey)
  {
    UniqueByFiner(rev, AccnOf, FactKey);
    UniqueByFiner(ni, AccnOf, FactKey);
    UniqueByFiner(gp, AccnOf, FactKey);
    MergeUnique(rev, ni, FactKey, FactKey, Pair, PairKey);
    MergeUnique(Merge(rev, ni, FactKey, FactKey, Pair), gp, PairKey, FactKey, Triple, RowKey);
  }

  /** The keys of the join are exactly the keys present in all three inputs. */
  lemma JoinKeySet(rev: seq<Fact>, ni: seq<Fact>, gp: seq<Fact>, k: Key)
    ensures k in KeysOf(Join(rev, ni, gp), RowKey) <==>
      k in KeysOf(rev, FactKey) && k in KeysOf(ni, FactKey) && k in KeysOf(gp, FactKey)
  {
    if k in KeysOf(Join(rev, ni, gp), RowKey) {
      JoinKeyHasSources(rev, ni, gp, k);
    }
    if k in KeysOf(rev, FactKey) && k in KeysOf(ni, FactKey) && k in KeysOf(gp, FactKey) {
      JoinKeyFromSources(rev, ni, gp, k);
    }
  }

  lemma JoinKeyHasSources(rev: seq<Fact>, ni: seq<Fact>, gp: seq<Fact>, k: Key)
    requires k in KeysOf(Join(rev, ni, gp), RowKey)
    ensures k in KeysOf(rev, FactKey) && k in KeysOf(ni, FactKey) && k in KeysOf(gp, FactKey)
  {
    var o :| o in Join(rev, ni, gp) && RowKey(o) == k;
    JoinRowHasSources(rev, ni, gp, o);
  }

  lemma JoinKeyFromSources(rev: seq<Fact>, ni: seq<Fact>, gp: seq<Fact>, k: Key)
    requires k in KeysOf(rev, FactKey) && k in KeysOf(ni, FactKey) && k in KeysOf(gp, FactKey)
    ensures k in KeysOf(Join(rev, ni, gp), RowKey)
  {
    var a :| a in rev && FactKey(a) == k;
    var b :| b in ni && FactKey(b) == k;
    var c :| c in gp && FactKey(c) == k;
    JoinRowFromSources(rev, ni, gp, a, b, c);
    assert RowKey(IncomeRow(a.accn, a.end, a.val, b.val, c.val)) == k;
  }

  // ---------------------------------------------------------------------------
  // `df['gross_profit_margin']`, `df['net_profit_margin']`

  /** An income row with its two margin columns. */
  datatype MetricRow = MetricRow(row: IncomeRow, grossProfitMargin: Ratio, netProfitMargin: Ratio)

  function MetricKey(m: MetricRow): Key { RowKey(m.row) }

  /** gross_profit / revenue and net_income / revenue; both non-finite when revenue is 0. */
  function WithMargins(r: IncomeRow): (m: MetricRow)
    ensures m.row == r
    ensures r.revenue != 0.0 ==> m.grossProfitMargin.Finite? && m.grossProfitMargin.value * r.revenue == r.grossProfit
    ensures r.revenue != 0.0 ==> m.netProfitMargin.Finite? && m.netProfitMargin.value * r.revenue == r.netIncome
    ensures r.revenue == 0.0 ==> m.grossProfitMargin == NonFinite && m.netProfitMargin == NonFinite
  {
    MetricRow(r, Divide(r.grossProfit, r.revenue), Divide(r.netIncome, r.revenue))
  }

  function AddMargins(rows: seq<IncomeRow>): (r: seq<MetricRow>)
    ensures |r| == |rows|
    ensures forall i | 0 <= i < |r| :: r[i] == WithMargins(rows[i])
  {
    seq(|rows|, i requires 0 <= i < |rows| => WithMargins(rows[i]))
  }

  // ---------------------------------------------------------------------------
  // The whole income-statement table

  /** The annual facts of a concept, one per filing: 10-K facts of `raw`, one for each
      accession number that has a 10-K fact. */
  function AnnualLatest(raw: seq<Fact>): (r: seq<Fact>)
    ensures UniqueBy(r, AccnOf)
    ensures KeysOf(r, AccnOf) == KeysOf(AnnualFacts(raw), AccnOf)
    ensures forall f | f in r :: f in raw && f.form == AnnualForm
  {
    var r := LatestPerFiling(AnnualFacts(raw));
    assert forall f | f in r :: f in raw && f.form == AnnualForm by {
      forall f | f in r ensures f in raw && f.form == AnnualForm {
        assert multiset(AnnualFacts(raw))[f] > 0;
      }
    }
    r
  }

  /** The income-statement table of three fact tables: one row for each (accn, end) that
      the kept facts of all three concepts share, and no other row. */
  function MetricsOf(rawRev: seq<Fact>, rawNi: seq<Fact>, rawGp: seq<Fact>): (r: seq<MetricRow>)
    ensures UniqueBy(r, MetricKey)
    ensures forall k :: k in KeysOf(r, MetricKey) <==>
      && k in KeysOf(AnnualLatest(rawRev), FactKey)
      && k in KeysOf(AnnualLatest(rawNi), FactKey)
      && k in KeysOf(AnnualLatest(rawGp), FactKey)
  {
    var rev, ni, gp := AnnualLatest(rawRev), AnnualLatest(rawNi), AnnualLatest(rawGp);
    JoinUnique(rev, ni, gp);
    AddMarginsKeys(Join(rev, ni, gp));
    JoinKeySets(rev, ni, gp);
    AddMargins(Join(rev, ni, gp))
  }

  lemma JoinKeySets(rev: seq<Fact>, ni: seq<Fact>, gp: seq<Fact>)
    ensures forall k :: k in KeysOf(Join(rev, ni, gp), RowKey) <==>
      k in KeysOf(rev, FactKey) && k in KeysOf(ni, FactKey) && k in KeysOf(gp, FactKey)
  {
    forall k ensures k in KeysOf(Join(rev, ni, gp), RowKey) <==>
      k in KeysOf(rev, FactKey) && k in KeysOf(ni, FactKey) && k in KeysOf(gp, FactKey)
    {
      JoinKeySet(rev, ni, gp, k);
    }
  }

  /** The intended income-statement table of the document: a concept the document lacks,
      or reports with an empty USD list, gives no rows. */
  function IncomeMetrics(doc: CompanyFacts): (r: seq<MetricRow>)
    ensures UniqueBy(r, MetricKey)
    ensures TagFacts(doc, "Revenues") == [] || TagFacts(doc, "NetIncomeLoss") == [] || TagFacts(doc, "GrossProfit") == []
      ==> r == []
  {
    var rev, ni, gp := TagFacts(doc, "Revenues"), TagFacts(doc, "NetIncomeLoss"), TagFacts(doc, "GrossProfit");
    EmptyTableNothingKept();
    MetricsOf(rev, ni, gp)
  }

  /** An empty fact table keeps no facts, so no key of the join is present. */
  lemma EmptyTableNothingKept()
    ensures AnnualLatest([]) == []
  {
    assert AnnualFacts([]) == [];
    assert KeysOf(AnnualLatest([]), AccnOf) == {};
  }

  /** The table as the source computes it: `df['form']` on a table without columns (a
      concept whose USD list is empty) raises `KeyError`; otherwise it is the intended
      table. */
  function IncomeMetricsAsWritten(doc: CompanyFacts): (r: Result<seq<MetricRow>, KeyError>)
    ensures r.Err? <==>
      GetTag(doc, "Revenues").NoColumns? || GetTag(doc, "NetIncomeLoss").NoColumns? || GetTag(doc, "GrossProfit").NoColumns?
    ensures r.Err? ==> r.error == KeyError("form") && IncomeMetrics(doc) == []
    ensures r.Ok? ==> r.value == IncomeMetrics(doc)
  {
    if GetTag(doc, "Revenues").NoColumns? || GetTag(doc, "NetIncomeLoss").NoColumns? || GetTag(doc, "GrossProfit").NoColumns? then
      Err(KeyError("form"))
    else
      Ok(IncomeMetrics(doc))
  }

  /** Adding the margin columns keeps the rows' keys. */
  lemma AddMarginsKeys(j: seq<IncomeRow>)
    ensures UniqueBy(j, RowKey) ==> UniqueBy(AddMargins(j), MetricKey)
    ensures KeysOf(AddMargins(j), MetricKey) == KeysOf(j, RowKey)
  {
    var r := AddMargins(j);
    assert forall i | 0 <= i < |r| :: MetricKey(r[i]) == RowKey(j[i]);
    forall k | k in KeysOf(r, MetricKey) ensures k in KeysOf(j, RowKey) {
      var m :| m in r && MetricKey(m) == k;
      var i :| 0 <= i < |r| && r[i] == m;
      assert j[i] in j;
    }
    forall k | k in KeysOf(j, RowKey) ensures k in KeysOf(r, MetricKey) {
      var x :| x in j && RowKey(x) == k;
      var i :| 0 <= i < |j| && j[i] == x;
      assert r[i] in r;
    }
  }

  lemma AddMarginsRow(j: seq<IncomeRow>, m: MetricRow)
    requires m in AddMargins(j)
    ensures m.row in j && m == WithMargins(m.row)
  {
    var i :| 0 <= i < |AddMargins(j)| && AddMargins(j)[i] == m;
    assert j[i] in j;
  }

  lemma MetricsOfProvenance(rawRev: seq<Fact>, rawNi: seq<Fact>, rawGp: seq<Fact>, m: MetricRow)
    requires m in MetricsOf(rawRev, rawNi, rawGp)
    ensures m == WithMargins(m.row)
    ensures exists a, b, c ::
      && a in rawRev && b in rawNi && c in rawGp
      && a.form == AnnualForm && b.form == AnnualForm && c.form == AnnualForm
      && FactKey(a) == FactKey(b) == FactKey(c)
      && m.row == IncomeRow(a.accn, a.end, a.val, b.val, c.val)
  {
    var rev, ni, gp := AnnualLatest(rawRev), AnnualLatest(rawNi), AnnualLatest(rawGp);
    AddMarginsRow(Join(rev, ni, gp), m);
    JoinRowHasSources(rev, ni, gp, m.row);
  }

  /** Every row comes from a 10-K revenue fact, a 10-K net-income fact and a 10-K gross-profit
      fact of the document that share its (accn, end) and give its three values; its margins
      are computed from them. */
  lemma IncomeMetricsProvenance(doc: CompanyFacts, m: MetricRow)
    requires m in IncomeMetrics(doc)
    ensures m == WithMargins(m.row)
    ensures exists a, b, c ::
      && a in TagFacts(doc, "Revenues") && b in TagFacts(doc, "NetIncomeLoss") && c in TagFacts(doc, "GrossProfit")
      && a.form == AnnualForm && b.form == AnnualForm && c.form == AnnualForm
      && FactKey(a) == FactKey(b) == FactKey(c)
      && m.row == IncomeRow(a.accn, a.end, a.val, b.val, c.val)
  {
    MetricsOfProvenance(TagFacts(doc, "Revenues"), TagFacts(doc, "NetIncomeLoss"), TagFacts(doc, "GrossProfit"), m);
  }

  /** A concept missing from the document yields no income-statement rows, not an error;
      one whose USD list is present but empty makes the source raise. */
  lemma MissingConceptGivesNoRows(doc: CompanyFacts, tag: string)
    requires tag == "Revenues" || tag == "NetIncomeLoss" || tag == "GrossProfit"
    ensures !HasTag(doc, tag) ==> IncomeMetrics(doc) == []
    ensures HasTag(doc, tag) && UsdFacts(doc, tag) == [] ==>
      IncomeMetricsAsWritten(doc) == Err(KeyError("form")) && IncomeMetrics(doc) == []
  {
  }

  // ---------------------------------------------------------------------------
  // Worked examples

  /** A filing restated with the same period end: the later of the two rows is kept. */
  lemma RestatedFilingKeepsLaterRow()
    ensures LatestPerFiling([Fact("A1", "2020-12-31", 100.0, "10-K", FyNumber(2020)),
                             Fact("A1", "2020-12-31", 110.0, "10-K", FyNumber(2020))])
         == [Fact("A1", "2020-12-31", 110.0, "10-K", FyNumber(2020))]
  {
    var a := Fact("A1", "2020-12-31", 100.0, "10-K", FyNumber(2020));
    var b := Fact("A1", "2020-12-31", 110.0, "10-K", FyNumber(2020));
    SameEndKeepsOrder(a, b);
    SameAccnKeepsSecond(a, b);
  }

  lemma SameEndKeepsOrder(a: Fact, b: Fact)
    requires a.end == b.end
    ensures SortBy([a, b], ByColumn(EndOf)) == [a, b]
  {
    StrLeReflexive(a.end);
    assert SortBy([b], ByColumn(EndOf)) == [b];
    assert [a, b][1..] == [b];
  }

  lemma SameAccnKeepsSecond(a: Fact, b: Fact)
    requires a.accn == b.accn
    ensures DedupLast([a, b], AccnOf) == [b]
  {
    assert DedupLast([b], AccnOf) == [b] by {
      assert [b][1..] == [];
      assert KeysOf([], AccnOf) == {};
    }
    assert [a, b][1..] == [b];
    assert AccnOf(a) in KeysOf([b], AccnOf) by {
      assert b in [b];
    }
  }

  /** Revenue 200, net income 20, gross profit 50: margins 0.10 and 0.25. */
  lemma MarginsExample()
    ensures WithMargins(IncomeRow("A", "2020-12-31", 200.0, 20.0, 50.0)).netProfitMargin == Finite(0.10)
    ensures WithMargins(IncomeRow("A", "2020-12-31", 200.0, 20.0, 50.0)).grossProfitMargin == Finite(0.25)
  {
  }
}
