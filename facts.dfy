/** The company-facts document, the fact records it holds, the extractor `get_tag_df`, and
    the ratio arithmetic shared by both metric pipelines. */
module Facts {

  /** The `fy` field of a fact as it arrives from the document: normally a JSON number,
      sometimes null; text is what `pd.to_numeric` would have to parse. */
  datatype FyCell = FyNumber(n: int) | FyText(text: string) | FyNull

  /** One reported value: accession number, period-end date (ISO `YYYY-MM-DD`), value in
      USD, form type and fiscal year. These are the columns every table keeps. */
  datatype Fact = Fact(accn: string, end: string, val: real, form: string, fy: FyCell)

  /** The parsed JSON document, level by level: `"facts"` -> taxonomy -> concept ->
      `"units"` -> unit -> list of facts. Only these keys are modelled. */
  type UnitTable = map<string, seq<Fact>>
  type ConceptEntry = map<string, UnitTable>
  type Taxonomy = map<string, ConceptEntry>
  type FactsSection = map<string, Taxonomy>
  type CompanyFacts = map<string, FactsSection>

  /** The form type of an annual report. */
  const AnnualForm: string := "10-K"

  /** Every key on the path `['facts']['us-gaap'][tag]['units']['USD']` is present. */
  predicate HasTag(doc: CompanyFacts, tag: string) {
    && "facts" in doc
    && "us-gaap" in doc["facts"]
    && tag in doc["facts"]["us-gaap"]
    && "units" in doc["facts"]["us-gaap"][tag]
    && "USD" in doc["facts"]["us-gaap"][tag]["units"]
  }

  /** The USD facts of a us-gaap concept the document has. */
  function UsdFacts(doc: CompanyFacts, tag: string): seq<Fact>
    requires HasTag(doc, tag)
  {
    doc["facts"]["us-gaap"][tag]["units"]["USD"]
  }

  /** What `get_tag_df` returns: a table with the five fact columns, or the table that
      `pd.DataFrame` builds from an empty list, which has no columns at all. */
  datatype TagTable = Table(rows: seq<Fact>) | NoColumns

  /** `get_tag_df(tag)`: the USD facts of a us-gaap concept. A missing key anywhere on the
      path (the `KeyError` the source catches) gives the five-column table without rows; a
      present but empty list gives the table without columns. */
  function GetTag(doc: CompanyFacts, tag: string): (t: TagTable)
    ensures HasTag(doc, tag) && UsdFacts(doc, tag) != [] ==> t == Table(UsdFacts(doc, tag))
    ensures HasTag(doc, tag) && UsdFacts(doc, tag) == [] ==> t == NoColumns
    ensures !HasTag(doc, tag) ==> t == Table([])
  {
    if !HasTag(doc, tag) then Table([])
    else if UsdFacts(doc, tag) == [] then NoColumns
    else Table(UsdFacts(doc, tag))
  }

  /** The rows of the table `get_tag_df(tag)` returns: the concept's USD facts, or none when
      the concept is missing. */
  function TagFacts(doc: CompanyFacts, tag: string): (r: seq<Fact>)
    ensures HasTag(doc, tag) ==> r == UsdFacts(doc, tag)
    ensures !HasTag(doc, tag) ==> r == []
  {
    match GetTag(doc, tag)
    case Table(rows) => rows
    case NoColumns => []
  }

  /** The `KeyError` raised when a step selects a column the table does not have. */
  datatype KeyError = KeyError(column: string)

  /** A quotient as pandas computes it on float columns: a finite number, or the `inf`/`NaN`
      it produces when the denominator is zero. */
  datatype Ratio = Finite(value: real) | NonFinite

  function Divide(n: real, d: real): (q: Ratio)
    ensures q.Finite? <==> d != 0.0
    ensures q.Finite? ==> q.value * d == n
  {
    if d == 0.0 then NonFinite else Finite(n / d)
  }
}
