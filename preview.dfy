/** The sample preview of a resource card (the click handler of the
    "toggle-sample" button in assets/js/main.js): the outcome of fetching the
    sample, then parse, the empty check, the two clamps, and the header/body
    split that `renderTable` lays out. The fetch itself is not modelled: its
    outcome is a parameter. */
module SamplePreview {
  import opened Text
  import opened CsvParser
  import opened CsvLemmas
  import opened Clamp

  /** Data rows shown under the header. */
  const MaxRows: int := 5

  /** Columns shown. */
  const MaxCols: int := 12

  /** What the sample request came to: the card has no sample URL, the
      request failed or answered with an error status, or a body arrived. */
  datatype Fetched = NoUrl | Failed | Body(text: string)

  /** The table `renderTable` builds: nothing for no rows, otherwise a
      header row and the body rows under it. */
  datatype Rendered = EmptyTable | HeadAndBody(header: Row, body: Table)

  /** What the sample box shows. */
  datatype View =
    | NotAvailable            // "Sample not available."
    | CouldNotLoad            // "Could not load sample."
    | NoData                  // "No data in sample."
    | Shown(table: Rendered)

  /** `renderTable`'s split of the rows into the header and the rest. */
  function Render(rows: Table): (t: Rendered)
    ensures t.EmptyTable? <==> rows == []
    ensures t.HeadAndBody? ==> [t.header] + t.body == rows
  {
    if rows == [] then EmptyTable else HeadAndBody(rows[0], rows[1..])
  }

  /** The rows the preview keeps of a non-empty parse. */
  function Clamped(rows: Table): (r: Table)
    requires rows != []
    requires forall k :: 0 <= k < |rows| ==> |rows[k]| >= 1
    ensures 1 <= |r| <= 1 + MaxRows && |r| == Min(|rows|, 1 + MaxRows)
    ensures forall k :: 0 <= k < |r| ==>
              |r[k]| == Min(|rows[k]|, MaxCols) && 1 <= |r[k]| &&
              r[k] == rows[k][..|r[k]|]
  {
    ClampCols(ClampRows(rows, MaxRows), MaxCols)
  }

  /** The view for a fetch outcome. */
  function Preview(f: Fetched): (v: View)
    ensures f.NoUrl? <==> v.NotAvailable?
    ensures f.Failed? <==> v.CouldNotLoad?
    ensures f.Body? ==> (v.NoData? <==> Parse(f.text) == [])
  {
    match f
    case NoUrl => NotAvailable
    case Failed => CouldNotLoad
    case Body(text) =>
      var rows := Parse(text);
      if rows == [] then NoData
      else
        ParseRowsNonEmpty(text);
        Shown(Render(Clamped(rows)))
  }

  /** A shown preview has one header row and at most five body rows, each
      the first `min(fields, 12)` cells of the corresponding parsed row (so
      one to twelve cells). */
  lemma PreviewBounds(text: string)
    requires Preview(Body(text)).Shown?
    ensures var rows := Parse(text);
            var t := Preview(Body(text)).table;
            t.HeadAndBody? &&
            |t.header| == Min(|rows[0]|, MaxCols) && 1 <= |t.header| <= MaxCols &&
            t.header == rows[0][..|t.header|] &&
            |t.body| == Min(|rows| - 1, MaxRows) &&
            forall k :: 0 <= k < |t.body| ==>
              |t.body[k]| == Min(|rows[k + 1]|, MaxCols) && 1 <= |t.body[k]| <= MaxCols &&
              t.body[k] == rows[k + 1][..|t.body[k]|]
  {
  }

  /** Text with a character other than `"` and `\r` is always shown as a
      table: "No data in sample." needs a body of nothing but double quotes
      and carriage returns. */
  lemma PreviewShown(text: string, k: nat)
    requires k < |text| && text[k] != '"' && text[k] != '\r'
    ensures Preview(Body(text)).Shown?
  {
    ParseNonEmpty(text, k);
  }

  /** The empty body, and a body holding only `""`, show "No data in
      sample.". */
  lemma PreviewNoData()
    ensures Preview(Body("")) == NoData
    ensures Preview(Body("\"\"")) == NoData
  {
  }
}
