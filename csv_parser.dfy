/** The CSV scanner of the resource-card preview (`parseCSV` in
    assets/js/main.js): a delimiter guessed from the first line, then one pass
    over the text with a two-mode state machine (inside or outside double
    quotes).

    `Step`, `Finish` and `Run` state the scanner's behaviour as functions over
    the scanner state; `ParseCSV` is the loop itself, proved equal to `Parse`.
    The properties of `Parse` are proved in module CsvLemmas. */
module CsvParser {
  import opened Text

  /** The variables of the scanning loop: finished rows, the row being
      built, the field being built, the read position and the quote mode. */
  datatype Scanner = Scanner(rows: Table, row: Row, field: string, i: nat, inQuotes: bool)

  /** The state before the first character is read: nothing read, nothing
      pending, so an empty text flushes no row. */
  function Init(): (s: Scanner)
    ensures s.i == 0 && !s.inQuotes && Finish(s) == []
  {
    Scanner([], [], [], 0, false)
  }

  /** The first line, as `text.split(/\r?\n/)[0]` gives it: everything before
      the first line feed, without a carriage return that immediately
      precedes that line feed; the whole text when there is no line feed. */
  function FirstLine(text: string): (line: string)
    ensures line <= text
    ensures '\n' !in line
    ensures '\n' !in text ==> line == text
    ensures '\n' in text ==>
              |line| < |text| &&
              ((text[|line|] == '\n' && !(|line| > 0 && line[|line| - 1] == '\r')) ||
               (|line| + 1 < |text| && text[|line|] == '\r' && text[|line| + 1] == '\n'))
  {
    if '\n' !in text then text
    else
      var k := IndexOf(text, '\n');
      if k > 0 && text[k - 1] == '\r' then text[..k - 1] else text[..k]
  }

  /** The delimiter: `;` when the first line splits into more pieces on `;`
      than on `,`, and `,` otherwise (ties included). */
  function Delimiter(text: string): (d: char)
    ensures d == ';' || d == ','
  {
    var line := FirstLine(text);
    if |Split(line, ';')| > |Split(line, ',')| then ';' else ','
  }

  /** One iteration of the scanning loop, reading `text[s.i]` (and, for a
      doubled quote inside quotes, `text[s.i + 1]` too). */
  function Step(text: string, delim: char, s: Scanner): (s': Scanner)
    requires s.i < |text|
    ensures s.i < s'.i <= |text| && s'.i <= s.i + 2
    ensures s.rows <= s'.rows
  {
    var ch := text[s.i];
    if s.inQuotes then
      if ch == '"' then
        if s.i + 1 < |text| && text[s.i + 1] == '"' then
          s.(field := s.field + ['"'], i := s.i + 2)       // escaped quote
        else
          s.(inQuotes := false, i := s.i + 1)
      else
        s.(field := s.field + [ch], i := s.i + 1)
    else if ch == '"' then
      s.(inQuotes := true, i := s.i + 1)
    else if ch == delim then
      s.(row := s.row + [s.field], field := [], i := s.i + 1)
    else if ch == '\n' then
      s.(rows := s.rows + [s.row + [s.field]], row := [], field := [], i := s.i + 1)
    else if ch == '\r' then
      s.(i := s.i + 1)                                      // carriage return dropped
    else
      s.(field := s.field + [ch], i := s.i + 1)
  }

  /** After the loop: a pending field or row is flushed as a last row. */
  function Finish(s: Scanner): (rows: Table)
    ensures s.rows <= rows
    ensures |rows| <= |s.rows| + 1
    ensures |rows| == |s.rows| + 1 <==> s.field != [] || s.row != []
    ensures |rows| == |s.rows| + 1 ==> rows[|s.rows|] == s.row + [s.field]
  {
    if |s.field| > 0 || |s.row| > 0 then s.rows + [s.row + [s.field]] else s.rows
  }

  /** The table the loop produces when started in state `s`. */
  function Run(text: string, delim: char, s: Scanner): (rows: Table)
    requires s.i <= |text|
    ensures s.rows <= rows
    decreases |text| - s.i
  {
    if s.i == |text| then Finish(s) else Run(text, delim, Step(text, delim, s))
  }

  /** What `parseCSV(text)` returns. */
  function Parse(text: string): Table
  {
    Run(text, Delimiter(text), Init())
  }

  /** The scanning loop of `parseCSV`. */
  method ParseCSV(text: string) returns (rows: Table)
    ensures rows == Parse(text)
  {
    var delim := Delimiter(text);
    rows := [];
    var row: Row, field: string, i: nat, inQuotes := [], [], 0, false;
    while i < |text|
      invariant i <= |text|
      invariant Run(text, delim, Scanner(rows, row, field, i, inQuotes)) == Parse(text)
      decreases |text| - i
    {
      var ch := text[i];
      if inQuotes {
        if ch == '"' {
          if i + 1 < |text| && text[i + 1] == '"' {
            field := field + ['"'];
            i := i + 2;
          } else {
            inQuotes := false;
            i := i + 1;
          }
        } else {
          field := field + [ch];
          i := i + 1;
        }
      } else if ch == '"' {
        inQuotes := true;
        i := i + 1;
      } else if ch == delim {
        row := row + [field];
        field := [];
        i := i + 1;
      } else if ch == '\n' {
        row := row + [field];
        rows := rows + [row];
        row := [];
        field := [];
        i := i + 1;
      } else if ch == '\r' {
        i := i + 1;
      } else {
        field := field + [ch];
        i := i + 1;
      }
    }
    if |field| > 0 || |row| > 0 {
      row := row + [field];
      rows := rows + [row];
    }
  }
}
