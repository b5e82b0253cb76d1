/** Quoted fields: the scanner's reading of `"…"` with doubled quotes.

    `Serialize` writes a table with every field quoted and every `"` doubled;
    the lemmas show that the scanner reads such a text back as the table it
    came from. In particular, inside quotes `""` stands for one `"`, and every
    other character (the delimiter, `\n` and `\r` included) is kept as it is. */
module CsvQuoting {
  import opened Text
  import opened CsvParser
  import opened CsvLemmas

  /** One character of a field as written inside quotes: `"` doubled,
      anything else as it is. */
  function EscapeChar(c: char): (e: string)
    ensures |e| >= 1 && e[0] == c
    ensures |e| == 2 <==> c == '"'
  {
    if c == '"' then "\"\"" else [c]
  }

  /** The field contents with every `"` doubled. */
  function Escape(v: string): (e: string)
    ensures |e| >= |v|
  {
    if v == [] then [] else EscapeChar(v[0]) + Escape(v[1..])
  }

  /** The field written between double quotes. */
  function Quote(v: string): (q: string)
    ensures |q| == |Escape(v)| + 2 && q[0] == '"' && q[|q| - 1] == '"'
  {
    "\"" + Escape(v) + "\""
  }

  /** A row: its quoted fields separated by `delim`. */
  function QuoteRow(r: Row, delim: char): string
    requires |r| >= 1
  {
    if |r| == 1 then Quote(r[0]) else Quote(r[0]) + [delim] + QuoteRow(r[1..], delim)
  }

  /** A table: its quoted rows separated by `\n`, with no trailing `\n`. */
  function Serialize(t: Table, delim: char): string
    requires forall k :: 0 <= k < |t| ==> |t[k]| >= 1
  {
    if |t| == 0 then []
    else if |t| == 1 then QuoteRow(t[0], delim)
    else QuoteRow(t[0], delim) + "\n" + Serialize(t[1..], delim)
  }

  // ---------------------------------------------------------------------
  // Positions in the text

  /** `w` occurs in `text` at position `i`. */
  ghost predicate At(text: string, i: nat, w: string)
  {
    i + |w| <= |text| && forall j :: 0 <= j < |w| ==> text[i + j] == w[j]
  }

  /** An occurrence of `a + b` is an occurrence of `a` followed by one of `b`. */
  lemma AtSplit(text: string, i: nat, a: string, b: string)
    requires At(text, i, a + b)
    ensures At(text, i, a) && At(text, i + |a|, b)
  {
    forall j | 0 <= j < |a|
      ensures text[i + j] == a[j]
    {
      assert (a + b)[j] == a[j];
    }
    forall j | 0 <= j < |b|
      ensures text[i + |a| + j] == b[j]
    {
      assert (a + b)[|a| + j] == b[j];
      assert text[i + (|a| + j)] == (a + b)[|a| + j];
    }
  }

  /** A one-character occurrence is that character. */
  lemma AtChar(text: string, i: nat, c: char)
    requires At(text, i, [c])
    ensures i < |text| && text[i] == c
  {
    assert text[i + 0] == [c][0];
  }

  /** The table the scanner ends with when resumed in state `s`. This is
      `Run` itself; the non-recursive wrapper only keeps the verifier from
      unfolding `Run` in the lemmas below, which relate scanner states that
      lead to the same table one `ResumeStep` at a time. */
  ghost function Resume(text: string, delim: char, s: Scanner): Table
    requires s.i <= |text|
  {
    Run(text, delim, s)
  }

  /** Resuming from a state is resuming from the state after one step. */
  lemma ResumeStep(text: string, delim: char, s: Scanner)
    requires s.i < |text|
    ensures Resume(text, delim, s) == Resume(text, delim, Step(text, delim, s))
  {
  }

  // ---------------------------------------------------------------------
  // Reading a quoted field

  /** Inside quotes, one escaped character is read into the field: `""` in
      two steps' worth of input, anything else in one. */
  lemma EscapedCharStep(text: string, delim: char, c: char, s: Scanner)
    requires s.inQuotes && At(text, s.i, EscapeChar(c)) && s.i < |text|
    ensures Step(text, delim, s) == s.(field := s.field + [c], i := s.i + |EscapeChar(c)|)
  {
    assert text[s.i + 0] == EscapeChar(c)[0];
    if c == '"' {
      assert text[s.i + 1] == EscapeChar(c)[1];
    }
  }

  /** Inside quotes, an escaped field followed by its closing quote is read
      into the field character for character, `""` becoming `"`; the scanner
      stops at the closing quote, still inside quotes. */
  lemma {:induction false} EscapedRun(text: string, delim: char, v: string, s: Scanner)
      returns (s': Scanner)
    requires s.inQuotes && At(text, s.i, Escape(v) + "\"")
    requires s.i + |Escape(v)| + 1 < |text| ==> text[s.i + |Escape(v)| + 1] != '"'
    ensures s' == s.(field := s.field + v, i := s.i + |Escape(v)|)
    ensures Resume(text, delim, s) == Resume(text, delim, s')
    decreases |v|
  {
    if v == [] {
      assert s.field + v == s.field;
      s' := s;
    } else {
      var head, tail := EscapeChar(v[0]), Escape(v[1..]);
      assert Escape(v) + "\"" == head + (tail + "\"");
      AtSplit(text, s.i, head, tail + "\"");
      EscapedCharStep(text, delim, v[0], s);
      ResumeStep(text, delim, s);
      var s1 := Step(text, delim, s);
      s' := EscapedRun(text, delim, v[1..], s1);
      assert (s.field + [v[0]]) + v[1..] == s.field + v;
    }
  }

  /** Outside quotes, a quoted field not followed by another `"` is read into
      the field, and the scanner is outside quotes again after it. */
  lemma QuotedFieldRun(text: string, delim: char, v: string, s: Scanner) returns (s': Scanner)
    requires !s.inQuotes && At(text, s.i, Quote(v))
    requires s.i + |Quote(v)| < |text| ==> text[s.i + |Quote(v)|] != '"'
    ensures s' == s.(field := s.field + v, i := s.i + |Quote(v)|)
    ensures Resume(text, delim, s) == Resume(text, delim, s')
  {
    var e := Escape(v);
    assert Quote(v) == "\"" + (e + "\"");
    AtSplit(text, s.i, "\"", e + "\"");
    AtChar(text, s.i, '"');
    ResumeStep(text, delim, s);
    var s1 := Step(text, delim, s);
    var s2 := EscapedRun(text, delim, v, s1);
    assert text[s1.i + |e|] == (e + "\"")[|e|];
    ResumeStep(text, delim, s2);
    s' := Step(text, delim, s2);
  }

  // ---------------------------------------------------------------------
  // Reading a quoted row

  /** A quoted row followed by a line feed or the end of the input: its
      fields are pushed onto the row in progress, the last one left as the
      field in progress. */
  lemma {:induction false} QuotedRowRun(text: string, delim: char, r: Row, s: Scanner)
      returns (s': Scanner)
    requires delim == ';' || delim == ','
    requires |r| >= 1 && !s.inQuotes && s.field == []
    requires At(text, s.i, QuoteRow(r, delim))
    requires s.i + |QuoteRow(r, delim)| < |text| ==> text[s.i + |QuoteRow(r, delim)|] == '\n'
    ensures s' == s.(row := s.row + r[..|r| - 1], field := r[|r| - 1],
                     i := s.i + |QuoteRow(r, delim)|)
    ensures Resume(text, delim, s) == Resume(text, delim, s')
    decreases |r|
  {
    if |r| == 1 {
      s' := SingleFieldRow(text, delim, r, s);
    } else {
      var s2 := QuotedFieldAndDelimiter(text, delim, r, s);
      s' := QuotedRowRun(text, delim, r[1..], s2);
      PushAll(s.row, r);
    }
  }

  /** A row of one quoted field. */
  lemma SingleFieldRow(text: string, delim: char, r: Row, s: Scanner) returns (s': Scanner)
    requires |r| == 1 && !s.inQuotes && s.field == []
    requires At(text, s.i, QuoteRow(r, delim))
    requires s.i + |QuoteRow(r, delim)| < |text| ==> text[s.i + |QuoteRow(r, delim)|] == '\n'
    ensures s' == s.(row := s.row + r[..|r| - 1], field := r[|r| - 1],
                     i := s.i + |QuoteRow(r, delim)|)
    ensures Resume(text, delim, s) == Resume(text, delim, s')
  {
    assert QuoteRow(r, delim) == Quote(r[0]);
    s' := QuotedFieldRun(text, delim, r[0], s);
    assert s.row + r[..0] == s.row;
    assert s.field + r[0] == r[0];
  }

  /** Pushing the head, then all but the last of the tail, pushes all but
      the last. */
  lemma PushAll<T>(acc: seq<T>, r: seq<T>)
    requires |r| >= 2
    ensures acc + [r[0]] + r[1..][..|r| - 2] == acc + r[..|r| - 1]
  {
    assert r[..|r| - 1] == [r[0]] + r[1..][..|r| - 2];
  }

  /** The first quoted field of a row of several, and the delimiter after it. */
  lemma QuotedFieldAndDelimiter(text: string, delim: char, r: Row, s: Scanner) returns (s2: Scanner)
    requires delim == ';' || delim == ','
    requires |r| >= 2 && !s.inQuotes && s.field == []
    requires At(text, s.i, QuoteRow(r, delim))
    ensures s2 == s.(row := s.row + [r[0]], field := [], i := s.i + |Quote(r[0])| + 1)
    ensures s2.i + |QuoteRow(r[1..], delim)| == s.i + |QuoteRow(r, delim)|
    ensures At(text, s2.i, QuoteRow(r[1..], delim))
    ensures Resume(text, delim, s) == Resume(text, delim, s2)
  {
    var q := Quote(r[0]);
    var rest := QuoteRow(r[1..], delim);
    assert QuoteRow(r, delim) == q + ([delim] + rest);
    AtSplit(text, s.i, q, [delim] + rest);
    AtSplit(text, s.i + |q|, [delim], rest);
    AtChar(text, s.i + |q|, delim);
    var s1 := QuotedFieldRun(text, delim, r[0], s);
    assert s.field + r[0] == r[0];
    ResumeStep(text, delim, s1);
    s2 := Step(text, delim, s1);
  }

  // ---------------------------------------------------------------------
  // Reading a serialized table

  /** Reading a serialized table from a row boundary appends its rows. */
  lemma {:induction false} SerializedRun(text: string, delim: char, t: Table, s: Scanner)
    requires delim == ';' || delim == ','
    requires forall k :: 0 <= k < |t| ==> |t[k]| >= 1
    requires t != [] ==> t[|t| - 1] != [[]]
    requires !s.inQuotes && s.row == [] && s.field == []
    requires At(text, s.i, Serialize(t, delim)) && s.i + |Serialize(t, delim)| == |text|
    ensures Resume(text, delim, s) == s.rows + t
    decreases |t|
  {
    if |t| == 0 {
      assert s.rows + t == s.rows;
    } else if |t| == 1 {
      assert |t[0]| == 1 ==> t[0][0] != [];
      assert Serialize(t, delim) == QuoteRow(t[0], delim);
      LastRow(text, delim, t[0], s);
      assert s.rows + [t[0]] == s.rows + t;
    } else {
      var s2 := FirstRowRun(text, delim, t, s);
      SerializedRun(text, delim, t[1..], s2);
      AppendCons(s.rows, t);
    }
  }

  /** Appending the head, then the tail, appends the whole. */
  lemma AppendCons<T>(acc: seq<T>, t: seq<T>)
    requires |t| >= 1
    ensures acc + [t[0]] + t[1..] == acc + t
  {
    assert t == [t[0]] + t[1..];
  }

  /** The first row of a table of several, with its line feed: the scanner
      is then at the start of the rest of the table. */
  lemma FirstRowRun(text: string, delim: char, t: Table, s: Scanner) returns (s2: Scanner)
    requires delim == ';' || delim == ','
    requires forall k :: 0 <= k < |t| ==> |t[k]| >= 1
    requires |t| >= 2
    requires !s.inQuotes && s.row == [] && s.field == []
    requires At(text, s.i, Serialize(t, delim)) && s.i + |Serialize(t, delim)| == |text|
    ensures !s2.inQuotes && s2.row == [] && s2.field == [] && s2.rows == s.rows + [t[0]]
    ensures At(text, s2.i, Serialize(t[1..], delim))
    ensures s2.i + |Serialize(t[1..], delim)| == |text|
    ensures Resume(text, delim, s) == Resume(text, delim, s2)
  {
    var qr := QuoteRow(t[0], delim);
    var tail := Serialize(t[1..], delim);
    assert Serialize(t, delim) == qr + ("\n" + tail);
    AtSplit(text, s.i, qr, "\n" + tail);
    AtSplit(text, s.i + |qr|, "\n", tail);
    AtChar(text, s.i + |qr|, '\n');
    s2 := RowAndNewline(text, delim, t[0], s);
  }

  /** A row that is not the last one: read, then ended by its line feed. */
  lemma RowAndNewline(text: string, delim: char, r: Row, s: Scanner) returns (s2: Scanner)
    requires delim == ';' || delim == ','
    requires |r| >= 1 && !s.inQuotes && s.row == [] && s.field == []
    requires At(text, s.i, QuoteRow(r, delim))
    requires s.i + |QuoteRow(r, delim)| < |text| && text[s.i + |QuoteRow(r, delim)|] == '\n'
    ensures s2 == s.(rows := s.rows + [r], i := s.i + |QuoteRow(r, delim)| + 1)
    ensures Resume(text, delim, s) == Resume(text, delim, s2)
  {
    var s1 := QuotedRowRun(text, delim, r, s);
    assert s.row + r[..|r| - 1] == r[..|r| - 1];
    assert s1.row + [s1.field] == r by {
      SnocLast(r);
    }
    ResumeStep(text, delim, s1);
    s2 := Step(text, delim, s1);
  }

  /** The last row, read up to the end of the input and flushed. */
  lemma LastRow(text: string, delim: char, r: Row, s: Scanner)
    requires delim == ';' || delim == ','
    requires |r| > 1 || (|r| == 1 && r[0] != [])
    requires !s.inQuotes && s.row == [] && s.field == []
    requires At(text, s.i, QuoteRow(r, delim)) && s.i + |QuoteRow(r, delim)| == |text|
    ensures Resume(text, delim, s) == s.rows + [r]
  {
    var s1 := QuotedRowRun(text, delim, r, s);
    assert s.row + r[..|r| - 1] == r[..|r| - 1];
    assert s1.field != [] || s1.row != [];
    assert Finish(s1) == s.rows + [r] by {
      SnocLast(r);
    }
  }

  /** All but the last element, then the last one, is the whole. */
  lemma SnocLast<T>(r: seq<T>)
    requires |r| >= 1
    ensures r[..|r| - 1] + [r[|r| - 1]] == r
  {
  }

  /** Round trip: a table written with every field quoted is parsed back to
      itself, provided the sniffing picks the delimiter it was written with
      and its last row is not a single empty field (whose `""` alone leaves
      nothing to flush). */
  lemma ParseSerialize(t: Table, delim: char)
    requires delim == ';' || delim == ','
    requires forall k :: 0 <= k < |t| ==> |t[k]| >= 1
    requires t != [] ==> t[|t| - 1] != [[]]
    requires Delimiter(Serialize(t, delim)) == delim
    ensures Parse(Serialize(t, delim)) == t
  {
    var text := Serialize(t, delim);
    assert At(text, 0, text);
    SerializedRun(text, delim, t, Init());
  }

  // ---------------------------------------------------------------------
  // Worked example

  /** A quoted field with a doubled quote inside: `a,"b""c"` is one row of
      the fields `a` and `b"c`. */
  lemma ExampleDoubledQuote()
    ensures Parse("a,\"b\"\"c\"") == [["a", "b\"c"]]
  {
    var text := "a,\"b\"\"c\"";
    ExampleDoubledQuoteDelimiter(text);
    var s2 := ExampleUnquotedField(text);
    ExampleQuote();
    var s3 := QuotedFieldRun(text, ',', "b\"c", s2);
    ExampleFlush(text, s3);
  }

  lemma ExampleDoubledQuoteDelimiter(text: string)
    requires text == "a,\"b\"\"c\""
    ensures Delimiter(text) == ','
  {
    assert text[1] == ',';
    assert forall j :: 0 <= j < |text| ==> text[j] != '\n' && text[j] != ';';
    assert FirstLine(text) == text;
    DelimiterChoice(text);
  }

  /** The unquoted field `a` and the delimiter after it. */
  lemma ExampleUnquotedField(text: string) returns (s2: Scanner)
    requires text == "a,\"b\"\"c\""
    ensures s2 == Scanner([], ["a"], [], 2, false)
    ensures Resume(text, ',', Init()) == Resume(text, ',', s2)
    ensures At(text, 2, "\"b\"\"c\"") && |text| == 8
  {
    var s0 := Init();
    ResumeStep(text, ',', s0);
    var s1 := Step(text, ',', s0);
    assert s1 == Scanner([], [], "a", 1, false);
    ResumeStep(text, ',', s1);
    s2 := Step(text, ',', s1);
  }

  lemma ExampleQuote()
    ensures Quote("b\"c") == "\"b\"\"c\""
  {
    var v := "b\"c";
    assert Escape(v[2..]) == "c" + Escape(v[3..]);
    assert Escape(v[1..]) == "\"\"" + Escape(v[2..]);
    assert Escape(v) == "b" + Escape(v[1..]);
  }

  /** At the end of the input the pending row is flushed. */
  lemma ExampleFlush(text: string, s: Scanner)
    requires |text| == 8 && s == Scanner([], ["a"], "b\"c", 8, false)
    ensures Resume(text, ',', s) == [["a", "b\"c"]]
  {
    assert Resume(text, ',', s) == Finish(s);
    assert s.row + [s.field] == ["a", "b\"c"];
  }
}
