/** Properties of the CSV scanner: how the delimiter is chosen, the shape of
    every result, what happens to quote-free input, to an unterminated quote,
    and when the result is empty. */
module CsvLemmas {
  import opened Text
  import opened CsvParser

  // ---------------------------------------------------------------------
  // Delimiter sniffing

  /** `;` is chosen exactly when the first line holds strictly more `;` than
      `,` characters, counted inside quotes as well as outside; a tie or any
      other first line gives `,`. */
  lemma DelimiterChoice(text: string)
    ensures Delimiter(text) == ';' <==> Count(FirstLine(text), ';') > Count(FirstLine(text), ',')
    ensures Delimiter(text) == ',' <==> Count(FirstLine(text), ';') <= Count(FirstLine(text), ',')
  {
    SplitLength(FirstLine(text), ';');
    SplitLength(FirstLine(text), ',');
  }

  /** The counts the sniffing compares are those of the raw text before the
      first line feed: a carriage return dropped from the end of the first
      line is neither `;` nor `,`. */
  lemma {:induction false} FirstLineCounts(text: string, c: char)
    requires c != '\r' && c != '\n'
    ensures var end := if '\n' in text then IndexOf(text, '\n') else |text|;
            Count(FirstLine(text), c) == Count(text[..end], c)
  {
    if '\n' in text {
      var k := IndexOf(text, '\n');
      if k > 0 && text[k - 1] == '\r' {
        assert text[..k] == text[..k - 1] + [text[k - 1]];
        CountAppend(text[..k - 1], [text[k - 1]], c);
      }
    } else {
      assert text[..|text|] == text;
    }
  }

  // ---------------------------------------------------------------------
  // Shape of every result

  /** Rows are only ever pushed with at least one field in them. */
  lemma {:induction false} RunRowsNonEmpty(text: string, delim: char, s: Scanner)
    requires s.i <= |text|
    requires forall k :: 0 <= k < |s.rows| ==> |s.rows[k]| >= 1
    ensures forall k :: 0 <= k < |Run(text, delim, s)| ==> |Run(text, delim, s)[k]| >= 1
    decreases |text| - s.i
  {
    if s.i < |text| {
      RunRowsNonEmpty(text, delim, Step(text, delim, s));
    }
  }

  /** Every parsed row has at least one field, and the empty text gives the
      empty table. */
  lemma ParseRowsNonEmpty(text: string)
    ensures forall k :: 0 <= k < |Parse(text)| ==> |Parse(text)[k]| >= 1
    ensures text == [] ==> Parse(text) == []
  {
    RunRowsNonEmpty(text, Delimiter(text), Init());
  }

  // ---------------------------------------------------------------------
  // When the result is empty

  /** Something has been accumulated: a finished row, a field or a row in
      progress. */
  ghost predicate Pending(s: Scanner)
  {
    s.rows != [] || s.row != [] || s.field != []
  }

  lemma {:induction false} RunPending(text: string, delim: char, s: Scanner)
    requires s.i <= |text| && Pending(s)
    ensures Run(text, delim, s) != []
    decreases |text| - s.i
  {
    if s.i < |text| {
      RunPending(text, delim, Step(text, delim, s));
    }
  }

  lemma {:induction false} RunReaches(text: string, delim: char, s: Scanner, k: nat)
    requires delim == ';' || delim == ','
    requires s.i <= k < |text|
    requires text[k] != '"' && text[k] != '\r'
    ensures Run(text, delim, s) != []
    decreases k - s.i
  {
    var s' := Step(text, delim, s);
    if s.i == k {
      assert Pending(s');
      RunPending(text, delim, s');
    } else {
      RunReaches(text, delim, s', k);
    }
  }

  /** The preview reports "No data in sample." only for a text made of
      nothing but double quotes and carriage returns: any other character
      yields at least one row. */
  lemma ParseNonEmpty(text: string, k: nat)
    requires k < |text| && text[k] != '"' && text[k] != '\r'
    ensures Parse(text) != []
  {
    RunReaches(text, Delimiter(text), Init(), k);
  }

  // ---------------------------------------------------------------------
  // Quote-free input

  /** The reference reading of quote-free, carriage-return-free text: split
      into lines on `\n`, drop one empty last line (what a trailing `\n`
      leaves), and split every line on the delimiter. */
  function SplitTable(text: string, delim: char): (t: Table)
    ensures forall k :: 0 <= k < |t| ==> |t[k]| >= 1
  {
    var lines := Split(text, '\n');
    var kept := if lines[|lines| - 1] == [] then lines[..|lines| - 1] else lines;
    seq(|kept|, k requires 0 <= k < |kept| => Split(kept[k], delim))
  }

  /** The scanner state mirrors a list of lines: one finished row per
      complete line, split on the delimiter, while the row and field in
      progress are the split of the last, incomplete line. */
  ghost predicate Mirrors(lines: seq<string>, delim: char, s: Scanner)
  {
    && |lines| >= 1
    && !s.inQuotes
    && |s.rows| == |lines| - 1
    && (forall k :: 0 <= k < |lines| - 1 ==> s.rows[k] == Split(lines[k], delim))
    && s.row + [s.field] == Split(lines[|lines| - 1], delim)
  }

  /** While reading quote-free text, the state mirrors the lines read so far,
      carriage returns removed. */
  ghost predicate QuoteFreeInv(text: string, delim: char, s: Scanner)
    requires s.i <= |text|
  {
    Mirrors(Split(Remove(text[..s.i], '\r'), '\n'), delim, s)
  }

  /** A line feed completes the current line and starts an empty one. */
  lemma MirrorsNewline(lines: seq<string>, delim: char, s: Scanner)
    requires Mirrors(lines, delim, s)
    ensures Mirrors(lines + [[]], delim,
                    s.(rows := s.rows + [s.row + [s.field]], row := [], field := []))
  {
  }

  /** A delimiter ends the field in progress. */
  lemma MirrorsDelimiter(lines: seq<string>, delim: char, s: Scanner)
    requires Mirrors(lines, delim, s) && delim != '\n'
    ensures Mirrors(lines[..|lines| - 1] + [lines[|lines| - 1] + [delim]], delim,
                    s.(row := s.row + [s.field], field := []))
  {
    SplitSnoc(lines[|lines| - 1], delim, delim);
  }

  /** Any other character extends the field in progress. */
  lemma MirrorsOther(lines: seq<string>, delim: char, s: Scanner, ch: char)
    requires Mirrors(lines, delim, s) && ch != delim && ch != '\n'
    ensures Mirrors(lines[..|lines| - 1] + [lines[|lines| - 1] + [ch]], delim,
                    s.(field := s.field + [ch]))
  {
    var last := lines[|lines| - 1];
    SplitSnoc(last, ch, delim);
    var p := Split(last, delim);
    assert p[..|p| - 1] == s.row;
  }

  /** One character of quote-free text keeps the state mirroring the lines
      read so far. */
  lemma QuoteFreeStep(text: string, delim: char, s: Scanner)
    requires '"' !in text && (delim == ';' || delim == ',')
    requires s.i < |text| && QuoteFreeInv(text, delim, s)
    ensures QuoteFreeInv(text, delim, Step(text, delim, s))
  {
    var ch := text[s.i];
    var before := text[..s.i];
    var plain := Remove(before, '\r');
    var s' := Step(text, delim, s);
    assert text[..s'.i] == before + [ch];
    RemoveSnoc(before, ch, '\r');
    assert ch != '"';
    if ch == '\r' {
      assert s' == s.(i := s.i + 1);
      assert Remove(text[..s'.i], '\r') == plain;
    } else {
      assert Remove(text[..s'.i], '\r') == plain + [ch];
      MirrorsAppend(plain, delim, s, ch, s');
    }
  }

  /** A character other than `"` and `\r`, read outside quotes, extends the
      mirrored lines by that character. */
  lemma MirrorsAppend(plain: string, delim: char, s: Scanner, ch: char, s': Scanner)
    requires Mirrors(Split(plain, '\n'), delim, s) && (delim == ';' || delim == ',')
    requires s' == if ch == delim then s.(row := s.row + [s.field], field := [], i := s.i + 1)
                   else if ch == '\n' then
                     s.(rows := s.rows + [s.row + [s.field]], row := [], field := [], i := s.i + 1)
                   else s.(field := s.field + [ch], i := s.i + 1)
    ensures Mirrors(Split(plain + [ch], '\n'), delim, s')
  {
    var lines := Split(plain, '\n');
    SplitSnoc(plain, ch, '\n');
    if ch == '\n' {
      MirrorsNewline(lines, delim, s);
    } else if ch == delim {
      MirrorsDelimiter(lines, delim, s);
    } else {
      MirrorsOther(lines, delim, s, ch);
    }
  }

  lemma {:induction false} QuoteFreeRun(text: string, delim: char, s: Scanner)
    requires '"' !in text && (delim == ';' || delim == ',')
    requires s.i <= |text| && QuoteFreeInv(text, delim, s)
    ensures Run(text, delim, s) == SplitTable(Remove(text, '\r'), delim)
    decreases |text| - s.i
  {
    if s.i < |text| {
      QuoteFreeStep(text, delim, s);
      QuoteFreeRun(text, delim, Step(text, delim, s));
    } else {
      assert text[..s.i] == text;
      MirrorsFinish(Remove(text, '\r'), delim, s);
    }
  }

  /** At the end of the input, flushing the mirrored state gives the
      reference reading: the last line becomes a row unless it is empty. */
  lemma MirrorsFinish(plain: string, delim: char, s: Scanner)
    requires Mirrors(Split(plain, '\n'), delim, s)
    ensures Finish(s) == SplitTable(plain, delim)
  {
    var lines := Split(plain, '\n');
    var n := |lines|;
    var t := SplitTable(plain, delim);
    SplitEmpty(lines[n - 1], delim);
    if lines[n - 1] == [] {
      assert s.row + [s.field] == [[]];
      assert |s.row| == 0;
      assert (s.row + [s.field])[0] == s.field;
      assert |t| == n - 1;
      assert forall k :: 0 <= k < n - 1 ==> t[k] == s.rows[k];
    } else {
      assert s.row + [s.field] != [[]];
      assert |t| == n;
      assert forall k :: 0 <= k < n - 1 ==> t[k] == s.rows[k];
      assert t[n - 1] == s.row + [s.field];
    }
  }

  /** Text without double quotes parses to its lines, split on the sniffed
      delimiter, after every carriage return is dropped; a trailing line feed
      adds no row. */
  lemma ParseQuoteFree(text: string)
    requires '"' !in text
    ensures Parse(text) == SplitTable(Remove(text, '\r'), Delimiter(text))
  {
    assert text[..0] == [];
    QuoteFreeRun(text, Delimiter(text), Init());
  }

  /** Text without double quotes and carriage returns parses to its lines,
      each split on the sniffed delimiter. */
  lemma ParsePlain(text: string)
    requires '"' !in text && '\r' !in text
    ensures Parse(text) == SplitTable(text, Delimiter(text))
  {
    ParseQuoteFree(text);
    RemoveAbsent(text, '\r');
  }

  lemma {:induction false} RemoveAbsent(s: string, c: char)
    requires c !in s
    ensures Remove(s, c) == s
  {
    if s != [] {
      RemoveAbsent(s[1..], c);
    }
  }

  /** Outside quotes a carriage return is discarded: no field of a
      quote-free text holds one. */
  lemma QuoteFreeNoCarriageReturn(text: string)
    requires '"' !in text
    ensures forall r, f :: r in Parse(text) && f in r ==> '\r' !in f
  {
    ParseQuoteFree(text);
    var plain := Remove(text, '\r');
    var lines := Split(plain, '\n');
    forall k | 0 <= k < |lines|
      ensures forall f :: f in Split(lines[k], Delimiter(text)) ==> '\r' !in f
    {
      SplitKeeps(plain, '\n', k, '\r');
      SplitKeepsAll(lines[k], Delimiter(text), '\r');
    }
  }

  /** A character absent from the input is absent from every piece. */
  lemma {:induction false} SplitKeeps(s: string, sep: char, k: nat, c: char)
    requires c !in s && k < |Split(s, sep)|
    ensures c !in Split(s, sep)[k]
    decreases |s|
  {
    if sep in s {
      var j := IndexOf(s, sep);
      if k == 0 {
        assert forall x :: x in s[..j] ==> x in s;
      } else {
        assert forall x :: x in s[j + 1..] ==> x in s;
        SplitKeeps(s[j + 1..], sep, k - 1, c);
      }
    }
  }

  lemma SplitKeepsAll(s: string, sep: char, c: char)
    requires c !in s
    ensures forall f :: f in Split(s, sep) ==> c !in f
  {
    forall k | 0 <= k < |Split(s, sep)| ensures c !in Split(s, sep)[k] {
      SplitKeeps(s, sep, k, c);
    }
  }

  // ---------------------------------------------------------------------
  // Unterminated quotes

  /** Inside quotes with no closing quote left, the rest of the input is
      appended to the field verbatim (delimiters, line feeds and carriage
      returns included) and flushed at the end. */
  lemma {:induction false} UnterminatedQuote(text: string, delim: char, s: Scanner)
    requires s.i <= |text| && s.inQuotes && '"' !in text[s.i..]
    ensures Run(text, delim, s) == Finish(s.(field := s.field + text[s.i..], i := |text|))
    decreases |text| - s.i
  {
    if s.i == |text| {
      assert s.field + text[s.i..] == s.field;
    } else {
      assert text[s.i] in text[s.i..];
      assert text[s.i + 1..] == text[s.i..][1..];
      assert s.field + text[s.i..] == (s.field + [text[s.i]]) + text[s.i + 1..];
      UnterminatedQuote(text, delim, Step(text, delim, s));
    }
  }

  /** A text that opens a quote and never closes it is one field. */
  lemma ParseUnterminated(rest: string)
    requires rest != [] && '"' !in rest
    ensures Parse(['"'] + rest) == [[rest]]
  {
    var text := ['"'] + rest;
    var delim := Delimiter(text);
    var quoted := Scanner([], [], [], 1, true);
    assert Step(text, delim, Init()) == quoted;
    assert text[1..] == rest;
    UnterminatedQuote(text, delim, quoted);
    var flushed := Scanner([], [], rest, |text|, true);
    assert quoted.(field := quoted.field + text[1..], i := |text|) == flushed;
    assert |flushed.field| > 0;
    assert Finish(flushed) == flushed.rows + [flushed.row + [flushed.field]];
    assert flushed.row + [flushed.field] == [rest];
    assert Finish(flushed) == [[rest]];
  }

  /** Inside quotes a carriage return is kept: an opening quote followed by
      `\r` reads as one field holding `\r`. */
  lemma QuotedCarriageReturnKept()
    ensures Parse("\"\r") == [["\r"]]
  {
    ParseUnterminated("\r");
    assert ['"'] + "\r" == "\"\r";
  }

  // ---------------------------------------------------------------------
  // Worked examples

  /** A header line and one data line, without a trailing line feed. */
  lemma ExampleTwoLines()
    ensures Parse("a,b\n1,2") == [["a", "b"], ["1", "2"]]
  {
    var text := "a,b\n1,2";
    ExampleDelimiter();
    ExampleLines();
    assert '"' !in text && '\r' !in text by {
      assert forall j :: 0 <= j < |text| ==> text[j] != '"' && text[j] != '\r';
    }
    ParsePlain(text);
  }

  lemma ExampleDelimiter()
    ensures Delimiter("a,b\n1,2") == ','
  {
    var text := "a,b\n1,2";
    IndexOfUnique(text, '\n', 3);
    assert FirstLine(text) == "a,b";
    assert Count("a,b", ';') == 0;
    DelimiterChoice(text);
  }

  lemma ExampleLines()
    ensures SplitTable("a,b\n1,2", ',') == [["a", "b"], ["1", "2"]]
  {
    TwoByTwo('a', 'b', '1', '2', ',');
  }

  /** Two lines of two one-character cells each. */
  lemma TwoByTwo(a: char, b: char, c: char, d: char, delim: char)
    requires delim != '\n' && a != delim && b != delim && c != delim && d != delim
    requires a != '\n' && b != '\n' && c != '\n' && d != '\n'
    ensures SplitTable([a, delim, b, '\n', c, delim, d], delim) == [[[a], [b]], [[c], [d]]]
  {
    var first, second := [a, delim, b], [c, delim, d];
    TwoCells(a, b, delim);
    TwoCells(c, d, delim);
    assert [a, delim, b, '\n', c, delim, d] == first + ['\n'] + second;
    SplitPair(first, '\n', second);
    SplitTableTwo(first + ['\n'] + second, delim, first, second);
  }

  /** One line of two one-character cells. */
  lemma TwoCells(a: char, b: char, delim: char)
    requires delim != '\n' && a != delim && b != delim && a != '\n' && b != '\n'
    ensures Split([a, delim, b], delim) == [[a], [b]]
    ensures '\n' !in [a, delim, b]
  {
    assert [a, delim, b] == [a] + [delim] + [b];
    SplitPair([a], delim, [b]);
  }

  /** A text of two lines, the second not empty, is read as those two lines. */
  lemma SplitTableTwo(text: string, delim: char, a: string, b: string)
    requires Split(text, '\n') == [a, b] && b != []
    ensures SplitTable(text, delim) == [Split(a, delim), Split(b, delim)]
  {
  }

  /** Two separator-free strings joined by the separator split back into
      the two. */
  lemma SplitPair(a: string, sep: char, b: string)
    requires sep !in a && sep !in b
    ensures Split(a + [sep] + b, sep) == [a, b]
  {
    var s := a + [sep] + b;
    assert s[|a|] == sep;
    SplitAt(s, sep, |a|);
    assert s[..|a|] == a && s[|a| + 1..] == b;
  }
}
