/** components/tables/TableManager.tsx: the CSV reader (`parseCSV` and its line scanner
    `parseCsvLine`) and the component's row and floating-window handlers. */
module TableManager {
  import opened Types
  import opened JsText

  // ---------------------------------------------------------------------------------
  // The line scanner
  // ---------------------------------------------------------------------------------

  /** Where the scanner is: outside quotes, inside quotes, or inside quotes just after a
      quote, which either closes the quotes or, followed by another, stands for one `"`. */
  datatype Mode = Outside | Quoted | QuoteSeen

  /** The fields finished so far, the field being read, and the mode. */
  datatype Scan = Scan(values: seq<string>, current: string, mode: Mode)

  const Start := Scan([], "", Outside)

  /** One character read outside quotes. */
  function FeedOutside(st: Scan, c: char): Scan
  {
    if c == '"' then st.(mode := Quoted)
    else if c == ',' then Scan(st.values + [st.current], "", Outside)
    else st.(current := st.current + [c], mode := Outside)
  }

  /** One character read in any mode. */
  function Feed(st: Scan, c: char): Scan
  {
    match st.mode
    case Outside => FeedOutside(st, c)
    case Quoted => if c == '"' then st.(mode := QuoteSeen) else st.(current := st.current + [c])
    case QuoteSeen => if c == '"' then st.(current := st.current + ['"'], mode := Quoted) else FeedOutside(st, c)
  }

  /** The scanner state after the characters of `s`, read left to right. */
  function Scanned(s: string): Scan
    decreases |s|
  {
    if s == [] then Start else Feed(Scanned(s[..|s| - 1]), s[|s| - 1])
  }

  /** The fields of one CSV line: those finished, then the last one. A quote opens quoted
      text, `""` inside quoted text stands for one quote, and a comma outside quoted text
      ends a field. */
  function CsvFields(line: string): (fields: seq<string>)
    ensures |fields| >= 1
  {
    var st := Scanned(line);
    st.values + [st.current]
  }

  lemma ScannedStep(line: string, i: nat)
    requires i < |line|
    ensures Scanned(line[..i + 1]) == Feed(Scanned(line[..i]), line[i])
  {
    assert line[..i + 1][..i] == line[..i];
  }

  /** The scanner's state matches the loop variables of `parseCsvLine`; the mode just
      after a quote in quotes counts as outside, which is where that loop has gone once it
      has looked ahead and seen no second quote. */
  predicate Agrees(st: Scan, values: seq<string>, current: string, inQuotes: bool)
  {
    st.values == values && st.current == current && (st.mode == Quoted <==> inQuotes)
  }

  /** `parseCsvLine`. */
  method ParseCsvLine(line: string) returns (values: seq<string>)
    ensures values == CsvFields(line)
  {
    values := [];
    var current := "";
    var inQuotes := false;
    var i := 0;
    while i < |line|
      invariant 0 <= i <= |line|
      invariant Agrees(Scanned(line[..i]), values, current, inQuotes)
      invariant Scanned(line[..i]).mode == QuoteSeen ==> i == |line| || line[i] != '"'
    {
      var c := line[i];
      ScannedStep(line, i);
      if inQuotes {
        if c == '"' {
          if i + 1 < |line| && line[i + 1] == '"' {
            ScannedStep(line, i + 1);
            current := current + ['"'];
            i := i + 1;
          } else {
            inQuotes := false;
          }
        } else {
          current := current + [c];
        }
      } else {
        if c == '"' {
          inQuotes := true;
        } else if c == ',' {
          values := values + [current];
          current := "";
        } else {
          current := current + [c];
        }
      }
      i := i + 1;
    }
    assert line[..|line|] == line;
    values := values + [current];
  }

  // ---------------------------------------------------------------------------------
  // What the scanner computes
  // ---------------------------------------------------------------------------------

  /** The number of `"` in `s`. */
  function QuoteCount(s: string): nat
  {
    if s == [] then 0 else QuoteCount(s[..|s| - 1]) + (if s[|s| - 1] == '"' then 1 else 0)
  }

  /** The number of commas of `s` preceded by an even number of quotes. */
  function CommasOutside(s: string): nat
  {
    if s == [] then 0
    else CommasOutside(s[..|s| - 1]) + (if s[|s| - 1] == ',' && QuoteCount(s[..|s| - 1]) % 2 == 0 then 1 else 0)
  }

  /** The scanner is inside quotes exactly after an odd number of quotes, and has finished
      one field per comma read outside them. */
  lemma {:induction false} ScanParity(s: string)
    ensures Scanned(s).mode == Quoted <==> QuoteCount(s) % 2 == 1
    ensures |Scanned(s).values| == CommasOutside(s)
  {
    if s != [] {
      ScanParity(s[..|s| - 1]);
    }
  }

  /** A line has one field more than it has commas outside quotes. */
  lemma FieldCount(line: string)
    ensures |CsvFields(line)| == 1 + CommasOutside(line)
  {
    ScanParity(line);
  }

  /** Without quotes the scanner splits at every comma. */
  lemma {:induction false} QuoteFreeScan(s: string)
    requires '"' !in s
    ensures var p := Split(s, ','); Scanned(s) == Scan(p[..|p| - 1], p[|p| - 1], Outside)
  {
    if s != [] {
      var init := s[..|s| - 1];
      assert forall k :: 0 <= k < |init| ==> init[k] == s[k];
      QuoteFreeScan(init);
    }
  }

  /** A line without quotes is `line.split(',')`. */
  lemma QuoteFreeIsSplit(line: string)
    requires '"' !in line
    ensures CsvFields(line) == Split(line, ',')
  {
    QuoteFreeScan(line);
    var p := Split(line, ',');
    assert p == p[..|p| - 1] + [p[|p| - 1]];
  }

  /** Some quote of `s` is read just after a quote inside quoted text, which is the one
      way the scanner puts a quote into a field. */
  predicate EscapedQuote(s: string)
  {
    exists i :: 0 <= i < |s| && Scanned(s[..i]).mode == QuoteSeen && s[i] == '"'
  }

  /** Some finished or current field holds a quote. */
  predicate HoldsQuote(st: Scan)
  {
    '"' in st.current || exists k :: 0 <= k < |st.values| && '"' in st.values[k]
  }

  /** A quote, once in a field, stays there. */
  lemma FeedKeepsQuote(st: Scan, c: char)
    requires HoldsQuote(st)
    ensures HoldsQuote(Feed(st, c))
  {
    var n := Feed(st, c);
    if '"' in st.current {
      if n.current != st.current + [c] && n.current != st.current {
        assert n.values[|st.values|] == st.current;
      }
    } else {
      var k :| 0 <= k < |st.values| && '"' in st.values[k];
      assert n.values[k] == st.values[k];
    }
  }

  /** Without an escaped quote, no field holds a quote. */
  lemma {:induction false} NoEscapeNoQuote(s: string)
    requires !EscapedQuote(s)
    decreases |s|
    ensures !HoldsQuote(Scanned(s))
  {
    if s != [] {
      var init := s[..|s| - 1];
      assert !EscapedQuote(init) by {
        forall i | 0 <= i < |init| ensures !(Scanned(init[..i]).mode == QuoteSeen && init[i] == '"') {
          assert init[..i] == s[..i] && init[i] == s[i];
        }
      }
      NoEscapeNoQuote(init);
      assert s[..|s| - 1] == init;
    }
  }

  /** An escaped quote puts a quote into some field. */
  lemma {:induction false} EscapeGivesQuote(s: string)
    requires EscapedQuote(s)
    decreases |s|
    ensures HoldsQuote(Scanned(s))
  {
    var i :| 0 <= i < |s| && Scanned(s[..i]).mode == QuoteSeen && s[i] == '"';
    var init := s[..|s| - 1];
    assert s[..|s| - 1] == init;
    if i == |s| - 1 {
      assert Scanned(s).current == Scanned(init).current + ['"'];
    } else {
      assert init[..i] == s[..i] && init[i] == s[i];
      EscapeGivesQuote(init);
      FeedKeepsQuote(Scanned(init), s[|s| - 1]);
    }
  }

  /** A quote reaches a field exactly when `""` is read inside quoted text; `""` outside
      quoted text is an empty quoted section and leaves no quote. */
  lemma NoQuotedFields(line: string)
    ensures (exists k :: 0 <= k < |CsvFields(line)| && '"' in CsvFields(line)[k]) <==> EscapedQuote(line)
  {
    var st := Scanned(line);
    var fields := CsvFields(line);
    if EscapedQuote(line) {
      EscapeGivesQuote(line);
      if '"' in st.current {
        assert fields[|st.values|] == st.current;
      } else {
        var k :| 0 <= k < |st.values| && '"' in st.values[k];
        assert fields[k] == st.values[k];
      }
    } else {
      NoEscapeNoQuote(line);
      forall k | 0 <= k < |fields| ensures '"' !in fields[k] {
        if k < |st.values| {
          assert fields[k] == st.values[k];
        }
      }
    }
  }

  /** `a""b` reads as the one field `ab`: its `""` is an empty quoted section. */
  lemma EmptyQuotedSection()
    ensures CsvFields("a\"\"b") == ["ab"]
  {
    var line := "a\"\"b";
    ScannedStep(line, 0);
    assert line[..0] == [];
    assert Scanned(line[..1]) == Scan([], "a", Outside);
    ScannedStep(line, 1);
    assert Scanned(line[..2]) == Scan([], "a", Quoted);
    ScannedStep(line, 2);
    assert Scanned(line[..3]) == Scan([], "a", QuoteSeen);
    ScannedStep(line, 3);
    assert Scanned(line[..4]) == Scan([], "ab", Outside);
    assert line[..4] == line;
  }

  // ---------------------------------------------------------------------------------
  // The inverse: writing fields as a quoted CSV line
  // ---------------------------------------------------------------------------------

  /** Every quote of `f` doubled. */
  function Escape(f: string): string
  {
    if f == [] then [] else Escape(f[..|f| - 1]) + (if f[|f| - 1] == '"' then "\"\"" else [f[|f| - 1]])
  }

  /** `f` in quotes. */
  function QuoteField(f: string): string
  {
    "\"" + Escape(f) + "\""
  }

  function QuoteAll(fields: seq<string>): (r: seq<string>)
    ensures |r| == |fields|
    ensures forall k :: 0 <= k < |fields| ==> r[k] == QuoteField(fields[k])
  {
    if fields == [] then [] else QuoteAll(fields[..|fields| - 1]) + [QuoteField(fields[|fields| - 1])]
  }

  /** The fields, each quoted, separated by commas. */
  function EncodeLine(fields: seq<string>): string
    requires |fields| >= 1
  {
    Join(QuoteAll(fields), ',')
  }

  /** The scanner state after `s`, starting from `st`. */
  function Resume(st: Scan, s: string): Scan
    decreases |s|
  {
    if s == [] then st else Feed(Resume(st, s[..|s| - 1]), s[|s| - 1])
  }

  lemma {:induction false} ResumeAppend(st: Scan, a: string, b: string)
    ensures Resume(st, a + b) == Resume(Resume(st, a), b)
    decreases |b|
  {
    if b != [] {
      assert (a + b)[..|a + b| - 1] == a + b[..|b| - 1];
      assert (a + b)[|a + b| - 1] == b[|b| - 1];
      ResumeAppend(st, a, b[..|b| - 1]);
    } else {
      assert a + b == a;
    }
  }

  lemma {:induction false} ScannedIsResume(s: string)
    ensures Scanned(s) == Resume(Start, s)
    decreases |s|
  {
    if s != [] {
      ScannedIsResume(s[..|s| - 1]);
    }
  }

  /** Escaped text read inside quotes adds the original text to the field. */
  lemma {:induction false} ResumeEscaped(values: seq<string>, current: string, f: string)
    ensures Resume(Scan(values, current, Quoted), Escape(f)) == Scan(values, current + f, Quoted)
    decreases |f|
  {
    if f != [] {
      var init, c := f[..|f| - 1], f[|f| - 1];
      ResumeEscaped(values, current, init);
      var tail := if c == '"' then "\"\"" else [c];
      ResumeAppend(Scan(values, current, Quoted), Escape(init), tail);
      assert current + init + [c] == current + f;
      if c == '"' {
        ResumeAppend(Scan(values, current + init, Quoted), "\"", "\"");
      }
    }
  }

  /** A quoted field read from the start of a field leaves that field, its quotes closed. */
  lemma ResumeQuoted(values: seq<string>, f: string)
    ensures Resume(Scan(values, "", Outside), QuoteField(f)) == Scan(values, f, QuoteSeen)
  {
    var st := Scan(values, "", Outside);
    ResumeAppend(st, "\"" + Escape(f), "\"");
    ResumeAppend(st, "\"", Escape(f));
    assert Resume(st, "\"") == Scan(values, "", Quoted);
    ResumeEscaped(values, "", f);
  }

  lemma {:induction false} ResumeEncoded(fields: seq<string>)
    requires |fields| >= 1
    ensures Resume(Start, EncodeLine(fields)) == Scan(fields[..|fields| - 1], fields[|fields| - 1], QuoteSeen)
    decreases |fields|
  {
    var n := |fields|;
    var q := QuoteAll(fields);
    if n == 1 {
      ResumeQuoted([], fields[0]);
    } else {
      var init := fields[..n - 1];
      assert QuoteAll(init) == q[..n - 1];
      ResumeEncoded(init);
      var prefix := Join(q[..n - 1], ',');
      assert EncodeLine(fields) == prefix + [','] + QuoteField(fields[n - 1]);
      ResumeAppend(Start, prefix + [','], QuoteField(fields[n - 1]));
      ResumeAppend(Start, prefix, [',']);
      assert init[..n - 2] + [init[n - 2]] == init;
      ResumeQuoted(init, fields[n - 1]);
    }
  }

  /** Reading a line written by `EncodeLine` gives back the fields. */
  lemma EncodeThenParse(fields: seq<string>)
    requires |fields| >= 1
    ensures CsvFields(EncodeLine(fields)) == fields
  {
    ScannedIsResume(EncodeLine(fields));
    ResumeEncoded(fields);
    assert fields[..|fields| - 1] + [fields[|fields| - 1]] == fields;
  }

  // ---------------------------------------------------------------------------------
  // From text to rows
  // ---------------------------------------------------------------------------------

  /** A cell that `String(value || '').trim() === ''` finds empty: blank text, or zero. */
  predicate CellIsBlank(c: Cell)
  {
    match c
    case Text(t) => Trim(t) == []
    case Number(n) => n == 0.0
  }

  /** Some cell of the row is not blank. */
  predicate HasValue(row: Row)
  {
    exists k :: k in row && !CellIsBlank(row[k])
  }

  /** The row `headers.reduce((obj, h, i) => (obj[h] = values[i], obj), {})`: each header
      maps to its value, a later repeated header overwriting an earlier one. */
  function BuildRow(headers: seq<string>, values: seq<string>): (row: Row)
    requires |headers| == |values|
    ensures forall h :: h in row <==> h in headers
    decreases |headers|
  {
    if headers == [] then map[]
    else BuildRow(headers[..|headers| - 1], values[..|values| - 1])[headers[|headers| - 1] := Text(values[|values| - 1])]
  }

  /** A header maps to the value at its last position. */
  lemma {:induction false} BuildRowLastWins(headers: seq<string>, values: seq<string>, i: nat)
    requires |headers| == |values| && i < |headers|
    requires forall j :: i < j < |headers| ==> headers[j] != headers[i]
    ensures BuildRow(headers, values)[headers[i]] == Text(values[i])
    decreases |headers|
  {
    var n := |headers|;
    if i < n - 1 {
      BuildRowLastWins(headers[..n - 1], values[..n - 1], i);
    }
  }

  /** With distinct headers, every header maps to the value in its column. */
  lemma BuildRowColumns(headers: seq<string>, values: seq<string>)
    requires |headers| == |values|
    requires forall i, j :: 0 <= i < j < |headers| ==> headers[i] != headers[j]
    ensures forall i :: 0 <= i < |headers| ==> BuildRow(headers, values)[headers[i]] == Text(values[i])
  {
    forall i | 0 <= i < |headers| ensures BuildRow(headers, values)[headers[i]] == Text(values[i]) {
      BuildRowLastWins(headers, values, i);
    }
  }

  /** The row a data line gives, or none when its field count differs from the header's. */
  function RowOf(headers: seq<string>, line: string): Option<Row>
  {
    var values := CsvFields(line);
    if |values| != |headers| then None else Some(BuildRow(headers, values))
  }

  /** The data lines `parseCSV` keeps: not blank, as many fields as headers, some value. */
  predicate Kept(headers: seq<string>, line: string)
  {
    Trim(line) != [] && RowOf(headers, line).Some? && HasValue(RowOf(headers, line).value)
  }

  function KeptBy(headers: seq<string>): string -> bool
  {
    (line: string) => Kept(headers, line)
  }

  /** `lines.filter(nonblank).map(toRowOrNull).filter(nonNullWithValue)`. */
  function DataRows(headers: seq<string>, lines: seq<string>): (rows: seq<Row>)
    ensures |rows| <= |lines|
    ensures forall k :: 0 <= k < |rows| ==> HasValue(rows[k])
  {
    if lines == [] then []
    else
      var rest := DataRows(headers, lines[1..]);
      if Trim(lines[0]) == [] then rest
      else match RowOf(headers, lines[0])
        case None => rest
        case Some(row) => if HasValue(row) then [row] + rest else rest
  }

  lemma DataRowsStep(headers: seq<string>, lines: seq<string>)
    requires lines != []
    ensures DataRows(headers, lines)
      == (if Kept(headers, lines[0]) then [RowOf(headers, lines[0]).value] else []) + DataRows(headers, lines[1..])
  {
  }

  /** The rows are those of the kept lines, in file order. */
  lemma {:induction false} DataRowsAreKeptLines(headers: seq<string>, lines: seq<string>)
    ensures var kept := Filter(lines, KeptBy(headers));
      && |DataRows(headers, lines)| == |kept|
      && forall k :: 0 <= k < |kept| ==> RowOf(headers, kept[k]) == Some(DataRows(headers, lines)[k])
  {
    if lines != [] {
      var line, rest := lines[0], lines[1..];
      DataRowsAreKeptLines(headers, rest);
      DataRowsStep(headers, lines);
      var tail := Filter(rest, KeptBy(headers));
      var d := DataRows(headers, rest);
      var kept := Filter(lines, KeptBy(headers));
      if Kept(headers, line) {
        assert kept == [line] + tail;
        forall k | 0 <= k < |kept| ensures RowOf(headers, kept[k]) == Some(DataRows(headers, lines)[k]) {
          if k > 0 {
            assert kept[k] == tail[k - 1];
          }
        }
      } else {
        assert kept == tail;
      }
    }
  }

  /** `csvText.trim().replace(/\r\n/g, '\n').split('\n')`. */
  function Lines(text: string): (lines: seq<string>)
    ensures |lines| >= 1
  {
    Split(CrlfToLf(Trim(text)), '\n')
  }

  datatype Parsed = Parsed(headers: seq<string>, data: seq<Row>)

  /** `parseCSV`: nothing when the first line is blank; otherwise the first line's fields as
      headers and the kept data lines as rows. */
  function ParseCsv(text: string): (p: Parsed)
    ensures |p.headers| > 0 <==> Trim(Lines(text)[0]) != []
    ensures |p.headers| > 0 ==> p.headers == CsvFields(Lines(text)[0])
    ensures p.headers == [] ==> p.data == []
    ensures |p.data| < |Lines(text)|
    ensures forall k :: 0 <= k < |p.data| ==> HasValue(p.data[k])
  {
    var lines := Lines(text);
    if Trim(lines[0]) == [] then Parsed([], [])
    else
      var headers := CsvFields(lines[0]);
      Parsed(headers, DataRows(headers, lines[1..]))
  }

  /** Empty or blank text gives no headers and no rows. */
  lemma BlankTextParsesEmpty(text: string)
    requires IsBlank(text)
    ensures ParseCsv(text) == Parsed([], [])
  {
    TrimEmptyIffBlank(text);
    assert CrlfToLf(Trim(text)) == [];
    assert Lines(text) == [[]];
    assert Trim(Lines(text)[0]) == [];
  }

  /** Headers come out exactly when the first line is not blank, which is when an upload
      replaces the table. */
  lemma HeadersIffFirstLine(text: string)
    ensures |ParseCsv(text).headers| > 0 <==> Trim(Lines(text)[0]) != []
  {
  }

  /** Every parsed row has exactly the header names as keys, and at least one non-blank
      value. */
  lemma ParsedRowsShape(text: string)
    ensures var p := ParseCsv(text);
      forall k :: 0 <= k < |p.data| ==> HasValue(p.data[k]) && forall h :: h in p.data[k] <==> h in p.headers
  {
    var lines := Lines(text);
    if Trim(lines[0]) != [] {
      var headers := CsvFields(lines[0]);
      DataRowsAreKeptLines(headers, lines[1..]);
    }
  }

  // ---------------------------------------------------------------------------------
  // Row edits
  // ---------------------------------------------------------------------------------

  /** `rows.filter((_, i) => i !== index)`. */
  function WithoutIndex<T>(rows: seq<T>, index: int): (r: seq<T>)
    ensures 0 <= index < |rows| ==> r == rows[..index] + rows[index + 1..]
    ensures !(0 <= index < |rows|) ==> r == rows
    decreases |rows|
  {
    if rows == [] then []
    else (if index == 0 then [] else [rows[0]]) + WithoutIndex(rows[1..], index - 1)
  }

  /** `handleSave`'s new rows: the edited index replaced, or the row appended. */
  function SavedRows(rows: seq<Row>, editing: Option<int>, row: Row): (r: seq<Row>)
    requires editing.Some? ==> 0 <= editing.value < |rows|
    ensures editing.None? ==> r == rows + [row]
    ensures editing.Some? ==>
      && |r| == |rows| && r[editing.value] == row
      && forall k :: 0 <= k < |rows| && k != editing.value ==> r[k] == rows[k]
  {
    if editing.None? then rows + [row] else rows[editing.value := row]
  }

  /** The row the form may not save: every value blank (so also a row with no fields). */
  predicate IsEmptyRow(row: Row)
  {
    forall k :: k in row ==> CellIsBlank(row[k])
  }

  lemma EmptyRowIffNoValue(row: Row)
    ensures IsEmptyRow(row) <==> !HasValue(row)
  {
  }

  // ---------------------------------------------------------------------------------
  // Floating detail windows
  // ---------------------------------------------------------------------------------

  datatype Position = Position(x: real, y: real)

  /** An open detail window: its row (undefined when the index is past the rows), where it
      is, and its stacking order. */
  datatype OpenModal = OpenModal(id: string, data: Option<Row>, rowIndex: int, position: Position, zIndex: int)

  const ModalWidth := 384
  const ModalHeight := 400
  const CascadeOffset := 20
  const FirstZIndex := 100

  /** `Math.max(0, (window - size) / 2)`. */
  function Centered(window: int, size: int): (r: real)
    ensures r >= 0.0
    ensures window >= size ==> 2.0 * r == (window - size) as real
    ensures window < size ==> r == 0.0
  {
    var d := (window - size) as real / 2.0;
    if d > 0.0 then d else 0.0
  }

  /** Distinct window ids and stacking orders, all below the next one to hand out. */
  predicate Stacked(modals: seq<OpenModal>, next: int)
  {
    && (forall k :: 0 <= k < |modals| ==> modals[k].zIndex < next)
    && (forall j, k :: 0 <= j < k < |modals| ==> modals[j].zIndex != modals[k].zIndex)
    && (forall j, k :: 0 <= j < k < |modals| ==> modals[j].id != modals[k].id)
  }

  predicate IsOpen(modals: seq<OpenModal>, id: string)
  {
    exists k :: 0 <= k < |modals| && modals[k].id == id
  }

  /** `modals.map(m => m.id === id ? {...m, zIndex: z} : m)`. */
  function WithZIndex(modals: seq<OpenModal>, id: string, z: int): (r: seq<OpenModal>)
    ensures |r| == |modals|
  {
    seq(|modals|, k requires 0 <= k < |modals| => if modals[k].id == id then modals[k].(zIndex := z) else modals[k])
  }

  /** `modals.map(m => m.id === id ? {...m, position} : m)`. */
  function WithPosition(modals: seq<OpenModal>, id: string, p: Position): (r: seq<OpenModal>)
    ensures |r| == |modals|
  {
    seq(|modals|, k requires 0 <= k < |modals| => if modals[k].id == id then modals[k].(position := p) else modals[k])
  }

  function OtherModal(id: string): OpenModal -> bool
  {
    (m: OpenModal) => m.id != id
  }

  /** Bringing a window to the front gives it the next stacking order, above every other
      window, changes nothing else, and keeps the stack well formed. */
  lemma BringToFrontSpec(modals: seq<OpenModal>, next: int, id: string)
    requires Stacked(modals, next)
    ensures var r := WithZIndex(modals, id, next);
      && Stacked(r, next + 1)
      && (forall k :: 0 <= k < |r| ==> r[k].id == modals[k].id && r[k].data == modals[k].data && r[k].position == modals[k].position)
      && (forall k :: 0 <= k < |r| && modals[k].id != id ==> r[k] == modals[k])
      && (forall j, k :: 0 <= j < |r| && 0 <= k < |r| && r[j].id == id && r[k].id != id ==> r[j].zIndex > r[k].zIndex)
  {
  }

  /** Moving a window changes only its position. */
  lemma MoveSpec(modals: seq<OpenModal>, next: int, id: string, p: Position)
    requires Stacked(modals, next)
    ensures var r := WithPosition(modals, id, p);
      && Stacked(r, next)
      && (forall k :: 0 <= k < |r| && modals[k].id == id ==> r[k] == modals[k].(position := p))
      && (forall k :: 0 <= k < |r| && modals[k].id != id ==> r[k] == modals[k])
  {
  }

  lemma {:induction false} FilterKeepsStacked(modals: seq<OpenModal>, next: int, id: string)
    requires Stacked(modals, next)
    ensures Stacked(Filter(modals, OtherModal(id)), next)
  {
    if modals != [] {
      var rest := modals[1..];
      assert Stacked(rest, next) by {
        forall j, k | 0 <= j < k < |rest| ensures rest[j].zIndex != rest[k].zIndex && rest[j].id != rest[k].id {
          assert rest[j] == modals[j + 1] && rest[k] == modals[k + 1];
        }
      }
      FilterKeepsStacked(rest, next, id);
      var tail := Filter(rest, OtherModal(id));
      forall k | 0 <= k < |tail| ensures tail[k].zIndex != modals[0].zIndex && tail[k].id != modals[0].id {
        assert tail[k] in rest;
      }
    }
  }

  /** Closing a window removes it, keeps the others in order, and keeps the stack well formed. */
  lemma CloseSpec(modals: seq<OpenModal>, next: int, id: string)
    requires Stacked(modals, next)
    ensures var r := Filter(modals, OtherModal(id));
      && Stacked(r, next)
      && !IsOpen(r, id)
      && IsSubsequence(r, modals)
      && (forall m :: m in modals && m.id != id ==> m in r)
  {
    FilterKeepsStacked(modals, next, id);
    var r := Filter(modals, OtherModal(id));
    forall k | 0 <= k < |r| ensures r[k].id != id {
      assert r[k] in r;
    }
  }

  /** Opening a window on top keeps the stack well formed when its id is new. */
  lemma OpenSpec(modals: seq<OpenModal>, next: int, m: OpenModal)
    requires Stacked(modals, next) && !IsOpen(modals, m.id) && m.zIndex == next
    ensures Stacked(modals + [m], next + 1)
    ensures forall k :: 0 <= k < |modals| ==> (modals + [m])[k].zIndex < m.zIndex
  {
  }

  /** Messages the component shows. */
  const EmptyCsvMessage := "CSV 파일이 비어 있거나 헤더가 없습니다."
  const EmptyRowMessage := "최소 하나 이상의 항목을 입력해주세요."

  /** The component's state: the active table's headers and rows (`null` while loading),
      the edit form, the open detail windows and the next stacking order. */
  class TableManagerState {
    var headers: seq<string>
    var data: Option<seq<Row>>
    var isModalOpen: bool
    var editingRowIndex: Option<int>
    var openModals: seq<OpenModal>
    var nextZIndex: int
    var errorMessage: string

    predicate Valid()
      reads this
    {
      Stacked(openModals, nextZIndex)
    }

    constructor (headers: seq<string>, data: Option<seq<Row>>)
      ensures this.headers == headers && this.data == data
      ensures !isModalOpen && editingRowIndex == None && openModals == [] && nextZIndex == FirstZIndex && errorMessage == ""
      ensures Valid()
    {
      this.headers := headers;
      this.data := data;
      isModalOpen := false;
      editingRowIndex := None;
      openModals := [];
      nextZIndex := FirstZIndex;
      errorMessage := "";
    }

    /** `reader.onload` of `handleFileUpload`: parse, and replace the table when there
        are headers; a blank first line leaves the error message. */
    method LoadText(text: string)
      modifies this`headers, this`data, this`errorMessage
      ensures var p := ParseCsv(text);
        && (|p.headers| > 0 ==> headers == p.headers && data == Some(p.data) && errorMessage == "")
        && (|p.headers| == 0 ==> headers == old(headers) && data == old(data) && errorMessage == EmptyCsvMessage)
    {
      var parsed := ParseCsv(text);
      if Trim(Lines(text)[0]) == [] {
        errorMessage := EmptyCsvMessage;
      }
      if |parsed.headers| > 0 {
        headers := parsed.headers;
        data := Some(parsed.data);
        errorMessage := "";
      }
    }

    /** `handleAdd`. */
    method Add()
      modifies this`editingRowIndex, this`isModalOpen
      ensures editingRowIndex == None && isModalOpen
    {
      editingRowIndex := None;
      isModalOpen := true;
    }

    /** `handleEdit`. */
    method Edit(index: int)
      modifies this`editingRowIndex, this`isModalOpen
      ensures editingRowIndex == Some(index) && isModalOpen
    {
      editingRowIndex := Some(index);
      isModalOpen := true;
    }

    /** `handleCloseModal`. */
    method CloseModal()
      modifies this`editingRowIndex, this`isModalOpen
      ensures editingRowIndex == None && !isModalOpen
    {
      isModalOpen := false;
      editingRowIndex := None;
    }

    /** `handleDelete`, with the user's answer to the confirmation as a parameter. */
    method Delete(index: int, confirmed: bool)
      modifies this`data
      ensures data == if old(data).Some? && confirmed then Some(WithoutIndex(old(data).value, index)) else old(data)
    {
      if data.Some? && confirmed {
        data := Some(WithoutIndex(data.value, index));
      }
    }

    /** `handleSave`: an all-blank row is refused with a message and the form stays open;
        otherwise the edited row is replaced or the row appended, and the form closes. */
    method Save(rowData: Row)
      requires data.Some? && editingRowIndex.Some? ==> 0 <= editingRowIndex.value < |data.value|
      modifies this`data, this`errorMessage, this`editingRowIndex, this`isModalOpen
      ensures old(data).Some? && IsEmptyRow(rowData) ==>
        && errorMessage == EmptyRowMessage && data == old(data)
        && editingRowIndex == old(editingRowIndex) && isModalOpen == old(isModalOpen)
      ensures old(data).Some? && !IsEmptyRow(rowData) ==>
        && data == Some(SavedRows(old(data).value, old(editingRowIndex), rowData))
        && errorMessage == old(errorMessage) && editingRowIndex == None && !isModalOpen
      ensures old(data).None? ==> data == None && errorMessage == old(errorMessage) && editingRowIndex == None && !isModalOpen
    {
      if data.Some? {
        if IsEmptyRow(rowData) {
          errorMessage := EmptyRowMessage;
          return;
        }
        data := Some(SavedRows(data.value, editingRowIndex, rowData));
      }
      CloseModal();
    }

    /** `handleView`, with the generated window id and the window size as parameters: a
        window for the row, centred and cascaded by the number already open, on top. */
    method View(index: int, modalId: string, innerWidth: int, innerHeight: int)
      requires Valid() && !IsOpen(openModals, modalId)
      modifies this`openModals, this`nextZIndex
      ensures Valid()
      ensures old(data).None? ==> openModals == old(openModals) && nextZIndex == old(nextZIndex)
      ensures old(data).Some? ==>
        var offset := (|old(openModals)| * CascadeOffset) as real;
        var row := if 0 <= index < |data.value| then Some(data.value[index]) else None;
        && openModals == old(openModals) + [OpenModal(modalId, row, index,
             Position(Centered(innerWidth, ModalWidth) + offset, Centered(innerHeight, ModalHeight) + offset), old(nextZIndex))]
        && nextZIndex == old(nextZIndex) + 1
    {
      if data.Some? {
        var centerX := Centered(innerWidth, ModalWidth);
        var centerY := Centered(innerHeight, ModalHeight);
        var offset := (|openModals| * CascadeOffset) as real;
        var row := if 0 <= index < |data.value| then Some(data.value[index]) else None;
        var newModal := OpenModal(modalId, row, index, Position(centerX + offset, centerY + offset), nextZIndex);
        OpenSpec(openModals, nextZIndex, newModal);
        openModals := openModals + [newModal];
        nextZIndex := nextZIndex + 1;
      }
    }

    /** `handleCloseDetailModal`. */
    method CloseDetailModal(modalId: string)
      requires Valid()
      modifies this`openModals
      ensures Valid()
      ensures openModals == Filter(old(openModals), OtherModal(modalId))
    {
      CloseSpec(openModals, nextZIndex, modalId);
      openModals := Filter(openModals, OtherModal(modalId));
    }

    /** `handleBringToFront`. */
    method BringToFront(modalId: string)
      requires Valid()
      modifies this`openModals, this`nextZIndex
      ensures Valid()
      ensures openModals == WithZIndex(old(openModals), modalId, old(nextZIndex)) && nextZIndex == old(nextZIndex) + 1
    {
      BringToFrontSpec(openModals, nextZIndex, modalId);
      openModals := WithZIndex(openModals, modalId, nextZIndex);
      nextZIndex := nextZIndex + 1;
    }

    /** `handleUpdateModalPosition`. */
    method UpdateModalPosition(modalId: string, position: Position)
      requires Valid()
      modifies this`openModals
      ensures Valid()
      ensures openModals == WithPosition(old(openModals), modalId, position)
    {
      MoveSpec(openModals, nextZIndex, modalId, position);
      openModals := WithPosition(openModals, modalId, position);
    }
  }
}
