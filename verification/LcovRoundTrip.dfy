/** Writing coverage records as LCOV lines and parsing them again gives the records back. */
module LcovRoundTrip {
  import opened Wrappers
  import opened Numbers
  import opened Lcov
  import opened Orders
  import Text

  /** A source, the path it is written as, its record, and the orders in which lines and branches are written. */
  datatype Entry = Entry(source: string, path: string, record: Record, lineOrder: seq<int>, branchOrder: seq<BranchKey>)

  ghost predicate Enumerates<K(!new)>(order: seq<K>, keys: set<K>) {
    Distinct(order) && forall k :: k in order <==> k in keys
  }

  /** A branch identifier that can stand between commas. */
  predicate Writable(branch: string) {
    Text.Strip(branch) != "" && ',' !in branch && Text.OneLine(branch)
  }

  /** A text that can stand for the source after `SF:`; it need not be the source's repository path. */
  predicate PathOf(path: string, source: string, resolve: string -> Option<string>) {
    resolve(path) == Some(source) && Text.OneLine(path) && (path == "" || !Text.IsSpace(path[|path| - 1]))
  }

  ghost predicate EntryOk(e: Entry, resolve: string -> Option<string>) {
    && RecordOk(e.record) && TotalsAgree(e.record)
    && Enumerates(e.lineOrder, e.record.lines.Keys) && Enumerates(e.branchOrder, e.record.branches.Keys)
    && (forall k | k in e.record.branches :: Writable(k.branch))
    && PathOf(e.path, e.source, resolve)
  }

  // ----- Rendering -----

  function Number(n: int): string {
    if n >= 0 then Decimal(n) else "-" + Decimal(-n)
  }

  function LineText(number: int, hits: int): string {
    "DA:" + (Number(number) + "," + Number(hits))
  }

  function TakenText(taken: Option<int>): string {
    if taken.None? then "-" else Number(taken.value)
  }

  function BranchText(k: BranchKey, taken: Option<int>): string {
    "BRDA:" + (Number(k.line) + "," + (Number(k.block) + "," + (k.branch + "," + TakenText(taken))))
  }

  function LineTexts(lines: map<int, int>, order: seq<int>): seq<string> {
    if order == [] then []
    else (if order[0] in lines then [LineText(order[0], lines[order[0]])] else []) + LineTexts(lines, order[1..])
  }

  function BranchTexts(branches: map<BranchKey, Option<int>>, order: seq<BranchKey>): seq<string> {
    if order == [] then []
    else
      (if order[0] in branches then [BranchText(order[0], branches[order[0]])] else [])
      + BranchTexts(branches, order[1..])
  }

  function TotalText(prefix: string, total: Option<int>): seq<string> {
    if total.None? then [] else [prefix + Number(total.value)]
  }

  function TotalTexts(r: Record): seq<string> {
    TotalText("LF:", r.lineTotal) + TotalText("LH:", r.lineCovered)
    + TotalText("BRF:", r.branchTotal) + TotalText("BRH:", r.branchCovered)
  }

  function Body(e: Entry): seq<string> {
    LineTexts(e.record.lines, e.lineOrder) + BranchTexts(e.record.branches, e.branchOrder) + TotalTexts(e.record)
  }

  function RenderEntry(e: Entry): seq<string> {
    ["SF:" + e.path] + Body(e) + ["end_of_record"]
  }

  function Render(entries: seq<Entry>): seq<string> {
    if entries == [] then [] else RenderEntry(entries[0]) + Render(entries[1..])
  }

  // ----- Single lines -----

  lemma {:induction false} ScanConcat(st: State, a: seq<string>, b: seq<string>, resolve: string -> Option<string>)
    requires Scan(st, a, resolve).Ok?
    ensures Scan(st, a + b, resolve) == Scan(Scan(st, a, resolve).value, b, resolve)
    decreases |a|
  {
    if a == [] {
      assert a + b == b;
    } else {
      assert (a + b)[0] == a[0] && (a + b)[1..] == a[1..] + b;
      ScanConcat(Line(st, a[0], resolve).value, a[1..], b, resolve);
    }
  }

  lemma ScanOne(st: State, raw: string, resolve: string -> Option<string>)
    requires Line(st, raw, resolve).Ok?
    ensures Scan(st, [raw], resolve) == Line(st, raw, resolve)
  {
    assert [raw][1..] == [];
  }

  lemma ParseNumber(n: int)
    requires n >= 0
    ensures ParseInt(Number(n)) == Some(n) && ',' !in Number(n) && Text.AllDigits(Number(n))
    ensures Value(Number(n)) == n && Number(n) != "-"
  {
    ParseDecimal(n);
    ValueOfDecimal(n);
    assert '-' !in Number(n);
  }

  /** A data line, already stripped, goes to the record being read. */
  lemma DataLine(st: State, raw: string, resolve: string -> Option<string>)
    requires st.current.Some? && raw != "" && !Text.IsSpace(raw[0]) && !Text.IsSpace(raw[|raw| - 1])
    requires !Text.StartsWith(raw, "TN:") && !Text.StartsWith(raw, "SF:") && raw != "end_of_record"
    requires RecordLine(st.current.value.1, raw).Ok?
    ensures Line(st, raw, resolve)
         == Ok(st.(current := Some((st.current.value.0, RecordLine(st.current.value.1, raw).value))))
  {
  }

  lemma LineTextReads(r: Record, number: int, hits: int)
    requires number > 0 && hits >= 0 && number !in r.lines
    ensures RecordLine(r, LineText(number, hits)) == Ok(r.(lines := r.lines[number := hits]))
  {
    ParseNumber(number);
    ParseNumber(hits);
    var text := LineText(number, hits);
    assert After(text, "DA:") == Number(number) + "," + Number(hits);
    Text.SplitCons(Number(number), ",", Number(hits));
    Text.SplitNone(Number(hits), ",");
  }

  /** What follows the hits of a line, a checksum say, is ignored. */
  lemma ChecksumIsIgnored(r: Record, number: int, hits: int, rest: string)
    requires number > 0 && hits >= 0 && number !in r.lines
    ensures RecordLine(r, LineText(number, hits) + "," + rest) == Ok(r.(lines := r.lines[number := hits]))
  {
    FieldsRead(r, number, hits, []);
    var text := LineText(number, hits) + "," + rest;
    DataText("DA:", Number(number) + "," + (Number(hits) + "," + rest), text);
    Text.SplitCons(Number(number), ",", Number(hits) + "," + rest);
    Text.SplitCons(Number(hits), ",", rest);
    FieldsRead(r, number, hits, Text.Split(rest, ","));
    DataLineKind(r, text);
    hide RecordLine, LineCoverage, Number, Text.Split, Text.StartsWith;
  }

  lemma DataText(prefix: string, rest: string, text: string)
    requires text == prefix + rest
    ensures Text.StartsWith(text, prefix) && After(text, prefix) == rest
  {
  }

  /** The kind of a line with data of lines or branches. */
  lemma DataLineKind(r: Record, line: string)
    ensures Text.StartsWith(line, "DA:") ==> RecordLine(r, line) == LineCoverage(r, Text.Split(After(line, "DA:"), ","))
    ensures Text.StartsWith(line, "BRDA:") ==>
              RecordLine(r, line) == BranchCoverage(r, Text.Split(After(line, "BRDA:"), ","))
  {
    if Text.StartsWith(line, "BRDA:") { assert line[0] == 'B'; }
    hide LineCoverage, BranchCoverage, Text.Split, Summary;
  }

  lemma FieldsRead(r: Record, number: int, hits: int, rest: seq<string>)
    requires number > 0 && hits >= 0 && number !in r.lines
    ensures ',' !in Number(number) && ',' !in Number(hits)
    ensures LineCoverage(r, [Number(number)] + ([Number(hits)] + rest)) == Ok(r.(lines := r.lines[number := hits]))
  {
    ParseNumber(number);
    ParseNumber(hits);
    hide Number, ParseInt;
  }

  lemma BranchFields(a: string, b: string, c: string, d: string)
    requires ',' !in a && ',' !in b && ',' !in c && ',' !in d
    ensures Text.Split(a + "," + (b + "," + (c + "," + d)), ",") == [a, b, c, d]
  {
    hide Text.Split, Text.Find;
    Text.SplitCons(a, ",", b + "," + (c + "," + d));
    Text.SplitCons(b, ",", c + "," + d);
    Text.SplitCons(c, ",", d);
    Text.SplitNone(d, ",");
  }

  lemma TakenReads(taken: Option<int>)
    requires taken.Some? ==> taken.value >= 0
    ensures Taken(TakenText(taken)) == Ok(taken) && ',' !in TakenText(taken)
    ensures TakenText(taken) != "" && !Text.IsSpace(TakenText(taken)[|TakenText(taken)| - 1])
  {
    if taken.Some? {
      ParseNumber(taken.value);
      var s := Number(taken.value);
      assert s[|s| - 1] in s;
    }
  }

  lemma BranchTextReads(r: Record, k: BranchKey, taken: Option<int>)
    requires k.line > 0 && k.block >= 0 && Writable(k.branch) && (taken.Some? ==> taken.value >= 0) && k !in r.branches
    ensures RecordLine(r, BranchText(k, taken)) == Ok(r.(branches := r.branches[k := taken]))
  {
    var text := BranchText(k, taken);
    DataText("BRDA:", Number(k.line) + "," + (Number(k.block) + "," + (k.branch + "," + TakenText(taken))), text);
    ParseNumber(k.line);
    ParseNumber(k.block);
    TakenReads(taken);
    BranchFields(Number(k.line), Number(k.block), k.branch, TakenText(taken));
    DataLineKind(r, text);
    BranchFieldsRead(r, k, taken);
    hide RecordLine, BranchCoverage, Number, TakenText, Text.Split, Text.StartsWith, ParseInt, Taken;
  }

  lemma BranchFieldsRead(r: Record, k: BranchKey, taken: Option<int>)
    requires k.line > 0 && k.block >= 0 && Writable(k.branch) && (taken.Some? ==> taken.value >= 0) && k !in r.branches
    ensures BranchCoverage(r, [Number(k.line), Number(k.block), k.branch, TakenText(taken)])
         == Ok(r.(branches := r.branches[k := taken]))
  {
    ParseNumber(k.line);
    ParseNumber(k.block);
    TakenReads(taken);
    hide Number, ParseInt, TakenText, Taken, Text.Strip;
  }

  // ----- The lines of a record -----

  function With(st: State, source: string, r: Record): State {
    st.(current := Some((source, r)))
  }

  lemma EndsInDigit(prefix: string, n: int)
    requires n >= 0 && prefix != ""
    ensures !Text.IsSpace((prefix + Number(n))[|prefix + Number(n)| - 1])
  {
    ParseNumber(n);
    var s := Number(n);
    assert s[|s| - 1] in s;
    assert (prefix + s)[|prefix + s| - 1] == s[|s| - 1];
  }

  lemma LineTextLine(
      st: State, source: string, r: Record, number: int, hits: int, resolve: string -> Option<string>)
    requires number > 0 && hits >= 0 && number !in r.lines
    ensures Line(With(st, source, r), LineText(number, hits), resolve)
         == Ok(With(st, source, r.(lines := r.lines[number := hits])))
  {
    LineTextReads(r, number, hits);
    var text := LineText(number, hits);
    assert text == "DA:" + Number(number) + "," + Number(hits);
    EndsInDigit("DA:" + Number(number) + ",", hits);
    assert text[0] == 'D';
    DataLine(With(st, source, r), text, resolve);
  }

  /** The parts of a branch line, joined from the left instead of the right. */
  lemma BranchTextEnd(k: BranchKey, taken: Option<int>)
    requires taken.Some? ==> taken.value >= 0
    ensures var text := BranchText(k, taken);
            text[0] == 'B' && text[2] == 'D' && text[|text| - 1] == TakenText(taken)[|TakenText(taken)| - 1]
  {
    TakenReads(taken);
    var tail := k.branch + "," + TakenText(taken);
    var middle := Number(k.block) + "," + tail;
    var rest := Number(k.line) + "," + middle;
    assert tail[|tail| - 1] == TakenText(taken)[|TakenText(taken)| - 1];
    assert middle[|middle| - 1] == tail[|tail| - 1];
    assert rest[|rest| - 1] == middle[|middle| - 1];
  }

  /** What begins like a branch line is no other kind of line. */
  lemma PlainLine(raw: string)
    requires |raw| > 2 && raw[0] == 'B' && raw[2] == 'D'
    ensures !Text.StartsWith(raw, "TN:") && !Text.StartsWith(raw, "SF:") && raw != "end_of_record"
        && !Text.IsSpace(raw[0])
  {
  }

  lemma BranchTextLine(
      st: State, source: string, r: Record, k: BranchKey, taken: Option<int>, resolve: string -> Option<string>)
    requires k.line > 0 && k.block >= 0 && Writable(k.branch) && (taken.Some? ==> taken.value >= 0) && k !in r.branches
    ensures Line(With(st, source, r), BranchText(k, taken), resolve)
         == Ok(With(st, source, r.(branches := r.branches[k := taken])))
  {
    BranchTextReads(r, k, taken);
    TakenReads(taken);
    BranchTextEnd(k, taken);
    PlainLine(BranchText(k, taken));
    hide BranchText, TakenText, RecordLine, Line, Text.StartsWith;
    DataLine(With(st, source, r), BranchText(k, taken), resolve);
  }

  function SomeLines(lines: map<int, int>, order: seq<int>): map<int, int> {
    map n | n in order && n in lines :: lines[n]
  }

  function SomeBranches(branches: map<BranchKey, Option<int>>, order: seq<BranchKey>): map<BranchKey, Option<int>> {
    map k | k in order && k in branches :: branches[k]
  }

  lemma ScanNone(st: State, resolve: string -> Option<string>)
    ensures Scan(st, [], resolve) == Ok(st)
  {
  }

  lemma SomeLinesStep(base: map<int, int>, lines: map<int, int>, order: seq<int>)
    requires order != []
    ensures base + SomeLines(lines, order)
         == (if order[0] in lines then base[order[0] := lines[order[0]]] else base) + SomeLines(lines, order[1..])
  {
    assert order == [order[0]] + order[1..];
  }

  lemma SomeBranchesStep(base: map<BranchKey, Option<int>>, branches: map<BranchKey, Option<int>>,
      order: seq<BranchKey>)
    requires order != []
    ensures base + SomeBranches(branches, order)
         == (if order[0] in branches then base[order[0] := branches[order[0]]] else base)
             + SomeBranches(branches, order[1..])
  {
    assert order == [order[0]] + order[1..];
  }

  lemma {:induction false} LineTextsScan(
      st: State, source: string, r: Record, lines: map<int, int>, order: seq<int>, resolve: string -> Option<string>)
    requires Distinct(order) && forall n | n in order :: n !in r.lines
    requires forall n | n in lines :: n > 0 && lines[n] >= 0
    ensures Scan(With(st, source, r), LineTexts(lines, order), resolve)
         == Ok(With(st, source, r.(lines := r.lines + SomeLines(lines, order))))
    decreases |order|
  {
    hide Line, LineText, Scan;
    if order == [] {
      ScanNone(With(st, source, r), resolve);
      assert r.lines + SomeLines(lines, order) == r.lines;
    } else {
      var n, rest := order[0], order[1..];
      assert n in order && n !in rest && forall k | k in rest :: k in order;
      hide SomeLines;
      SomeLinesStep(r.lines, lines, order);
      if n in lines {
        LineTextLine(st, source, r, n, lines[n], resolve);
        LineTextsScan(st, source, r.(lines := r.lines[n := lines[n]]), lines, rest, resolve);
        ScanCons(With(st, source, r), LineText(n, lines[n]), LineTexts(lines, rest), resolve);
      } else {
        LineTextsScan(st, source, r, lines, rest, resolve);
        assert [] + LineTexts(lines, rest) == LineTexts(lines, rest);
      }
    }
  }

  lemma ScanCons(st: State, raw: string, rest: seq<string>, resolve: string -> Option<string>)
    requires Line(st, raw, resolve).Ok?
    ensures Scan(st, [raw] + rest, resolve) == Scan(Line(st, raw, resolve).value, rest, resolve)
  {
    assert ([raw] + rest)[1..] == rest;
  }

  lemma {:induction false} BranchTextsScan(
      st: State, source: string, r: Record, branches: map<BranchKey, Option<int>>, order: seq<BranchKey>,
      resolve: string -> Option<string>)
    requires Distinct(order) && forall k | k in order :: k !in r.branches
    requires forall k | k in branches :: && k.line > 0 && k.block >= 0 && Writable(k.branch)
                                         && (branches[k].Some? ==> branches[k].value >= 0)
    ensures Scan(With(st, source, r), BranchTexts(branches, order), resolve)
         == Ok(With(st, source, r.(branches := r.branches + SomeBranches(branches, order))))
    decreases |order|
  {
    hide Line, BranchText, Writable, Scan;
    if order == [] {
      ScanNone(With(st, source, r), resolve);
      assert r.branches + SomeBranches(branches, order) == r.branches;
    } else {
      var k, rest := order[0], order[1..];
      assert k in order && k !in rest && forall j | j in rest :: j in order;
      hide SomeBranches;
      SomeBranchesStep(r.branches, branches, order);
      if k in branches {
        BranchTextLine(st, source, r, k, branches[k], resolve);
        BranchTextsScan(st, source, r.(branches := r.branches[k := branches[k]]), branches, rest, resolve);
        ScanCons(With(st, source, r), BranchText(k, branches[k]), BranchTexts(branches, rest), resolve);
      } else {
        BranchTextsScan(st, source, r, branches, rest, resolve);
        assert [] + BranchTexts(branches, rest) == BranchTexts(branches, rest);
      }
    }
  }

  /** Scanning a total that is written only when it is known. */
  lemma TotalTextScan(
      st: State, source: string, r: Record, next: Record, prefix: string, total: Option<int>,
      resolve: string -> Option<string>)
    requires total.None? ==> next == r
    requires total.Some? ==> total.value >= 0 && RecordLine(r, prefix + Number(total.value)) == Ok(next)
    requires prefix in {"LF:", "LH:", "BRF:", "BRH:"}
    ensures Scan(With(st, source, r), TotalText(prefix, total), resolve) == Ok(With(st, source, next))
  {
    if total.Some? {
      var raw := prefix + Number(total.value);
      EndsInDigit(prefix, total.value);
      hide RecordLine, Number;
      assert raw[0] == prefix[0];
      DataLine(With(st, source, r), raw, resolve);
      ScanOne(With(st, source, r), raw, resolve);
    }
  }

  lemma LineTotalReads(r: Record, total: int)
    requires total >= 0 && r.lineTotal.None?
    ensures RecordLine(r, "LF:" + Number(total)) == Ok(r.(lineTotal := Some(total)))
  {
    ParseNumber(total);
    hide LineCoverage, BranchCoverage, Text.Split, Number, Value, Text.AllDigits;
    var raw := "LF:" + Number(total);
    assert raw[0] == 'L' && raw[1] == 'F' && After(raw, "LF:") == Number(total);
  }

  lemma LineCoveredReads(r: Record, total: int)
    requires total >= 0 && r.lineCovered.None?
    ensures RecordLine(r, "LH:" + Number(total)) == Ok(r.(lineCovered := Some(total)))
  {
    ParseNumber(total);
    hide LineCoverage, BranchCoverage, Text.Split, Number, Value, Text.AllDigits;
    var raw := "LH:" + Number(total);
    assert raw[0] == 'L' && raw[1] == 'H' && After(raw, "LH:") == Number(total);
  }

  lemma SummaryReads(total: int)
    requires total >= 0
    ensures Summary(None, Number(total)) == Ok(Some(total))
  {
    ParseNumber(total);
  }

  lemma BranchTotalLine(r: Record, line: string)
    requires |line| > 3 && line[..4] == "BRF:" && r.branchTotal.None? && Summary(None, line[4..]).Ok?
    ensures RecordLine(r, line) == Ok(r.(branchTotal := Summary(None, line[4..]).value))
  {
    hide Summary, LineCoverage, BranchCoverage, Text.Split;
    assert line[0] == 'B' && line[2] == 'F' && After(line, "BRF:") == line[4..];
  }

  lemma BranchCoveredLine(r: Record, line: string)
    requires |line| > 3 && line[..4] == "BRH:" && r.branchCovered.None? && Summary(None, line[4..]).Ok?
    ensures RecordLine(r, line) == Ok(r.(branchCovered := Summary(None, line[4..]).value))
  {
    hide Summary, LineCoverage, BranchCoverage, Text.Split;
    assert line[0] == 'B' && line[2] == 'H' && After(line, "BRH:") == line[4..];
  }

  lemma BranchTotalReads(r: Record, total: int)
    requires total >= 0 && r.branchTotal.None?
    ensures RecordLine(r, "BRF:" + Number(total)) == Ok(r.(branchTotal := Some(total)))
  {
    SummaryReads(total);
    var line := "BRF:" + Number(total);
    assert line[4..] == Number(total);
    hide Summary, RecordLine, Number;
    BranchTotalLine(r, line);
  }

  lemma BranchCoveredReads(r: Record, total: int)
    requires total >= 0 && r.branchCovered.None?
    ensures RecordLine(r, "BRH:" + Number(total)) == Ok(r.(branchCovered := Some(total)))
  {
    SummaryReads(total);
    var line := "BRH:" + Number(total);
    assert line[4..] == Number(total);
    hide Summary, RecordLine, Number;
    BranchCoveredLine(r, line);
  }

  lemma TotalTextsScan(st: State, source: string, r: Record, record: Record, resolve: string -> Option<string>)
    requires TotalsAgree(record)
    requires r.lineTotal.None? && r.lineCovered.None? && r.branchTotal.None? && r.branchCovered.None?
    ensures Scan(With(st, source, r), TotalTexts(record), resolve)
         == Ok(With(st, source, r.(lineTotal := record.lineTotal, lineCovered := record.lineCovered,
                                   branchTotal := record.branchTotal, branchCovered := record.branchCovered)))
  {
    hide Scan, TotalText, RecordLine;
    var a := TotalText("LF:", record.lineTotal);
    var b := TotalText("LH:", record.lineCovered);
    var c := TotalText("BRF:", record.branchTotal);
    var d := TotalText("BRH:", record.branchCovered);
    var r1 := r.(lineTotal := record.lineTotal);
    var r2 := r1.(lineCovered := record.lineCovered);
    var r3 := r2.(branchTotal := record.branchTotal);
    var r4 := r3.(branchCovered := record.branchCovered);
    if record.lineTotal.Some? { LineTotalReads(r, record.lineTotal.value); }
    if record.lineCovered.Some? { LineCoveredReads(r1, record.lineCovered.value); }
    if record.branchTotal.Some? { BranchTotalReads(r2, record.branchTotal.value); }
    if record.branchCovered.Some? { BranchCoveredReads(r3, record.branchCovered.value); }
    TotalTextScan(st, source, r, r1, "LF:", record.lineTotal, resolve);
    TotalTextScan(st, source, r1, r2, "LH:", record.lineCovered, resolve);
    TotalTextScan(st, source, r2, r3, "BRF:", record.branchTotal, resolve);
    TotalTextScan(st, source, r3, r4, "BRH:", record.branchCovered, resolve);
    ScanConcat(With(st, source, r), a, b, resolve);
    ScanConcat(With(st, source, r), a + b, c, resolve);
    ScanConcat(With(st, source, r), a + b + c, d, resolve);
  }

  // ----- Records and reports -----

  lemma OpeningLine(st: State, path: string, source: string, resolve: string -> Option<string>)
    requires st.current.None? && source !in st.reports && PathOf(path, source, resolve)
    ensures Line(st, "SF:" + path, resolve) == Ok(With(st, source, NEW_RECORD))
  {
    var raw := "SF:" + path;
    assert raw[0] == 'S' && (path != "" ==> raw[|raw| - 1] == path[|path| - 1]);
    assert Text.Strip(raw) == raw && After(raw, "SF:") == path;
  }

  lemma ClosingLine(st: State, source: string, r: Record, resolve: string -> Option<string>)
    requires TotalsAgree(r)
    ensures Line(With(st, source, r), "end_of_record", resolve) == Ok(State(st.reports[source := r], None))
  {
    assert Text.Strip("end_of_record") == "end_of_record";
  }

  lemma AllLines(lines: map<int, int>, order: seq<int>)
    requires Enumerates(order, lines.Keys)
    ensures Distinct(order) && map[] + SomeLines(lines, order) == lines
  {
  }

  lemma AllBranches(branches: map<BranchKey, Option<int>>, order: seq<BranchKey>)
    requires Enumerates(order, branches.Keys)
    ensures Distinct(order) && map[] + SomeBranches(branches, order) == branches
  {
  }

  lemma LinesBody(st: State, e: Entry, resolve: string -> Option<string>)
    requires EntryOk(e, resolve)
    ensures Scan(With(st, e.source, NEW_RECORD), LineTexts(e.record.lines, e.lineOrder), resolve)
         == Ok(With(st, e.source, NEW_RECORD.(lines := e.record.lines)))
  {
    hide Scan, LineTexts, SomeLines, With, Enumerates, Distinct, TotalsAgree, Writable, PathOf;
    AllLines(e.record.lines, e.lineOrder);
    LineTextsScan(st, e.source, NEW_RECORD, e.record.lines, e.lineOrder, resolve);
  }

  lemma BranchesBody(st: State, e: Entry, r: Record, resolve: string -> Option<string>)
    requires EntryOk(e, resolve) && r.branches == map[]
    ensures Scan(With(st, e.source, r), BranchTexts(e.record.branches, e.branchOrder), resolve)
         == Ok(With(st, e.source, r.(branches := e.record.branches)))
  {
    hide Scan, BranchTexts, SomeBranches, With, Enumerates, Distinct, TotalsAgree, Writable, PathOf;
    AllBranches(e.record.branches, e.branchOrder);
    BranchTextsScan(st, e.source, r, e.record.branches, e.branchOrder, resolve);
  }

  /** Scanning the lines between a record's first and last fills in the record. */
  lemma BodyScan(st: State, e: Entry, resolve: string -> Option<string>)
    requires EntryOk(e, resolve)
    ensures Scan(With(st, e.source, NEW_RECORD), Body(e), resolve) == Ok(With(st, e.source, e.record))
  {
    var r := e.record;
    var a, b, c := LineTexts(r.lines, e.lineOrder), BranchTexts(r.branches, e.branchOrder), TotalTexts(r);
    LinesBody(st, e, resolve);
    BranchesBody(st, e, NEW_RECORD.(lines := r.lines), resolve);
    TotalTextsScan(st, e.source, NEW_RECORD.(lines := r.lines, branches := r.branches), r, resolve);
    hide EntryOk, Scan, LineTexts, BranchTexts, TotalTexts;
    ScanConcat(With(st, e.source, NEW_RECORD), a, b, resolve);
    ScanConcat(With(st, e.source, NEW_RECORD), a + b, c, resolve);
  }

  /** Scanning the rendering of a record adds the record. */
  lemma EntryScan(st: State, e: Entry, resolve: string -> Option<string>)
    requires EntryOk(e, resolve) && st.current.None? && e.source !in st.reports
    ensures Scan(st, RenderEntry(e), resolve) == Ok(State(st.reports[e.source := e.record], None))
  {
    OpeningLine(st, e.path, e.source, resolve);
    ClosingLine(st, e.source, e.record, resolve);
    BodyScan(st, e, resolve);
    hide Line, Scan, Body;
    ScanOne(st, "SF:" + e.path, resolve);
    ScanOne(With(st, e.source, e.record), "end_of_record", resolve);
    ScanConcat(st, ["SF:" + e.path], Body(e), resolve);
    ScanConcat(st, ["SF:" + e.path] + Body(e), ["end_of_record"], resolve);
  }

  /** The map that a list of entries with distinct sources describes. */
  function Reports(entries: seq<Entry>): (r: map<string, Record>)
    ensures forall s :: s in r <==> exists e :: e in entries && e.source == s
  {
    if entries == [] then map[]
    else
      var n := |entries| - 1;
      assert entries == entries[..n] + [entries[n]];
      Reports(entries[..n])[entries[n].source := entries[n].record]
  }

  ghost predicate DistinctSources(entries: seq<Entry>) {
    forall i, j | 0 <= i < j < |entries| :: entries[i].source != entries[j].source
  }

  lemma {:induction false} RenderSnoc(entries: seq<Entry>, e: Entry)
    ensures Render(entries + [e]) == Render(entries) + RenderEntry(e)
  {
    hide RenderEntry;
    if entries == [] {
      assert [e][1..] == [] && entries + [e] == [e];
    } else {
      assert (entries + [e])[1..] == entries[1..] + [e];
      RenderSnoc(entries[1..], e);
    }
  }

  /**
    Round trip: rendering any reports in any order, each record's lines and branches in any
    order, and scanning the lines gives exactly those reports.
   */
  lemma {:induction false} RenderThenScan(entries: seq<Entry>, resolve: string -> Option<string>)
    requires DistinctSources(entries) && forall e | e in entries :: EntryOk(e, resolve)
    ensures Scan(START, Render(entries), resolve) == Ok(State(Reports(entries), None))
  {
    hide RenderEntry, Line;
    if entries != [] {
      var n := |entries| - 1;
      var e := entries[n];
      assert entries == entries[..n] + [e];
      RenderThenScan(entries[..n], resolve);
      RenderSnoc(entries[..n], e);
      ScanConcat(START, Render(entries[..n]), RenderEntry(e), resolve);
      ReportsSnoc(entries[..n], e);
      EntryScan(State(Reports(entries[..n]), None), e, resolve);
    }
  }

  /** A record that can be written as LCOV lines and found again under its source. */
  ghost predicate Renderable(s: string, r: Record, resolve: string -> Option<string>) {
    && RecordOk(r) && TotalsAgree(r) && (forall k | k in r.branches :: Writable(k.branch))
    && exists path :: PathOf(path, s, resolve)
  }

  /** Every map of such records can be rendered: some list of entries describes it. */
  lemma {:induction false} EveryReportIsRenderable(reports: map<string, Record>, resolve: string -> Option<string>)
    returns (entries: seq<Entry>)
    requires forall s | s in reports :: Renderable(s, reports[s], resolve)
    ensures DistinctSources(entries) && (forall e | e in entries :: EntryOk(e, resolve)) && Reports(entries) == reports
    decreases |reports|
  {
    hide Renderable, EntryOk;
    if reports == map[] {
      entries := [];
    } else {
      var s :| s in reports;
      var rest := map t | t in reports && t != s :: reports[t];
      assert rest.Keys == reports.Keys - {s} && rest[s := reports[s]] == reports;
      assert |rest.Keys| < |reports.Keys|;
      var earlier := EveryReportIsRenderable(rest, resolve);
      var e := EntryFor(s, reports[s], resolve);
      entries := AddEntry(earlier, e, resolve);
    }
  }

  lemma AddEntry(earlier: seq<Entry>, e: Entry, resolve: string -> Option<string>) returns (entries: seq<Entry>)
    requires DistinctSources(earlier) && e.source !in Reports(earlier)
    requires EntryOk(e, resolve) && forall f | f in earlier :: EntryOk(f, resolve)
    ensures DistinctSources(entries) && forall f | f in entries :: EntryOk(f, resolve)
    ensures Reports(entries) == Reports(earlier)[e.source := e.record]
  {
    hide EntryOk;
    ReportsSnoc(earlier, e);
    forall i | 0 <= i < |earlier| ensures earlier[i].source != e.source {
      assert earlier[i] in earlier;
    }
    entries := earlier + [e];
  }

  lemma EntryFor(s: string, r: Record, resolve: string -> Option<string>) returns (e: Entry)
    requires Renderable(s, r, resolve)
    ensures EntryOk(e, resolve) && e.source == s && e.record == r
  {
    hide RecordOk, TotalsAgree, Writable;
    var path :| PathOf(path, s, resolve);
    var lineOrder := Listing(r.lines.Keys);
    var branchOrder := Listing(r.branches.Keys);
    e := Entry(s, path, r, lineOrder, branchOrder);
  }

  lemma ReportsSnoc(entries: seq<Entry>, e: Entry)
    ensures Reports(entries + [e]) == Reports(entries)[e.source := e.record]
  {
    assert (entries + [e])[..|entries|] == entries;
  }

  lemma {:induction false} Listing<K(!new)>(keys: set<K>) returns (order: seq<K>)
    ensures Enumerates(order, keys)
    decreases |keys|
  {
    if keys == {} {
      order := [];
    } else {
      var k :| k in keys;
      var rest := Listing(keys - {k});
      order := [k] + rest;
    }
  }

  // ----- The text of a report -----

  lemma OneLineNumber(n: int)
    ensures Text.OneLine(Number(n))
  {
  }

  lemma {:induction false} LineTextsOneLine(lines: map<int, int>, order: seq<int>)
    ensures forall l | l in LineTexts(lines, order) :: Text.OneLine(l)
  {
    if order != [] {
      LineTextsOneLine(lines, order[1..]);
      OneLineNumber(order[0]);
      if order[0] in lines { OneLineNumber(lines[order[0]]); }
    }
  }

  lemma BranchTextOneLine(k: BranchKey, taken: Option<int>)
    requires Writable(k.branch)
    ensures Text.OneLine(BranchText(k, taken))
  {
    OneLineNumber(k.line);
    OneLineNumber(k.block);
    if taken.Some? { OneLineNumber(taken.value); }
    hide Number;
    assert Text.OneLine(TakenText(taken));
  }

  lemma {:induction false} BranchTextsOneLine(branches: map<BranchKey, Option<int>>, order: seq<BranchKey>)
    requires forall k | k in branches :: Writable(k.branch)
    ensures forall l | l in BranchTexts(branches, order) :: Text.OneLine(l)
  {
    if order != [] {
      BranchTextsOneLine(branches, order[1..]);
      if order[0] in branches { BranchTextOneLine(order[0], branches[order[0]]); }
    }
  }

  lemma TotalTextOneLine(prefix: string, total: Option<int>)
    requires Text.OneLine(prefix)
    ensures forall l | l in TotalText(prefix, total) :: Text.OneLine(l)
  {
    if total.Some? { OneLineNumber(total.value); }
    hide Number;
  }

  lemma EntryOneLine(e: Entry, resolve: string -> Option<string>)
    requires EntryOk(e, resolve)
    ensures forall l | l in RenderEntry(e) :: Text.OneLine(l)
  {
    LineTextsOneLine(e.record.lines, e.lineOrder);
    BranchTextsOneLine(e.record.branches, e.branchOrder);
    TotalTextOneLine("LF:", e.record.lineTotal);
    TotalTextOneLine("LH:", e.record.lineCovered);
    TotalTextOneLine("BRF:", e.record.branchTotal);
    TotalTextOneLine("BRH:", e.record.branchCovered);
    assert Text.OneLine("SF:" + e.path) && Text.OneLine("end_of_record");
    hide LineTexts, BranchTexts, TotalText, Text.OneLine, RecordOk, TotalsAgree;
  }

  lemma {:induction false} RenderOneLine(entries: seq<Entry>, resolve: string -> Option<string>)
    requires forall e | e in entries :: EntryOk(e, resolve)
    ensures forall l | l in Render(entries) :: Text.OneLine(l)
  {
    hide RenderEntry, EntryOk, Text.OneLine;
    if entries != [] {
      EntryOneLine(entries[0], resolve);
      RenderOneLine(entries[1..], resolve);
    }
  }

  /** The round trip on texts: reading what was written, line breaks included, gives exactly the reports. */
  lemma RenderThenRead(entries: seq<Entry>, resolve: string -> Option<string>)
    requires DistinctSources(entries) && forall e | e in entries :: EntryOk(e, resolve)
    ensures Scan(START, Text.SplitLines(Text.Unlines(Render(entries))), resolve) == Ok(State(Reports(entries), None))
  {
    RenderOneLine(entries, resolve);
    Text.SplitUnlines(Render(entries));
    RenderThenScan(entries, resolve);
  }

  // ----- What is read can be written -----

  predicate RecordWritable(r: Record) {
    RecordOk(r) && forall k | k in r.branches :: Writable(k.branch)
  }

  ghost predicate StateWritable(st: State, resolve: string -> Option<string>) {
    && (forall s | s in st.reports :: Renderable(s, st.reports[s], resolve))
    && (st.current.Some? ==> && RecordWritable(st.current.value.1)
                             && exists path :: PathOf(path, st.current.value.0, resolve))
  }

  lemma BranchWritable(r: Record, line: string)
    requires RecordWritable(r) && Text.OneLine(line)
    requires BranchCoverage(r, Text.Split(line, ",")).Ok?
    ensures RecordWritable(BranchCoverage(r, Text.Split(line, ",")).value)
  {
    var fields := Text.Split(line, ",");
    BranchCoverageOk(r, fields);
    Text.SplitParts(line, ",");
    hide Text.Split, Text.Strip;
    assert fields[2] in fields && Text.OneLine(fields[2]);
  }

  lemma RecordLineWritable(r: Record, line: string)
    requires RecordWritable(r) && Text.OneLine(line) && RecordLine(r, line).Ok?
    ensures RecordWritable(RecordLine(r, line).value)
  {
    RecordLineOk(r, line);
    RecordLineCases(r, line);
    if Text.StartsWith(line, "DA:") {
      LineKeepsBranches(r, Text.Split(After(line, "DA:"), ","));
    } else if Text.StartsWith(line, "BRDA:") {
      assert forall c | c in After(line, "BRDA:") :: c in line;
      BranchWritable(r, After(line, "BRDA:"));
    }
    hide RecordLine, LineCoverage, BranchCoverage, Text.Split, Text.StartsWith, RecordOk, Writable, Text.OneLine;
  }

  lemma LineKeepsBranches(r: Record, fields: seq<string>)
    requires LineCoverage(r, fields).Ok?
    ensures LineCoverage(r, fields).value.branches == r.branches
  {
  }

  lemma SourceHasPath(line: string, source: string, resolve: string -> Option<string>)
    requires Text.OneLine(line) && Text.StartsWith(line, "SF:") && !Text.IsSpace(line[|line| - 1])
    requires resolve(After(line, "SF:")) == Some(source)
    ensures PathOf(After(line, "SF:"), source, resolve)
  {
    var path := After(line, "SF:");
    assert forall c | c in path :: c in line;
    if path != "" { assert path[|path| - 1] == line[|line| - 1]; }
  }

  lemma LineWritable(st: State, raw: string, resolve: string -> Option<string>)
    requires StateWritable(st, resolve) && Text.OneLine(raw) && Line(st, raw, resolve).Ok?
    ensures StateWritable(Line(st, raw, resolve).value, resolve)
  {
    var line := Text.Strip(raw);
    Text.StripPart(raw);
    assert Text.OneLine(line);
    if line != "" && Text.StartsWith(line, "SF:") && resolve(After(line, "SF:")).Some? {
      SourceHasPath(line, resolve(After(line, "SF:")).value, resolve);
    }
    if st.current.Some? && RecordLine(st.current.value.1, line).Ok? { RecordLineWritable(st.current.value.1, line); }
    hide RecordLine, Text.Strip, Text.OneLine, PathOf, Writable, TotalsAgree, RecordOk;
  }

  lemma {:induction false} ScanWritable(st: State, lines: seq<string>, resolve: string -> Option<string>)
    requires StateWritable(st, resolve) && (forall l | l in lines :: Text.OneLine(l)) && Scan(st, lines, resolve).Ok?
    ensures StateWritable(Scan(st, lines, resolve).value, resolve)
    decreases |lines|
  {
    hide StateWritable, Line, Text.OneLine;
    if lines != [] {
      LineWritable(st, lines[0], resolve);
      ScanWritable(Line(st, lines[0], resolve).value, lines[1..], resolve);
    }
  }

  ghost predicate AllRenderable(reports: map<string, Record>, resolve: string -> Option<string>) {
    forall s | s in reports :: Renderable(s, reports[s], resolve)
  }

  /**
    The reader reaches exactly the renderable maps: some text is read as the given reports if and
    only if each of them can be written for its source.
   */
  lemma ReadableExactlyRenderable(reports: map<string, Record>, resolve: string -> Option<string>)
    ensures (exists text :: Scan(START, Text.SplitLines(text), resolve) == Ok(State(reports, None)))
       <==> AllRenderable(reports, resolve)
  {
    hide Renderable, Scan, Text.SplitLines;
    if AllRenderable(reports, resolve) {
      var entries := EveryReportIsRenderable(reports, resolve);
      RenderThenRead(entries, resolve);
    }
    forall text | Scan(START, Text.SplitLines(text), resolve) == Ok(State(reports, None))
      ensures AllRenderable(reports, resolve)
    {
      ScanWritable(START, Text.SplitLines(text), resolve);
    }
  }
}
