/** scripts/check_changed_coverage.py: the LCOV report parser. */
module Lcov {
  import opened Wrappers
  import opened Numbers
  import Text

  datatype BranchKey = BranchKey(line: int, block: int, branch: string)

  datatype Record = Record(
    lines: map<int, int>, branches: map<BranchKey, Option<int>>,
    lineTotal: Option<int>, lineCovered: Option<int>, branchTotal: Option<int>, branchCovered: Option<int>)

  const NEW_RECORD := Record(map[], map[], None, None, None, None)

  // ----- One line of a record -----

  /** `line.removeprefix(prefix)` for a line that has the prefix. */
  function After(line: string, prefix: string): string
    requires Text.StartsWith(line, prefix)
  {
    line[|prefix|..]
  }

  function LineCoverage(r: Record, fields: seq<string>): Result<Record> {
    if |fields| < 2 then Err("malformed LCOV line coverage")
    else
      match (ParseInt(fields[0]), ParseInt(fields[1]))
      case (Some(number), Some(hits)) =>
        if number <= 0 || hits < 0 || number in r.lines then Err("conflicting LCOV line coverage")
        else Ok(r.(lines := r.lines[number := hits]))
      case _ => Err("malformed LCOV line coverage")
  }

  function Taken(text: string): Result<Option<int>> {
    if text == "-" then Ok(None)
    else
      var n := ParseInt(text);
      if n.None? then Err("malformed LCOV branch coverage") else Ok(n)
  }

  function BranchCoverage(r: Record, fields: seq<string>): Result<Record> {
    if |fields| != 4 || Text.Strip(fields[2]) == "" then Err("malformed LCOV branch coverage")
    else
      match (ParseInt(fields[0]), ParseInt(fields[1]), Taken(fields[3]))
      case (Some(number), Some(block), Ok(taken)) =>
        var key := BranchKey(number, block, fields[2]);
        if number <= 0 || block < 0 || (taken.Some? && taken.value < 0) || key in r.branches then
          Err("conflicting LCOV branch coverage")
        else Ok(r.(branches := r.branches[key := taken]))
      case _ => Err("malformed LCOV branch coverage")
  }

  /** A summary total, given once. */
  function Summary(current: Option<int>, text: string): Result<Option<int>> {
    if !Text.AllDigits(text) then Err("malformed LCOV summary")
    else if current.Some? then Err("conflicting LCOV summary")
    else Ok(Some(Value(text)))
  }

  /** `_parse_record_line`. */
  function RecordLine(r: Record, line: string): Result<Record> {
    if Text.StartsWith(line, "DA:") then LineCoverage(r, Text.Split(After(line, "DA:"), ","))
    else if Text.StartsWith(line, "BRDA:") then BranchCoverage(r, Text.Split(After(line, "BRDA:"), ","))
    else if Text.StartsWith(line, "LF:") then
      match Summary(r.lineTotal, After(line, "LF:")) case Ok(n) => Ok(r.(lineTotal := n)) case Err(e) => Err(e)
    else if Text.StartsWith(line, "LH:") then
      match Summary(r.lineCovered, After(line, "LH:")) case Ok(n) => Ok(r.(lineCovered := n)) case Err(e) => Err(e)
    else if Text.StartsWith(line, "BRF:") then
      match Summary(r.branchTotal, After(line, "BRF:")) case Ok(n) => Ok(r.(branchTotal := n)) case Err(e) => Err(e)
    else if Text.StartsWith(line, "BRH:") then
      match Summary(r.branchCovered, After(line, "BRH:")) case Ok(n) => Ok(r.(branchCovered := n)) case Err(e) => Err(e)
    else if Text.StartsWith(line, "FN:") || Text.StartsWith(line, "FNDA:") || Text.StartsWith(line, "FNF:")
            || Text.StartsWith(line, "FNH:") then Ok(r)
    else Err("unsupported LCOV record line")
  }

  // ----- The recomputed totals -----

  function CoveredLines(r: Record): nat {
    |set k | k in r.lines && r.lines[k] > 0|
  }

  function CoveredBranches(r: Record): nat {
    |set k | k in r.branches && r.branches[k].Some? && r.branches[k].value > 0|
  }

  /** `_validate_record`: a declared total is the recomputed one. */
  predicate TotalsAgree(r: Record) {
    && (r.lineTotal.Some? ==> r.lineTotal.value == |r.lines|)
    && (r.lineCovered.Some? ==> r.lineCovered.value == CoveredLines(r))
    && (r.branchTotal.Some? ==> r.branchTotal.value == |r.branches|)
    && (r.branchCovered.Some? ==> r.branchCovered.value == CoveredBranches(r))
  }

  // ----- The state machine over the lines of a report -----

  /** The sources finished so far, and the one being read. */
  datatype State = State(reports: map<string, Record>, current: Option<(string, Record)>)

  /** One turn of the loop; `resolve` is the repository path of a source, if it has one. */
  function Line(st: State, raw: string, resolve: string -> Option<string>): Result<State> {
    var line := Text.Strip(raw);
    if line == "" || Text.StartsWith(line, "TN:") then Ok(st)
    else if Text.StartsWith(line, "SF:") then
      if st.current.Some? then Err("LCOV record missing end_of_record")
      else
        match resolve(After(line, "SF:"))
        case None => Err("LCOV source is not a current regular file")
        case Some(source) =>
          if source in st.reports then Err("conflicting duplicate LCOV source")
          else Ok(st.(current := Some((source, NEW_RECORD))))
    else if line == "end_of_record" then
      match st.current
      case None => Err("LCOV end_of_record has no source")
      case Some((source, record)) =>
        if TotalsAgree(record) then Ok(State(st.reports[source := record], None)) else Err("conflicting LCOV summary")
    else
      match st.current
      case None => Err("LCOV data is outside a source record")
      case Some((source, record)) =>
        match RecordLine(record, line)
        case Ok(next) => Ok(st.(current := Some((source, next))))
        case Err(e) => Err(e)
  }

  function Scan(st: State, lines: seq<string>, resolve: string -> Option<string>): Result<State>
    decreases |lines|
  {
    if lines == [] then Ok(st)
    else
      match Line(st, lines[0], resolve)
      case Err(e) => Err(e)
      case Ok(next) => Scan(next, lines[1..], resolve)
  }

  const START := State(map[], None)

  /** `_parse_lcov`, over the text of the report. */
  method Parse(text: string, resolve: string -> Option<string>) returns (r: Result<map<string, Record>>)
    ensures var scan := Scan(START, Text.SplitLines(text), resolve);
            && (r.Ok? <==> scan.Ok? && scan.value.current.None? && scan.value.reports != map[])
            && (r.Ok? ==> r.value == scan.value.reports)
  {
    var lines := Text.SplitLines(text);
    var st := START;
    for i := 0 to |lines|
      invariant Scan(st, lines[i..], resolve) == Scan(START, lines, resolve)
    {
      assert lines[i..][0] == lines[i] && lines[i..][1..] == lines[i + 1..];
      var next := Line(st, lines[i], resolve);
      if next.Err? { return Err(next.message); }
      st := next.value;
    }
    if st.current.Some? { return Err("LCOV record is missing end_of_record"); }
    if st.reports == map[] { return Err("LCOV report contains no source records"); }
    return Ok(st.reports);
  }

  // ----- What an accepted report satisfies -----

  predicate RecordOk(r: Record) {
    && (forall n | n in r.lines :: n > 0 && r.lines[n] >= 0)
    && (forall k | k in r.branches ::
          k.line > 0 && k.block >= 0 && Text.Strip(k.branch) != ""
              && (r.branches[k].Some? ==> r.branches[k].value >= 0))
  }

  predicate StateOk(st: State) {
    && (forall s | s in st.reports :: RecordOk(st.reports[s]) && TotalsAgree(st.reports[s]))
    && (st.current.Some? ==> st.current.value.0 !in st.reports && RecordOk(st.current.value.1))
  }

  /** The lines that open a record. */
  function Opened(lines: seq<string>): nat {
    if lines == [] then 0
    else (if Text.StartsWith(Text.Strip(lines[0]), "SF:") then 1 else 0) + Opened(lines[1..])
  }

  function Begun(st: State): nat {
    |st.reports| + if st.current.Some? then 1 else 0
  }

  lemma LineCoverageOk(r: Record, fields: seq<string>)
    requires RecordOk(r) && LineCoverage(r, fields).Ok?
    ensures RecordOk(LineCoverage(r, fields).value)
  {
  }

  lemma BranchCoverageOk(r: Record, fields: seq<string>)
    requires RecordOk(r) && BranchCoverage(r, fields).Ok?
    ensures RecordOk(BranchCoverage(r, fields).value)
  {
  }

  /** Which line of a record it is decides which of its parts the line may change. */
  lemma RecordLineCases(r: Record, line: string)
    requires RecordLine(r, line).Ok?
    ensures var next := RecordLine(r, line);
            if Text.StartsWith(line, "DA:") then next == LineCoverage(r, Text.Split(After(line, "DA:"), ","))
            else if Text.StartsWith(line, "BRDA:") then next == BranchCoverage(r, Text.Split(After(line, "BRDA:"), ","))
            else next.value.lines == r.lines && next.value.branches == r.branches
  {
    hide LineCoverage, BranchCoverage, Text.Split, Summary;
  }

  lemma RecordLineOk(r: Record, line: string)
    requires RecordOk(r) && RecordLine(r, line).Ok?
    ensures RecordOk(RecordLine(r, line).value)
  {
    RecordLineCases(r, line);
    if Text.StartsWith(line, "DA:") {
      LineCoverageOk(r, Text.Split(After(line, "DA:"), ","));
    } else if Text.StartsWith(line, "BRDA:") {
      BranchCoverageOk(r, Text.Split(After(line, "BRDA:"), ","));
    }
    hide RecordLine, LineCoverage, BranchCoverage, Text.Split, Text.StartsWith;
  }

  lemma LineOk(st: State, raw: string, resolve: string -> Option<string>)
    requires StateOk(st) && Line(st, raw, resolve).Ok?
    ensures StateOk(Line(st, raw, resolve).value)
    ensures Begun(Line(st, raw, resolve).value) == Begun(st) + Opened([raw])
  {
    var line := Text.Strip(raw);
    assert Opened([raw]) == if Text.StartsWith(line, "SF:") then 1 else 0;
    if st.current.Some? && RecordLine(st.current.value.1, line).Ok? { RecordLineOk(st.current.value.1, line); }
  }

  lemma {:induction false} ScanOk(st: State, lines: seq<string>, resolve: string -> Option<string>)
    requires StateOk(st) && Scan(st, lines, resolve).Ok?
    ensures StateOk(Scan(st, lines, resolve).value)
    ensures Begun(Scan(st, lines, resolve).value) == Begun(st) + Opened(lines)
    decreases |lines|
  {
    hide StateOk, Begun, Line, Text.Strip;
    if lines != [] {
      LineOk(st, lines[0], resolve);
      ScanOk(Line(st, lines[0], resolve).value, lines[1..], resolve);
    }
  }

  /**
    Every accepted report opens each of its sources exactly once, and every total it declares is
    the one recomputed from its lines.
   */
  lemma AcceptedReportIsConsistent(lines: seq<string>, resolve: string -> Option<string>)
    requires Scan(START, lines, resolve).Ok? && Scan(START, lines, resolve).value.current.None?
    ensures var reports := Scan(START, lines, resolve).value.reports;
            && |reports| == Opened(lines)
            && forall s | s in reports :: RecordOk(reports[s]) && TotalsAgree(reports[s])
  {
    ScanOk(START, lines, resolve);
  }

  // ----- What one line adds, and what is counted -----

  /**
    A data line adds one line or one branch that was not there; a total is given at most once;
    nothing else changes.
   */
  lemma RecordLineAddsOne(r: Record, line: string)
    requires RecordLine(r, line).Ok?
    ensures var next := RecordLine(r, line).value;
            if "DA:" <= line then
              exists n | n in next.lines :: n !in r.lines && next == r.(lines := r.lines[n := next.lines[n]])
            else if "BRDA:" <= line then
              exists k | k in next.branches ::
                k !in r.branches && next == r.(branches := r.branches[k := next.branches[k]])
            else if "LF:" <= line then
              r.lineTotal.None? && next.lineTotal.Some? && next == r.(lineTotal := next.lineTotal)
            else if "LH:" <= line then
              r.lineCovered.None? && next.lineCovered.Some? && next == r.(lineCovered := next.lineCovered)
            else if "BRF:" <= line then
              r.branchTotal.None? && next.branchTotal.Some? && next == r.(branchTotal := next.branchTotal)
            else if "BRH:" <= line then
              r.branchCovered.None? && next.branchCovered.Some? && next == r.(branchCovered := next.branchCovered)
            else next == r
  {
    hide Text.Split, Value, ParseInt, Text.Strip, Text.AllDigits;
    if "DA:" <= line {
      LineAdds(r, Text.Split(After(line, "DA:"), ","));
    } else if "BRDA:" <= line {
      BranchAdds(r, Text.Split(After(line, "BRDA:"), ","));
    }
    hide LineCoverage, BranchCoverage;
  }

  lemma LineAdds(r: Record, fields: seq<string>)
    requires LineCoverage(r, fields).Ok?
    ensures var next := LineCoverage(r, fields).value;
            exists n | n in next.lines :: n !in r.lines && next == r.(lines := r.lines[n := next.lines[n]])
  {
  }

  lemma BranchAdds(r: Record, fields: seq<string>)
    requires BranchCoverage(r, fields).Ok?
    ensures var next := BranchCoverage(r, fields).value;
            exists k | k in next.branches ::
              k !in r.branches && next == r.(branches := r.branches[k := next.branches[k]])
  {
  }

  /** Lines about functions are read over; a line of no known kind is refused. */
  lemma OtherLines(r: Record, line: string)
    requires !("DA:" <= line) && !("BRDA:" <= line) && !("LF:" <= line) && !("LH:" <= line)
    requires !("BRF:" <= line) && !("BRH:" <= line)
    ensures RecordLine(r, line)
         == if "FN:" <= line || "FNDA:" <= line || "FNF:" <= line || "FNH:" <= line then Ok(r)
            else Err("unsupported LCOV record line")
  {
  }

  /** A line is covered when it was hit at all; a branch when it was taken at all. */
  lemma CoveredCounts(r: Record, n: int, hits: int, k: BranchKey, taken: Option<int>)
    ensures n !in r.lines ==>
              CoveredLines(r.(lines := r.lines[n := hits])) == CoveredLines(r) + if hits > 0 then 1 else 0
    ensures k !in r.branches ==>
              CoveredBranches(r.(branches := r.branches[k := taken]))
              == CoveredBranches(r) + if taken.Some? && taken.value > 0 then 1 else 0
    ensures r.lines == map[] ==> CoveredLines(r) == 0
    ensures r.branches == map[] ==> CoveredBranches(r) == 0
  {
    CoveredLinesStep(r, n, hits);
    CoveredBranchesStep(r, k, taken);
  }

  lemma CoveredLinesStep(r: Record, n: int, hits: int)
    ensures n !in r.lines ==>
              CoveredLines(r.(lines := r.lines[n := hits])) == CoveredLines(r) + if hits > 0 then 1 else 0
  {
    if n !in r.lines {
      var after := r.lines[n := hits];
      var old', new' := set k | k in r.lines && r.lines[k] > 0, set k | k in after && after[k] > 0;
      assert new' == if hits > 0 then old' + {n} else old';
    }
  }

  lemma CoveredBranchesStep(r: Record, k: BranchKey, taken: Option<int>)
    ensures k !in r.branches ==>
              CoveredBranches(r.(branches := r.branches[k := taken]))
              == CoveredBranches(r) + if taken.Some? && taken.value > 0 then 1 else 0
  {
    if k !in r.branches {
      var after := r.branches[k := taken];
      var old' := set b | b in r.branches && r.branches[b].Some? && r.branches[b].value > 0;
      var new' := set b | b in after && after[b].Some? && after[b].value > 0;
      assert new' == if taken.Some? && taken.value > 0 then old' + {k} else old';
    }
  }
}
