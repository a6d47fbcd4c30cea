/**
 * The task dispatcher of scripts/dispatch-next-task.mjs: it parses the `Task N — title` /
 * `Status: TODO|COMPLETE` ledger, picks the first TODO task, checks the open issues and
 * pull requests for that task's id, and otherwise asks for one new issue.
 *
 * The GitHub calls are not modelled: the open issues and pull requests arrive as lists of
 * items, and creating the issue is a `Decision` value carrying the title, body and labels.
 */
module Dispatch {
  import opened Wrappers
  import opened Strings

  // ---------------------------------------------------------------------------
  // Ledger records
  // ---------------------------------------------------------------------------

  /** The status string of a record: "TODO", "COMPLETE", or "" when no status line was found. */
  datatype Status = Todo | Complete | NoStatus

  datatype Task = Task(number: nat, id: string, titleLine: string, status: Status, body: string)

  const EmDash: char := '\U{2014}'

  /** The digits and the text after the dash of a line that opens like a task header. */
  datatype HeaderParts = HeaderParts(digits: string, rest: string)

  /**
   * `Task`, whitespace, digits, whitespace, an em dash: the common opening of both header
   * patterns. The whitespace and digit runs are maximal, as in any match of those patterns.
   */
  function HeaderLead(line: string): (r: Option<HeaderParts>)
    ensures r.Some? ==> |line| >= 1 && line[0] == 'T'
    ensures r.Some? ==> |r.value.digits| >= 1 && AllDigits(r.value.digits)
  {
    if !StartsWith(line, "Task") then None
    else
      var t := line[4..];
      var w1 := LeadingSpaces(t);
      var u := t[w1..];
      var nd := LeadingDigits(u);
      var v := u[nd..];
      var w2 := LeadingSpaces(v);
      if w1 == 0 || nd == 0 || w2 == 0 || w2 == |v| || v[w2] != EmDash then None
      else Some(HeaderParts(u[..nd], v[w2 + 1..]))
  }

  /** A full task header, `^Task\s+(\d+)\s+—\s+(.+)\s*$`. */
  function MatchHeader(line: string): Option<HeaderParts> {
    var lead := HeaderLead(line);
    if lead.Some? && SpacedText(lead.value.rest) then lead else None
  }

  /** A line that ends a body and the status look-ahead, `^Task\s+\d+\s+—\s+`. */
  predicate IsHeaderStart(line: string) {
    var lead := HeaderLead(line);
    lead.Some? && |lead.value.rest| >= 1 && IsSpace(lead.value.rest[0])
  }

  lemma HeaderIsHeaderStart(line: string)
    requires MatchHeader(line).Some?
    ensures IsHeaderStart(line)
  {
    var rest := HeaderLead(line).value.rest;
    var a, b :| 0 <= a <= b <= |rest| && SpacedTextAt(rest, a, b);
    assert rest[..a][0] == rest[0];
  }

  /** `^Status:\s*(TODO|COMPLETE)\s*$`, case-insensitive; the result is the upper-cased word. */
  function MatchStatus(line: string): (r: Option<Status>)
    ensures r != Some(NoStatus)
    ensures r.Some? ==> |line| >= 1 && (line[0] == 's' || line[0] == 'S')
  {
    if |line| < 7 || !EqualsIgnoreCase(line[..7], "status:") then None
    else
      var t := line[7..];
      var u := t[LeadingSpaces(t)..];
      if |u| >= 4 && EqualsIgnoreCase(u[..4], "todo") && AllSpace(u[4..]) then Some(Todo)
      else if |u| >= 8 && EqualsIgnoreCase(u[..8], "complete") && AllSpace(u[8..]) then Some(Complete)
      else None
  }

  lemma StatusIsNotHeader(line: string)
    requires MatchStatus(line).Some?
    ensures MatchHeader(line).None? && !IsHeaderStart(line)
  {
  }

  // ---------------------------------------------------------------------------
  // Line classification: the three patterns, applied once per line
  // ---------------------------------------------------------------------------

  /**
   * What the patterns of `parseTasks` say about one line: a full header, a line that only
   * opens like one (it still ends a body), a status line, or anything else.
   */
  datatype LineKind =
    | HeaderLine(number: nat, rest: string)
    | BoundaryLine
    | StatusLine(status: Status)
    | OtherLine

  /** Ends a body and the status look-ahead. */
  predicate IsBoundary(k: LineKind) {
    k.HeaderLine? || k.BoundaryLine?
  }

  /** The patterns never disagree: a header also opens like one, and a status line is neither. */
  function Classify(line: string): (k: LineKind)
    ensures k.HeaderLine? <==> MatchHeader(line).Some?
    ensures k.HeaderLine? ==> k.number == DecimalValue(MatchHeader(line).value.digits)
                              && k.rest == MatchHeader(line).value.rest
    ensures IsBoundary(k) <==> IsHeaderStart(line)
    ensures k.StatusLine? <==> MatchStatus(line).Some?
    ensures k.StatusLine? ==> MatchStatus(line) == Some(k.status) && k.status != NoStatus
  {
    var h := MatchHeader(line);
    if h.Some? then
      HeaderIsHeaderStart(line);
      assert MatchStatus(line).None?;
      HeaderLine(DecimalValue(h.value.digits), h.value.rest)
    else if IsHeaderStart(line) then
      assert MatchStatus(line).None?;
      BoundaryLine
    else if MatchStatus(line).Some? then StatusLine(MatchStatus(line).value)
    else OtherLine
  }

  /** Every line of the ledger, classified. */
  function Kinds(lines: seq<string>): (ks: seq<LineKind>)
    ensures |ks| == |lines|
  {
    if lines == [] then [] else Kinds(lines[..|lines| - 1]) + [Classify(lines[|lines| - 1])]
  }

  lemma {:induction false} KindAt(lines: seq<string>, j: nat)
    requires j < |lines|
    ensures Kinds(lines)[j] == Classify(lines[j])
    decreases |lines|
  {
    if j < |lines| - 1 {
      KindAt(lines[..|lines| - 1], j);
    }
  }

  /** Line `j` ends a body exactly when it opens like a header. */
  lemma BoundaryAt(lines: seq<string>, j: nat)
    requires j < |lines|
    ensures IsBoundary(Kinds(lines)[j]) <==> IsHeaderStart(lines[j])
  {
    KindAt(lines, j);
  }

  /** Line `j` is classified as a status line exactly when the status pattern matches it. */
  lemma StatusAt(lines: seq<string>, j: nat)
    requires j < |lines|
    ensures Kinds(lines)[j].StatusLine? <==> MatchStatus(lines[j]).Some?
    ensures Kinds(lines)[j].StatusLine? ==> MatchStatus(lines[j]) == Some(Kinds(lines)[j].status)
  {
    KindAt(lines, j);
  }

  /** Line `j` is classified as a header exactly when the header pattern matches it. */
  lemma HeaderAt(lines: seq<string>, j: nat)
    requires j < |lines|
    ensures Kinds(lines)[j].HeaderLine? <==> MatchHeader(lines[j]).Some?
    ensures Kinds(lines)[j].HeaderLine? ==>
              && Kinds(lines)[j].number == DecimalValue(MatchHeader(lines[j]).value.digits)
              && Kinds(lines)[j].rest == MatchHeader(lines[j]).value.rest
  {
    KindAt(lines, j);
  }

  // ---------------------------------------------------------------------------
  // The parse, as functions of the classified lines
  // ---------------------------------------------------------------------------

  /** Lines `j` with `j < stop` are inside the look-ahead window of the header at `i`. */
  function WindowStop(n: nat, i: nat): (stop: nat)
    ensures stop <= n && stop <= i + 10
    ensures stop == n || stop == i + 10
  {
    if i + 10 < n then i + 10 else n
  }

  /**
   * The first status line at or after `j` and before `stop`, looking no further than a
   * line that opens another header.
   */
  function ScanStatus(kinds: seq<LineKind>, stop: nat, j: nat): (r: Option<nat>)
    requires stop <= |kinds|
    decreases stop - j
    ensures r.Some? ==> j <= r.value < stop && kinds[r.value].StatusLine?
    ensures r.Some? ==> forall h :: j <= h < r.value ==> kinds[h] == OtherLine
    ensures r.None? ==> forall h :: j <= h < stop && kinds[h].StatusLine? ==>
                          exists g :: j <= g < h && IsBoundary(kinds[g])
  {
    if j >= stop then None
    else if kinds[j].StatusLine? then Some(j)
    else if IsBoundary(kinds[j]) then None
    else ScanStatus(kinds, stop, j + 1)
  }

  /** The status line of the header at `i`: within the nine lines after it, before any other header. */
  function StatusIndex(kinds: seq<LineKind>, i: nat): (r: Option<nat>)
    requires i < |kinds|
    ensures r.Some? ==> i < r.value < |kinds| && r.value < i + 10
  {
    ScanStatus(kinds, WindowStop(|kinds|, i), i + 1)
  }

  /** The body starts after the status line, or after the header when there is none. */
  function BodyStart(kinds: seq<LineKind>, i: nat): (s: nat)
    requires i < |kinds|
    ensures i < s <= |kinds|
  {
    var st := StatusIndex(kinds, i);
    if st.Some? then st.value + 1 else i + 1
  }

  /** The end of a body that starts at `s`: the next line opening a header, or the end of the text. */
  function BodyEnd(kinds: seq<LineKind>, s: nat): (k: nat)
    requires s <= |kinds|
    decreases |kinds| - s
    ensures s <= k <= |kinds|
    ensures forall j :: s <= j < k ==> !IsBoundary(kinds[j])
    ensures k < |kinds| ==> IsBoundary(kinds[k])
  {
    if s == |kinds| then s
    else if IsBoundary(kinds[s]) then s
    else BodyEnd(kinds, s + 1)
  }

  /** Where the scan resumes after the task whose header is at `i`. */
  function NextIndex(kinds: seq<LineKind>, i: nat): (k: nat)
    requires i < |kinds|
    ensures i < k <= |kinds|
  {
    BodyEnd(kinds, BodyStart(kinds, i))
  }

  /** The record built for the header at line `i`. */
  function TaskAt(lines: seq<string>, kinds: seq<LineKind>, i: nat): Task
    requires |kinds| == |lines| && i < |lines| && kinds[i].HeaderLine?
  {
    var n := kinds[i].number;
    var st := StatusIndex(kinds, i);
    Task(n, "task-" + Show(n), "Task " + Show(n) + " " + [EmDash] + " " + Trim(kinds[i].rest),
         if st.Some? then kinds[st.value].status else NoStatus,
         TrimEnd(Join(lines[BodyStart(kinds, i)..NextIndex(kinds, i)], '\n')))
  }

  /**
   * The header lines the scan of `parseTasks` visits from line `i` on: it skips a line that
   * is not a header, and after a header resumes where that task's body ends.
   */
  function ScanFrom(kinds: seq<LineKind>, i: nat): (hs: seq<nat>)
    decreases |kinds| - i
    ensures forall t :: 0 <= t < |hs| ==> i <= hs[t] < |kinds| && kinds[hs[t]].HeaderLine?
  {
    if i >= |kinds| then []
    else if !kinds[i].HeaderLine? then ScanFrom(kinds, i + 1)
    else [i] + ScanFrom(kinds, NextIndex(kinds, i))
  }

  /** After the header at `i`, the scan resumes at the end of that task's body. */
  lemma ScanStep(kinds: seq<LineKind>, i: nat)
    requires i < |kinds| && kinds[i].HeaderLine?
    ensures ScanFrom(kinds, i) == [i] + ScanFrom(kinds, NextIndex(kinds, i))
  {
  }

  /** The records for a list of header lines, one each, in the same order. */
  function TasksAt(lines: seq<string>, kinds: seq<LineKind>, hs: seq<nat>): (r: seq<Task>)
    requires |kinds| == |lines|
    requires forall t :: 0 <= t < |hs| ==> hs[t] < |lines| && kinds[hs[t]].HeaderLine?
    ensures |r| == |hs|
  {
    if hs == [] then [] else [TaskAt(lines, kinds, hs[0])] + TasksAt(lines, kinds, hs[1..])
  }

  /** `parseTasks(md)` as a function: the ledger split on "\n", classified, and scanned from the top. */
  function ParseLedger(md: string): seq<Task> {
    var lines := Split(md, '\n');
    var kinds := Kinds(lines);
    TasksAt(lines, kinds, ScanFrom(kinds, 0))
  }

  /** The indices of the header lines at or after `i`, in increasing order. */
  function HeaderIndices(kinds: seq<LineKind>, i: nat): (r: seq<nat>)
    decreases |kinds| - i
    ensures forall t :: 0 <= t < |r| ==> i <= r[t] < |kinds| && kinds[r[t]].HeaderLine?
    ensures forall t, u :: 0 <= t < u < |r| ==> r[t] < r[u]
    ensures forall j :: i <= j < |kinds| && kinds[j].HeaderLine? ==> j in r
  {
    if i >= |kinds| then []
    else if kinds[i].HeaderLine? then [i] + HeaderIndices(kinds, i + 1)
    else HeaderIndices(kinds, i + 1)
  }

  lemma {:induction false} NoHeadersSkipped(kinds: seq<LineKind>, a: nat, b: nat)
    requires a <= b <= |kinds|
    requires forall j :: a <= j < b ==> !kinds[j].HeaderLine?
    ensures HeaderIndices(kinds, a) == HeaderIndices(kinds, b)
    decreases b - a
  {
    if a < b {
      NoHeadersSkipped(kinds, a + 1, b);
    }
  }

  /** No line strictly between a header and the point where the scan resumes is a header. */
  lemma NoHeaderInsideTask(kinds: seq<LineKind>, i: nat)
    requires i < |kinds|
    ensures forall j :: i < j < NextIndex(kinds, i) ==> !kinds[j].HeaderLine?
  {
  }

  /**
   * The scan visits every header line, in order, and no other line: skipping a task's body
   * never skips a header.
   */
  lemma {:induction false} ScanVisitsEveryHeader(kinds: seq<LineKind>, i: nat)
    ensures ScanFrom(kinds, i) == HeaderIndices(kinds, i)
    decreases |kinds| - i
  {
    if i < |kinds| {
      if !kinds[i].HeaderLine? {
        ScanVisitsEveryHeader(kinds, i + 1);
      } else {
        var k := NextIndex(kinds, i);
        NoHeaderInsideTask(kinds, i);
        NoHeadersSkipped(kinds, i + 1, k);
        ScanVisitsEveryHeader(kinds, k);
      }
    }
  }

  lemma {:induction false} TasksAtSnoc(lines: seq<string>, kinds: seq<LineKind>, hs: seq<nat>, h: nat)
    requires |kinds| == |lines|
    requires forall t :: 0 <= t < |hs| ==> hs[t] < |lines| && kinds[hs[t]].HeaderLine?
    requires h < |lines| && kinds[h].HeaderLine?
    ensures TasksAt(lines, kinds, hs + [h]) == TasksAt(lines, kinds, hs) + [TaskAt(lines, kinds, h)]
    decreases |hs|
  {
    if hs != [] {
      assert (hs + [h])[1..] == hs[1..] + [h];
      TasksAtSnoc(lines, kinds, hs[1..], h);
    }
  }

  lemma {:induction false} TasksAtIndex(lines: seq<string>, kinds: seq<LineKind>, hs: seq<nat>, t: nat)
    requires |kinds| == |lines|
    requires forall t :: 0 <= t < |hs| ==> hs[t] < |lines| && kinds[hs[t]].HeaderLine?
    requires t < |hs|
    ensures TasksAt(lines, kinds, hs)[t] == TaskAt(lines, kinds, hs[t])
    decreases t
  {
    if t > 0 {
      TasksAtIndex(lines, kinds, hs[1..], t - 1);
    }
  }

  /**
   * Each header line of the ledger gives exactly one record, the records come out in the
   * order of their headers, and no other line gives one.
   */
  lemma ParseIsPerHeader(md: string)
    ensures var lines := Split(md, '\n'); var kinds := Kinds(lines);
      var tasks, hs := ParseLedger(md), HeaderIndices(kinds, 0);
      |tasks| == |hs| && forall t :: 0 <= t < |hs| ==> tasks[t] == TaskAt(lines, kinds, hs[t])
  {
    var lines := Split(md, '\n');
    var kinds := Kinds(lines);
    ScanVisitsEveryHeader(kinds, 0);
    forall t | 0 <= t < |HeaderIndices(kinds, 0)|
      ensures ParseLedger(md)[t] == TaskAt(lines, kinds, HeaderIndices(kinds, 0)[t])
    {
      TasksAtIndex(lines, kinds, HeaderIndices(kinds, 0), t);
    }
  }

  /**
   * The fields of the record for the header at line `i`, stated on the line text: the id
   * and title come from the header's number and text, the status from the first status
   * line in its window, the body from the lines up to the next header.
   */
  lemma ParsedTaskFields(lines: seq<string>, i: nat)
    requires i < |lines| && Kinds(lines)[i].HeaderLine?
    ensures MatchHeader(lines[i]).Some?
    ensures var kinds := Kinds(lines);
      var t, h, st := TaskAt(lines, kinds, i), MatchHeader(lines[i]).value, StatusIndex(kinds, i);
      && t.number == DecimalValue(h.digits)
      && t.id == "task-" + Show(t.number)
      && t.titleLine == "Task " + Show(t.number) + " " + [EmDash] + " " + Trim(h.rest)
      && (t.status == NoStatus <==> st.None?)
      && (st.Some? ==> Some(t.status) == MatchStatus(lines[st.value]))
      && t.body == TrimEnd(Join(lines[BodyStart(kinds, i)..NextIndex(kinds, i)], '\n'))
  {
    var kinds := Kinds(lines);
    HeaderAt(lines, i);
    var st := StatusIndex(kinds, i);
    if st.Some? {
      StatusAt(lines, st.value);
    }
  }

  /** Leading zeros in the header number do not reach the id: `Task 007` and `Task 7` share `task-7`. */
  lemma IdDropsLeadingZeros(digits: string)
    requires |digits| >= 1 && AllDigits(digits)
    ensures AllDigits("0" + digits)
    ensures "task-" + Show(DecimalValue("0" + digits)) == "task-" + Show(DecimalValue(digits))
    ensures digits[0] != '0' ==> "task-" + Show(DecimalValue(digits)) == "task-" + digits
  {
    LeadingZeroIgnored(digits);
    if digits[0] != '0' {
      ShowOfValue(digits);
    }
  }

  /**
   * The status look-ahead of `parseTasks` for the header at line `i`: the first of the next
   * nine lines that is a status line, stopping early at a line that opens a header.
   * `statusLineIndex` is -1 when there is none, as in the script.
   */
  method FindStatus(lines: seq<string>, ghost kinds: seq<LineKind>, i: nat)
    returns (status: Status, statusLineIndex: int)
    requires kinds == Kinds(lines) && i < |lines|
    ensures statusLineIndex == -1 <==> StatusIndex(kinds, i).None?
    ensures statusLineIndex == -1 ==> status == NoStatus
    ensures statusLineIndex != -1 ==> StatusIndex(kinds, i) == Some(statusLineIndex)
                                      && status == kinds[statusLineIndex].status
  {
    status := NoStatus;
    statusLineIndex := -1;
    var stop := if i + 10 < |lines| then i + 10 else |lines|;
    assert stop == WindowStop(|kinds|, i);
    var j := i + 1;
    while j < stop
      invariant i + 1 <= j <= stop
      invariant ScanStatus(kinds, stop, j) == StatusIndex(kinds, i)
    {
      var m := MatchStatus(lines[j]);
      StatusAt(lines, j);
      BoundaryAt(lines, j);
      if m.Some? {
        return m.value, j;
      }
      if IsHeaderStart(lines[j]) {
        return;
      }
      ScanStatusSkip(kinds, stop, j);
      j := j + 1;
    }
  }

  /** A line that is neither a status line nor a boundary is passed over. */
  lemma ScanStatusSkip(kinds: seq<LineKind>, stop: nat, j: nat)
    requires stop <= |kinds| && j < stop && !kinds[j].StatusLine? && !IsBoundary(kinds[j])
    ensures ScanStatus(kinds, stop, j) == ScanStatus(kinds, stop, j + 1)
  {
  }

  /** The body collector of `parseTasks`: the lines from `bodyStart` up to the next line opening a header. */
  method CollectBody(lines: seq<string>, ghost kinds: seq<LineKind>, bodyStart: nat)
    returns (bodyLines: seq<string>, k: nat)
    requires kinds == Kinds(lines) && bodyStart <= |lines|
    ensures k == BodyEnd(kinds, bodyStart) && bodyLines == lines[bodyStart..k]
  {
    k := bodyStart;
    bodyLines := [];
    while k < |lines|
      invariant bodyStart <= k <= |lines|
      invariant bodyLines == lines[bodyStart..k]
      invariant BodyEnd(kinds, k) == BodyEnd(kinds, bodyStart)
    {
      BoundaryAt(lines, k);
      if IsHeaderStart(lines[k]) {
        return;
      }
      bodyLines := bodyLines + [lines[k]];
      k := k + 1;
    }
  }

  /**
   * The record of the header at line `i` (whose match is `header`), and the line where the
   * scan resumes.
   */
  method ReadTask(lines: seq<string>, ghost kinds: seq<LineKind>, i: nat, header: HeaderParts)
    returns (task: Task, next: nat)
    requires kinds == Kinds(lines) && i < |lines| && MatchHeader(lines[i]) == Some(header)
    ensures kinds[i].HeaderLine?
    ensures task == TaskAt(lines, kinds, i) && next == NextIndex(kinds, i)
  {
    HeaderAt(lines, i);
    var number := DecimalValue(header.digits);
    var titleText := Trim(header.rest);
    var titleLine := "Task " + Show(number) + " " + [EmDash] + " " + titleText;
    var id := "task-" + Show(number);
    var status, statusLineIndex := FindStatus(lines, kinds, i);
    var bodyStart := if statusLineIndex != -1 then statusLineIndex + 1 else i + 1;
    var bodyLines, k := CollectBody(lines, kinds, bodyStart);
    var body := TrimEnd(Join(bodyLines, '\n'));
    task := Task(number, id, titleLine, status, body);
    next := k;
    ghost var st := StatusIndex(kinds, i);
    assert status == if st.Some? then kinds[st.value].status else NoStatus;
    assert bodyStart == BodyStart(kinds, i);
    assert body == TrimEnd(Join(lines[BodyStart(kinds, i)..NextIndex(kinds, i)], '\n'));
  }

  /** One header further in the scan: the records so far gain the record of the header at `i`. */
  lemma ScanAdvance(lines: seq<string>, kinds: seq<LineKind>, visited: seq<nat>, i: nat)
    requires |kinds| == |lines| && i < |lines| && kinds[i].HeaderLine?
    requires visited + ScanFrom(kinds, i) == ScanFrom(kinds, 0)
    requires forall t :: 0 <= t < |visited| ==> visited[t] < |lines| && kinds[visited[t]].HeaderLine?
    ensures (visited + [i]) + ScanFrom(kinds, NextIndex(kinds, i)) == ScanFrom(kinds, 0)
    ensures forall t :: 0 <= t < |visited + [i]| ==>
              (visited + [i])[t] < |lines| && kinds[(visited + [i])[t]].HeaderLine?
    ensures TasksAt(lines, kinds, visited + [i]) == TasksAt(lines, kinds, visited) + [TaskAt(lines, kinds, i)]
  {
    ScanStep(kinds, i);
    Assoc(visited, [i], ScanFrom(kinds, NextIndex(kinds, i)));
    TasksAtSnoc(lines, kinds, visited, i);
  }

  /** `parseTasks`: an index-driven scan with a bounded status look-ahead and a body collector. */
  method ParseTasks(md: string) returns (tasks: seq<Task>)
    ensures tasks == ParseLedger(md)
    ensures |tasks| == |HeaderIndices(Kinds(Split(md, '\n')), 0)|
  {
    var lines := Split(md, '\n');
    ghost var kinds := Kinds(lines);
    ghost var visited: seq<nat> := [];
    tasks := [];
    var i: nat := 0;
    while i < |lines|
      invariant 0 <= i <= |lines|
      invariant visited + ScanFrom(kinds, i) == ScanFrom(kinds, 0)
      invariant forall t :: 0 <= t < |visited| ==> visited[t] < |lines| && kinds[visited[t]].HeaderLine?
      invariant tasks == TasksAt(lines, kinds, visited)
    {
      var header := MatchHeader(lines[i]);
      HeaderAt(lines, i);
      if header.None? {
        assert ScanFrom(kinds, i) == ScanFrom(kinds, i + 1);
        i := i + 1;
        continue;
      }
      var task, k := ReadTask(lines, kinds, i, header.value);
      ScanAdvance(lines, kinds, visited, i);
      visited := visited + [i];
      tasks := tasks + [task];
      i := k;
    }
    assert visited == ScanFrom(kinds, 0);
    ScanVisitsEveryHeader(kinds, 0);
  }

  // ---------------------------------------------------------------------------
  // Selection
  // ---------------------------------------------------------------------------

  /** `tasks.find((t) => t.status === "TODO")`, as the index of the record found. */
  function SelectNext(tasks: seq<Task>): (r: Option<nat>)
    ensures r.Some? ==> r.value < |tasks| && tasks[r.value].status == Todo
    ensures r.Some? ==> forall k :: 0 <= k < r.value ==> tasks[k].status != Todo
    ensures r.None? <==> forall k :: 0 <= k < |tasks| ==> tasks[k].status != Todo
  {
    if tasks == [] then None
    else if tasks[0].status == Todo then Some(0)
    else
      var r := SelectNext(tasks[1..]);
      if r.Some? then Some(r.value + 1) else None
  }

  // ---------------------------------------------------------------------------
  // In-flight detection
  // ---------------------------------------------------------------------------

  /** An open issue or pull request as the GitHub API lists it; a null body is `None`. */
  datatype Item = Item(number: int, title: string, body: Option<string>)

  datatype Kind = IssueKind | PullKind

  /** The `{ type, number, title }` object naming the conflicting item. */
  datatype InFlight = InFlight(kind: Kind, number: int, title: string)

  /** The text searched for an item: `${title}\n${body || ""}`. */
  function ItemText(it: Item): string {
    it.title + "\n" + (if it.body.Some? then it.body.value else "")
  }

  /** `taskId.split("-")[1]` inside a template literal: `undefined` when there is no dash. */
  function DashPart(taskId: string): string {
    var parts := Split(taskId, '-');
    if |parts| >= 2 then parts[1] else "undefined"
  }

  /** `hasTaskId`: the lower-cased text mentions the id in one of the accepted forms. */
  predicate HasTaskId(taskId: string, text: string) {
    var hay := Lower(text);
    var id := Lower(taskId);
    || Contains(hay, "task id: " + id)
    || Contains(hay, "taskid: " + id)
    || Contains(hay, "task_id: " + id)
    || Contains(hay, Lower("Task " + DashPart(taskId) + " " + [EmDash]))
    || Contains(hay, id)
  }

  /**
   * The three `task id:`-style forms add nothing: the check holds exactly when the text
   * contains the id or the `Task N —` form, ignoring ASCII case.
   */
  lemma HasTaskIdIff(taskId: string, text: string)
    ensures HasTaskId(taskId, text) <==>
      Contains(Lower(text), Lower(taskId))
      || Contains(Lower(text), Lower("Task " + DashPart(taskId) + " " + [EmDash]))
  {
    var hay, id := Lower(text), Lower(taskId);
    if Contains(hay, "task id: " + id) { ContainsSuffixOf(hay, "task id: ", id); }
    if Contains(hay, "taskid: " + id) { ContainsSuffixOf(hay, "taskid: ", id); }
    if Contains(hay, "task_id: " + id) { ContainsSuffixOf(hay, "task_id: ", id); }
  }

  /** Any text that contains the id verbatim is taken as referring to the task. */
  lemma ContainedIdIsDetected(taskId: string, text: string)
    requires Contains(text, taskId)
    ensures HasTaskId(taskId, text)
  {
    ContainsLower(text, taskId);
  }

  /** The check over-matches: a mention of `task-10` counts as a mention of `task-1`. */
  lemma HasTaskIdOverMatches()
    ensures HasTaskId("task-1", "Fix task-10")
  {
    assert Lower("task-1") == "task-1";
    assert Lower("Fix task-10")[4..10] == "task-1";
    assert OccursAt(Lower("Fix task-10"), Lower("task-1"), 4);
  }

  /** A prefix of `items` holds nothing that mentions the task, and item `k` does. */
  predicate FirstMatchAt(taskId: string, items: seq<Item>, k: int) {
    && 0 <= k < |items|
    && HasTaskId(taskId, ItemText(items[k]))
    && forall j :: 0 <= j < k ==> !HasTaskId(taskId, ItemText(items[j]))
  }

  /** `items.find(...)`: the first item whose text mentions the task. */
  function FindMention(taskId: string, items: seq<Item>): (r: Option<nat>)
    ensures r.Some? ==> FirstMatchAt(taskId, items, r.value)
    ensures r.None? ==> forall j :: 0 <= j < |items| ==> !HasTaskId(taskId, ItemText(items[j]))
  {
    if items == [] then None
    else if HasTaskId(taskId, ItemText(items[0])) then Some(0)
    else
      var r := FindMention(taskId, items[1..]);
      assert forall j :: 1 <= j < |items| ==> items[j] == items[1..][j - 1];
      if r.Some? then Some(r.value + 1) else None
  }

  /** `alreadyInFlight`: open issues first, then open pull requests; the first mention wins. */
  function AlreadyInFlight(taskId: string, issues: seq<Item>, pulls: seq<Item>): (r: Option<InFlight>)
    ensures r.None? <==>
      && (forall j :: 0 <= j < |issues| ==> !HasTaskId(taskId, ItemText(issues[j])))
      && (forall j :: 0 <= j < |pulls| ==> !HasTaskId(taskId, ItemText(pulls[j])))
    ensures r.Some? && r.value.kind == IssueKind ==>
      exists k :: FirstMatchAt(taskId, issues, k) && r.value == InFlight(IssueKind, issues[k].number, issues[k].title)
    ensures r.Some? && r.value.kind == PullKind ==>
      && (forall j :: 0 <= j < |issues| ==> !HasTaskId(taskId, ItemText(issues[j])))
      && exists k :: FirstMatchAt(taskId, pulls, k) && r.value == InFlight(PullKind, pulls[k].number, pulls[k].title)
  {
    var fi := FindMention(taskId, issues);
    if fi.Some? then
      var it := issues[fi.value];
      Some(InFlight(IssueKind, it.number, it.title))
    else
      var fp := FindMention(taskId, pulls);
      if fp.Some? then
        var it := pulls[fp.value];
        Some(InFlight(PullKind, it.number, it.title))
      else None
  }

  // ---------------------------------------------------------------------------
  // The issue that a dispatch creates
  // ---------------------------------------------------------------------------

  const Placeholder: string := "(no instructions found in TASKS.md for this task)"

  /** `task.body && task.body.trim() ? task.body.trim() : placeholder`. */
  function Instructions(body: string): (r: string)
    ensures Trim(body) == [] ==> r == Placeholder
    ensures Trim(body) != [] ==> r == Trim(body)
  {
    if body != [] && Trim(body) != [] then Trim(body) else Placeholder
  }

  /** The first line of an issue body: the marker that later runs and the PR template look for. */
  function IdLine(id: string): string {
    "Task ID: " + id + "\n"
  }

  function TitleBlock(titleLine: string): string {
    "\n" + titleLine + "\n"
  }

  const InstructionsHeading: string := "\nInstructions (from TASKS.md):\n"

  const NotesHeading: string := "\n\n---\nAutomation notes:\n- Source of truth: TASKS.md\n"

  function KeepLine(id: string): string {
    "- Keep the \"Task ID: " + id + "\" line intact in the PR body.\n"
  }

  /**
   * The body of the issue `createCodexIssue` opens for a task: the id line first, then the
   * title line, the instructions under their heading, and the automation notes last.
   */
  function IssueBody(t: Task): (r: string)
    ensures StartsWith(r, IdLine(t.id))
    ensures OccursAt(r, TitleBlock(t.titleLine), |IdLine(t.id)|)
    ensures OccursAt(r, Instructions(t.body), |IdLine(t.id)| + |TitleBlock(t.titleLine)| + |InstructionsHeading|)
    ensures EndsWith(r, KeepLine(t.id))
  {
    var a, b, c, d := IdLine(t.id), TitleBlock(t.titleLine), InstructionsHeading, Instructions(t.body);
    var e, f := NotesHeading, KeepLine(t.id);
    SixParts(a, b, c, d, e, f);
    a + (b + (c + (d + (e + f))))
  }

  const CodexLabel: string := "codex-run"

  // ---------------------------------------------------------------------------
  // The dispatch decision of `main`
  // ---------------------------------------------------------------------------

  datatype Decision =
    | RepoMissing
    | LedgerMissing
    | NothingToDispatch
    | InvalidRepo
    | InFlightAlready(task: Task, item: InFlight)
    | CreateIssue(task: Task, title: string, body: string, labels: seq<string>)

  /**
   * `main`: an empty `REPO` fails as soon as the script loads; then read the ledger (`None`
   * when TASKS.md does not exist) and select the first TODO record; `REPO` must name an
   * owner and a repository before the tracker is listed; stop when the tracker already
   * mentions the task, and otherwise create one issue.
   */
  function DispatchNext(repo: string, ledger: Option<string>, issues: seq<Item>, pulls: seq<Item>): (d: Decision)
    ensures d.RepoMissing? <==> repo == ""
    ensures d.LedgerMissing? <==> repo != "" && ledger.None?
    ensures repo != "" && ledger.Some? ==> (d.NothingToDispatch? <==>
              forall k :: 0 <= k < |ParseLedger(ledger.value)| ==> ParseLedger(ledger.value)[k].status != Todo)
    ensures d.InvalidRepo? ==> OwnerRepo(repo).None?
    ensures d.InFlightAlready? || d.CreateIssue? ==>
      && OwnerRepo(repo).Some?
      && ledger.Some?
      && var tasks := ParseLedger(ledger.value);
         exists k :: 0 <= k < |tasks| && tasks[k] == d.task && d.task.status == Todo
           && forall j :: 0 <= j < k ==> tasks[j].status != Todo
    ensures d.InFlightAlready? ==> AlreadyInFlight(d.task.id, issues, pulls) == Some(d.item)
    ensures d.CreateIssue? ==>
      && AlreadyInFlight(d.task.id, issues, pulls).None?
      && d.title == d.task.titleLine
      && d.body == IssueBody(d.task)
      && d.labels == [CodexLabel]
  {
    if repo == "" then RepoMissing
    else if ledger.None? then LedgerMissing
    else
      var tasks := ParseLedger(ledger.value);
      var next := SelectNext(tasks);
      if next.None? then NothingToDispatch
      else DispatchTask(repo, tasks[next.value], issues, pulls)
  }

  /**
   * What `main` does once it has selected `task`: `REPO` is split when the tracker is first
   * listed; then the task is in flight when the tracker mentions it, and otherwise its issue
   * is created.
   */
  function DispatchTask(repo: string, task: Task, issues: seq<Item>, pulls: seq<Item>): (d: Decision)
    ensures d.InvalidRepo? <==> OwnerRepo(repo).None?
    ensures d.InvalidRepo? || d.InFlightAlready? || d.CreateIssue?
    ensures d.InFlightAlready? ==> d.task == task && AlreadyInFlight(task.id, issues, pulls) == Some(d.item)
    ensures d.CreateIssue? ==>
      && d.task == task
      && AlreadyInFlight(task.id, issues, pulls).None?
      && d.title == task.titleLine
      && d.body == IssueBody(task)
      && d.labels == [CodexLabel]
  {
    if OwnerRepo(repo).None? then InvalidRepo
    else
      var inflight := AlreadyInFlight(task.id, issues, pulls);
      if inflight.Some? then InFlightAlready(task, inflight.value)
      else CreateIssue(task, task.titleLine, IssueBody(task), [CodexLabel])
  }

  /** An issue opened with the body built for a task is detected as that task's issue, whatever its title. */
  lemma IssueMentionsTask(t: Task, number: int, title: string)
    ensures HasTaskId(t.id, ItemText(Item(number, title, Some(IssueBody(t)))))
  {
    var body := IssueBody(t);
    OccursInMiddle("Task ID: ", t.id, "\n");
    OccursInPrefix(body, IdLine(t.id), t.id, |"Task ID: "|);
    OccursAfter(title + "\n", body, t.id, |"Task ID: "|);
    ContainedIdIsDetected(t.id, ItemText(Item(number, title, Some(body))));
  }

  /** An item appended after items that do not mention the task is the first mention when it does. */
  lemma {:induction false} FindMentionAppended(taskId: string, items: seq<Item>, it: Item)
    requires FindMention(taskId, items).None?
    requires HasTaskId(taskId, ItemText(it))
    ensures FindMention(taskId, items + [it]) == Some(|items|)
  {
    if items == [] {
      assert items + [it] == [it];
    } else {
      var all := items + [it];
      assert all[0] == items[0];
      assert all[1..] == items[1..] + [it];
      FindMentionAppended(taskId, items[1..], it);
    }
  }

  /** An issue appended to a tracker that does not mention the task is the one found for it when it does. */
  lemma InFlightAfterAppend(taskId: string, issues: seq<Item>, pulls: seq<Item>, it: Item)
    requires AlreadyInFlight(taskId, issues, pulls).None? && HasTaskId(taskId, ItemText(it))
    ensures AlreadyInFlight(taskId, issues + [it], pulls) == Some(InFlight(IssueKind, it.number, it.title))
  {
    FindMentionAppended(taskId, issues, it);
  }

  /**
   * Once the issue a run asked for is open, the next run over the same ledger finds that
   * issue and creates nothing.
   */
  lemma DispatchIsIdempotent(repo: string, ledger: Option<string>, issues: seq<Item>, pulls: seq<Item>, number: int)
    requires DispatchNext(repo, ledger, issues, pulls).CreateIssue?
    ensures var d := DispatchNext(repo, ledger, issues, pulls);
      DispatchNext(repo, ledger, issues + [Item(number, d.title, Some(d.body))], pulls)
        == InFlightAlready(d.task, InFlight(IssueKind, number, d.title))
  {
    var d := DispatchNext(repo, ledger, issues, pulls);
    var created := Item(number, d.title, Some(d.body));
    IssueMentionsTask(d.task, number, d.title);
    InFlightAfterAppend(d.task.id, issues, pulls, created);
  }

  // ---------------------------------------------------------------------------
  // Repository coordinates
  // ---------------------------------------------------------------------------

  /** `ownerRepo`: `REPO` split on "/"; `None` stands for the thrown "Invalid REPO value". */
  function OwnerRepo(repo: string): (r: Option<(string, string)>)
    ensures r.Some? ==> r.value.0 != [] && r.value.1 != [] && '/' !in r.value.0 && '/' !in r.value.1
    ensures r.Some? ==> StartsWith(repo, r.value.0 + "/" + r.value.1)
    ensures r.None? <==> Split(repo, '/')[0] == [] || |Split(repo, '/')| < 2 || Split(repo, '/')[1] == []
  {
    var parts := Split(repo, '/');
    if |parts| < 2 || parts[0] == [] || parts[1] == [] then None
    else
      assert repo == Join(parts, '/');
      assert parts == [parts[0]] + ([parts[1]] + parts[2..]);
      OwnerRepoPrefix(parts);
      Some((parts[0], parts[1]))
  }

  lemma OwnerRepoPrefix(parts: seq<string>)
    requires |parts| >= 2
    ensures StartsWith(Join(parts, '/'), parts[0] + "/" + parts[1])
  {
    if |parts| > 2 {
      assert Join(parts[1..], '/') == parts[1] + "/" + Join(parts[2..], '/');
    }
  }

  /** `owner/name` with no further slash comes back apart unchanged. */
  lemma OwnerRepoRoundTrip(owner: string, name: string)
    requires owner != [] && name != [] && '/' !in owner && '/' !in name
    ensures OwnerRepo(owner + "/" + name) == Some((owner, name))
  {
    var parts := [owner, name];
    SplitJoin(parts, '/');
    assert Join(parts, '/') == owner + "/" + name;
  }
}
