/**
 * The ledger writer run after a task's pull request merges: it ticks the checklist
 * item `- [ ] id:<taskId> ...` of TASKS.md and commits the file.
 */
module MarkComplete {
  import opened Wrappers
  import opened Strings

  // ---------------------------------------------------------------------------
  // Checklist items
  // ---------------------------------------------------------------------------

  /** The two captures of a checklist item that the writer uses: the box mark and the id. */
  datatype Entry = Entry(mark: char, id: string)

  /**
   * `/^- \[( |x|X)\]\s+id:([^\s]+)\s+(.+)\s*$/` on one line. The whitespace run
   * before `id:` is necessarily the longest one, since `i` is not whitespace, and
   * `[^\s]+` necessarily takes every non-space character, since `\s+` follows it.
   */
  function MatchEntry(line: string): Option<Entry> {
    if |line| < 5 || line[..3] != "- [" || line[3] !in {' ', 'x', 'X'} || line[4] != ']' then None
    else
      var t := line[5..];
      var w := LeadingSpaces(t);
      if w == 0 || !StartsWith(t[w..], "id:") then None
      else
        var v := t[w + 3..];
        var n := LeadingNonSpaces(v);
        if n == 0 || !SpacedText(v[n..]) then None
        else Some(Entry(line[3], v[..n]))
  }

  /** The item on `line` is the checklist item of task `id`. */
  predicate IsEntryFor(line: string, id: string) {
    MatchEntry(line).Some? && Trim(MatchEntry(line).value.id) == id
  }

  /** `line.replace(/^- \[\s\]/, "- [x]")`: an open box at the start of the line is ticked. */
  function TickBox(line: string): string {
    if |line| >= 5 && line[..3] == "- [" && IsSpace(line[3]) && line[4] == ']' then "- [x]" + line[5..]
    else line
  }

  /** An item whose id runs to the end of the line, with no title after it, is no item. */
  lemma BareIdNeverMatches(mark: char, w: string, id: string)
    requires AllSpace(w) && forall k :: 0 <= k < |id| ==> !IsSpace(id[k])
    ensures MatchEntry("- [" + [mark] + "]" + w + "id:" + id).None?
  {
    var line := "- [" + [mark] + "]" + w + "id:" + id;
    var t := line[5..];
    assert t == w + ("id:" + id);
    LeadingSpacesOf(w, "id:" + id);
    assert t[|w|..] == "id:" + id;
    assert t[|w| + 3..] == id;
    LeadingNonSpacesOf(id);
    assert id[|id|..] == [];
  }

  /** The captured id never holds whitespace, so trimming it changes nothing. */
  lemma EntryIdIsTrimmed(line: string)
    requires MatchEntry(line).Some?
    ensures var id := MatchEntry(line).value.id; id != [] && Trim(id) == id
  {
    var t := line[5..];
    var v := t[LeadingSpaces(t) + 3..];
    TrimOfNonSpace(v[..LeadingNonSpaces(v)]);
  }

  /** Ticking an open item keeps it the same item of the same task, now marked done. */
  lemma TickBoxKeepsEntry(line: string)
    requires MatchEntry(line).Some? && MatchEntry(line).value.mark == ' '
    ensures TickBox(line) == "- [x]" + line[5..]
    ensures MatchEntry(TickBox(line)) == Some(Entry('x', MatchEntry(line).value.id))
  {
    var ticked := TickBox(line);
    assert ticked[..3] == "- [" && ticked[3] == 'x' && ticked[4] == ']';
    assert ticked[5..] == line[5..];
  }

  // ---------------------------------------------------------------------------
  // markDone
  // ---------------------------------------------------------------------------

  datatype Reason = MarkedDone | AlreadyDone | NotFound

  /** What `markDone` returns: the new text, whether it differs, and why. */
  datatype MarkResult = MarkResult(md: string, changed: bool, reason: Reason)

  /** The first line at or after `i` holding the item of task `id`. */
  function FindEntry(lines: seq<string>, id: string, i: nat): (r: Option<nat>)
    requires i <= |lines|
    ensures r.Some? ==> i <= r.value < |lines| && IsEntryFor(lines[r.value], id)
    ensures r.Some? ==> forall j :: i <= j < r.value ==> !IsEntryFor(lines[j], id)
    ensures r.None? ==> forall j :: i <= j < |lines| ==> !IsEntryFor(lines[j], id)
    decreases |lines| - i
  {
    if i == |lines| then None
    else if IsEntryFor(lines[i], id) then Some(i)
    else FindEntry(lines, id, i + 1)
  }

  /**
   * What `markDone(md, id)` computes: the first item of task `id` decides the
   * outcome; a ticked one (`x` or `X`) means there is nothing to do, an open one is
   * ticked and the lines are joined back together.
   */
  function MarkDoneOf(md: string, id: string): (r: MarkResult)
    ensures r.changed <==> r.reason == MarkedDone
    ensures !r.changed ==> r.md == md
    ensures r.reason == NotFound <==>
      forall j :: 0 <= j < |Split(md, '\n')| ==> !IsEntryFor(Split(md, '\n')[j], id)
  {
    var lines := Split(md, '\n');
    match FindEntry(lines, id, 0)
    case None => MarkResult(md, false, NotFound)
    case Some(j) =>
      if LowerChar(MatchEntry(lines[j]).value.mark) == 'x' then MarkResult(md, false, AlreadyDone)
      else MarkResult(Join(TickLine(lines, j), '\n'), true, MarkedDone)
  }

  /** `markDone`, as the script runs it: a scan over the lines that returns at the task's item. */
  method MarkDone(md: string, id: string) returns (r: MarkResult)
    ensures r == MarkDoneOf(md, id)
  {
    var lines := Split(md, '\n');
    var i := 0;
    while i < |lines|
      invariant i <= |lines|
      invariant FindEntry(lines, id, i) == FindEntry(lines, id, 0)
    {
      var m := MatchEntry(lines[i]);
      if m.None? {
        i := i + 1;
        continue;
      }
      var currentId := Trim(m.value.id);
      if currentId != id {
        i := i + 1;
        continue;
      }
      if [LowerChar(m.value.mark)] == "x" {
        return MarkResult(md, false, AlreadyDone);
      }
      lines := lines[i := TickBox(lines[i])];
      return MarkResult(Join(lines, '\n'), true, MarkedDone);
    }
    return MarkResult(md, false, NotFound);
  }

  /** The ledger lines with the item on line `j` ticked. */
  function TickLine(lines: seq<string>, j: nat): seq<string>
    requires j < |lines|
  {
    lines[j := TickBox(lines[j])]
  }

  /** `after` is `before` with only line `j` changed, and that one to a ticked box. */
  predicate TickedAt(before: seq<string>, after: seq<string>, j: int) {
    0 <= j < |before| == |after| && |before[j]| >= 5 &&
    after[j] == "- [x]" + before[j][5..] &&
    forall k :: 0 <= k < |before| && k != j ==> after[k] == before[k]
  }

  /** Line `j` of `before` held the open item of task `id`, and `after` ticks just that box. */
  predicate OpenEntryTicked(before: seq<string>, after: seq<string>, id: string, j: int) {
    0 <= j < |before| && IsEntryFor(before[j], id) && MatchEntry(before[j]).value.mark == ' ' &&
    TickedAt(before, after, j)
  }

  /** Splitting a ledger whose item was ticked gives back the ticked lines. */
  lemma SplitTicked(md: string, j: nat)
    requires j < |Split(md, '\n')|
    ensures Split(Join(TickLine(Split(md, '\n'), j), '\n'), '\n') == TickLine(Split(md, '\n'), j)
  {
    var lines := Split(md, '\n');
    var line := lines[j];
    assert '\n' !in TickBox(line) by {
      if TickBox(line) != line {
        assert TickBox(line) == "- [x]" + line[5..];
      }
    }
    SplitJoin(TickLine(lines, j), '\n');
  }

  /** An item's box holds a space, `x` or `X`. */
  lemma EntryMark(line: string)
    requires MatchEntry(line).Some?
    ensures MatchEntry(line).value.mark in {' ', 'x', 'X'}
  {
  }

  /** A change comes from the first item of the task, an open one, with its box ticked. */
  lemma ChangedAtFirstEntry(md: string, id: string)
    requires MarkDoneOf(md, id).changed
    ensures var lines := Split(md, '\n');
      FindEntry(lines, id, 0).Some? &&
      var j := FindEntry(lines, id, 0).value;
      MatchEntry(lines[j]).value.mark == ' ' &&
      MarkDoneOf(md, id).md == Join(TickLine(lines, j), '\n')
  {
    var lines := Split(md, '\n');
    EntryMark(lines[FindEntry(lines, id, 0).value]);
  }

  /**
   * A change is surgical: the text keeps its lines, the task's open item gets its
   * box ticked, and every other line is left as it was.
   */
  lemma MarkDoneIsSurgical(md: string, id: string)
    requires MarkDoneOf(md, id).changed
    ensures exists j | 0 <= j < |Split(md, '\n')| ::
      OpenEntryTicked(Split(md, '\n'), Split(MarkDoneOf(md, id).md, '\n'), id, j)
  {
    var lines := Split(md, '\n');
    ChangedAtFirstEntry(md, id);
    var j := FindEntry(lines, id, 0).value;
    SplitTicked(md, j);
    var after := Split(MarkDoneOf(md, id).md, '\n');
    assert after == TickLine(lines, j);
    TickLineTicks(lines, j);
    assert OpenEntryTicked(lines, after, id, j);
  }

  /** Ticking an open item on line `j` changes that line to a ticked box and no other. */
  lemma TickLineTicks(lines: seq<string>, j: nat)
    requires j < |lines| && MatchEntry(lines[j]).Some? && MatchEntry(lines[j]).value.mark == ' '
    ensures TickedAt(lines, TickLine(lines, j), j)
  {
    TickBoxKeepsEntry(lines[j]);
  }

  /** Running the writer a second time finds the item already ticked and changes nothing. */
  lemma MarkDoneIsIdempotent(md: string, id: string)
    requires MarkDoneOf(md, id).changed
    ensures MarkDoneOf(MarkDoneOf(md, id).md, id) == MarkResult(MarkDoneOf(md, id).md, false, AlreadyDone)
  {
    var lines := Split(md, '\n');
    ChangedAtFirstEntry(md, id);
    var j := FindEntry(lines, id, 0).value;
    TickBoxKeepsEntry(lines[j]);
    SplitTicked(md, j);
    TickedEntryIsAlreadyDone(MarkDoneOf(md, id).md, id, j);
  }

  /** An item already ticked, with either case of `x`, is reported as done and left alone. */
  lemma TickedEntryIsAlreadyDone(md: string, id: string, j: nat)
    requires j < |Split(md, '\n')|
    requires IsEntryFor(Split(md, '\n')[j], id)
    requires MatchEntry(Split(md, '\n')[j]).value.mark in {'x', 'X'}
    requires forall k :: 0 <= k < j ==> !IsEntryFor(Split(md, '\n')[k], id)
    ensures MarkDoneOf(md, id) == MarkResult(md, false, AlreadyDone)
  {
    assert FindEntry(Split(md, '\n'), id, 0) == Some(j);
  }

  /** The task's first item, when still open, is ticked in place and reported as marked done. */
  lemma OpenEntryIsMarkedDone(md: string, id: string, j: nat)
    requires j < |Split(md, '\n')|
    requires IsEntryFor(Split(md, '\n')[j], id)
    requires MatchEntry(Split(md, '\n')[j]).value.mark == ' '
    requires forall k :: 0 <= k < j ==> !IsEntryFor(Split(md, '\n')[k], id)
    ensures MarkDoneOf(md, id) == MarkResult(Join(TickLine(Split(md, '\n'), j), '\n'), true, MarkedDone)
  {
    assert FindEntry(Split(md, '\n'), id, 0) == Some(j);
  }

  // ---------------------------------------------------------------------------
  // main
  // ---------------------------------------------------------------------------

  /** What a run of the script does with the ledger text it finds, if any. */
  datatype Outcome =
    | IdMissing
    | LedgerMissing
    | NoChange(reason: Reason)
    | Commit(md: string, message: string)

  /** The commit message of a completed task. */
  function CommitMessage(id: string): string {
    "chore(tasks): mark " + id + " complete"
  }

  /**
   * `main`: an empty `TASK_ID` fails as soon as the script loads; a missing TASKS.md is
   * an error; an unchanged ledger is neither written nor committed; a changed one is
   * written and committed under a fixed message.
   */
  function CompleteTask(ledger: Option<string>, id: string): (o: Outcome)
    ensures o.IdMissing? <==> id == ""
    ensures o.LedgerMissing? <==> id != "" && ledger.None?
    ensures o.Commit? ==> o.md == MarkDoneOf(ledger.value, id).md && o.message == CommitMessage(id)
    ensures o.Commit? <==> id != "" && ledger.Some? && MarkDoneOf(ledger.value, id).reason == MarkedDone
    ensures o.NoChange? ==> o.reason in {AlreadyDone, NotFound}
  {
    if id == "" then IdMissing
    else match ledger
      case None => LedgerMissing
      case Some(md) =>
        var r := MarkDoneOf(md, id);
        if !r.changed then NoChange(r.reason) else Commit(r.md, CommitMessage(id))
  }

  /** A ledger whose first item for the task is open is committed with that box ticked. */
  lemma OpenEntryIsCommitted(md: string, id: string, j: nat)
    requires j < |Split(md, '\n')|
    requires IsEntryFor(Split(md, '\n')[j], id)
    requires MatchEntry(Split(md, '\n')[j]).value.mark == ' '
    requires forall k :: 0 <= k < j ==> !IsEntryFor(Split(md, '\n')[k], id)
    ensures CompleteTask(Some(md), id) == Commit(Join(TickLine(Split(md, '\n'), j), '\n'), CommitMessage(id))
  {
    EntryIdIsTrimmed(Split(md, '\n')[j]);
    OpenEntryIsMarkedDone(md, id, j);
  }

  /** After a commit, the next run over the committed ledger finds nothing more to do. */
  lemma CompleteTaskSettles(md: string, id: string)
    requires CompleteTask(Some(md), id).Commit?
    ensures CompleteTask(Some(CompleteTask(Some(md), id).md), id) == NoChange(AlreadyDone)
  {
    MarkDoneIsIdempotent(md, id);
  }
}
