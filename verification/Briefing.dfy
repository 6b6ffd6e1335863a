/**
 The session briefing (cmd/3ngram-hook/briefing.go): the rendered text, the commitments recorded
 with the byte offsets of their lines, the local cut, and the stamp that must match what was shown.

 Text is a `string` of runes; the offsets are of its UTF-8 bytes.
 */
module Briefing {
  import opened Utf8

  datatype BriefingCommitment = BriefingCommitment(
    memoryId: string, topic: string, status: string, dueAt: string, overdue: bool)

  datatype CommitmentSection = CommitmentSection(count: int, items: seq<BriefingCommitment>)

  datatype MemoryItem = MemoryItem(memoryType: string, topic: string)

  datatype MemorySection = MemorySection(count: int, items: seq<MemoryItem>)

  datatype Response = Response(
    commitments: CommitmentSection, overdue: CommitmentSection, blockers: MemorySection,
    staleCandidates: MemorySection, recentDecisions: MemorySection, preferences: MemorySection)

  datatype BriefedMemory = BriefedMemory(id: string, topic: string, status: string)

  datatype BriefedRow = BriefedRow(memory: BriefedMemory, endOffset: nat)

  const MAX_BRIEFED_MEMORIES: nat := 100

  const TITLE := "## 3ngram Session Briefing: "
  const OVERDUE := "**Overdue**:\n"
  const BLOCKERS := "**Blockers**:\n"
  const COMMITMENTS := "**Commitments**:\n"
  const STALE := "**Stale**:\n"
  const RECENT_DECISIONS := "**Recent decisions**:\n"
  const PREFERENCES := "**Preferences**:\n"

  // ---- The text ----

  function Decimal(n: nat): string {
    (if n < 10 then "" else Decimal(n / 10)) + [('0' as int + n % 10) as char]
  }

  function CommitmentLine(item: BriefingCommitment): string {
    "- **" + item.topic + "** (" + item.status + ")"
    + (if item.dueAt != "" then " due " + item.dueAt else "")
    + (if item.overdue then " [overdue]" else "")
  }

  function WholeLine(item: BriefingCommitment): string {
    CommitmentLine(item) + "\n"
  }

  function WholeLines(items: seq<BriefingCommitment>): seq<string> {
    seq(|items|, i requires 0 <= i < |items| => WholeLine(items[i]))
  }

  function Joined(lines: seq<string>): string {
    if lines == [] then "" else Joined(lines[..|lines| - 1]) + lines[|lines| - 1]
  }

  function MoreLine(n: nat): string {
    "...and " + Decimal(n) + " more\n"
  }

  function More(count: int, shown: nat): string {
    if count > shown then MoreLine(count - shown) else ""
  }

  function CommitmentsText(section: CommitmentSection): string {
    if section.count == 0 || section.items == [] then "None"
    else Joined(WholeLines(section.items)) + More(section.count, |section.items|)
  }

  function MemoryLine(item: MemoryItem): string {
    "- **" + item.topic + "**" + (if item.memoryType != "" then " (" + item.memoryType + ")" else "")
  }

  function MemoryLines(items: seq<MemoryItem>): seq<string> {
    seq(|items|, i requires 0 <= i < |items| => MemoryLine(items[i]) + "\n")
  }

  function MemoriesText(section: MemorySection): string {
    if section.count == 0 || section.items == [] then "None"
    else Joined(MemoryLines(section.items)) + More(section.count, |section.items|)
  }

  /** The text before the lines of the overdue section. */
  function BeforeOverdue(project: string): string {
    TITLE + project + "\n\n" + OVERDUE
  }

  function BeforeCommitments(resp: Response, project: string): string {
    BeforeOverdue(project) + CommitmentsText(resp.overdue) + "\n"
    + (BLOCKERS + MemoriesText(resp.blockers) + "\n") + COMMITMENTS
  }

  function AfterCommitments(resp: Response): string {
    "\n" + (STALE + MemoriesText(resp.staleCandidates) + "\n")
    + (RECENT_DECISIONS + MemoriesText(resp.recentDecisions) + "\n")
    + (PREFERENCES + MemoriesText(resp.preferences))
  }

  function Text(resp: Response, project: string): string {
    BeforeCommitments(resp, project) + CommitmentsText(resp.commitments) + AfterCommitments(resp)
  }

  // ---- How the text reads ----

  /** The number a row of decimal digits stands for. */
  function ValueOf(digits: string): int {
    if digits == "" then 0 else 10 * ValueOf(digits[..|digits| - 1]) + (digits[|digits| - 1] as int - '0' as int)
  }

  /** The count printed is the count meant: digits only, read back to the number, with no leading zero. */
  lemma {:induction false} DecimalReads(n: nat)
    ensures ValueOf(Decimal(n)) == n && Decimal(n) != ""
    ensures forall i | 0 <= i < |Decimal(n)| :: '0' <= Decimal(n)[i] <= '9'
    ensures n > 0 ==> Decimal(n)[0] != '0'
  {
    var d := Decimal(n);
    assert d[|d| - 1] == ('0' as int + n % 10) as char;
    if n >= 10 {
      DecimalReads(n / 10);
      assert d[..|d| - 1] == Decimal(n / 10);
    } else {
      assert d[..|d| - 1] == "" && ValueOf("") == 0;
    }
  }

  /** The line of one commitment: its topic, its status, its date when it has one, and a mark when it is overdue. */
  lemma LineReads(item: BriefingCommitment)
    ensures WholeLine(item)
         == if item.dueAt == "" then
              "- **" + item.topic + "** (" + item.status + ")" + (if item.overdue then " [overdue]\n" else "\n")
            else
              "- **" + item.topic + "** (" + item.status + ") due " + item.dueAt
              + (if item.overdue then " [overdue]\n" else "\n")
  {
    var head := "- **" + item.topic + "** (" + item.status;
    assert head + ")" + " due " == head + ") due ";
    assert " due " + item.dueAt + " [overdue]" + "\n" == " due " + item.dueAt + " [overdue]\n";
  }

  lemma Spread(before: string, a: string, b: string, c: string)
    ensures before + (a + b + c) == before + a + b + c
    ensures before + (a + b) == before + a + b
  {
  }

  lemma SpreadTail(before: string, stale: string, recent: string, preferences: string)
    ensures before + ("\n" + (STALE + stale + "\n") + (RECENT_DECISIONS + recent + "\n") + (PREFERENCES + preferences))
         == before + "\n" + STALE + stale + "\n" + RECENT_DECISIONS + recent + "\n" + PREFERENCES + preferences
  {
    var first, second, last := STALE + stale + "\n", RECENT_DECISIONS + recent + "\n", PREFERENCES + preferences;
    Spread(before, "\n" + first, second, last);
    Spread(before, "\n", first, "");
    Spread(before + "\n", STALE, stale, "\n");
    Spread(before + "\n" + first, RECENT_DECISIONS, recent, "\n");
    Spread(before + "\n" + first + second, PREFERENCES, preferences, "");
  }

  /** The headings in their order, each followed by its own section. */
  lemma TextReads(resp: Response, project: string)
    ensures Text(resp, project)
         == "## 3ngram Session Briefing: " + project + "\n\n" + "**Overdue**:\n" + CommitmentsText(resp.overdue) + "\n"
            + "**Blockers**:\n" + MemoriesText(resp.blockers) + "\n"
            + "**Commitments**:\n" + CommitmentsText(resp.commitments) + "\n"
            + "**Stale**:\n" + MemoriesText(resp.staleCandidates) + "\n"
            + "**Recent decisions**:\n" + MemoriesText(resp.recentDecisions) + "\n"
            + "**Preferences**:\n" + MemoriesText(resp.preferences)
  {
    var first := BeforeOverdue(project) + CommitmentsText(resp.overdue) + "\n";
    Spread(first, BLOCKERS, MemoriesText(resp.blockers), "\n");
    SpreadTail(BeforeCommitments(resp, project) + CommitmentsText(resp.commitments),
               MemoriesText(resp.staleCandidates), MemoriesText(resp.recentDecisions), MemoriesText(resp.preferences));
  }

  /** A section is `None`, or its lines and then how many more there are. */
  lemma SectionsRead(commitments: CommitmentSection, memories: MemorySection)
    ensures CommitmentsText(commitments)
         == if commitments.count == 0 || commitments.items == [] then "None"
            else if commitments.count <= |commitments.items| then Joined(WholeLines(commitments.items))
            else Joined(WholeLines(commitments.items))
                 + ("...and " + Decimal(commitments.count - |commitments.items|) + " more\n")
    ensures MemoriesText(memories)
         == if memories.count == 0 || memories.items == [] then "None"
            else if memories.count <= |memories.items| then Joined(MemoryLines(memories.items))
            else Joined(MemoryLines(memories.items)) + ("...and " + Decimal(memories.count - |memories.items|) + " more\n")
    ensures forall i | 0 <= i < |memories.items| ::
              MemoryLines(memories.items)[i]
              == if memories.items[i].memoryType == "" then "- **" + memories.items[i].topic + "**" + "\n"
                 else "- **" + memories.items[i].topic + "**" + (" (" + memories.items[i].memoryType + ")") + "\n"
  {
    assert Joined(WholeLines(commitments.items)) + "" == Joined(WholeLines(commitments.items));
    assert Joined(MemoryLines(memories.items)) + "" == Joined(MemoryLines(memories.items));
    forall item: MemoryItem ensures "- **" + item.topic + "**" + "" == "- **" + item.topic + "**" {
      assert ("- **" + item.topic + "**") + "" == "- **" + item.topic + "**";
    }
  }

  // ---- Where each line is ----

  /** A rendered commitment and the number of runes up to the end of its line. */
  datatype Placed = Placed(item: BriefingCommitment, end: nat)

  function Shown(section: CommitmentSection): seq<BriefingCommitment> {
    if section.count == 0 then [] else section.items
  }

  /** Where a line ends, in runes. */
  function EndOf(before: nat, lines: seq<string>, i: nat): nat
    requires i < |lines|
  {
    before + |Joined(lines[..i + 1])|
  }

  function Ends(before: nat, lines: seq<string>): seq<nat> {
    seq(|lines|, i requires 0 <= i < |lines| => EndOf(before, lines, i))
  }

  function Zip(items: seq<BriefingCommitment>, ends: seq<nat>): seq<Placed>
    requires |items| == |ends|
  {
    seq(|items|, i requires 0 <= i < |items| => Placed(items[i], ends[i]))
  }

  function Placements(before: nat, items: seq<BriefingCommitment>): seq<Placed> {
    Zip(items, Ends(before, WholeLines(items)))
  }

  /** Every rendered commitment, in render order. */
  function AllPlaced(resp: Response, project: string): seq<Placed> {
    Placements(|BeforeOverdue(project)|, Shown(resp.overdue))
    + Placements(|BeforeCommitments(resp, project)|, Shown(resp.commitments))
  }

  /** The commitment's whole line, newline included, stands in the text and ends at `end`. */
  predicate StandsIn(text: string, p: Placed) {
    EndsAt(text, WholeLine(p.item), p.end)
  }

  predicate EndsAt(text: string, line: string, end: nat) {
    |line| <= end <= |text| && text[end - |line|..end] == line
  }

  predicate InRenderOrder(placed: seq<Placed>) {
    forall i, j | 0 <= i < j < |placed| :: placed[i].end < placed[j].end
  }

  // ---- Collecting ----

  function MemoryOf(item: BriefingCommitment): BriefedMemory {
    BriefedMemory(item.memoryId, item.topic, item.status)
  }

  predicate HasId(rows: seq<BriefedRow>, id: string) {
    exists i | 0 <= i < |rows| :: rows[i].memory.id == id
  }

  /** `briefedCollector.add`. */
  function AddRow(rows: seq<BriefedRow>, row: BriefedRow): seq<BriefedRow> {
    if |rows| >= MAX_BRIEFED_MEMORIES || HasId(rows, row.memory.id) then rows else rows + [row]
  }

  function AddAll(rows: seq<BriefedRow>, all: seq<BriefedRow>): seq<BriefedRow> {
    if all == [] then rows else AddRow(AddAll(rows, all[..|all| - 1]), all[|all| - 1])
  }

  /** Each id once, where it first appears. */
  function FirstDistinct(all: seq<BriefedRow>): (r: seq<BriefedRow>)
    ensures forall id :: HasId(r, id) <==> HasId(all, id)
    ensures forall i, j | 0 <= i < j < |r| :: r[i].memory.id != r[j].memory.id
  {
    if all == [] then []
    else
      var front, last := all[..|all| - 1], all[|all| - 1];
      var r := if HasId(front, last.memory.id) then FirstDistinct(front) else FirstDistinct(front) + [last];
      assert forall id :: HasId(r, id) <==> HasId(all, id) by { DistinctIds(all, FirstDistinct(front), r); }
      r
  }

  lemma DistinctIds(all: seq<BriefedRow>, prior: seq<BriefedRow>, r: seq<BriefedRow>)
    requires all != []
    requires forall id :: HasId(prior, id) <==> HasId(all[..|all| - 1], id)
    requires r == if HasId(all[..|all| - 1], all[|all| - 1].memory.id) then prior else prior + [all[|all| - 1]]
    ensures forall id :: HasId(r, id) <==> HasId(all, id)
  {
    var front, last := all[..|all| - 1], all[|all| - 1];
    assert all == front + [last];
    forall id ensures HasId(r, id) <==> HasId(all, id) {
      HasIdAppend(front, last, id);
      HasIdAppend(prior, last, id);
    }
  }

  lemma HasIdAppend(rows: seq<BriefedRow>, row: BriefedRow, id: string)
    ensures HasId(rows + [row], id) <==> HasId(rows, id) || row.memory.id == id
  {
    var longer := rows + [row];
    if HasId(rows, id) {
      var i :| 0 <= i < |rows| && rows[i].memory.id == id;
      assert longer[i].memory.id == id;
    }
    if row.memory.id == id { assert longer[|rows|].memory.id == id; }
  }

  function Take(rows: seq<BriefedRow>, n: nat): seq<BriefedRow> {
    if |rows| <= n then rows else rows[..n]
  }

  /** The collector keeps the first hundred distinct commitments. */
  lemma {:induction false} CollectsFirstDistinct(all: seq<BriefedRow>)
    ensures AddAll([], all) == Take(FirstDistinct(all), MAX_BRIEFED_MEMORIES)
  {
    if all != [] {
      CollectsFirstDistinct(all[..|all| - 1]);
    }
  }

  lemma {:induction false} AddAllConcat(rows: seq<BriefedRow>, a: seq<BriefedRow>, b: seq<BriefedRow>)
    ensures AddAll(rows, a + b) == AddAll(AddAll(rows, a), b)
  {
    if b == [] {
      assert a + b == a;
    } else {
      assert (a + b)[..|a + b| - 1] == a + b[..|b| - 1];
      AddAllConcat(rows, a, b[..|b| - 1]);
    }
  }

  lemma AddStep(rows: seq<BriefedRow>, all: seq<BriefedRow>, i: nat)
    requires i < |all|
    ensures AddAll(rows, all[..i + 1]) == AddRow(AddAll(rows, all[..i]), all[i])
  {
    assert all[..i + 1][..i] == all[..i];
  }

  // ---- The cut ----

  /** `survivingBriefed`, before the memories are taken out of the rows. */
  function Within(rows: seq<BriefedRow>, cut: nat): seq<BriefedRow> {
    if rows == [] then []
    else Within(rows[..|rows| - 1], cut) + if rows[|rows| - 1].endOffset <= cut then [rows[|rows| - 1]] else []
  }

  function Memories(rows: seq<BriefedRow>): seq<BriefedMemory> {
    seq(|rows|, i requires 0 <= i < |rows| => rows[i].memory)
  }

  predicate Increasing(rows: seq<BriefedRow>) {
    forall i, j | 0 <= i < j < |rows| :: rows[i].endOffset < rows[j].endOffset
  }

  lemma WithinAppend(rows: seq<BriefedRow>, row: BriefedRow, cut: nat)
    ensures Within(rows + [row], cut) == Within(rows, cut) + if row.endOffset <= cut then [row] else []
  {
    assert (rows + [row])[..|rows|] == rows;
  }

  lemma {:induction false} AllWithin(rows: seq<BriefedRow>, cut: nat)
    requires forall i | 0 <= i < |rows| :: rows[i].endOffset <= cut
    ensures Within(rows, cut) == rows
  {
    if rows != [] {
      AllWithin(rows[..|rows| - 1], cut);
      assert Within(rows, cut) == rows[..|rows| - 1] + [rows[|rows| - 1]];
    }
  }

  lemma {:induction false} DistinctFromAll(all: seq<BriefedRow>, i: nat)
    requires i < |FirstDistinct(all)|
    ensures FirstDistinct(all)[i] in all
  {
    var front := all[..|all| - 1];
    if i < |FirstDistinct(front)| { DistinctFromAll(front, i); }
  }

  lemma FittingCommutes(all: seq<BriefedRow>, cut: nat, n: nat)
    requires forall row | row in all :: row.endOffset <= cut
    ensures Within(Take(FirstDistinct(all), n), cut) == Take(FirstDistinct(Within(all, cut)), n)
  {
    AllWithin(all, cut);
    var rows := FirstDistinct(all);
    forall i | 0 <= i < |Take(rows, n)| ensures Take(rows, n)[i].endOffset <= cut {
      assert Take(rows, n)[i] == rows[i];
      DistinctFromAll(all, i);
    }
    AllWithin(Take(rows, n), cut);
  }

  lemma LastBoundsAll(all: seq<BriefedRow>, cut: nat)
    requires Increasing(all) && all != [] && all[|all| - 1].endOffset <= cut
    ensures forall row | row in all :: row.endOffset <= cut
  {
  }

  lemma LateLastIgnored(all: seq<BriefedRow>, cut: nat, n: nat)
    requires all != [] && all[|all| - 1].endOffset > cut
    ensures Within(all, cut) == Within(all[..|all| - 1], cut)
    ensures Within(Take(FirstDistinct(all), n), cut) == Within(Take(FirstDistinct(all[..|all| - 1]), n), cut)
  {
    TakeAppend(FirstDistinct(all[..|all| - 1]), all[|all| - 1], cut, n);
  }

  /** Capping and deduplicating the whole list, then cutting, is cutting first. */
  lemma {:induction false} CutCommutes(all: seq<BriefedRow>, cut: nat, n: nat)
    requires Increasing(all)
    ensures Within(Take(FirstDistinct(all), n), cut) == Take(FirstDistinct(Within(all, cut)), n)
  {
    if all != [] {
      if all[|all| - 1].endOffset <= cut {
        LastBoundsAll(all, cut);
        FittingCommutes(all, cut, n);
      } else {
        CutCommutes(all[..|all| - 1], cut, n);
        LateLastIgnored(all, cut, n);
      }
    }
  }

  predicate EarliestOfId(all: seq<BriefedRow>, row: BriefedRow) {
    row in all && forall other | other in all && other.memory.id == row.memory.id :: row.endOffset <= other.endOffset
  }

  lemma HasIdMember(rows: seq<BriefedRow>, id: string)
    ensures HasId(rows, id) <==> exists row | row in rows :: row.memory.id == id
  {
    if HasId(rows, id) {
      var i :| 0 <= i < |rows| && rows[i].memory.id == id;
      assert rows[i] in rows;
    }
  }

  lemma {:induction false} KeptIncreases(all: seq<BriefedRow>)
    requires Increasing(all)
    ensures Increasing(FirstDistinct(all))
  {
    if all != [] {
      var front, last := all[..|all| - 1], all[|all| - 1];
      KeptIncreases(front);
      forall i | 0 <= i < |FirstDistinct(front)| ensures FirstDistinct(front)[i].endOffset < last.endOffset {
        DistinctFromAll(front, i);
      }
    }
  }

  lemma EarliestStep(front: seq<BriefedRow>, last: BriefedRow, row: BriefedRow)
    requires forall other | other in front :: other.endOffset < last.endOffset
    ensures EarliestOfId(front + [last], row)
       <==> EarliestOfId(front, row) || (row == last && !HasId(front, last.memory.id))
  {
    HasIdMember(front, last.memory.id);
    assert forall other :: other in front + [last] <==> other in front || other == last;
  }

  lemma {:induction false} KeptAreEarliest(all: seq<BriefedRow>, row: BriefedRow)
    requires Increasing(all)
    ensures row in FirstDistinct(all) <==> EarliestOfId(all, row)
  {
    if all != [] {
      var front, last := all[..|all| - 1], all[|all| - 1];
      assert all == front + [last];
      KeptAreEarliest(front, row);
      EarliestStep(front, last, row);
    }
  }

  /** What is kept of the list is, for each id, its earliest line, in order. */
  lemma KeepsEarliest(all: seq<BriefedRow>)
    requires Increasing(all)
    ensures Increasing(FirstDistinct(all))
    ensures forall row :: row in FirstDistinct(all) <==> EarliestOfId(all, row)
  {
    KeptIncreases(all);
    forall row ensures row in FirstDistinct(all) <==> EarliestOfId(all, row) {
      KeptAreEarliest(all, row);
    }
  }

  lemma TakeAppend(rows: seq<BriefedRow>, last: BriefedRow, cut: nat, n: nat)
    requires last.endOffset > cut
    ensures Within(Take(rows + [last], n), cut) == Within(Take(rows, n), cut)
  {
    if |rows| < n {
      WithinAppend(rows, last, cut);
    } else {
      assert (rows + [last])[..n] == rows[..n];
    }
  }

  // ---- Offsets in the text ----

  function RowAt(text: string, p: Placed): BriefedRow
    requires p.end <= |text|
  {
    BriefedRow(MemoryOf(p.item), Offset(text, p.end))
  }

  function RowsIn(text: string, placed: seq<Placed>): seq<BriefedRow>
    requires forall p | p in placed :: p.end <= |text|
  {
    seq(|placed|, i requires 0 <= i < |placed| => RowAt(text, placed[i]))
  }

  /** Where a line ends, in bytes. */
  function ByteEndOf(before: string, lines: seq<string>, i: nat): nat
    requires i < |lines|
  {
    |Encode(before + Joined(lines[..i + 1]))|
  }

  function ByteEnds(before: string, lines: seq<string>): seq<nat> {
    seq(|lines|, i requires 0 <= i < |lines| => ByteEndOf(before, lines, i))
  }

  function ZipRows(items: seq<BriefingCommitment>, ends: seq<nat>): seq<BriefedRow>
    requires |items| == |ends|
  {
    seq(|items|, i requires 0 <= i < |items| => BriefedRow(MemoryOf(items[i]), ends[i]))
  }

  /** The rows of one section, as the collector is told them. */
  function SectionRows(before: string, items: seq<BriefingCommitment>): seq<BriefedRow> {
    ZipRows(items, ByteEnds(before, WholeLines(items)))
  }

  lemma {:induction false} JoinedPrefix(lines: seq<string>, i: nat)
    requires i <= |lines|
    ensures Joined(lines[..i]) <= Joined(lines)
    decreases |lines|
  {
    if i < |lines| {
      JoinedPrefix(lines[..|lines| - 1], i);
      assert lines[..|lines| - 1][..i] == lines[..i];
    } else {
      assert lines[..i] == lines;
    }
  }

  lemma JoinedStep(lines: seq<string>, i: nat)
    requires i < |lines|
    ensures Joined(lines[..i + 1]) == Joined(lines[..i]) + lines[i]
  {
    assert lines[..i + 1][..i] == lines[..i];
  }

  lemma {:induction false} JoinedGrow(lines: seq<string>, i: nat, j: nat)
    requires i < j <= |lines| && forall line | line in lines :: line != ""
    ensures |Joined(lines[..i])| < |Joined(lines[..j])|
    decreases j
  {
    JoinedStep(lines, j - 1);
    assert lines[j - 1] in lines;
    if i < j - 1 { JoinedGrow(lines, i, j - 1); }
  }

  lemma JoinedUpTo(lines: seq<string>, i: nat) returns (upTo: string, earlier: string)
    requires i < |lines|
    ensures upTo == Joined(lines[..i + 1]) && upTo == earlier + lines[i] && upTo <= Joined(lines)
  {
    upTo, earlier := Joined(lines[..i + 1]), Joined(lines[..i]);
    JoinedPrefix(lines, i + 1);
    JoinedStep(lines, i);
  }

  lemma PartStands(before: string, lines: seq<string>, text: string, i: nat) returns (upTo: string)
    requires i < |lines| && before + Joined(lines) <= text
    ensures upTo == Joined(lines[..i + 1])
    ensures EndsAt(text, lines[i], |before| + |upTo|) && text[..|before| + |upTo|] == before + upTo
  {
    var all, earlier := Joined(lines), "";
    upTo, earlier := JoinedUpTo(lines, i);
    StandsAtEnd(before, upTo, earlier, lines[i], all, text);
  }

  lemma EndsThere(before: nat, lines: seq<string>, text: string, i: nat, upTo: string)
    requires i < |lines| && upTo == Joined(lines[..i + 1]) && EndsAt(text, lines[i], before + |upTo|)
    ensures EndsAt(text, lines[i], EndOf(before, lines, i))
  {
  }

  lemma StandsAtEnd(before: string, upTo: string, earlier: string, line: string, lines: string, text: string)
    requires upTo == earlier + line && upTo <= lines && before + lines <= text
    ensures EndsAt(text, line, |before| + |upTo|)
    ensures text[..|before| + |upTo|] == before + upTo
  {
    var end := |before| + |upTo|;
    assert text[..|before + lines|] == before + lines;
    assert text[..end] == before + upTo;
    assert text[end - |line|..end] == text[..end][end - |line|..];
  }

  lemma PrefixOfAppend(a: string, b: string, c: string)
    requires a <= b
    ensures a <= b + c
  {
  }

  lemma AppendPrefix(a: string, b: string, c: string)
    requires b <= c
    ensures a + b <= a + c
  {
    assert (a + c)[..|a + b|] == a + c[..|b|];
  }

  lemma ShownLines(section: CommitmentSection)
    ensures Joined(WholeLines(Shown(section))) <= CommitmentsText(section)
  {
  }

  lemma SectionsInText(resp: Response, project: string)
    ensures BeforeOverdue(project) + Joined(WholeLines(Shown(resp.overdue))) <= Text(resp, project)
    ensures BeforeCommitments(resp, project) + Joined(WholeLines(Shown(resp.commitments))) <= Text(resp, project)
    ensures BeforeOverdue(project) + Joined(WholeLines(Shown(resp.overdue))) < BeforeCommitments(resp, project)
  {
    ShownLines(resp.overdue);
    ShownLines(resp.commitments);
    var first, second := BeforeOverdue(project), BeforeCommitments(resp, project);
    AppendPrefix(first, Joined(WholeLines(Shown(resp.overdue))), CommitmentsText(resp.overdue));
    AppendPrefix(second, Joined(WholeLines(Shown(resp.commitments))), CommitmentsText(resp.commitments));
    var rest := "\n" + (BLOCKERS + MemoriesText(resp.blockers) + "\n") + COMMITMENTS;
    HeadOfCommitments(resp, project, rest);
    PrefixOfAppend(first + Joined(WholeLines(Shown(resp.overdue))), first + CommitmentsText(resp.overdue), rest);
    PrefixOfAppend(second + Joined(WholeLines(Shown(resp.commitments))), second + CommitmentsText(resp.commitments),
                   AfterCommitments(resp));
    PrefixOfAppend(first + Joined(WholeLines(Shown(resp.overdue))), second,
                   CommitmentsText(resp.commitments) + AfterCommitments(resp));
    Reassociate(second, CommitmentsText(resp.commitments), AfterCommitments(resp));
  }

  lemma HeadOfCommitments(resp: Response, project: string, rest: string)
    requires rest == "\n" + (BLOCKERS + MemoriesText(resp.blockers) + "\n") + COMMITMENTS
    ensures BeforeCommitments(resp, project) == BeforeOverdue(project) + CommitmentsText(resp.overdue) + rest
    ensures |rest| > 0
  {
    Reassociate4(BeforeOverdue(project) + CommitmentsText(resp.overdue), "\n",
                 BLOCKERS + MemoriesText(resp.blockers) + "\n", COMMITMENTS);
  }

  lemma Reassociate(a: string, b: string, c: string)
    ensures a + (b + c) == a + b + c
  {
  }

  lemma Reassociate4(a: string, b: string, c: string, d: string)
    ensures a + b + c + d == a + (b + c + d)
  {
  }

  lemma SectionStands(before: string, items: seq<BriefingCommitment>, text: string, i: nat)
    requires i < |items| && before + Joined(WholeLines(items)) <= text
    ensures StandsIn(text, Placements(|before|, items)[i])
  {
    var lines := WholeLines(items);
    var upTo := PartStands(before, lines, text, i);
    EndsThere(|before|, lines, text, i, upTo);
  }

  ghost predicate AllStand(text: string, placed: seq<Placed>) {
    forall i | 0 <= i < |placed| :: StandsIn(text, placed[i])
  }

  lemma SectionAllStand(before: string, items: seq<BriefingCommitment>, text: string)
    requires before + Joined(WholeLines(items)) <= text
    ensures AllStand(text, Placements(|before|, items))
  {
    forall i | 0 <= i < |items| ensures StandsIn(text, Placements(|before|, items)[i]) {
      SectionStands(before, items, text, i);
    }
  }

  lemma BothStand(text: string, a: seq<Placed>, b: seq<Placed>)
    requires AllStand(text, a) && AllStand(text, b)
    ensures AllStand(text, a + b)
  {
  }

  /** Every recorded commitment's line stands in the text, at the place recorded for it. */
  lemma LinesStandInText(resp: Response, project: string)
    ensures AllStand(Text(resp, project), AllPlaced(resp, project))
  {
    SectionsInText(resp, project);
    SectionAllStand(BeforeOverdue(project), Shown(resp.overdue), Text(resp, project));
    SectionAllStand(BeforeCommitments(resp, project), Shown(resp.commitments), Text(resp, project));
    BothStand(Text(resp, project), Placements(|BeforeOverdue(project)|, Shown(resp.overdue)),
              Placements(|BeforeCommitments(resp, project)|, Shown(resp.commitments)));
  }

  lemma EndsInOrder(before: nat, lines: seq<string>)
    requires forall line | line in lines :: line != ""
    ensures forall i, j | 0 <= i < j < |lines| :: Ends(before, lines)[i] < Ends(before, lines)[j]
    ensures forall i | 0 <= i < |lines| :: before < Ends(before, lines)[i] <= before + |Joined(lines)|
  {
    forall i, j | 0 <= i < j < |lines| ensures Ends(before, lines)[i] < Ends(before, lines)[j] {
      JoinedGrow(lines, i + 1, j + 1);
    }
    forall i | 0 <= i < |lines| ensures before < Ends(before, lines)[i] <= before + |Joined(lines)| {
      JoinedGrow(lines, 0, i + 1);
      JoinedPrefix(lines, i + 1);
    }
  }

  lemma LinesNotEmpty(items: seq<BriefingCommitment>)
    ensures forall line | line in WholeLines(items) :: line != ""
  {
  }

  lemma SectionInOrder(before: nat, items: seq<BriefingCommitment>)
    ensures InRenderOrder(Placements(before, items))
    ensures forall p | p in Placements(before, items) :: before < p.end <= before + |Joined(WholeLines(items))|
  {
    LinesNotEmpty(items);
    EndsInOrder(before, WholeLines(items));
  }

  lemma OrderedConcat(a: seq<Placed>, b: seq<Placed>, m: nat)
    requires InRenderOrder(a) && InRenderOrder(b)
    requires (forall p | p in a :: p.end <= m) && forall p | p in b :: m < p.end
    ensures InRenderOrder(a + b)
  {
    var all := a + b;
    forall i, j | 0 <= i < j < |all| ensures all[i].end < all[j].end {
      if i < |a| <= j { assert a[i] in a && b[j - |a|] in b; }
    }
  }

  lemma PlacedInOrder(resp: Response, project: string)
    ensures InRenderOrder(AllPlaced(resp, project))
  {
    SectionsInText(resp, project);
    SectionInOrder(|BeforeOverdue(project)|, Shown(resp.overdue));
    SectionInOrder(|BeforeCommitments(resp, project)|, Shown(resp.commitments));
    OrderedConcat(Placements(|BeforeOverdue(project)|, Shown(resp.overdue)),
                  Placements(|BeforeCommitments(resp, project)|, Shown(resp.commitments)),
                  |BeforeCommitments(resp, project)|);
  }

  lemma BytesThere(before: string, lines: seq<string>, text: string, i: nat, upTo: string)
    requires i < |lines| && upTo == Joined(lines[..i + 1])
    requires |before| + |upTo| <= |text| && text[..|before| + |upTo|] == before + upTo
    ensures EndOf(|before|, lines, i) <= |text| && ByteEndOf(before, lines, i) == Offset(text, EndOf(|before|, lines, i))
  {
  }

  lemma ByteEndIsOffset(before: string, lines: seq<string>, text: string, i: nat)
    requires i < |lines| && before + Joined(lines) <= text
    ensures EndOf(|before|, lines, i) <= |text| && ByteEndOf(before, lines, i) == Offset(text, EndOf(|before|, lines, i))
  {
    var upTo := PartStands(before, lines, text, i);
    BytesThere(before, lines, text, i, upTo);
  }

  lemma ByteEndsAreOffsets(before: string, lines: seq<string>, text: string)
    requires before + Joined(lines) <= text
    ensures forall i | 0 <= i < |lines| ::
      Ends(|before|, lines)[i] <= |text| && ByteEnds(before, lines)[i] == Offset(text, Ends(|before|, lines)[i])
  {
    forall i | 0 <= i < |lines|
      ensures Ends(|before|, lines)[i] <= |text| && ByteEnds(before, lines)[i] == Offset(text, Ends(|before|, lines)[i])
    {
      ByteEndIsOffset(before, lines, text, i);
    }
  }

  lemma ZippedRows(items: seq<BriefingCommitment>, ends: seq<nat>, byteEnds: seq<nat>, text: string)
    requires |items| == |ends| == |byteEnds|
    requires forall i | 0 <= i < |items| :: ends[i] <= |text| && byteEnds[i] == Offset(text, ends[i])
    ensures forall p | p in Zip(items, ends) :: p.end <= |text|
    ensures ZipRows(items, byteEnds) == RowsIn(text, Zip(items, ends))
  {
  }

  lemma SectionOffsets(before: string, items: seq<BriefingCommitment>, text: string)
    requires before + Joined(WholeLines(items)) <= text
    ensures forall p | p in Placements(|before|, items) :: p.end <= |text|
    ensures SectionRows(before, items) == RowsIn(text, Placements(|before|, items))
  {
    var lines := WholeLines(items);
    ByteEndsAreOffsets(before, lines, text);
    ZippedRows(items, Ends(|before|, lines), ByteEnds(before, lines), text);
  }

  lemma RowsConcat(text: string, a: seq<Placed>, b: seq<Placed>)
    requires (forall p | p in a :: p.end <= |text|) && forall p | p in b :: p.end <= |text|
    ensures forall p | p in a + b :: p.end <= |text|
    ensures RowsIn(text, a + b) == RowsIn(text, a) + RowsIn(text, b)
  {
  }

  /** The offsets the collector is told are those of the lines in the finished text. */
  lemma OffsetsAreAbsolute(resp: Response, project: string)
    ensures forall p | p in AllPlaced(resp, project) :: p.end <= |Text(resp, project)|
    ensures SectionRows(BeforeOverdue(project), Shown(resp.overdue))
            + SectionRows(BeforeCommitments(resp, project), Shown(resp.commitments))
         == RowsIn(Text(resp, project), AllPlaced(resp, project))
  {
    var text := Text(resp, project);
    SectionsInText(resp, project);
    SectionOffsets(BeforeOverdue(project), Shown(resp.overdue), text);
    SectionOffsets(BeforeCommitments(resp, project), Shown(resp.commitments), text);
    RowsConcat(text, Placements(|BeforeOverdue(project)|, Shown(resp.overdue)),
               Placements(|BeforeCommitments(resp, project)|, Shown(resp.commitments)));
  }

  /** The commitments whose line ends within the first `k` runes. */
  function KeptPlaced(placed: seq<Placed>, k: nat): (r: seq<Placed>)
    ensures forall p :: p in r <==> p in placed && p.end <= k
  {
    if placed == [] then []
    else
      var last := placed[|placed| - 1];
      assert placed == placed[..|placed| - 1] + [last];
      KeptPlaced(placed[..|placed| - 1], k) + if last.end <= k then [last] else []
  }

  lemma RowsAppend(text: string, placed: seq<Placed>, last: Placed)
    requires forall p | p in placed + [last] :: p.end <= |text|
    ensures forall p | p in placed :: p in placed + [last]
    ensures last in placed + [last]
    ensures RowsIn(text, placed + [last]) == RowsIn(text, placed) + [RowAt(text, last)]
  {
    assert (placed + [last])[|placed|] == last;
    assert forall p | p in placed :: p in placed + [last];
  }

  /** Cutting by bytes at a rune boundary is cutting by runes. */
  lemma {:induction false} WithinIsKept(text: string, placed: seq<Placed>, k: nat)
    requires k <= |text| && forall p | p in placed :: p.end <= |text|
    ensures Within(RowsIn(text, placed), Offset(text, k)) == RowsIn(text, KeptPlaced(placed, k))
  {
    if placed != [] {
      var front, last := placed[..|placed| - 1], placed[|placed| - 1];
      assert placed == front + [last];
      RowsAppend(text, front, last);
      WithinIsKept(text, front, k);
      WithinAppend(RowsIn(text, front), RowAt(text, last), Offset(text, k));
      OffsetOrder(text, last.end, k);
      if last.end <= k {
        RowsAppend(text, KeptPlaced(front, k), last);
      }
    }
  }

  lemma RowsIncrease(text: string, placed: seq<Placed>)
    requires InRenderOrder(placed) && forall p | p in placed :: p.end <= |text|
    ensures Increasing(RowsIn(text, placed))
  {
    forall i, j | 0 <= i < j < |placed| ensures RowsIn(text, placed)[i].endOffset < RowsIn(text, placed)[j].endOffset {
      OffsetGrows(text, placed[i].end, placed[j].end);
    }
  }

  // ---- The whole answer ----

  function CollectedRows(resp: Response, project: string): seq<BriefedRow> {
    AddAll([], SectionRows(BeforeOverdue(project), Shown(resp.overdue))
               + SectionRows(BeforeCommitments(resp, project), Shown(resp.commitments)))
  }

  /**
   How many runes of the text a budget leaves. Up to 200 bytes over it all of them; beyond that, as
   many as fit the budget itself, whole runes only, and none when it is negative.
   */
  ghost predicate Leaves(text: string, maxChars: int, k: nat) {
    && k <= |text|
    && if |Encode(text)| <= maxChars + 200 then k == |text|
       else if maxChars < 0 then k == 0
       else LargestBoundary(text, maxChars, |Encode(text[..k])|)
  }

  /** There is one such number. */
  lemma LeavesOne(text: string, maxChars: int, j: nat, k: nat)
    requires Leaves(text, maxChars, j) && Leaves(text, maxChars, k)
    ensures j == k
  {
    OffsetOrder(text, j, k);
    OffsetOrder(text, k, j);
  }

  lemma {:induction false} KeptInText(placed: seq<Placed>, k: nat, n: nat)
    requires forall p | p in placed :: p.end <= n
    ensures forall p | p in KeptPlaced(placed, k) :: p.end <= n
  {
  }

  function MemoryAt(item: BriefingCommitment): BriefedMemory {
    BriefedMemory(id := item.memoryId, topic := item.topic, status := item.status)
  }

  /** The first hundred distinct commitments among those whose whole line lies in the first `k` runes. */
  function StampOf(text: string, placed: seq<Placed>, k: nat): seq<BriefedRow>
    requires forall p | p in placed :: p.end <= |text|
  {
    KeptInText(placed, k, |text|);
    Take(FirstDistinct(RowsIn(text, KeptPlaced(placed, k))), 100)
  }

  function StampedRows(resp: Response, project: string, k: nat): seq<BriefedRow> {
    OffsetsAreAbsolute(resp, project);
    StampOf(Text(resp, project), AllPlaced(resp, project), k)
  }

  /**
   For every answer and every budget: cutting the collected rows by bytes, where the loop cuts the
   bytes of the text, stamps the first hundred distinct commitments, in render order, of those whose
   whole line lies within the runes the budget leaves.
   */
  lemma StampMatchesText(resp: Response, project: string, maxChars: int) returns (k: nat)
    ensures Leaves(Text(resp, project), maxChars, k)
    ensures var bytes := Encode(Text(resp, project));
            var cut := if |bytes| > maxChars + 200 then SafeCut(bytes, maxChars) else |bytes|;
            && bytes[..cut] == Encode(Text(resp, project)[..k])
            && Within(CollectedRows(resp, project), cut) == StampedRows(resp, project, k)
  {
    var text, placed := Text(resp, project), AllPlaced(resp, project);
    k := KeptRunes(text, maxChars);
    OffsetsAreAbsolute(resp, project);
    KeptInText(placed, k, |text|);
    PlacedInOrder(resp, project);
    RowsIncrease(text, placed);
    CollectsFirstDistinct(RowsIn(text, placed));
    CutCommutes(RowsIn(text, placed), Offset(text, k), MAX_BRIEFED_MEMORIES);
    WithinIsKept(text, placed, k);
  }

  lemma KeptRunes(text: string, maxChars: int) returns (k: nat)
    ensures Leaves(text, maxChars, k)
    ensures Offset(text, k) == if |Encode(text)| > maxChars + 200 then SafeCut(Encode(text), maxChars) else |Encode(text)|
    ensures Encode(text)[..Offset(text, k)] == Encode(text[..k])
  {
    if |Encode(text)| > maxChars + 200 {
      k := KeptIsValid(text, maxChars);
      if maxChars >= 0 {
        CutIsLargestBoundary(text, maxChars);
      } else if k > 0 {
        OffsetGrows(text, 0, k);
      }
    } else {
      k := |text|;
      assert text[..k] == text;
    }
  }

  /** The commitments recorded are the overdue ones and then the others; none of a section counted empty. */
  lemma PlacedItems(resp: Response, project: string)
    ensures var (placed, overdue, open) := (AllPlaced(resp, project), resp.overdue, resp.commitments);
            var first := if overdue.count == 0 then [] else overdue.items;
            var items := first + if open.count == 0 then [] else open.items;
            |placed| == |items| && forall i | 0 <= i < |items| :: placed[i].item == items[i]
  {
  }

  lemma DistinctRowOf(text: string, kept: seq<Placed>, i: nat) returns (n: nat)
    requires forall p | p in kept :: p.end <= |text|
    requires i < |FirstDistinct(RowsIn(text, kept))|
    ensures n < |kept| && FirstDistinct(RowsIn(text, kept))[i].memory == MemoryAt(kept[n].item)
  {
    var rows := RowsIn(text, kept);
    DistinctFromAll(rows, i);
    n := RowIndex(rows, FirstDistinct(rows)[i]);
  }

  lemma RowIndex(rows: seq<BriefedRow>, row: BriefedRow) returns (n: nat)
    requires row in rows
    ensures n < |rows| && rows[n] == row
  {
    n :| n < |rows| && rows[n] == row;
  }

  lemma StampRowOf(text: string, placed: seq<Placed>, k: nat, i: nat) returns (p: Placed)
    requires (forall p | p in placed :: p.end <= |text|) && i < |StampOf(text, placed, k)|
    ensures p in placed && p.end <= k && StampOf(text, placed, k)[i].memory == MemoryAt(p.item)
  {
    KeptInText(placed, k, |text|);
    var kept := KeptPlaced(placed, k);
    var n := DistinctRowOf(text, kept, i);
    p := kept[n];
    assert p in kept;
  }

  lemma StampIsDistinct(text: string, placed: seq<Placed>, k: nat, j: nat, i: nat)
    requires (forall p | p in placed :: p.end <= |text|) && j < i < |StampOf(text, placed, k)|
    ensures StampOf(text, placed, k)[j].memory.id != StampOf(text, placed, k)[i].memory.id
  {
    KeptInText(placed, k, |text|);
  }

  /** A stamp has at most a hundred rows, each of a commitment that is wholly shown, and no id twice. */
  lemma StampIsShown(resp: Response, project: string, k: nat, i: nat) returns (p: Placed)
    requires i < |StampedRows(resp, project, k)|
    ensures |StampedRows(resp, project, k)| <= 100
    ensures p in AllPlaced(resp, project) && p.end <= k
    ensures StampedRows(resp, project, k)[i].memory == MemoryAt(p.item)
    ensures forall j: nat | j < i ::
              StampedRows(resp, project, k)[j].memory.id != StampedRows(resp, project, k)[i].memory.id
  {
    OffsetsAreAbsolute(resp, project);
    var text, placed := Text(resp, project), AllPlaced(resp, project);
    p := StampRowOf(text, placed, k, i);
    forall j: nat | j < i ensures StampOf(text, placed, k)[j].memory.id != StampOf(text, placed, k)[i].memory.id {
      StampIsDistinct(text, placed, k, j, i);
    }
  }

  lemma StampCovers(text: string, placed: seq<Placed>, k: nat, p: Placed)
    requires (forall p | p in placed :: p.end <= |text|) && p in placed && p.end <= k
    ensures |StampOf(text, placed, k)| == 100 || HasId(StampOf(text, placed, k), p.item.memoryId)
  {
    KeptInText(placed, k, |text|);
    var kept := KeptPlaced(placed, k);
    var rows := RowsIn(text, kept);
    assert p in kept;
    var n :| 0 <= n < |kept| && kept[n] == p;
    assert rows[n].memory.id == p.item.memoryId;
    assert HasId(rows, p.item.memoryId);
    assert HasId(FirstDistinct(rows), p.item.memoryId);
  }

  /** And leaves a wholly shown commitment out only when it has its hundred, or the id already. */
  lemma ShownIsStamped(resp: Response, project: string, k: nat, p: Placed)
    requires p in AllPlaced(resp, project) && p.end <= k
    ensures |StampedRows(resp, project, k)| == 100 || HasId(StampedRows(resp, project, k), p.item.memoryId)
  {
    OffsetsAreAbsolute(resp, project);
    StampCovers(Text(resp, project), AllPlaced(resp, project), k, p);
  }

  function TotalCount(resp: Response): int {
    resp.commitments.count + resp.overdue.count + resp.blockers.count
    + resp.staleCandidates.count + resp.recentDecisions.count + resp.preferences.count
  }

  // ---- The program ----

  method SurvivingBriefed(rows: seq<BriefedRow>, cut: nat) returns (survivors: seq<BriefedMemory>)
    ensures survivors == Memories(Within(rows, cut))
  {
    survivors := [];
    for i := 0 to |rows|
      invariant survivors == Memories(Within(rows[..i], cut))
    {
      assert rows[..i + 1][..i] == rows[..i];
      if rows[i].endOffset <= cut {
        survivors := survivors + [rows[i].memory];
      }
    }
    assert rows[..|rows|] == rows;
  }

  /** The builder and the collector that writes into it. */
  class Renderer {
    var out: string
    var rows: seq<BriefedRow>
    var seen: set<string>

    ghost predicate Valid()
      reads this
    {
      && |rows| <= MAX_BRIEFED_MEMORIES
      && forall id :: id in seen <==> HasId(rows, id)
    }

    constructor ()
      ensures Valid() && out == "" && rows == []
    {
      out, rows, seen := "", [], {};
    }

    method Add(item: BriefingCommitment, endOffset: nat)
      requires Valid()
      modifies this`rows, this`seen
      ensures Valid() && rows == AddRow(old(rows), BriefedRow(MemoryOf(item), endOffset))
    {
      if |rows| >= MAX_BRIEFED_MEMORIES { return; }
      if item.memoryId in seen { return; }
      seen := seen + {item.memoryId};
      ghost var before := rows;
      rows := rows + [BriefedRow(BriefedMemory(item.memoryId, item.topic, item.status), endOffset)];
      forall id ensures id in seen <==> HasId(rows, id) {
        HasIdAppend(before, BriefedRow(MemoryOf(item), endOffset), id);
      }
    }

    method WriteLines(items: seq<BriefingCommitment>)
      requires Valid()
      modifies this
      ensures Valid() && out == old(out) + Joined(WholeLines(items))
      ensures rows == AddAll(old(rows), SectionRows(old(out), items))
    {
      ghost var lines := WholeLines(items);
      ghost var all := SectionRows(out, items);
      for i := 0 to |items|
        invariant Valid() && out == old(out) + Joined(lines[..i])
        invariant rows == AddAll(old(rows), all[..i])
      {
        JoinedStep(lines, i);
        Reassociate(old(out), Joined(lines[..i]), lines[i]);
        out := out + WholeLine(items[i]);
        Add(items[i], |Encode(out)|);
        AddStep(old(rows), all, i);
      }
      assert lines[..|items|] == lines && all[..|items|] == all;
    }

    method WriteMore(count: int, shown: nat)
      modifies this`out
      ensures out == old(out) + More(count, shown)
    {
      if count > shown {
        out := out + MoreLine(count - shown);
      }
    }

    method WriteCommitments(section: CommitmentSection)
      requires Valid()
      modifies this
      ensures Valid() && out == old(out) + CommitmentsText(section)
      ensures rows == AddAll(old(rows), SectionRows(old(out), Shown(section)))
    {
      if section.count == 0 || section.items == [] {
        out := out + "None";
        return;
      }
      WriteLines(section.items);
      WriteMore(section.count, |section.items|);
      Reassociate(old(out), Joined(WholeLines(section.items)), More(section.count, |section.items|));
    }

    method RenderBriefing(resp: Response, project: string)
      requires Valid() && out == "" && rows == []
      modifies this
      ensures Valid() && out == Text(resp, project) && rows == CollectedRows(resp, project)
    {
      out := BeforeOverdue(project);
      WriteCommitments(resp.overdue);
      out := out + "\n";
      out := out + (BLOCKERS + MemoriesText(resp.blockers) + "\n");
      out := out + COMMITMENTS;
      WriteCommitments(resp.commitments);
      ghost var first := SectionRows(BeforeOverdue(project), Shown(resp.overdue));
      AddAllConcat([], first, SectionRows(BeforeCommitments(resp, project), Shown(resp.commitments)));
      out := out + AfterCommitments(resp);
    }
  }

  /**
   The text is what the budget leaves of the whole, marked when it was cut, and the memories are
   those of the commitments wholly in it.
   */
  ghost predicate Answers(resp: Response, project: string, maxChars: int, text: seq<Byte>, briefed: seq<BriefedMemory>) {
    var whole := Text(resp, project);
    exists k: nat ::
      && Leaves(whole, maxChars, k)
      && text == (if |Encode(whole)| > maxChars + 200 then Encode(whole[..k]) + Encode("...") else Encode(whole))
      && briefed == Memories(StampedRows(resp, project, k))
  }

  lemma CutAnswers(resp: Response, project: string, maxChars: int, cut: nat, text: seq<Byte>, briefed: seq<BriefedMemory>)
    requires var bytes := Encode(Text(resp, project));
             && cut == (if |bytes| > maxChars + 200 then SafeCut(bytes, maxChars) else |bytes|)
             && text == (if |bytes| > maxChars + 200 then bytes[..cut] + Encode("...") else bytes)
             && briefed == Memories(Within(CollectedRows(resp, project), cut))
    ensures Answers(resp, project, maxChars, text, briefed)
  {
    var k := StampMatchesText(resp, project, maxChars);
    var bytes := Encode(Text(resp, project));
    assert bytes[..|bytes|] == bytes;
  }

  method Rendered(resp: Response, project: string) returns (out: string, rows: seq<BriefedRow>)
    ensures out == Text(resp, project) && rows == CollectedRows(resp, project)
  {
    var renderer := new Renderer();
    renderer.RenderBriefing(resp, project);
    out, rows := renderer.out, renderer.rows;
  }

  /** The rendering and cutting part of `fetchBriefing`. */
  method CutBriefing(resp: Response, project: string, fallback: string, maxChars: int)
    returns (text: seq<Byte>, briefed: seq<BriefedMemory>)
    ensures resp.commitments.count + resp.overdue.count + resp.blockers.count
            + resp.staleCandidates.count + resp.recentDecisions.count + resp.preferences.count == 0
       ==> text == Encode(fallback) && briefed == []
    ensures resp.commitments.count + resp.overdue.count + resp.blockers.count
            + resp.staleCandidates.count + resp.recentDecisions.count + resp.preferences.count != 0
       ==> Answers(resp, project, maxChars, text, briefed)
  {
    if TotalCount(resp) == 0 { return Encode(fallback), []; }
    var out, rows := Rendered(resp, project);
    text := Encode(out);
    var cut := |text|;
    if |text| > maxChars + 200 {
      cut := RuneSafeCut(text, maxChars);
      text := text[..cut] + Encode("...");
    }
    briefed := SurvivingBriefed(rows, cut);
    CutAnswers(resp, project, maxChars, cut, text, briefed);
  }
}
