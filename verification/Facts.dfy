/**
 The facts table and its writer (packages/db/src/facts-write.ts).

 Instants are microseconds; a caller's dates are whole milliseconds, the transaction start is
 not. A row's id is its position in the table. `origin` is a history variable: it records how a
 row was written, and no operation reads it.
 */
module Facts {
  import opened Options
  import opened Sorting
  import Text
  import Json
  import opened Members

  datatype Cardinality = One | Many

  datatype Key = Key(userId: string, subject: string, relation: string)

  /** `validFrom`, `validTo` and `recordedAt` are the caller's dates, in milliseconds. */
  datatype FactWrite = FactWrite(
    key: Key, memoryId: string, value: string, confidence: Option<real>,
    validFrom: Option<int>, validTo: Option<int>, recordedAt: Option<int>, cardinality: Cardinality)

  datatype Origin = Single | Coexisting | OwnEnd

  datatype Row = Row(
    key: Key, memoryId: string, value: string, confidence: Option<real>,
    validFrom: int, validTo: Option<int>, recordedAt: int, origin: Origin)

  type Table = seq<Row>

  function Micros(ms: int): int { ms * 1000 }

  function StartOf(w: FactWrite, now: int): int {
    if w.validFrom.None? then now else Micros(w.validFrom.value)
  }

  function NewRow(w: FactWrite, now: int, end: Option<int>, origin: Origin): Row {
    Row(w.key, w.memoryId, w.value, w.confidence, StartOf(w, now), end,
        if w.recordedAt.None? then now else Micros(w.recordedAt.value), origin)
  }

  // ---- One single-valued row ----

  predicate IsOpen(r: Row, k: Key) {
    r.key == k && r.validTo.None?
  }

  /** Every open value of the key that started at or before `start` ends there. */
  function Closed(t: Table, k: Key, start: int): (r: Table)
    ensures |r| == |t|
  {
    seq(|t|, i requires 0 <= i < |t| =>
      if IsOpen(t[i], k) && t[i].validFrom <= start then t[i].(validTo := Some(start)) else t[i])
  }

  function Least(a: Option<int>, b: Option<int>): Option<int> {
    if a.None? then b else if b.None? then a
    else Some(if a.value <= b.value then a.value else b.value)
  }

  /** The earliest start among the key's open values that start after `start`. */
  function NextOpen(t: Table, k: Key, start: int): Option<int> {
    if t == [] then None
    else
      var last := t[|t| - 1];
      var rest := NextOpen(t[..|t| - 1], k, start);
      if IsOpen(last, k) && start < last.validFrom then Least(rest, Some(last.validFrom)) else rest
  }

  function EndFor(start: int, nextInCall: Option<int>, nextOpen: Option<int>): Option<int> {
    if nextInCall.None? then nextOpen
    else
      var e := Least(nextInCall, nextOpen).value;
      Some(if e < start then start else e)
  }

  function Replaced(t: Table, w: FactWrite, now: int, nextInCall: Option<int>): Table {
    var start := StartOf(w, now);
    var closed := Closed(t, w.key, start);
    closed + [NewRow(w, now, EndFor(start, nextInCall, NextOpen(closed, w.key, start)), Single)]
  }

  // ---- The order a call writes its rows in ----

  predicate Supersedes(w: FactWrite, supersede: bool) {
    supersede && w.cardinality.One? && w.validTo.None?
  }

  /** The text a key is grouped, sorted and locked by. */
  function KeyText(k: Key): string {
    Json.Print(Json.Array([Json.Text(k.userId), Json.Text(k.subject), Json.Text(k.relation)]))
  }

  lemma KeyTextInjective(a: Key, b: Key)
    requires KeyText(a) == KeyText(b)
    ensures a == b
  {
    var ja := Json.Array([Json.Text(a.userId), Json.Text(a.subject), Json.Text(a.relation)]);
    var jb := Json.Array([Json.Text(b.userId), Json.Text(b.subject), Json.Text(b.relation)]);
    Json.PrintInjective(ja, jb);
    assert ja.items[0] == jb.items[0] && ja.items[1] == jb.items[1] && ja.items[2] == jb.items[2];
  }

  predicate InGroup(ws: seq<FactWrite>, supersede: bool, text: string, i: nat) {
    i < |ws| && Supersedes(ws[i], supersede) && KeyText(ws[i].key) == text
  }

  /** The rows among the first `n` that take part in supersession under one key, in input order. */
  function Group(ws: seq<FactWrite>, supersede: bool, text: string, n: nat): seq<nat>
    requires n <= |ws|
  {
    if n == 0 then []
    else Group(ws, supersede, text, n - 1) + (if InGroup(ws, supersede, text, n - 1) then [n - 1] else [])
  }

  /** The keys of those rows, in order of first appearance. */
  function KeysSeen(ws: seq<FactWrite>, supersede: bool, n: nat): seq<string>
    requires n <= |ws|
  {
    if n == 0 then []
    else
      var seen := KeysSeen(ws, supersede, n - 1);
      if Supersedes(ws[n - 1], supersede) && KeyText(ws[n - 1].key) !in seen
      then seen + [KeyText(ws[n - 1].key)] else seen
  }

  function PlainRows(ws: seq<FactWrite>, supersede: bool, n: nat): seq<nat>
    requires n <= |ws|
  {
    if n == 0 then []
    else PlainRows(ws, supersede, n - 1) + (if Supersedes(ws[n - 1], supersede) then [] else [n - 1])
  }

  /** The start a JavaScript Date can tell: milliseconds, `now` cut down to them. */
  function SortMillis(ws: seq<FactWrite>, now: int, i: nat): int {
    if i >= |ws| then 0 else if ws[i].validFrom.None? then now / 1000 else ws[i].validFrom.value
  }

  function Implicit(ws: seq<FactWrite>, i: nat): int {
    if i < |ws| && ws[i].validFrom.None? then 1 else 0
  }

  function StartOrder(ws: seq<FactWrite>, now: int): (nat, nat) -> bool {
    (a: nat, b: nat) =>
      || SortMillis(ws, now, a) < SortMillis(ws, now, b)
      || (SortMillis(ws, now, a) == SortMillis(ws, now, b) && Implicit(ws, a) <= Implicit(ws, b))
  }

  function ByStart(ws: seq<FactWrite>, group: seq<nat>, now: int): seq<nat> {
    if |group| < 2 then group else Sort(StartOrder(ws, now), group)
  }

  datatype Step =
    | Replace(index: nat, nextInCall: Option<int>)
    | Append(index: nat)

  /** One key's rows in start order; each is told where the next one starts. */
  function Chain(ws: seq<FactWrite>, ordered: seq<nat>, now: int): (r: seq<Step>)
    requires forall p | 0 <= p < |ordered| :: ordered[p] < |ws|
    ensures |r| == |ordered|
  {
    seq(|ordered|, p requires 0 <= p < |ordered| =>
      Replace(ordered[p],
              if p + 1 < |ordered| then Some(StartOf(ws[ordered[p + 1]], now)) else None))
  }

  /** One key's rows in start order. */
  function Ordered(ws: seq<FactWrite>, supersede: bool, now: int, text: string): seq<nat> {
    ByStart(ws, Group(ws, supersede, text, |ws|), now)
  }

  function ChainOf(ws: seq<FactWrite>, supersede: bool, now: int, text: string): seq<Step> {
    OrderedInRange(ws, supersede, now, text);
    Chain(ws, Ordered(ws, supersede, now, text), now)
  }

  function Chains(ws: seq<FactWrite>, supersede: bool, now: int, keys: seq<string>): seq<Step> {
    if keys == [] then []
    else Chains(ws, supersede, now, keys[..|keys| - 1]) + ChainOf(ws, supersede, now, keys[|keys| - 1])
  }

  function Appends(plain: seq<nat>): seq<Step> {
    seq(|plain|, p requires 0 <= p < |plain| => Append(plain[p]))
  }

  function SortedKeys(ws: seq<FactWrite>, supersede: bool): seq<string> {
    Sort(Text.Le, KeysSeen(ws, supersede, |ws|))
  }

  /** What one `insertFacts` call does, one row a step. */
  function Plan(ws: seq<FactWrite>, supersede: bool, now: int): seq<Step> {
    Chains(ws, supersede, now, SortedKeys(ws, supersede)) + Appends(PlainRows(ws, supersede, |ws|))
  }

  function PlainRow(w: FactWrite, now: int): Row {
    if w.validTo.None? then NewRow(w, now, None, Coexisting)
    else NewRow(w, now, Some(Micros(w.validTo.value)), OwnEnd)
  }

  function Applied(t: Table, ws: seq<FactWrite>, now: int, step: Step): Table {
    if step.index >= |ws| then t
    else match step
      case Replace(i, next) => Replaced(t, ws[i], now, next)
      case Append(i) => t + [PlainRow(ws[i], now)]
  }

  function Run(t: Table, ws: seq<FactWrite>, now: int, steps: seq<Step>): Table {
    if steps == [] then t
    else Applied(Run(t, ws, now, steps[..|steps| - 1]), ws, now, steps[|steps| - 1])
  }

  /** facts_validity_check: a window a caller closes may not end before it starts. */
  predicate Accepted(w: FactWrite, now: int) {
    w.validTo.None? || StartOf(w, now) <= Micros(w.validTo.value)
  }

  predicate AcceptedAt(ws: seq<FactWrite>, now: int, i: nat) {
    i < |ws| ==> Accepted(ws[i], now)
  }

  datatype Call = Call(ws: seq<FactWrite>, supersede: bool, now: int)

  predicate CallAccepted(c: Call) {
    forall i: nat | i < |c.ws| :: AcceptedAt(c.ws, c.now, i)
  }

  /** The table after one call; a rejected call is rolled back whole. */
  function AfterCall(t: Table, c: Call): Table {
    if CallAccepted(c) then Run(t, c.ws, c.now, Plan(c.ws, c.supersede, c.now)) else t
  }

  function AfterCalls(t: Table, calls: seq<Call>): Table {
    if calls == [] then t else AfterCall(AfterCalls(t, calls[..|calls| - 1]), calls[|calls| - 1])
  }

  // ---- Groups, orders and plans ----

  lemma {:induction false} GroupInRange(ws: seq<FactWrite>, supersede: bool, text: string, n: nat)
    requires n <= |ws|
    ensures forall i: nat :: i in Group(ws, supersede, text, n) <==> i < n && InGroup(ws, supersede, text, i)
    ensures forall p, q | 0 <= p < q < |Group(ws, supersede, text, n)| ::
              Group(ws, supersede, text, n)[p] < Group(ws, supersede, text, n)[q]
  {
    if n > 0 {
      GroupInRange(ws, supersede, text, n - 1);
      var group := Group(ws, supersede, text, n - 1);
      assert forall p | 0 <= p < |group| :: group[p] in group;
    }
  }

  lemma {:induction false} PlainInRange(ws: seq<FactWrite>, supersede: bool, n: nat)
    requires n <= |ws|
    ensures forall i: nat :: i in PlainRows(ws, supersede, n) <==> i < n && !Supersedes(ws[i], supersede)
    ensures forall p, q | 0 <= p < q < |PlainRows(ws, supersede, n)| ::
              PlainRows(ws, supersede, n)[p] < PlainRows(ws, supersede, n)[q]
  {
    if n > 0 {
      PlainInRange(ws, supersede, n - 1);
      var plain := PlainRows(ws, supersede, n - 1);
      assert forall p | 0 <= p < |plain| :: plain[p] in plain;
    }
  }

  lemma OrderedInRange(ws: seq<FactWrite>, supersede: bool, now: int, text: string)
    ensures forall p | 0 <= p < |Ordered(ws, supersede, now, text)| ::
              && Ordered(ws, supersede, now, text)[p] < |ws|
              && InGroup(ws, supersede, text, Ordered(ws, supersede, now, text)[p])
  {
    var ordered := Ordered(ws, supersede, now, text);
    GroupInRange(ws, supersede, text, |ws|);
    ByStartPermutes(ws, Group(ws, supersede, text, |ws|), now);
    forall p | 0 <= p < |ordered| ensures InGroup(ws, supersede, text, ordered[p]) {
      assert ordered[p] in ordered;
    }
  }

  lemma {:induction false} KeysSeenAre(ws: seq<FactWrite>, supersede: bool, n: nat)
    requires n <= |ws|
    ensures forall text :: text in KeysSeen(ws, supersede, n)
              <==> exists i :: 0 <= i < n && InGroup(ws, supersede, text, i)
    ensures Distinct(KeysSeen(ws, supersede, n))
  {
    if n > 0 {
      KeysSeenAre(ws, supersede, n - 1);
      forall text ensures text in KeysSeen(ws, supersede, n)
        <==> exists i :: 0 <= i < n && InGroup(ws, supersede, text, i)
      {
        if text in KeysSeen(ws, supersede, n - 1) {
          var i :| 0 <= i < n - 1 && InGroup(ws, supersede, text, i);
          assert 0 <= i < n;
        }
        if Supersedes(ws[n - 1], supersede) && KeyText(ws[n - 1].key) == text {
          assert InGroup(ws, supersede, text, n - 1);
        }
      }
    }
  }

  /** Which rows are plain and which are in the group of a key, by the rows' own fields. */
  lemma GroupsByFields(ws: seq<FactWrite>, supersede: bool)
    ensures forall i: nat ::
              i in PlainRows(ws, supersede, |ws|)
              <==> i < |ws| && (!supersede || ws[i].cardinality == Many || ws[i].validTo != None)
    ensures forall text, i: nat ::
              i in Group(ws, supersede, text, |ws|)
              <==> i < |ws| && supersede && ws[i].cardinality == One && ws[i].validTo == None && KeyText(ws[i].key) == text
    ensures forall i: nat | i < |ws| && i !in PlainRows(ws, supersede, |ws|) ::
              KeyText(ws[i].key) in KeysSeen(ws, supersede, |ws|)
  {
    PlainInRange(ws, supersede, |ws|);
    KeysSeenAre(ws, supersede, |ws|);
    forall text ensures forall i: nat ::
      i in Group(ws, supersede, text, |ws|) <==> i < |ws| && InGroup(ws, supersede, text, i)
    {
      GroupInRange(ws, supersede, text, |ws|);
    }
    forall i: nat | i < |ws| && i !in PlainRows(ws, supersede, |ws|)
      ensures KeyText(ws[i].key) in KeysSeen(ws, supersede, |ws|)
    {
      assert InGroup(ws, supersede, KeyText(ws[i].key), i);
    }
  }

  lemma StartOrderIsPreorder(ws: seq<FactWrite>, now: int)
    ensures TotalPreorder(StartOrder(ws, now))
  {
  }

  lemma ByStartPermutes(ws: seq<FactWrite>, group: seq<nat>, now: int)
    ensures multiset(ByStart(ws, group, now)) == multiset(group)
    ensures |ByStart(ws, group, now)| == |group|
    ensures forall i :: i in ByStart(ws, group, now) <==> i in group
    ensures SortedBy(StartOrder(ws, now), ByStart(ws, group, now))
  {
    StartOrderIsPreorder(ws, now);
    SortSpec(StartOrder(ws, now), group);
  }

  /**
   Sorting by milliseconds, explicit instants first, agrees with the microsecond order of starts,
   although `now` is cut down to a millisecond before it is compared.
   */
  lemma StartOrderAgrees(ws: seq<FactWrite>, now: int, a: nat, b: nat)
    requires a < |ws| && b < |ws|
    ensures StartOrder(ws, now)(a, b) ==> StartOf(ws[a], now) <= StartOf(ws[b], now)
    ensures StartOf(ws[a], now) < StartOf(ws[b], now) ==> !StartOrder(ws, now)(b, a)
  {
    var x, y := SortMillis(ws, now, a), SortMillis(ws, now, b);
    assert Micros(now / 1000) <= now < Micros(now / 1000 + 1);
    assert Micros(x) <= StartOf(ws[a], now) < Micros(x + 1);
    assert Micros(y) <= StartOf(ws[b], now) < Micros(y + 1);
  }

  /** Within a plan, a row told where the next starts is followed by it: same key, no earlier start. */
  ghost predicate Linked(ws: seq<FactWrite>, now: int, steps: seq<Step>) {
    forall p | 0 <= p < |steps| && steps[p].Replace? && steps[p].nextInCall.Some? ::
      && p + 1 < |steps| && steps[p + 1].Replace?
      && steps[p].index < |ws| && steps[p + 1].index < |ws|
      && ws[steps[p + 1].index].key == ws[steps[p].index].key
      && steps[p].nextInCall.value == StartOf(ws[steps[p + 1].index], now)
      && StartOf(ws[steps[p].index], now) <= steps[p].nextInCall.value
  }

  ghost predicate InRange(ws: seq<FactWrite>, supersede: bool, steps: seq<Step>) {
    forall p | 0 <= p < |steps| ::
      && steps[p].index < |ws|
      && (steps[p].Replace? <==> Supersedes(ws[steps[p].index], supersede))
  }

  lemma ChainStep(ws: seq<FactWrite>, supersede: bool, now: int, text: string, p: nat)
    requires p < |ChainOf(ws, supersede, now, text)|
    ensures var chain := ChainOf(ws, supersede, now, text);
            && chain[p].Replace? && InGroup(ws, supersede, text, chain[p].index)
            && (chain[p].nextInCall.Some? <==> p + 1 < |chain|)
            && (p + 1 < |chain| ==>
                  && InGroup(ws, supersede, text, chain[p + 1].index)
                  && StartOrder(ws, now)(chain[p].index, chain[p + 1].index)
                  && chain[p].nextInCall.value == StartOf(ws[chain[p + 1].index], now))
  {
    OrderedInRange(ws, supersede, now, text);
    ByStartPermutes(ws, Group(ws, supersede, text, |ws|), now);
  }

  lemma ChainLinked(ws: seq<FactWrite>, supersede: bool, now: int, text: string)
    ensures Linked(ws, now, ChainOf(ws, supersede, now, text))
    ensures InRange(ws, supersede, ChainOf(ws, supersede, now, text))
    ensures forall p | 0 <= p < |ChainOf(ws, supersede, now, text)| ::
              && ChainOf(ws, supersede, now, text)[p].Replace?
              && InGroup(ws, supersede, text, ChainOf(ws, supersede, now, text)[p].index)
  {
    var chain := ChainOf(ws, supersede, now, text);
    forall p | 0 <= p < |chain| ensures chain[p].Replace? && InGroup(ws, supersede, text, chain[p].index) {
      ChainStep(ws, supersede, now, text, p);
    }
    forall p | 0 <= p < |chain| && chain[p].nextInCall.Some?
      ensures p + 1 < |chain| && ws[chain[p].index].key == ws[chain[p + 1].index].key
      ensures chain[p].nextInCall.value == StartOf(ws[chain[p + 1].index], now)
      ensures StartOf(ws[chain[p].index], now) <= chain[p].nextInCall.value
    {
      ChainStep(ws, supersede, now, text, p);
      NeighboursOrdered(ws, supersede, now, text, chain[p].index, chain[p + 1].index);
    }
  }

  lemma NeighboursOrdered(ws: seq<FactWrite>, supersede: bool, now: int, text: string, a: nat, b: nat)
    requires InGroup(ws, supersede, text, a) && InGroup(ws, supersede, text, b) && StartOrder(ws, now)(a, b)
    ensures ws[a].key == ws[b].key && StartOf(ws[a], now) <= StartOf(ws[b], now)
  {
    KeyTextInjective(ws[a].key, ws[b].key);
    StartOrderAgrees(ws, now, a, b);
  }

  lemma LinkedConcat(ws: seq<FactWrite>, now: int, a: seq<Step>, b: seq<Step>)
    requires Linked(ws, now, a) && Linked(ws, now, b)
    ensures Linked(ws, now, a + b)
  {
    var s := a + b;
    forall p | 0 <= p < |s| && s[p].Replace? && s[p].nextInCall.Some?
      ensures && p + 1 < |s| && s[p + 1].Replace?
              && s[p].index < |ws| && s[p + 1].index < |ws|
              && ws[s[p + 1].index].key == ws[s[p].index].key
              && s[p].nextInCall.value == StartOf(ws[s[p + 1].index], now)
              && StartOf(ws[s[p].index], now) <= s[p].nextInCall.value
    {
      if p < |a| {
        assert a[p] == s[p] && p + 1 < |a| && a[p + 1] == s[p + 1];
      } else {
        assert b[p - |a|] == s[p] && p - |a| + 1 < |b| && b[p - |a| + 1] == s[p + 1];
      }
    }
  }

  ghost predicate InSomeGroup(ws: seq<FactWrite>, supersede: bool, keys: seq<string>, i: nat) {
    exists text | text in keys :: InGroup(ws, supersede, text, i)
  }

  lemma {:induction false} ChainsLinked(ws: seq<FactWrite>, supersede: bool, now: int, keys: seq<string>)
    ensures Linked(ws, now, Chains(ws, supersede, now, keys))
    ensures InRange(ws, supersede, Chains(ws, supersede, now, keys))
    ensures forall p | 0 <= p < |Chains(ws, supersede, now, keys)| ::
              && Chains(ws, supersede, now, keys)[p].Replace?
              && InSomeGroup(ws, supersede, keys, Chains(ws, supersede, now, keys)[p].index)
  {
    if keys != [] {
      var front, last := keys[..|keys| - 1], keys[|keys| - 1];
      ChainsLinked(ws, supersede, now, front);
      ChainLinked(ws, supersede, now, last);
      var a, b := Chains(ws, supersede, now, front), ChainOf(ws, supersede, now, last);
      LinkedConcat(ws, now, a, b);
      forall p | 0 <= p < |a + b| ensures (a + b)[p].Replace? && InSomeGroup(ws, supersede, keys, (a + b)[p].index) {
        if p < |a| {
          assert InSomeGroup(ws, supersede, front, a[p].index);
          var text :| text in front && InGroup(ws, supersede, text, a[p].index);
          assert text in keys;
        } else {
          assert last in keys && InGroup(ws, supersede, last, b[p - |a|].index);
        }
      }
    }
  }

  lemma PlanLinked(ws: seq<FactWrite>, supersede: bool, now: int)
    ensures Linked(ws, now, Plan(ws, supersede, now))
    ensures InRange(ws, supersede, Plan(ws, supersede, now))
  {
    var keys := SortedKeys(ws, supersede);
    ChainsLinked(ws, supersede, now, keys);
    var plain := PlainRows(ws, supersede, |ws|);
    PlainInRange(ws, supersede, |ws|);
    forall p | 0 <= p < |plain| ensures plain[p] < |ws| && !Supersedes(ws[plain[p]], supersede) {
      assert plain[p] in plain;
    }
    LinkedConcat(ws, now, Chains(ws, supersede, now, keys), Appends(plain));
  }

  function Indexes(steps: seq<Step>): (r: seq<nat>)
    ensures |r| == |steps|
  {
    seq(|steps|, p requires 0 <= p < |steps| => steps[p].index)
  }

  lemma ChainDistinct(ws: seq<FactWrite>, supersede: bool, now: int, text: string)
    ensures Distinct(Indexes(ChainOf(ws, supersede, now, text)))
  {
    var group, ordered := Group(ws, supersede, text, |ws|), Ordered(ws, supersede, now, text);
    GroupInRange(ws, supersede, text, |ws|);
    ByStartPermutes(ws, group, now);
    PermutationDistinct(group, ordered);
    assert Indexes(ChainOf(ws, supersede, now, text)) == ordered;
  }

  lemma {:induction false} ChainsDistinct(ws: seq<FactWrite>, supersede: bool, now: int, keys: seq<string>)
    requires Distinct(keys)
    ensures Distinct(Indexes(Chains(ws, supersede, now, keys)))
  {
    if keys != [] {
      var front, last := keys[..|keys| - 1], keys[|keys| - 1];
      var a, b := Chains(ws, supersede, now, front), ChainOf(ws, supersede, now, last);
      ChainsDistinct(ws, supersede, now, front);
      ChainDistinct(ws, supersede, now, last);
      ChainsLinked(ws, supersede, now, front);
      ChainLinked(ws, supersede, now, last);
      forall p, q | 0 <= p < |a| && 0 <= q < |b| ensures a[p].index != b[q].index {
        assert InSomeGroup(ws, supersede, front, a[p].index);
        var text :| text in front && InGroup(ws, supersede, text, a[p].index);
        assert InGroup(ws, supersede, last, b[q].index);
      }
      ConcatDistinct(a, b);
    }
  }

  lemma ConcatDistinct(a: seq<Step>, b: seq<Step>)
    requires Distinct(Indexes(a)) && Distinct(Indexes(b))
    requires forall p, q | 0 <= p < |a| && 0 <= q < |b| :: a[p].index != b[q].index
    ensures Distinct(Indexes(a + b))
  {
    var r := Indexes(a + b);
    forall p, q | 0 <= p < q < |r| ensures r[p] != r[q] {
      if q < |a| {
        assert Indexes(a)[p] == r[p] && Indexes(a)[q] == r[q];
      } else if p >= |a| {
        assert Indexes(b)[p - |a|] == r[p] && Indexes(b)[q - |a|] == r[q];
      }
    }
  }

  lemma SortedKeysAre(ws: seq<FactWrite>, supersede: bool)
    ensures forall text :: text in SortedKeys(ws, supersede) <==> text in KeysSeen(ws, supersede, |ws|)
    ensures Distinct(SortedKeys(ws, supersede))
    ensures SortedBy(Text.Le, SortedKeys(ws, supersede))
  {
    var seen := KeysSeen(ws, supersede, |ws|);
    Text.LeIsOrder(seen);
    SortSpec(Text.Le, seen);
    KeysSeenAre(ws, supersede, |ws|);
    PermutationDistinct(seen, SortedKeys(ws, supersede));
  }

  /** A call writes every row it was given, and no row twice. */
  lemma PlanWritesEachRowOnce(ws: seq<FactWrite>, supersede: bool, now: int)
    ensures Distinct(Indexes(Plan(ws, supersede, now)))
    ensures forall i: nat | i < |ws| :: i in Indexes(Plan(ws, supersede, now))
    ensures |Plan(ws, supersede, now)| == |ws|
  {
    var keys, plain := SortedKeys(ws, supersede), PlainRows(ws, supersede, |ws|);
    var a, b := Chains(ws, supersede, now, keys), Appends(plain);
    SortedKeysAre(ws, supersede);
    KeysSeenAre(ws, supersede, |ws|);
    ChainsLinked(ws, supersede, now, keys);
    ChainsDistinct(ws, supersede, now, keys);
    PlainInRange(ws, supersede, |ws|);
    forall p, q | 0 <= p < |a| && 0 <= q < |b| ensures a[p].index != b[q].index {
      assert plain[q] in plain;
    }
    ConcatDistinct(a, b);
    var plan := Plan(ws, supersede, now);
    forall i: nat | i < |ws| ensures i in Indexes(plan) {
      if Supersedes(ws[i], supersede) {
        assert InGroup(ws, supersede, KeyText(ws[i].key), i);
        var p := ChainsCover(ws, supersede, now, keys, KeyText(ws[i].key), i);
        assert Indexes(plan)[p] == a[p].index;
      } else {
        assert i in plain;
        var q := IndexOf(plain, i);
        assert Indexes(plan)[|a| + q] == b[q].index;
      }
    }
    PlanLinked(ws, supersede, now);
    CountIndexes(Indexes(plan), |ws|);
  }

  lemma {:induction false} ChainsCover(
    ws: seq<FactWrite>, supersede: bool, now: int, keys: seq<string>, text: string, i: nat) returns (p: nat)
    requires text in keys && InGroup(ws, supersede, text, i)
    ensures p < |Chains(ws, supersede, now, keys)| && Chains(ws, supersede, now, keys)[p].index == i
  {
    var front, last := keys[..|keys| - 1], keys[|keys| - 1];
    if text == last {
      var group, ordered := Group(ws, supersede, text, |ws|), Ordered(ws, supersede, now, text);
      GroupInRange(ws, supersede, text, |ws|);
      ByStartPermutes(ws, group, now);
      assert i in group && i in ordered;
      var q := IndexOf(ordered, i);
      p := |Chains(ws, supersede, now, front)| + q;
    } else {
      assert text in front;
      p := ChainsCover(ws, supersede, now, front, text, i);
    }
  }

  /** Distinct numbers below `n` that include all of them are `n` in number. */
  lemma {:induction false} CountIndexes(s: seq<nat>, n: nat)
    requires Distinct(s)
    requires forall i: nat | i in s :: i < n
    requires forall i: nat | i < n :: i in s
    ensures |s| == n
  {
    if n == 0 {
      HeadIn(s);
    } else {
      var p := IndexOf(s, n - 1);
      var r := s[..p] + s[p + 1..];
      forall i: nat | i < n - 1 ensures i in r {
        var q := IndexOf(s, i);
        assert if q < p then r[q] == i else r[q - 1] == i;
      }
      forall i: nat | i in r ensures i < n - 1 {
        var q := IndexOf(r, i);
        assert i == if q < p then s[q] else s[q + 1];
        assert i in s;
      }
      CountIndexes(r, n - 1);
    }
  }

  /** `ids` names, for each row a step wrote, the position the step put it at. */
  ghost predicate Filed(ids: seq<nat>, base: nat, steps: seq<Step>) {
    forall p | 0 <= p < |steps| :: steps[p].index < |ids| && ids[steps[p].index] == base + p
  }

  lemma FiledConcat(before: seq<nat>, after: seq<nat>, base: nat, a: seq<Step>, b: seq<Step>)
    requires |before| == |after| && Filed(before, base, a) && Filed(after, base + |a|, b)
    requires forall p | 0 <= p < |a| :: a[p].index !in Indexes(b)
    requires forall i: nat | i < |before| && i !in Indexes(b) :: after[i] == before[i]
    ensures Filed(after, base, a + b)
  {
    forall p | 0 <= p < |a + b|
      ensures (a + b)[p].index < |after| && after[(a + b)[p].index] == base + p
    {
      if p < |a| { assert a[p].index !in Indexes(b); }
    }
  }

  /** The rows of the keys in `done` are written to the table `base` and filed. */
  ghost predicate WrittenUpTo(
    base: Table, rows: Table, ids: seq<nat>, ws: seq<FactWrite>, supersede: bool, now: int, done: seq<string>)
  {
    var chains := Chains(ws, supersede, now, done);
    rows == Run(base, ws, now, chains) && |rows| == |base| + |chains| && Filed(ids, |base|, chains)
  }

  lemma OneMoreKey(
    base: Table, before: Table, after: Table, filed: seq<nat>, ids: seq<nat>,
    ws: seq<FactWrite>, supersede: bool, now: int, keys: seq<string>, k: nat)
    requires k < |keys| && Distinct(keys) && |filed| == |ids| == |ws|
    requires WrittenUpTo(base, before, filed, ws, supersede, now, keys[..k])
    requires var chain := ChainOf(ws, supersede, now, keys[k]);
             && after == Run(before, ws, now, chain) && |after| == |before| + |chain| && Filed(ids, |before|, chain)
             && forall i: nat | i < |ws| && i !in Indexes(chain) :: ids[i] == filed[i]
    ensures WrittenUpTo(base, after, ids, ws, supersede, now, keys[..k + 1])
  {
    NextChain(base, ws, supersede, now, keys, k);
    FiledConcat(filed, ids, |base|, Chains(ws, supersede, now, keys[..k]), ChainOf(ws, supersede, now, keys[k]));
  }

  // ---- The methods ----

  class FactTable {
    var rows: Table

    constructor ()
      ensures rows == []
    {
      rows := [];
    }

    method ReplaceValue(w: FactWrite, now: int, nextInCall: Option<int>) returns (id: nat)
      modifies this
      ensures rows == Replaced(old(rows), w, now, nextInCall)
      ensures id == |old(rows)|
    {
      var start := StartOf(w, now);
      rows := Closed(rows, w.key, start);
      var nextOpen := NextOpen(rows, w.key, start);
      var end := EndFor(start, nextInCall, nextOpen);
      id := |rows|;
      rows := rows + [NewRow(w, now, end, Single)];
    }

    /** Writes the rows of one key, in start order. */
    method WriteKey(
      ws: seq<FactWrite>, supersede: bool, now: int, text: string, group: seq<nat>, ids: array<nat>)
      requires group == Group(ws, supersede, text, |ws|) && ids.Length == |ws|
      modifies this, ids
      ensures rows == Run(old(rows), ws, now, ChainOf(ws, supersede, now, text))
      ensures |rows| == |old(rows)| + |ChainOf(ws, supersede, now, text)|
      ensures Filed(ids[..], |old(rows)|, ChainOf(ws, supersede, now, text))
      ensures forall i: nat | i < |ws| && i !in Indexes(ChainOf(ws, supersede, now, text)) :: ids[i] == old(ids[i])
    {
      ghost var chain := ChainOf(ws, supersede, now, text);
      ghost var base := rows;
      var ordered := ByStart(ws, group, now);
      assert ordered == Ordered(ws, supersede, now, text) && |chain| == |ordered|;
      for position := 0 to |ordered|
        invariant rows == Run(base, ws, now, chain[..position])
        invariant |rows| == |base| + position
        invariant Filed(ids[..], |base|, chain[..position])
        invariant forall i: nat | i < |ws| && i !in Indexes(chain) :: ids[i] == old(ids[i])
      {
        var index := ordered[position];
        NextLink(base, ws, supersede, now, text, position);
        var next := if position + 1 < |ordered| then Some(StartOf(ws[ordered[position + 1]], now)) else None;
        var id := ReplaceValue(ws[index], now, next);
        ids[index] := id;
      }
      assert chain[..|ordered|] == chain;
    }

    method WriteSingleValued(
      ws: seq<FactWrite>, supersede: bool, now: int,
      seen: seq<string>, byKey: map<string, seq<nat>>, ids: array<nat>)
      requires seen == KeysSeen(ws, supersede, |ws|) && ids.Length == |ws|
      requires forall text | text in seen :: text in byKey && byKey[text] == Group(ws, supersede, text, |ws|)
      modifies this, ids
      ensures rows == Run(old(rows), ws, now, Chains(ws, supersede, now, SortedKeys(ws, supersede)))
      ensures |rows| == |old(rows)| + |Chains(ws, supersede, now, SortedKeys(ws, supersede))|
      ensures Filed(ids[..], |old(rows)|, Chains(ws, supersede, now, SortedKeys(ws, supersede)))
    {
      var keys := Sort(Text.Le, seen);
      SortedKeysAre(ws, supersede);
      ghost var base := rows;
      assert keys[..0] == [];
      for k := 0 to |keys|
        invariant WrittenUpTo(base, rows, ids[..], ws, supersede, now, keys[..k])
      {
        ghost var before, filed := rows, ids[..];
        WriteKey(ws, supersede, now, keys[k], byKey[keys[k]], ids);
        OneMoreKey(base, before, rows, filed, ids[..], ws, supersede, now, keys, k);
      }
      assert keys[..|keys|] == keys;
    }

    /** One multi-row INSERT; the check constraint rejects it whole. */
    method InsertPlain(ws: seq<FactWrite>, plain: seq<nat>, now: int) returns (ok: bool)
      requires forall i | i in plain :: i < |ws|
      modifies this
      ensures ok <==> forall i | i in plain :: AcceptedAt(ws, now, i)
      ensures ok ==> rows == Run(old(rows), ws, now, Appends(plain)) && |rows| == |old(rows)| + |plain|
      ensures !ok ==> rows == old(rows)
    {
      var before := rows;
      ok := true;
      for p := 0 to |plain|
        invariant ok && forall q | 0 <= q < p :: AcceptedAt(ws, now, plain[q])
        invariant rows == Run(before, ws, now, Appends(plain)[..p]) && |rows| == |before| + p
      {
        assert plain[p] in plain;
        if !AcceptedAt(ws, now, plain[p]) {
          rows := before;
          return false;
        }
        assert Appends(plain)[..p + 1] == Appends(plain)[..p] + [Append(plain[p])];
        rows := rows + [PlainRow(ws[plain[p]], now)];
      }
      assert Appends(plain)[..|plain|] == Appends(plain);
    }

    /** Sorts the input into plain rows and groups of single-valued rows. */
    static method GroupRows(ws: seq<FactWrite>, supersede: bool)
      returns (plain: seq<nat>, seen: seq<string>, byKey: map<string, seq<nat>>)
      ensures plain == PlainRows(ws, supersede, |ws|) && seen == KeysSeen(ws, supersede, |ws|)
      ensures forall text | text in seen :: text in byKey && byKey[text] == Group(ws, supersede, text, |ws|)
      ensures forall i: nat ::
        i in plain <==> i < |ws| && (!supersede || ws[i].cardinality == Many || ws[i].validTo != None)
      ensures forall i: nat | i < |ws| && i !in plain :: KeyText(ws[i].key) in seen
    {
      plain, seen, byKey := [], [], map[];
      for n := 0 to |ws|
        invariant plain == PlainRows(ws, supersede, n) && seen == KeysSeen(ws, supersede, n)
        invariant forall text :: text in byKey <==> text in seen
        invariant forall text | text in seen :: byKey[text] == Group(ws, supersede, text, n)
        invariant forall text | text !in seen :: Group(ws, supersede, text, n) == []
      {
        if !Supersedes(ws[n], supersede) {
          plain := plain + [n];
        } else {
          var text := KeyText(ws[n].key);
          if text in byKey {
            byKey := byKey[text := byKey[text] + [n]];
          } else {
            byKey := byKey[text := [n]];
            seen := seen + [text];
          }
        }
      }
      GroupsByFields(ws, supersede);
    }

    /**
     Inserts `ws`, returning the new ids positionally, or nothing when a window a caller supplied
     ends before it starts; the caller's transaction then leaves the table as it was.
     */
    method InsertFacts(ws: seq<FactWrite>, supersede: bool, now: int) returns (ids: Option<seq<nat>>)
      modifies this
      ensures rows == AfterCall(old(rows), Call(ws, supersede, now))
      ensures ids.Some? <==> CallAccepted(Call(ws, supersede, now))
      ensures ids.Some? ==>
        && |ids.value| == |ws| && |rows| == |old(rows)| + |ws|
        && Filed(ids.value, |old(rows)|, Plan(ws, supersede, now))
    {
      var before := rows;
      var filed := new nat[|ws|](i => 0);
      var plain, seen, byKey := GroupRows(ws, supersede);
      ghost var chains := Chains(ws, supersede, now, SortedKeys(ws, supersede));
      PlanParts(before, ws, supersede, now);
      WriteSingleValued(ws, supersede, now, seen, byKey, filed);
      ghost var chainsFiled := filed[..];
      var first := |rows|;
      var ok := InsertPlain(ws, plain, now);
      AcceptedByPlain(ws, supersede, now);
      if !ok {
        rows := before;
        return None;
      }
      FilePlain(filed, plain, first);
      FiledConcat(chainsFiled, filed[..], |before|, chains, Appends(plain));
      ids := Some(filed[..]);
    }

    method FilePlain(ids: array<nat>, plain: seq<nat>, first: nat)
      requires Distinct(plain)
      requires forall p | 0 <= p < |plain| :: plain[p] < ids.Length
      modifies ids
      ensures Filed(ids[..], first, Appends(plain))
      ensures forall i: nat | i < ids.Length && i !in Indexes(Appends(plain)) :: ids[i] == old(ids[i])
    {
      for p := 0 to |plain|
        invariant forall q | 0 <= q < p :: ids[plain[q]] == first + q
        invariant forall i: nat | i < ids.Length && i !in Indexes(Appends(plain)) :: ids[i] == old(ids[i])
      {
        assert Indexes(Appends(plain))[p] == plain[p];
        ids[plain[p]] := first + p;
      }
    }
  }

  /** A call's plan is its chains and then its plain rows, which name other rows. */
  lemma PlanParts(t: Table, ws: seq<FactWrite>, supersede: bool, now: int)
    ensures var chains, plain := Chains(ws, supersede, now, SortedKeys(ws, supersede)), PlainRows(ws, supersede, |ws|);
            && Distinct(plain) && (forall p | 0 <= p < |plain| :: plain[p] < |ws|)
            && (forall i | i in plain :: i < |ws|)
            && |chains| + |plain| == |ws|
            && (forall p | 0 <= p < |chains| :: chains[p].index !in Indexes(Appends(plain)))
            && Run(t, ws, now, Plan(ws, supersede, now)) == Run(Run(t, ws, now, chains), ws, now, Appends(plain))
  {
    var chains, plain := Chains(ws, supersede, now, SortedKeys(ws, supersede)), PlainRows(ws, supersede, |ws|);
    PlainInRange(ws, supersede, |ws|);
    assert forall p | 0 <= p < |plain| :: plain[p] in plain;
    PlanWritesEachRowOnce(ws, supersede, now);
    PartsDistinct(chains, Appends(plain));
    RunConcat(t, ws, now, chains, Appends(plain));
  }

  /** The next step of a plan without repeats files a row no earlier step filed. */
  lemma NewIndex(done: seq<Step>, step: Step, plan: seq<Step>)
    requires done + [step] <= plan && Distinct(Indexes(plan))
    ensures forall p | 0 <= p < |done| :: done[p].index != step.index
  {
    assert plan[|done|] == step;
    forall p | 0 <= p < |done| ensures done[p].index != step.index {
      assert plan[p] == done[p];
      assert Indexes(plan)[p] == done[p].index && Indexes(plan)[|done|] == step.index;
    }
  }

  lemma NextChain(t: Table, ws: seq<FactWrite>, supersede: bool, now: int, keys: seq<string>, k: nat)
    requires k < |keys| && Distinct(keys)
    ensures var earlier, chain := Chains(ws, supersede, now, keys[..k]), ChainOf(ws, supersede, now, keys[k]);
            && Chains(ws, supersede, now, keys[..k + 1]) == earlier + chain
            && Run(t, ws, now, earlier + chain) == Run(Run(t, ws, now, earlier), ws, now, chain)
            && forall p | 0 <= p < |earlier| :: earlier[p].index !in Indexes(chain)
  {
    var earlier, chain := Chains(ws, supersede, now, keys[..k]), ChainOf(ws, supersede, now, keys[k]);
    assert keys[..k + 1][..k] == keys[..k];
    ChainsDistinct(ws, supersede, now, keys[..k + 1]);
    PartsDistinct(earlier, chain);
    RunConcat(t, ws, now, earlier, chain);
  }

  lemma ChainAt(ws: seq<FactWrite>, supersede: bool, now: int, text: string, p: nat)
    requires p < |Ordered(ws, supersede, now, text)|
    ensures var chain, ordered := ChainOf(ws, supersede, now, text), Ordered(ws, supersede, now, text);
            && |chain| == |ordered| && ordered[p] < |ws|
            && (p + 1 < |ordered| ==> ordered[p + 1] < |ws|)
            && chain[p] == Replace(ordered[p], if p + 1 < |ordered| then Some(StartOf(ws[ordered[p + 1]], now)) else None)
  {
    OrderedInRange(ws, supersede, now, text);
  }

  lemma RunNext(t: Table, ws: seq<FactWrite>, now: int, steps: seq<Step>, p: nat)
    requires p < |steps|
    ensures steps[..p + 1] == steps[..p] + [steps[p]]
    ensures Run(t, ws, now, steps[..p + 1]) == Applied(Run(t, ws, now, steps[..p]), ws, now, steps[p])
  {
    assert steps[..p + 1][..p] == steps[..p];
  }

  lemma NotYetFiled(steps: seq<Step>, p: nat)
    requires p < |steps| && Distinct(Indexes(steps))
    ensures steps[p].index in Indexes(steps)
    ensures forall q | 0 <= q < p :: steps[q].index != steps[p].index
  {
    assert steps[..p] + [steps[p]] == steps[..p + 1];
    NewIndex(steps[..p], steps[p], steps);
    forall q | 0 <= q < p ensures steps[q].index != steps[p].index {
      assert steps[..p][q] == steps[q];
    }
    assert Indexes(steps)[p] == steps[p].index;
  }

  /** One more row of a chain: who it is, what it is told, and that it was not filed before. */
  lemma NextLink(t: Table, ws: seq<FactWrite>, supersede: bool, now: int, text: string, p: nat)
    requires p < |Ordered(ws, supersede, now, text)|
    ensures var chain, ordered := ChainOf(ws, supersede, now, text), Ordered(ws, supersede, now, text);
            && |chain| == |ordered| && ordered[p] < |ws|
            && (p + 1 < |ordered| ==> ordered[p + 1] < |ws|)
            && chain[p] == Replace(ordered[p], if p + 1 < |ordered| then Some(StartOf(ws[ordered[p + 1]], now)) else None)
            && chain[..p + 1] == chain[..p] + [chain[p]]
            && Run(t, ws, now, chain[..p + 1]) == Replaced(Run(t, ws, now, chain[..p]), ws[ordered[p]], now, chain[p].nextInCall)
            && ordered[p] in Indexes(chain)
            && forall q | 0 <= q < p :: chain[q].index != ordered[p]
  {
    var chain := ChainOf(ws, supersede, now, text);
    ChainAt(ws, supersede, now, text, p);
    ChainDistinct(ws, supersede, now, text);
    RunNext(t, ws, now, chain, p);
    NotYetFiled(chain, p);
  }

  lemma PartsDistinct(a: seq<Step>, b: seq<Step>)
    requires Distinct(Indexes(a + b))
    ensures forall p | 0 <= p < |a| :: a[p].index !in Indexes(b)
  {
    forall p | 0 <= p < |a| ensures a[p].index !in Indexes(b) {
      forall q | 0 <= q < |b| ensures a[p].index != Indexes(b)[q] {
        assert Indexes(a + b)[p] == a[p].index && Indexes(a + b)[|a| + q] == b[q].index;
      }
    }
  }

  lemma AcceptedByPlain(ws: seq<FactWrite>, supersede: bool, now: int)
    ensures CallAccepted(Call(ws, supersede, now))
       <==> forall i | i in PlainRows(ws, supersede, |ws|) :: AcceptedAt(ws, now, i)
  {
    PlainInRange(ws, supersede, |ws|);
  }

  lemma {:induction false} RunConcat(t: Table, ws: seq<FactWrite>, now: int, a: seq<Step>, b: seq<Step>)
    ensures Run(t, ws, now, a + b) == Run(Run(t, ws, now, a), ws, now, b)
  {
    if b == [] {
      assert a + b == a;
    } else {
      var front := b[..|b| - 1];
      assert (a + b)[..|a + b| - 1] == a + front;
      RunConcat(t, ws, now, a, front);
    }
  }
}
