/**
 Concurrent `insertFacts` calls and their per-key advisory locks
 (packages/db/src/facts-write.ts, `writeSingleValued`). A transaction takes the locks of its keys
 one at a time, in sorted order, and holds them to commit. Lock names are taken to be injective.
 */
module FactLocks {
  import opened Sorting
  import opened Facts
  import Text
  import Members

  /** `Running(n)`: the first `n` keys are locked and, but for the last of them, written. */
  datatype Progress = Running(taken: nat) | Committed

  type State = seq<Progress>

  function KeysOf(c: Call): seq<string> {
    SortedKeys(c.ws, c.supersede)
  }

  ghost predicate Fits(calls: seq<Call>, s: State) {
    && |s| == |calls|
    && forall t | 0 <= t < |s| && s[t].Running? :: s[t].taken <= |KeysOf(calls[t])|
  }

  ghost predicate Holds(calls: seq<Call>, s: State, t: nat, key: string)
    requires Fits(calls, s)
  {
    t < |s| && s[t].Running? && key in KeysOf(calls[t])[..s[t].taken]
  }

  ghost predicate Waits(calls: seq<Call>, s: State, t: nat)
    requires Fits(calls, s)
  {
    t < |s| && s[t].Running? && s[t].taken < |KeysOf(calls[t])|
  }

  ghost function Wanted(calls: seq<Call>, s: State, t: nat): string
    requires Fits(calls, s) && Waits(calls, s, t)
  {
    KeysOf(calls[t])[s[t].taken]
  }

  /** The lock `t` wants is free, or `t` has all its locks and can commit. */
  ghost predicate Enabled(calls: seq<Call>, s: State, t: nat)
    requires Fits(calls, s)
  {
    && t < |s| && s[t].Running?
    && (Waits(calls, s, t) ==> forall u :: !Holds(calls, s, u, Wanted(calls, s, t)))
  }

  /** A transaction's next step; one that is blocked or done stays where it is. */
  ghost function Step(calls: seq<Call>, s: State, t: nat): (r: State)
    requires Fits(calls, s)
    ensures Fits(calls, r)
  {
    if !Enabled(calls, s, t) then s
    else if Waits(calls, s, t) then s[t := Running(s[t].taken + 1)]
    else s[t := Committed]
  }

  ghost function Run(calls: seq<Call>, s: State, schedule: seq<nat>): (r: State)
    requires Fits(calls, s)
    ensures Fits(calls, r)
  {
    if schedule == [] then s
    else Step(calls, Run(calls, s, schedule[..|schedule| - 1]), schedule[|schedule| - 1])
  }

  function Start(calls: seq<Call>): State {
    seq(|calls|, i => Running(0))
  }

  ghost predicate AllCommitted(s: State) {
    forall t | 0 <= t < |s| :: s[t].Committed?
  }

  // ---- No key has two holders ----

  ghost predicate Exclusive(calls: seq<Call>, s: State)
    requires Fits(calls, s)
  {
    forall t, u, key | Holds(calls, s, t, key) && Holds(calls, s, u, key) :: t == u
  }

  lemma StepHolds(calls: seq<Call>, s: State, t: nat, u: nat, key: string)
    requires Fits(calls, s) && Holds(calls, Step(calls, s, t), u, key)
    ensures Holds(calls, s, u, key) || (u == t && Enabled(calls, s, t) && Waits(calls, s, t) && key == Wanted(calls, s, t))
  {
    if Enabled(calls, s, t) && Waits(calls, s, t) && u == t {
      var keys, n := KeysOf(calls[t]), s[t].taken;
      assert keys[..n + 1] == keys[..n] + [keys[n]];
    }
  }

  /** In every interleaving, the writers of one key run one after another. */
  lemma {:induction false} LocksExclude(calls: seq<Call>, schedule: seq<nat>)
    ensures Exclusive(calls, Run(calls, Start(calls), schedule))
  {
    if schedule != [] {
      var front, t := schedule[..|schedule| - 1], schedule[|schedule| - 1];
      LocksExclude(calls, front);
      var s := Run(calls, Start(calls), front);
      forall a, b, key | Holds(calls, Step(calls, s, t), a, key) && Holds(calls, Step(calls, s, t), b, key)
        ensures a == b
      {
        StepHolds(calls, s, t, a, key);
        StepHolds(calls, s, t, b, key);
      }
    }
  }

  /** The rows of a call that take part in supersession under the key. */
  ghost predicate WritesKey(c: Call, key: string) {
    exists i :: 0 <= i < |c.ws| && c.supersede && c.ws[i].cardinality == One && c.ws[i].validTo.None?
                && KeyText(c.ws[i].key) == key
  }

  lemma KeysWritten(c: Call, key: string)
    ensures key in KeysOf(c) <==> WritesKey(c, key)
  {
    SortedKeysAre(c.ws, c.supersede);
    KeysSeenAre(c.ws, c.supersede, |c.ws|);
    if i :| 0 <= i < |c.ws| && InGroup(c.ws, c.supersede, key, i) { assert WritesKey(c, key); }
    if WritesKey(c, key) {
      var i :| 0 <= i < |c.ws| && c.supersede && c.ws[i].cardinality == One && c.ws[i].validTo.None?
               && KeyText(c.ws[i].key) == key;
      assert InGroup(c.ws, c.supersede, key, i);
    }
  }

  /** A transaction never holds a key it does not write, and commits only when it holds every key it writes. */
  lemma CommitsHoldingAll(calls: seq<Call>, s: State, t: nat, key: string)
    requires Fits(calls, s) && t < |s| && s[t].Running?
    ensures Holds(calls, s, t, key) ==> WritesKey(calls[t], key)
    ensures Step(calls, s, t)[t].Committed? && WritesKey(calls[t], key) ==> Holds(calls, s, t, key)
  {
    KeysWritten(calls[t], key);
    var keys := KeysOf(calls[t]);
    if Holds(calls, s, t, key) {
      var i := Members.IndexOf(keys[..s[t].taken], key);
      assert keys[i] == key;
    }
    if s[t].taken == |keys| { assert keys[..s[t].taken] == keys; }
  }

  // ---- No deadlock ----

  /** A transaction waits only for keys that come after every key it holds. */
  lemma HeldBeforeWanted(calls: seq<Call>, s: State, t: nat, key: string)
    requires Fits(calls, s) && Waits(calls, s, t) && Holds(calls, s, t, key)
    ensures Text.Le(key, Wanted(calls, s, t)) && key != Wanted(calls, s, t)
    ensures Wanted(calls, s, t) in AllKeys(calls)
  {
    var keys, n := KeysOf(calls[t]), s[t].taken;
    SortedKeysAre(calls[t].ws, calls[t].supersede);
    var i := Members.IndexOf(keys[..n], key);
    assert keys[i] == key && keys[n] in keys;
  }

  ghost function AllKeys(calls: seq<Call>): set<string> {
    set t, key | 0 <= t < |calls| && key in KeysOf(calls[t]) :: key
  }

  ghost function KeysAbove(calls: seq<Call>, key: string): set<string> {
    set k | k in AllKeys(calls) && Text.Le(key, k) && k != key
  }

  lemma Above(calls: seq<Call>, key: string, higher: string)
    requires higher in AllKeys(calls) && Text.Le(key, higher) && key != higher
    ensures KeysAbove(calls, higher) < KeysAbove(calls, key)
  {
    forall k | k in KeysAbove(calls, higher) ensures k in KeysAbove(calls, key) {
      Text.LeTransitive(key, higher, k);
      Text.LeTotal(key, higher);
    }
    assert higher in KeysAbove(calls, key) && higher !in KeysAbove(calls, higher);
  }

  /** Following the holders of wanted keys climbs the key order, so it ends at one that can move. */
  lemma {:induction false} SomeoneMoves(calls: seq<Call>, s: State, t: nat) returns (u: nat)
    requires Fits(calls, s) && t < |s| && s[t].Running?
    ensures Enabled(calls, s, u)
    decreases if Waits(calls, s, t) then KeysAbove(calls, Wanted(calls, s, t)) else {}
  {
    if Enabled(calls, s, t) {
      u := t;
    } else {
      var wanted := Wanted(calls, s, t);
      var holder :| Holds(calls, s, holder, wanted);
      if Waits(calls, s, holder) {
        HeldBeforeWanted(calls, s, holder, wanted);
        Above(calls, wanted, Wanted(calls, s, holder));
        u := SomeoneMoves(calls, s, holder);
      } else {
        u := holder;
      }
    }
  }

  ghost function StepsLeft(calls: seq<Call>, s: State, n: nat): nat
    requires Fits(calls, s) && n <= |s|
  {
    if n == 0 then 0
    else
      StepsLeft(calls, s, n - 1)
      + (if s[n - 1].Running? then 1 + |KeysOf(calls[n - 1])| - s[n - 1].taken else 0)
  }

  lemma {:induction false} StepsLeftFall(calls: seq<Call>, s: State, t: nat, n: nat)
    requires Fits(calls, s) && Enabled(calls, s, t) && n <= |s|
    ensures StepsLeft(calls, Step(calls, s, t), n) == StepsLeft(calls, s, n) - (if t < n then 1 else 0)
  {
    if n > 0 { StepsLeftFall(calls, s, t, n - 1); }
  }

  /**
   Any number of concurrent calls is free of deadlock: in every reachable state some transaction
   that has not committed can take its next step, and some schedule lets all of them commit.
   */
  lemma NoDeadlock(calls: seq<Call>, schedule: seq<nat>)
    ensures var s := Run(calls, Start(calls), schedule);
            && (!AllCommitted(s) ==> exists t :: Enabled(calls, s, t))
            && exists rest :: AllCommitted(Run(calls, s, rest))
  {
    var s := Run(calls, Start(calls), schedule);
    if !AllCommitted(s) {
      var t: nat :| t < |s| && s[t].Running?;
      var u := SomeoneMoves(calls, s, t);
    }
    var rest := Completes(calls, s);
  }

  lemma {:induction false} Completes(calls: seq<Call>, s: State) returns (rest: seq<nat>)
    requires Fits(calls, s)
    ensures AllCommitted(Run(calls, s, rest))
    decreases StepsLeft(calls, s, |s|)
  {
    if AllCommitted(s) {
      rest := [];
    } else {
      var t: nat :| t < |s| && s[t].Running?;
      var u := SomeoneMoves(calls, s, t);
      StepsLeftFall(calls, s, u, |s|);
      var more := Completes(calls, Step(calls, s, u));
      rest := [u] + more;
      RunFirst(calls, s, u, more);
    }
  }

  lemma {:induction false} RunFirst(calls: seq<Call>, s: State, u: nat, more: seq<nat>)
    requires Fits(calls, s)
    ensures Run(calls, s, [u] + more) == Run(calls, Step(calls, s, u), more)
  {
    var all := [u] + more;
    if more == [] {
      assert all[..|all| - 1] == [];
    } else {
      assert all[..|all| - 1] == [u] + more[..|more| - 1];
      RunFirst(calls, s, u, more[..|more| - 1]);
    }
  }
}
