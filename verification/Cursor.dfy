/**
 The text a search cursor's fingerprint hashes (apps/server/src/cursor.ts): a filter set is put
 in canonical form, printed as JSON and joined to the query. The results say exactly which
 searches share that text.
 */
module Cursor {
  import opened Options
  import opened Sorting
  import Text
  import Json
  import JsonReads
  import Members

  /** A JavaScript value as a filter can hold it. A date is carried by its ISO text. */
  datatype Value =
    | Undefined
    | Null
    | Bool(b: bool)
    | Number(digits: Json.NumberText)
    | Text(text: string)
    | Date(iso: string)
    | Array(items: seq<Value>)
    | Object(entries: seq<Entry>)

  datatype Entry = Entry(key: string, value: Value)

  /** The order the sorted copy of an object lists its keys in (localeCompare). */
  type KeyOrder = (string, string) -> bool

  ghost predicate Ties(le: KeyOrder, x: string, y: string) {
    le(x, y) && le(y, x)
  }

  ghost predicate UniqueKeys(entries: seq<Entry>) {
    forall i, j | 0 <= i < j < |entries| :: entries[i].key != entries[j].key
  }

  /** What JavaScript guarantees of every object: one entry a key, at every depth. */
  ghost predicate Proper(v: Value)
    decreases v
  {
    match v
    case Array(items) => forall i | 0 <= i < |items| :: Proper(items[i])
    case Object(entries) =>
      && UniqueKeys(entries)
      && forall i | 0 <= i < |entries| :: Proper(entries[i].value)
    case _ => true
  }

  /** No two of the object's defined keys tie. */
  ghost predicate NoKeyTies(le: KeyOrder, entries: seq<Entry>) {
    forall i, j | 0 <= i < j < |entries| && !entries[i].value.Undefined? && !entries[j].value.Undefined? ::
      !Ties(le, entries[i].key, entries[j].key)
  }

  /** And so for every object in a value, at every depth. */
  ghost predicate KeysApart(le: KeyOrder, v: Value)
    decreases v
  {
    match v
    case Array(items) => forall i | 0 <= i < |items| :: KeysApart(le, items[i])
    case Object(entries) =>
      && NoKeyTies(le, entries)
      && forall i | 0 <= i < |entries| :: KeysApart(le, entries[i].value)
    case _ => true
  }

  // ---- The canonical form ----

  function Canonical(le: KeyOrder, v: Value): Json.Json
    decreases v
  {
    match v
    case Undefined => Json.Null
    case Null => Json.Null
    case Bool(b) => Json.Bool(b)
    case Number(digits) => Json.Number(digits)
    case Text(text) => Json.Text(text)
    case Date(iso) => Json.Text(iso)
    case Array(items) =>
      var printed := CanonicalItems(le, items);
      if AllTexts(printed) then Json.Array(AsTexts(Sort(Text.Le, Texts(printed))))
      else Json.Array(printed)
    case Object(entries) =>
      Json.Object(Sort(ByKey(le), CanonicalMembers(le, entries)))
  }

  function CanonicalItems(le: KeyOrder, items: seq<Value>): (r: seq<Json.Json>)
    ensures |r| == |items|
    decreases items
  {
    if items == [] then []
    else [Canonical(le, items[0])] + CanonicalItems(le, items[1..])
  }

  /** The defined entries; only keys are compared, so sorting afterwards gives the same list. */
  function CanonicalMembers(le: KeyOrder, entries: seq<Entry>): seq<Json.Member>
    decreases entries
  {
    if entries == [] then []
    else
      (if entries[0].value.Undefined? then []
       else [Json.Member(entries[0].key, Canonical(le, entries[0].value))])
      + CanonicalMembers(le, entries[1..])
  }

  predicate AllTexts(items: seq<Json.Json>) {
    forall i | 0 <= i < |items| :: items[i].Text?
  }

  function Texts(items: seq<Json.Json>): (r: seq<string>)
    requires AllTexts(items)
  {
    seq(|items|, i requires 0 <= i < |items| => items[i].text)
  }

  function AsTexts(texts: seq<string>): seq<Json.Json> {
    seq(|texts|, i requires 0 <= i < |texts| => Json.Text(texts[i]))
  }

  function ByKey(le: KeyOrder): (Json.Member, Json.Member) -> bool {
    (a: Json.Member, b: Json.Member) => le(a.key, b.key)
  }

  // ---- When two filter values mean the same ----

  predicate IsText(v: Value) { v.Text? || v.Date? }

  function TextOf(v: Value): string
    requires IsText(v)
  {
    if v.Text? then v.text else v.iso
  }

  predicate AllText(items: seq<Value>) {
    forall i | 0 <= i < |items| :: IsText(items[i])
  }

  function TextsOf(items: seq<Value>): seq<string>
    requires AllText(items)
  {
    seq(|items|, i requires 0 <= i < |items| => TextOf(items[i]))
  }

  /** `key` is set to `v`, and `v` is not undefined. */
  ghost predicate Binds(entries: seq<Entry>, key: string, v: Value) {
    Entry(key, v) in entries && !v.Undefined?
  }

  ghost predicate HasKey(entries: seq<Entry>, key: string) {
    exists e | e in entries :: e.key == key && !e.value.Undefined?
  }

  /**
   The same filter: a date is its ISO text, a list of texts is a bag, an undefined entry is an
   absent one (and an undefined list item is null), and the order of keys does not matter.
   */
  ghost predicate Equivalent(a: Value, b: Value)
    decreases a
  {
    match a
    case Undefined => b.Undefined? || b.Null?
    case Null => b.Undefined? || b.Null?
    case Bool(_) => b == a
    case Number(_) => b == a
    case Text(text) => IsText(b) && TextOf(b) == text
    case Date(iso) => IsText(b) && TextOf(b) == iso
    case Array(items) =>
      && b.Array?
      && if AllText(items) && AllText(b.items)
         then multiset(TextsOf(items)) == multiset(TextsOf(b.items))
         else
           && |items| == |b.items|
           && forall i | 0 <= i < |items| :: Equivalent(items[i], b.items[i])
    case Object(entries) =>
      && b.Object?
      && (forall key :: HasKey(entries, key) <==> HasKey(b.entries, key))
      && forall i, j | 0 <= i < |entries| && 0 <= j < |b.entries| && entries[i].key == b.entries[j].key
           && !entries[i].value.Undefined? && !b.entries[j].value.Undefined? ::
           Equivalent(entries[i].value, b.entries[j].value)
  }

  // ---- The canonical form decides equivalence ----

  lemma {:induction false} CanonicalItemAt(le: KeyOrder, items: seq<Value>, i: nat)
    requires i < |items|
    ensures CanonicalItems(le, items)[i] == Canonical(le, items[i])
  {
    if i > 0 { CanonicalItemAt(le, items[1..], i - 1); }
  }

  lemma ItemsAreTexts(le: KeyOrder, items: seq<Value>)
    ensures AllTexts(CanonicalItems(le, items)) <==> AllText(items)
    ensures AllText(items) ==> Texts(CanonicalItems(le, items)) == TextsOf(items)
  {
    forall i | 0 <= i < |items|
      ensures CanonicalItems(le, items)[i] == Canonical(le, items[i])
      ensures CanonicalItems(le, items)[i].Text? <==> IsText(items[i])
    {
      CanonicalItemAt(le, items, i);
    }
  }

  lemma AsTextsInjective(a: seq<string>, b: seq<string>)
    requires AsTexts(a) == AsTexts(b)
    ensures a == b
  {
    assert |a| == |AsTexts(a)| == |AsTexts(b)| == |b|;
    forall i | 0 <= i < |a| ensures a[i] == b[i] {
      assert AsTexts(a)[i] == Json.Text(a[i]) && AsTexts(b)[i] == Json.Text(b[i]);
    }
  }

  /** A list of texts is compared as a bag. */
  lemma TextArrays(le: KeyOrder, a: seq<Value>, b: seq<Value>)
    requires AllText(a) && AllText(b)
    ensures Canonical(le, Array(a)) == Canonical(le, Array(b)) <==> Equivalent(Array(a), Array(b))
  {
    var ta, tb := TextsOf(a), TextsOf(b);
    ItemsAreTexts(le, a);
    ItemsAreTexts(le, b);
    SortedTexts(ta, tb);
  }

  lemma SortedTexts(a: seq<string>, b: seq<string>)
    ensures AsTexts(Sort(Text.Le, a)) == AsTexts(Sort(Text.Le, b)) <==> multiset(a) == multiset(b)
  {
    Text.LeIsOrder(a);
    SortDecides(Text.Le, a, b);
    if AsTexts(Sort(Text.Le, a)) == AsTexts(Sort(Text.Le, b)) {
      AsTextsInjective(Sort(Text.Le, a), Sort(Text.Le, b));
    }
  }

  /** A list of texts never equals a list that holds something else. */
  lemma TextAgainstMixed(le: KeyOrder, a: seq<Value>, b: seq<Value>)
    requires AllText(a) && !AllText(b)
    ensures Canonical(le, Array(a)) != Canonical(le, Array(b))
    ensures !Equivalent(Array(a), Array(b)) && !Equivalent(Array(b), Array(a))
  {
    ItemsAreTexts(le, a);
    ItemsAreTexts(le, b);
    var sorted := AsTexts(Sort(Text.Le, TextsOf(a)));
    assert AllTexts(sorted) && !AllTexts(CanonicalItems(le, b));
    var j :| 0 <= j < |b| && !IsText(b[j]);
    if |a| == |b| {
      assert !Equivalent(a[j], b[j]) && !Equivalent(b[j], a[j]);
    }
  }

  lemma {:induction false} CanonicalMembersAre(le: KeyOrder, entries: seq<Entry>, m: Json.Member)
    ensures m in CanonicalMembers(le, entries)
       <==> exists v :: Binds(entries, m.key, v) && m.value == Canonical(le, v)
  {
    if entries != [] {
      var head := entries[0];
      CanonicalMembersAre(le, entries[1..], m);
      assert entries == [head] + entries[1..];
      if m in CanonicalMembers(le, entries[1..]) {
        var v :| Binds(entries[1..], m.key, v) && m.value == Canonical(le, v);
        assert Binds(entries, m.key, v);
      }
      if m in CanonicalMembers(le, entries) && m !in CanonicalMembers(le, entries[1..]) {
        assert Binds(entries, m.key, head.value);
      }
      if v :| Binds(entries, m.key, v) && m.value == Canonical(le, v) && Entry(m.key, v) != head {
        assert Binds(entries[1..], m.key, v);
      }
    }
  }

  ghost predicate DistinctKeys(ms: seq<Json.Member>) {
    forall i, j | 0 <= i < j < |ms| :: ms[i].key != ms[j].key
  }

  ghost predicate SameMembers(a: seq<Json.Member>, b: seq<Json.Member>) {
    (forall m | m in a :: m in b) && (forall m | m in b :: m in a)
  }

  lemma {:induction false} MembersDistinct(le: KeyOrder, entries: seq<Entry>)
    requires UniqueKeys(entries)
    ensures DistinctKeys(CanonicalMembers(le, entries))
  {
    if entries != [] {
      var rest := CanonicalMembers(le, entries[1..]);
      MembersDistinct(le, entries[1..]);
      forall j | 0 <= j < |rest| ensures rest[j].key != entries[0].key {
        CanonicalMembersAre(le, entries[1..], rest[j]);
        var v :| Binds(entries[1..], rest[j].key, v);
        var k :| 0 <= k < |entries[1..]| && entries[1..][k] == Entry(rest[j].key, v);
        assert entries[k + 1].key == rest[j].key;
      }
    }
  }

  lemma {:induction false} CountOfDistinct(ms: seq<Json.Member>, m: Json.Member)
    requires DistinctKeys(ms)
    ensures multiset(ms)[m] == if m in ms then 1 else 0
  {
    if ms != [] {
      CountOfDistinct(ms[1..], m);
      assert ms == [ms[0]] + ms[1..];
      if m == ms[0] { assert m !in ms[1..]; }
    }
  }

  lemma ByKeyOrders(le: KeyOrder)
    requires TotalPreorder(le)
    ensures TotalPreorder(ByKey(le))
  {
    var f := ByKey(le);
    forall x, y ensures f(x, y) || f(y, x) {
      assert le(x.key, y.key) || le(y.key, x.key);
    }
    forall x, y, z | f(x, y) && f(y, z) ensures f(x, z) {
      assert le(x.key, y.key) && le(y.key, z.key);
    }
  }

  /** Sorted member lists with distinct keys, none of which tie, are equal exactly when they hold the same members. */
  lemma SortedMembersEqual(le: KeyOrder, a: seq<Json.Member>, b: seq<Json.Member>)
    requires TotalPreorder(le) && DistinctKeys(a) && DistinctKeys(b) && NoTies(ByKey(le), a)
    ensures Sort(ByKey(le), a) == Sort(ByKey(le), b) <==> SameMembers(a, b)
  {
    ByKeyOrders(le);
    SortDecides(ByKey(le), a, b);
    assert forall m :: m in a <==> m in multiset(a);
    assert forall m :: m in b <==> m in multiset(b);
    if SameMembers(a, b) {
      forall m ensures multiset(a)[m] == multiset(b)[m] {
        CountOfDistinct(a, m);
        CountOfDistinct(b, m);
      }
    }
  }

  lemma MembersDoNotTie(le: KeyOrder, entries: seq<Entry>)
    requires UniqueKeys(entries) && NoKeyTies(le, entries)
    ensures NoTies(ByKey(le), CanonicalMembers(le, entries))
  {
    var ms := CanonicalMembers(le, entries);
    forall m, n | m in ms && n in ms && Ties(le, m.key, n.key) ensures m == n {
      CanonicalMembersAre(le, entries, m);
      CanonicalMembersAre(le, entries, n);
      var v :| Binds(entries, m.key, v) && m.value == Canonical(le, v);
      var w :| Binds(entries, n.key, w) && n.value == Canonical(le, w);
      TiedBindings(le, entries, m.key, v, n.key, w);
    }
  }

  lemma TiedBindings(le: KeyOrder, entries: seq<Entry>, x: string, v: Value, y: string, w: Value)
    requires UniqueKeys(entries) && NoKeyTies(le, entries) && Ties(le, x, y)
    requires Binds(entries, x, v) && Binds(entries, y, w)
    ensures x == y && v == w
  {
    var i :| 0 <= i < |entries| && entries[i] == Entry(x, v);
    var j :| 0 <= j < |entries| && entries[j] == Entry(y, w);
    assert i == j;
  }

  lemma BindingIsUnique(entries: seq<Entry>, key: string, v: Value, w: Value)
    requires UniqueKeys(entries) && Binds(entries, key, v) && Binds(entries, key, w)
    ensures v == w
  {
    var i :| 0 <= i < |entries| && entries[i] == Entry(key, v);
    var j :| 0 <= j < |entries| && entries[j] == Entry(key, w);
  }

  /** The values of the two objects are compared by their canonical forms. */
  ghost predicate Compared(le: KeyOrder, a: seq<Entry>, b: seq<Entry>) {
    forall i, j | 0 <= i < |a| && 0 <= j < |b| ::
      Canonical(le, a[i].value) == Canonical(le, b[j].value) <==> Equivalent(a[i].value, b[j].value)
  }

  /** Two objects hold the same canonical members exactly when they are equivalent. */
  lemma ObjectMembers(le: KeyOrder, a: seq<Entry>, b: seq<Entry>)
    requires UniqueKeys(a) && UniqueKeys(b) && Compared(le, a, b)
    ensures SameMembers(CanonicalMembers(le, a), CanonicalMembers(le, b)) <==> Equivalent(Object(a), Object(b))
  {
    var ma, mb := CanonicalMembers(le, a), CanonicalMembers(le, b);
    if Equivalent(Object(a), Object(b)) {
      forall m | m in ma ensures m in mb { Matched(le, a, b, m); }
      forall m | m in mb ensures m in ma { MatchedBack(le, a, b, m); }
    } else if SameMembers(ma, mb) {
      SameMembersEquivalent(le, a, b);
    }
  }

  lemma SameMembersEquivalent(le: KeyOrder, a: seq<Entry>, b: seq<Entry>)
    requires UniqueKeys(b) && Compared(le, a, b)
    requires SameMembers(CanonicalMembers(le, a), CanonicalMembers(le, b))
    ensures Equivalent(Object(a), Object(b))
  {
    SameKeys(le, a, b);
    forall i, j | 0 <= i < |a| && 0 <= j < |b| && a[i].key == b[j].key
      && !a[i].value.Undefined? && !b[j].value.Undefined?
      ensures Equivalent(a[i].value, b[j].value)
    {
      var m := Json.Member(a[i].key, Canonical(le, a[i].value));
      CanonicalMembersAre(le, a, m);
      assert Binds(a, m.key, a[i].value);
      CanonicalMembersAre(le, b, m);
      var v :| Binds(b, m.key, v) && m.value == Canonical(le, v);
      assert Binds(b, m.key, b[j].value);
      BindingIsUnique(b, m.key, v, b[j].value);
    }
  }

  lemma Matched(le: KeyOrder, a: seq<Entry>, b: seq<Entry>, m: Json.Member)
    requires Compared(le, a, b) && Equivalent(Object(a), Object(b))
    requires m in CanonicalMembers(le, a)
    ensures m in CanonicalMembers(le, b)
  {
    CanonicalMembersAre(le, a, m);
    CanonicalMembersAre(le, b, m);
    var v :| Binds(a, m.key, v) && m.value == Canonical(le, v);
    var i :| 0 <= i < |a| && a[i] == Entry(m.key, v);
    assert HasKey(a, m.key);
    assert HasKey(b, m.key);
    var e :| e in b && e.key == m.key && !e.value.Undefined?;
    var j :| 0 <= j < |b| && b[j] == e;
    assert Binds(b, m.key, e.value);
  }

  lemma MatchedBack(le: KeyOrder, a: seq<Entry>, b: seq<Entry>, m: Json.Member)
    requires Compared(le, a, b) && Equivalent(Object(a), Object(b))
    requires m in CanonicalMembers(le, b)
    ensures m in CanonicalMembers(le, a)
  {
    CanonicalMembersAre(le, a, m);
    CanonicalMembersAre(le, b, m);
    var v :| Binds(b, m.key, v) && m.value == Canonical(le, v);
    var j :| 0 <= j < |b| && b[j] == Entry(m.key, v);
    assert HasKey(b, m.key);
    assert HasKey(a, m.key);
    var e :| e in a && e.key == m.key && !e.value.Undefined?;
    var i :| 0 <= i < |a| && a[i] == e;
    assert Binds(a, m.key, e.value);
  }

  lemma SameKeys(le: KeyOrder, a: seq<Entry>, b: seq<Entry>)
    requires SameMembers(CanonicalMembers(le, a), CanonicalMembers(le, b))
    ensures forall key :: HasKey(a, key) <==> HasKey(b, key)
  {
    forall key ensures HasKey(a, key) <==> HasKey(b, key) {
      if HasKey(a, key) { KeyCarries(le, a, b, key); }
      if HasKey(b, key) { KeyCarries(le, b, a, key); }
    }
  }

  lemma KeyCarries(le: KeyOrder, a: seq<Entry>, b: seq<Entry>, key: string)
    requires forall m :: m in CanonicalMembers(le, a) ==> m in CanonicalMembers(le, b)
    requires HasKey(a, key)
    ensures HasKey(b, key)
  {
    var e :| e in a && e.key == key && !e.value.Undefined?;
    var m := Json.Member(key, Canonical(le, e.value));
    assert Binds(a, key, e.value);
    CanonicalMembersAre(le, a, m);
    CanonicalMembersAre(le, b, m);
    var v :| Binds(b, key, v);
    assert Entry(key, v) in b;
  }

  /**
   When no two keys of one object tie, canonical forms are equal exactly when the filters mean the
   same, at every depth. It is enough that one of the two values is so.
   */
  lemma {:induction false} CanonicalDecides(le: KeyOrder, a: Value, b: Value)
    requires TotalPreorder(le) && Proper(a) && Proper(b) && KeysApart(le, a)
    ensures Canonical(le, a) == Canonical(le, b) <==> Equivalent(a, b)
    decreases a
  {
    match a {
      case Array(items) =>
        if b.Array? {
          if AllText(items) && AllText(b.items) {
            TextArrays(le, items, b.items);
          } else if AllText(items) {
            TextAgainstMixed(le, items, b.items);
          } else if AllText(b.items) {
            TextAgainstMixed(le, b.items, items);
          } else {
            MixedArrays(le, items, b.items);
          }
        }
      case Object(entries) =>
        if b.Object? {
          forall i, j | 0 <= i < |entries| && 0 <= j < |b.entries|
            ensures Canonical(le, entries[i].value) == Canonical(le, b.entries[j].value)
               <==> Equivalent(entries[i].value, b.entries[j].value)
          {
            CanonicalDecides(le, entries[i].value, b.entries[j].value);
          }
          ObjectMembers(le, entries, b.entries);
          ObjectForms(le, entries, b.entries);
        }
      case _ =>
    }
  }

  /** Two objects, the first without ties, have one form exactly when they hold the same canonical members. */
  lemma ObjectForms(le: KeyOrder, a: seq<Entry>, b: seq<Entry>)
    requires TotalPreorder(le) && UniqueKeys(a) && UniqueKeys(b) && NoKeyTies(le, a)
    ensures Canonical(le, Object(a)) == Canonical(le, Object(b))
       <==> SameMembers(CanonicalMembers(le, a), CanonicalMembers(le, b))
  {
    MembersDistinct(le, a);
    MembersDistinct(le, b);
    MembersDoNotTie(le, a);
    SortedMembersEqual(le, CanonicalMembers(le, a), CanonicalMembers(le, b));
  }

  lemma MixedArrays(le: KeyOrder, a: seq<Value>, b: seq<Value>)
    requires TotalPreorder(le) && !AllText(a) && !AllText(b)
    requires forall i | 0 <= i < |a| :: Proper(a[i]) && KeysApart(le, a[i])
    requires forall i | 0 <= i < |b| :: Proper(b[i])
    ensures Canonical(le, Array(a)) == Canonical(le, Array(b)) <==> Equivalent(Array(a), Array(b))
    decreases a, 0
  {
    ItemsAreTexts(le, a);
    ItemsAreTexts(le, b);
    var ca, cb := CanonicalItems(le, a), CanonicalItems(le, b);
    forall i | 0 <= i < |a| && i < |b|
      ensures ca[i] == cb[i] <==> Equivalent(a[i], b[i])
    {
      CanonicalItemAt(le, a, i);
      CanonicalItemAt(le, b, i);
      CanonicalDecides(le, a[i], b[i]);
    }
    if |a| == |b| {
      assert ca == cb <==> forall i | 0 <= i < |a| :: ca[i] == cb[i];
    }
  }

  // ---- Key order, object by object ----

  lemma Regroup<T>(a: seq<T>, b: seq<T>, c: seq<T>)
    ensures a + (b + c) == a + b + c
  {
  }

  lemma {:induction false} MembersConcat(le: KeyOrder, a: seq<Entry>, b: seq<Entry>)
    ensures CanonicalMembers(le, a + b) == CanonicalMembers(le, a) + CanonicalMembers(le, b)
  {
    if a == [] {
      assert a + b == b;
    } else {
      assert (a + b)[1..] == a[1..] + b && (a + b)[0] == a[0];
      MembersConcat(le, a[1..], b);
      Regroup(if a[0].value.Undefined? then [] else [Json.Member(a[0].key, Canonical(le, a[0].value))],
              CanonicalMembers(le, a[1..]), CanonicalMembers(le, b));
    }
  }

  lemma BeforeInConcat<T>(a: seq<T>, b: seq<T>, x: T, y: T)
    requires x in a && y in b
    ensures ComesBefore(a + b, x, y)
  {
    var i :| 0 <= i < |a| && a[i] == x;
    var j :| 0 <= j < |b| && b[j] == y;
    assert (a + b)[i] == x && (a + b)[|a| + j] == y;
  }

  lemma EntryIsMember(le: KeyOrder, entries: seq<Entry>, i: nat)
    requires i < |entries| && !entries[i].value.Undefined?
    ensures Json.Member(entries[i].key, Canonical(le, entries[i].value)) in CanonicalMembers(le, entries)
  {
    CanonicalMembersAre(le, entries, Json.Member(entries[i].key, Canonical(le, entries[i].value)));
    assert Binds(entries, entries[i].key, entries[i].value);
  }

  lemma SortedApart(le: KeyOrder, entries: seq<Entry>, other: seq<Entry>, m: Json.Member, n: Json.Member)
    requires TotalPreorder(le) && UniqueKeys(entries) && Ties(le, m.key, n.key)
    requires ComesBefore(CanonicalMembers(le, entries), m, n) && ComesBefore(CanonicalMembers(le, other), n, m)
    ensures Canonical(le, Object(entries)) != Canonical(le, Object(other))
  {
    var ms, f := CanonicalMembers(le, entries), ByKey(le);
    ByKeyOrders(le);
    SortKeepsBefore(f, ms, m, n);
    SortKeepsBefore(f, CanonicalMembers(le, other), n, m);
    MembersDistinct(le, entries);
    SortSpec(f, ms);
    Members.PermutationDistinct(ms, Sort(f, ms));
    BeforeOneWay(Sort(f, ms), m, n);
  }

  /** Two tied keys show which was listed first: turning the object at the second of them changes its form. */
  lemma TiedKeysTell(le: KeyOrder, entries: seq<Entry>, i: nat, j: nat) returns (other: seq<Entry>)
    requires TotalPreorder(le) && UniqueKeys(entries) && i < j < |entries|
    requires !entries[i].value.Undefined? && !entries[j].value.Undefined? && Ties(le, entries[i].key, entries[j].key)
    ensures multiset(other) == multiset(entries)
    ensures Canonical(le, Object(other)) != Canonical(le, Object(entries))
  {
    var a, b := entries[..j], entries[j..];
    other := b + a;
    assert entries == a + b;
    var m := Json.Member(entries[i].key, Canonical(le, entries[i].value));
    var n := Json.Member(entries[j].key, Canonical(le, entries[j].value));
    EntryIsMember(le, a, i);
    EntryIsMember(le, b, 0);
    MembersConcat(le, a, b);
    MembersConcat(le, b, a);
    BeforeInConcat(CanonicalMembers(le, a), CanonicalMembers(le, b), m, n);
    BeforeInConcat(CanonicalMembers(le, b), CanonicalMembers(le, a), n, m);
    SortedApart(le, entries, other, m, n);
  }

  lemma ReorderedMembers(le: KeyOrder, a: seq<Entry>, b: seq<Entry>)
    requires multiset(a) == multiset(b)
    ensures SameMembers(CanonicalMembers(le, a), CanonicalMembers(le, b))
  {
    assert forall e :: e in a <==> e in multiset(a);
    assert forall e :: e in b <==> e in multiset(b);
    forall m ensures m in CanonicalMembers(le, a) <==> m in CanonicalMembers(le, b) {
      CanonicalMembersAre(le, a, m);
      CanonicalMembersAre(le, b, m);
      assert forall v :: Binds(a, m.key, v) <==> Binds(b, m.key, v);
    }
  }

  lemma {:induction false} EntryKeysUnique(a: seq<Entry>, b: seq<Entry>)
    requires multiset(a) == multiset(b) && UniqueKeys(a)
    ensures UniqueKeys(b)
  {
    Members.PermutationDistinct(a, b);
    forall i, j | 0 <= i < j < |b| ensures b[i].key != b[j].key {
      assert b[i] in multiset(a) && b[j] in multiset(a);
      var p := Members.IndexOf(a, b[i]);
      var q := Members.IndexOf(a, b[j]);
    }
  }

  /** An object's entries can be listed in any order with one and the same form exactly when no two of its defined keys tie. */
  lemma KeyOrderIrrelevantIff(le: KeyOrder, entries: seq<Entry>)
    requires TotalPreorder(le) && UniqueKeys(entries)
    ensures (forall other: seq<Entry> | multiset(other) == multiset(entries) ::
               Canonical(le, Object(other)) == Canonical(le, Object(entries)))
       <==> NoKeyTies(le, entries)
  {
    if NoKeyTies(le, entries) {
      forall other: seq<Entry> | multiset(other) == multiset(entries)
        ensures Canonical(le, Object(other)) == Canonical(le, Object(entries))
      {
        EntryKeysUnique(entries, other);
        ReorderedMembers(le, entries, other);
        ObjectForms(le, entries, other);
      }
    } else {
      var i, j :| 0 <= i < j < |entries| && !entries[i].value.Undefined? && !entries[j].value.Undefined?
                  && Ties(le, entries[i].key, entries[j].key);
      var other := TiedKeysTell(le, entries, i, j);
    }
  }

  lemma {:induction false} EquivalentToItself(v: Value)
    requires Proper(v)
    ensures Equivalent(v, v)
    decreases v
  {
    match v {
      case Array(items) =>
        forall i | 0 <= i < |items| ensures Equivalent(items[i], items[i]) { EquivalentToItself(items[i]); }
      case Object(entries) =>
        forall i | 0 <= i < |entries| ensures Equivalent(entries[i].value, entries[i].value) {
          EquivalentToItself(entries[i].value);
        }
      case _ =>
    }
  }

  /** One item put in another form is another array. */
  lemma ItemChanged(le: KeyOrder, items: seq<Value>, i: nat, v: Value)
    requires i < |items| && Proper(Array(items)) && Proper(v)
    requires !IsText(items[i]) && !IsText(v)
    requires Equivalent(items[i], v) && Canonical(le, items[i]) != Canonical(le, v)
    ensures var b := Array(items[i := v]);
            Proper(b) && Equivalent(Array(items), b) && Canonical(le, Array(items)) != Canonical(le, b)
  {
    var changed := items[i := v];
    forall k | 0 <= k < |items| ensures Equivalent(items[k], changed[k]) { EquivalentToItself(items[k]); }
    ItemsAreTexts(le, items);
    ItemsAreTexts(le, changed);
    CanonicalItemAt(le, items, i);
    CanonicalItemAt(le, changed, i);
  }

  lemma ChangedEntries(entries: seq<Entry>, i: nat, v: Value)
    requires i < |entries| && Proper(Object(entries)) && Proper(v)
    requires !entries[i].value.Undefined? && !v.Undefined? && Equivalent(entries[i].value, v)
    ensures var b := Object(entries[i := Entry(entries[i].key, v)]);
            Proper(b) && Equivalent(Object(entries), b)
  {
    var changed := entries[i := Entry(entries[i].key, v)];
    AlignedEquivalent(entries, changed);
    forall k | 0 <= k < |entries| && !entries[k].value.Undefined? ensures Equivalent(entries[k].value, changed[k].value) {
      EquivalentToItself(entries[k].value);
    }
  }

  /** One entry's value put in another form is another object. */
  lemma EntryChanged(le: KeyOrder, entries: seq<Entry>, i: nat, v: Value)
    requires TotalPreorder(le) && i < |entries| && Proper(Object(entries))
    requires !entries[i].value.Undefined? && !v.Undefined? && Canonical(le, entries[i].value) != Canonical(le, v)
    ensures Canonical(le, Object(entries)) != Canonical(le, Object(entries[i := Entry(entries[i].key, v)]))
  {
    var changed := entries[i := Entry(entries[i].key, v)];
    var m := Json.Member(entries[i].key, Canonical(le, v));
    EntryIsMember(le, changed, i);
    CanonicalMembersAre(le, entries, m);
    if w :| Binds(entries, m.key, w) && m.value == Canonical(le, w) {
      assert Binds(entries, m.key, entries[i].value);
      BindingIsUnique(entries, m.key, w, entries[i].value);
    }
    FormHolds(le, entries, m);
    FormHolds(le, changed, m);
  }

  lemma FormHolds(le: KeyOrder, entries: seq<Entry>, m: Json.Member)
    requires TotalPreorder(le)
    ensures m in Canonical(le, Object(entries)).members <==> m in CanonicalMembers(le, entries)
  {
    ByKeyOrders(le);
    SortSpec(ByKey(le), CanonicalMembers(le, entries));
  }

  /** Where two keys of an object tie, at any depth, some equivalent value has another form. */
  lemma {:induction false} TieIsSeen(le: KeyOrder, a: Value) returns (b: Value)
    requires TotalPreorder(le) && Proper(a) && !KeysApart(le, a)
    ensures Proper(b) && !IsText(b) && !b.Undefined? && Equivalent(a, b) && Canonical(le, a) != Canonical(le, b)
    decreases a
  {
    if a.Array? {
      var i :| 0 <= i < |a.items| && !KeysApart(le, a.items[i]);
      var v := TieIsSeen(le, a.items[i]);
      ItemChanged(le, a.items, i, v);
      b := Array(a.items[i := v]);
    } else if NoKeyTies(le, a.entries) {
      var i :| 0 <= i < |a.entries| && !KeysApart(le, a.entries[i].value);
      var v := TieIsSeen(le, a.entries[i].value);
      ChangedEntries(a.entries, i, v);
      EntryChanged(le, a.entries, i, v);
      b := Object(a.entries[i := Entry(a.entries[i].key, v)]);
    } else {
      b := TurnedObject(le, a.entries);
    }
  }

  lemma TurnedObject(le: KeyOrder, entries: seq<Entry>) returns (b: Value)
    requires TotalPreorder(le) && Proper(Object(entries)) && !NoKeyTies(le, entries)
    ensures b.Object? && Proper(b) && Equivalent(Object(entries), b)
    ensures Canonical(le, Object(entries)) != Canonical(le, b)
  {
    var i, j :| 0 <= i < j < |entries| && !entries[i].value.Undefined? && !entries[j].value.Undefined?
                && Ties(le, entries[i].key, entries[j].key);
    var other := TiedKeysTell(le, entries, i, j);
    b := Object(other);
    EntryKeysUnique(entries, other);
    ReorderedEquivalent(entries, other);
  }

  lemma ReorderedEquivalent(a: seq<Entry>, b: seq<Entry>)
    requires multiset(a) == multiset(b) && Proper(Object(a)) && UniqueKeys(b)
    ensures Proper(Object(b)) && Equivalent(Object(a), Object(b))
  {
    assert forall e :: e in a <==> e in multiset(a);
    assert forall e :: e in b <==> e in multiset(b);
    forall j | 0 <= j < |b| ensures Proper(b[j].value) {
      assert b[j] in a;
    }
    forall i, j | 0 <= i < |a| && 0 <= j < |b| && a[i].key == b[j].key ensures Equivalent(a[i].value, b[j].value) {
      assert b[j] in a;
      EquivalentToItself(a[i].value);
    }
  }

  /** The exact condition: a value's form tells the equivalent values from the others if and only if none of its keys tie. */
  lemma CanonicalDecidesExactly(le: KeyOrder, a: Value)
    requires TotalPreorder(le) && Proper(a)
    ensures (forall b | Proper(b) :: Canonical(le, a) == Canonical(le, b) <==> Equivalent(a, b)) <==> KeysApart(le, a)
  {
    if KeysApart(le, a) {
      forall b | Proper(b) ensures Canonical(le, a) == Canonical(le, b) <==> Equivalent(a, b) {
        CanonicalDecides(le, a, b);
      }
    } else {
      var b := TieIsSeen(le, a);
    }
  }

  const COMPOSED := "\U{E9}"
  const DECOMPOSED := "e\U{301}"

  /** The two ways to write one accented letter, which localeCompare ties, give two forms of one filter set. */
  lemma ComposedKeysDiffer(le: KeyOrder)
    requires TotalPreorder(le) && Ties(le, COMPOSED, DECOMPOSED)
    ensures var a := [Entry(COMPOSED, Null), Entry(DECOMPOSED, Bool(true))];
            var b := [a[1], a[0]];
            Equivalent(Object(a), Object(b)) && Canonical(le, Object(a)) != Canonical(le, Object(b))
  {
    var a := [Entry(COMPOSED, Null), Entry(DECOMPOSED, Bool(true))];
    var b := [a[1], a[0]];
    assert |COMPOSED| == 1 && |DECOMPOSED| == 2;
    var m, n := Json.Member(COMPOSED, Json.Null), Json.Member(DECOMPOSED, Json.Bool(true));
    PairMembers(le, a[0], a[1]);
    PairMembers(le, a[1], a[0]);
    assert [m, n][0] == m && [m, n][1] == n && [n, m][0] == n && [n, m][1] == m;
    SortedApart(le, a, b, m, n);
    assert multiset(a) == multiset(b);
    ReorderedEquivalent(a, b);
  }

  lemma PairMembers(le: KeyOrder, x: Entry, y: Entry)
    requires !x.value.Undefined? && !y.value.Undefined?
    ensures CanonicalMembers(le, [x, y])
         == [Json.Member(x.key, Canonical(le, x.value)), Json.Member(y.key, Canonical(le, y.value))]
  {
    assert [x, y] == [x] + [y];
    MembersConcat(le, [x], [y]);
    assert [x][1..] == [] && [y][1..] == [];
  }

  // ---- The text that is hashed ----

  /** The filters with the scope a policy supplied, if any. */
  function BoundFilters(filters: seq<Entry>, effectiveScope: Option<string>): seq<Entry> {
    match effectiveScope
    case None => filters
    case Some(scope) => SetEntry(filters, "scope", Text(scope))
  }

  function SetEntry(entries: seq<Entry>, key: string, v: Value): seq<Entry> {
    if entries == [] then [Entry(key, v)]
    else if entries[0].key == key then [Entry(key, v)] + entries[1..]
    else [entries[0]] + SetEntry(entries[1..], key, v)
  }

  datatype Search = Search(
    query: string, filters: seq<Entry>, effectiveScope: Option<string>, scopeAppliedByPolicy: bool)

  const POLICY_SUFFIX := "\npolicy-scope:applied"

  /** What `searchFingerprint` feeds to the hash. */
  function PreHash(le: KeyOrder, s: Search): string {
    s.query + "\n" + FilterText(le, Bound(s)) + (if s.scopeAppliedByPolicy then POLICY_SUFFIX else "")
  }

  function Bound(s: Search): seq<Entry> {
    BoundFilters(s.filters, s.effectiveScope)
  }

  function FilterText(le: KeyOrder, entries: seq<Entry>): string {
    Json.Print(Canonical(le, Object(entries)))
  }

  lemma {:induction false} SetEntryProper(entries: seq<Entry>, key: string, v: Value)
    requires Proper(Object(entries)) && Proper(v)
    ensures Proper(Object(SetEntry(entries, key, v)))
    ensures forall i | 0 <= i < |SetEntry(entries, key, v)| ::
              SetEntry(entries, key, v)[i].key == key
              || exists j | 0 <= j < |entries| :: entries[j].key == SetEntry(entries, key, v)[i].key
  {
    if entries != [] && entries[0].key != key {
      var rest := SetEntry(entries[1..], key, v);
      assert Proper(Object(entries[1..]));
      SetEntryProper(entries[1..], key, v);
      forall i | 0 <= i < |rest| ensures rest[i].key != entries[0].key
        && (rest[i].key == key || exists j | 0 <= j < |entries| :: entries[j].key == rest[i].key)
      {
        if rest[i].key != key {
          var j :| 0 <= j < |entries[1..]| && entries[1..][j].key == rest[i].key;
          assert entries[j + 1].key == rest[i].key;
        }
      }
    }
  }

  /** A text ending in one line of JSON and an optional mark splits in one way only. */
  lemma UniqueSplit(q: string, j: string, p: bool, q': string, j': string, p': bool)
    requires '\n' !in j && '\n' !in j' && j != [] && j' != []
    requires j[|j| - 1] == '}' && j'[|j'| - 1] == '}'
    requires q + "\n" + j + (if p then POLICY_SUFFIX else "")
          == q' + "\n" + j' + (if p' then POLICY_SUFFIX else "")
    ensures q == q' && j == j' && p == p'
  {
    var u, v := q + "\n" + j, q' + "\n" + j';
    var s, s' := if p then POLICY_SUFFIX else "", if p' then POLICY_SUFFIX else "";
    assert p == p' by {
      assert (u + s)[|u + s| - 1] == if p then 'd' else '}';
      assert (v + s')[|v + s'| - 1] == if p' then 'd' else '}';
    }
    assert u == (u + s)[..|u + s| - |s|] && v == (v + s')[..|v + s'| - |s'|];
    SplitAtLastNewline(q, j, q', j');
  }

  lemma SplitAtLastNewline(q: string, j: string, q': string, j': string)
    requires '\n' !in j && '\n' !in j' && q + "\n" + j == q' + "\n" + j'
    ensures q == q' && j == j'
  {
    var u, v := q + "\n" + j, q' + "\n" + j';
    assert u[|q|] == '\n' && v[|q'|] == '\n';
    assert forall k | |q| < k < |u| :: u[k] == j[k - |q| - 1];
    assert forall k | |q'| < k < |v| :: v[k] == j'[k - |q'| - 1];
    assert |q| == |q'|;
    assert q == u[..|q|] && q' == v[..|q'|];
    assert j == u[|q| + 1..] && j' == v[|q'| + 1..];
  }

  /**
   Two searches are hashed from the same text exactly when they ask the same query, under the
   same policy mark, with equivalent filters. Newlines inside a query cannot confuse two searches.
   */
  lemma PreHashDecides(le: KeyOrder, s: Search, t: Search)
    requires TotalPreorder(le) && KeysApart(le, Object(Bound(s)))
    requires Proper(Object(s.filters)) && Proper(Object(t.filters))
    ensures PreHash(le, s) == PreHash(le, t)
       <==> && s.query == t.query
            && s.scopeAppliedByPolicy == t.scopeAppliedByPolicy
            && Equivalent(Object(Bound(s)), Object(Bound(t)))
  {
    BoundProper(s);
    BoundProper(t);
    FilterTextDecides(le, Bound(s), Bound(t));
    FilterTextShape(le, Bound(s));
    FilterTextShape(le, Bound(t));
    if PreHash(le, s) == PreHash(le, t) {
      UniqueSplit(s.query, FilterText(le, Bound(s)), s.scopeAppliedByPolicy,
                  t.query, FilterText(le, Bound(t)), t.scopeAppliedByPolicy);
    }
  }

  // ---- The same, in terms of the search itself ----

  /** What the search asks of a key: the scope a policy supplied stands in place of the filters' own. */
  ghost predicate InForce(s: Search, key: string, v: Value) {
    if key == "scope" && s.effectiveScope.Some? then v == Text(s.effectiveScope.value) else Binds(s.filters, key, v)
  }

  ghost predicate Asks(s: Search, key: string) {
    exists v :: InForce(s, key, v)
  }

  ghost predicate AsksAlike(s: Search, t: Search, key: string) {
    && (Asks(s, key) <==> Asks(t, key))
    && forall v, w | InForce(s, key, v) && InForce(t, key, w) :: Equivalent(v, w)
  }

  /** No two keys the search binds tie, nor two keys of an object in a value it binds. */
  ghost predicate BindsApart(le: KeyOrder, s: Search) {
    && (forall x, y, v, w | InForce(s, x, v) && InForce(s, y, w) && x != y :: !Ties(le, x, y))
    && forall x, v | InForce(s, x, v) :: KeysApart(le, v)
  }

  lemma OtherKeys(entries: seq<Entry>, x: string, w: Value)
    requires UniqueKeys(entries) && entries != []
    ensures Binds(entries, x, w) <==> (entries[0] == Entry(x, w) && !w.Undefined?) || Binds(entries[1..], x, w)
    ensures !Binds(entries[1..], entries[0].key, w) && UniqueKeys(entries[1..])
  {
    assert entries == [entries[0]] + entries[1..];
    assert forall i | 0 <= i < |entries[1..]| :: entries[1..][i] == entries[i + 1];
  }

  lemma BindsAfter(head: Entry, rest: seq<Entry>, x: string, w: Value)
    ensures Binds([head] + rest, x, w) <==> (head == Entry(x, w) && !w.Undefined?) || Binds(rest, x, w)
  {
  }

  lemma {:induction false} SetEntryBinds(entries: seq<Entry>, key: string, v: Value, x: string, w: Value)
    requires UniqueKeys(entries)
    ensures Binds(SetEntry(entries, key, v), x, w)
       <==> if x == key then w == v && !v.Undefined? else Binds(entries, x, w)
  {
    if entries == [] {
      assert SetEntry(entries, key, v) == [Entry(key, v)];
    } else {
      OtherKeys(entries, x, w);
      if entries[0].key == key {
        BindsAfter(Entry(key, v), entries[1..], x, w);
      } else {
        SetEntryBinds(entries[1..], key, v, x, w);
        BindsAfter(entries[0], SetEntry(entries[1..], key, v), x, w);
      }
    }
  }

  /** What is bound is what is in force: the policy's scope when there is one, and every other filter. */
  lemma BoundIsInForce(s: Search, key: string, v: Value)
    requires Proper(Object(s.filters))
    ensures Binds(Bound(s), key, v) <==> InForce(s, key, v)
    ensures s.effectiveScope.None? ==> Bound(s) == s.filters
  {
    if s.effectiveScope.Some? { SetEntryBinds(s.filters, "scope", Text(s.effectiveScope.value), key, v); }
  }

  lemma BindingOf(entries: seq<Entry>, i: nat)
    requires i < |entries|
    ensures !entries[i].value.Undefined? ==> Binds(entries, entries[i].key, entries[i].value)
  {
    assert entries[i] == Entry(entries[i].key, entries[i].value);
  }

  lemma HasKeyIsAsked(s: Search, key: string)
    requires Proper(Object(s.filters))
    ensures HasKey(Bound(s), key) <==> Asks(s, key)
  {
    if HasKey(Bound(s), key) {
      var e :| e in Bound(s) && e.key == key && !e.value.Undefined?;
      assert e == Entry(key, e.value);
      BoundIsInForce(s, key, e.value);
    }
    if v :| InForce(s, key, v) { BoundIsInForce(s, key, v); }
  }

  lemma AlikeAt(s: Search, t: Search, i: nat, j: nat)
    requires Proper(Object(s.filters)) && Proper(Object(t.filters)) && i < |Bound(s)| && j < |Bound(t)|
    requires Bound(s)[i].key == Bound(t)[j].key && AsksAlike(s, t, Bound(s)[i].key)
    ensures !Bound(s)[i].value.Undefined? && !Bound(t)[j].value.Undefined? ==>
              Equivalent(Bound(s)[i].value, Bound(t)[j].value)
  {
    BindingOf(Bound(s), i);
    BindingOf(Bound(t), j);
    BoundIsInForce(s, Bound(s)[i].key, Bound(s)[i].value);
    BoundIsInForce(t, Bound(s)[i].key, Bound(t)[j].value);
  }

  lemma AlikeIsEquivalent(s: Search, t: Search)
    requires Proper(Object(s.filters)) && Proper(Object(t.filters)) && forall key :: AsksAlike(s, t, key)
    ensures Equivalent(Object(Bound(s)), Object(Bound(t)))
  {
    var a, b := Bound(s), Bound(t);
    forall key ensures HasKey(a, key) <==> HasKey(b, key) {
      assert AsksAlike(s, t, key);
      HasKeyIsAsked(s, key);
      HasKeyIsAsked(t, key);
    }
    forall i, j | 0 <= i < |a| && 0 <= j < |b| && a[i].key == b[j].key && !a[i].value.Undefined? && !b[j].value.Undefined?
      ensures Equivalent(a[i].value, b[j].value)
    {
      AlikeAt(s, t, i, j);
    }
  }

  lemma EquivalentIsAlike(s: Search, t: Search, key: string)
    requires Proper(Object(s.filters)) && Proper(Object(t.filters))
    requires Equivalent(Object(Bound(s)), Object(Bound(t)))
    ensures AsksAlike(s, t, key)
  {
    HasKeyIsAsked(s, key);
    HasKeyIsAsked(t, key);
    forall v, w | InForce(s, key, v) && InForce(t, key, w) ensures Equivalent(v, w) {
      BoundIsInForce(s, key, v);
      BoundIsInForce(t, key, w);
      var i := Members.IndexOf(Bound(s), Entry(key, v));
      var j := Members.IndexOf(Bound(t), Entry(key, w));
    }
  }

  lemma BoundEquivalent(s: Search, t: Search)
    requires Proper(Object(s.filters)) && Proper(Object(t.filters))
    ensures Equivalent(Object(Bound(s)), Object(Bound(t))) <==> forall key :: AsksAlike(s, t, key)
  {
    if forall key :: AsksAlike(s, t, key) { AlikeIsEquivalent(s, t); }
    if Equivalent(Object(Bound(s)), Object(Bound(t))) {
      forall key ensures AsksAlike(s, t, key) { EquivalentIsAlike(s, t, key); }
    }
  }

  lemma BoundApart(le: KeyOrder, s: Search)
    requires Proper(Object(s.filters)) && BindsApart(le, s)
    ensures KeysApart(le, Object(Bound(s)))
  {
    var a := Bound(s);
    BoundProper(s);
    forall i, j | 0 <= i < j < |a| && !a[i].value.Undefined? && !a[j].value.Undefined?
      ensures !Ties(le, a[i].key, a[j].key)
    {
      BindingOf(a, i);
      BindingOf(a, j);
      BoundIsInForce(s, a[i].key, a[i].value);
      BoundIsInForce(s, a[j].key, a[j].value);
    }
    forall i | 0 <= i < |a| ensures KeysApart(le, a[i].value) {
      BindingOf(a, i);
      BoundIsInForce(s, a[i].key, a[i].value);
    }
  }

  /**
   Two searches, one of them without tied keys, are hashed from the same text exactly when they ask
   the same query under the same policy mark, the same scope is in force, be it the policy's or the
   filters' own, and the remaining filters are equivalent.
   */
  lemma SearchesDecide(le: KeyOrder, s: Search, t: Search)
    requires TotalPreorder(le) && BindsApart(le, s)
    requires Proper(Object(s.filters)) && Proper(Object(t.filters))
    ensures PreHash(le, s) == PreHash(le, t)
       <==> && s.query == t.query && s.scopeAppliedByPolicy == t.scopeAppliedByPolicy
            && AsksAlike(s, t, "scope")
            && forall key | key != "scope" :: AsksAlike(s, t, key)
  {
    BoundApart(le, s);
    PreHashDecides(le, s, t);
    BoundEquivalent(s, t);
  }

  /** A cursor minted under one effective scope is told from any search under another. */
  lemma ScopesToldApart(le: KeyOrder, s: Search, t: Search)
    requires TotalPreorder(le) && BindsApart(le, s)
    requires Proper(Object(s.filters)) && Proper(Object(t.filters))
    requires s.effectiveScope.Some?
    ensures PreHash(le, s) == PreHash(le, t)
       ==> if t.effectiveScope.Some? then t.effectiveScope == s.effectiveScope
           else exists v :: Binds(t.filters, "scope", v) && IsText(v) && TextOf(v) == s.effectiveScope.value
  {
    SearchesDecide(le, s, t);
    if PreHash(le, s) == PreHash(le, t) {
      assert InForce(s, "scope", Text(s.effectiveScope.value));
      var v :| InForce(t, "scope", v);
    }
  }

  lemma BoundProper(s: Search)
    requires Proper(Object(s.filters))
    ensures Proper(Object(Bound(s)))
  {
    if s.effectiveScope.Some? { SetEntryProper(s.filters, "scope", Text(s.effectiveScope.value)); }
  }

  lemma FilterTextDecides(le: KeyOrder, a: seq<Entry>, b: seq<Entry>)
    requires TotalPreorder(le) && Proper(Object(a)) && Proper(Object(b)) && KeysApart(le, Object(a))
    ensures FilterText(le, a) == FilterText(le, b) <==> Equivalent(Object(a), Object(b))
  {
    CanonicalDecides(le, Object(a), Object(b));
    if FilterText(le, a) == FilterText(le, b) {
      Json.PrintInjective(Canonical(le, Object(a)), Canonical(le, Object(b)));
    }
  }

  lemma FilterTextShape(le: KeyOrder, entries: seq<Entry>)
    ensures var j := FilterText(le, entries);
            '\n' !in j && j != [] && j[|j| - 1] == '}'
  {
    var c := Canonical(le, Object(entries));
    Json.PrintOneLine(c);
    Json.MembersOneLine(c.members);
  }

  // ---- The text itself ----

  function ProjectSearch(query: string, project: string, scope: string, applied: bool): Search {
    Search(query, [Entry("project", Text(project))], Some(scope), applied)
  }

  lemma ProjectForm(le: KeyOrder, query: string, project: string, scope: string, applied: bool)
    requires le("project", "scope")
    ensures Canonical(le, Object(Bound(ProjectSearch(query, project, scope, applied))))
         == Json.Object([Json.Member("project", Json.Text(project)), Json.Member("scope", Json.Text(scope))])
  {
    assert "project"[0] != "scope"[0];
    var e, f := Entry("project", Text(project)), Entry("scope", Text(scope));
    var m, n := Json.Member("project", Json.Text(project)), Json.Member("scope", Json.Text(scope));
    assert [e][1..] == [];
    assert SetEntry([e], "scope", Text(scope)) == [e] + SetEntry([], "scope", Text(scope)) == [e, f];
    PairMembers(le, e, f);
    assert [m, n][1..] == [n] && [n][1..] == [];
    assert Sort(ByKey(le), [n]) == [n];
  }

  function Quoted(plain: string): string {
    "\"" + plain + "\""
  }

  lemma PlainQuoted(plain: string)
    requires JsonReads.IsPlain(plain)
    ensures Json.Quote(plain) == Quoted(plain)
  {
    JsonReads.PlainText(plain);
  }

  lemma ProjectFilters(le: KeyOrder, s: Search, project: string, scope: string)
    requires le("project", "scope") && JsonReads.IsPlain(project) && JsonReads.IsPlain(scope)
    requires s == ProjectSearch(s.query, project, scope, s.scopeAppliedByPolicy)
    ensures FilterText(le, Bound(s))
         == "{" + (Quoted("project") + ":" + Quoted(project) + ("," + (Quoted("scope") + ":" + Quoted(scope) + "}")))
  {
    ProjectForm(le, s.query, project, scope, s.scopeAppliedByPolicy);
    ProjectPrinted(project, scope);
  }

  lemma ProjectPrinted(project: string, scope: string)
    requires JsonReads.IsPlain(project) && JsonReads.IsPlain(scope)
    ensures Json.Print(Json.Object([Json.Member("project", Json.Text(project)), Json.Member("scope", Json.Text(scope))]))
         == "{" + (Quoted("project") + ":" + Quoted(project) + ("," + (Quoted("scope") + ":" + Quoted(scope) + "}")))
  {
    PlainQuoted("project");
    PlainQuoted("scope");
    PlainQuoted(project);
    PlainQuoted(scope);
    JsonReads.TwoTexts("project", project, "scope", scope);
  }

  /** The text of a search of one project under a supplied scope, as it is hashed. */
  lemma ProjectSearchText(le: KeyOrder, query: string, project: string, scope: string, applied: bool)
    requires le("project", "scope") && JsonReads.IsPlain(project) && JsonReads.IsPlain(scope)
    ensures PreHash(le, ProjectSearch(query, project, scope, applied))
         == query + "\n"
            + ("{" + (Quoted("project") + ":" + Quoted(project) + ("," + (Quoted("scope") + ":" + Quoted(scope) + "}"))))
            + (if applied then "\npolicy-scope:applied" else "")
  {
    ProjectFilters(le, ProjectSearch(query, project, scope, applied), project, scope);
  }

  // ---- The proposals walk ----

  datatype Binding = Binding(surface: string, kinds: seq<string>, status: Option<string>, tenant: string)

  function TextValues(texts: seq<string>): (r: seq<Value>)
    ensures AllText(r) && TextsOf(r) == texts
  {
    seq(|texts|, i requires 0 <= i < |texts| => Text(texts[i]))
  }

  function BindingValue(b: Binding): Value {
    Object([
      Entry("surface", Text(b.surface)),
      Entry("kinds", Array(TextValues(b.kinds))),
      Entry("status", if b.status.Some? then Text(b.status.value) else Undefined),
      Entry("tenant", Text(b.tenant)),
      Entry("order", Text("created_at_desc"))])
  }

  /** What `proposalsFingerprint` feeds to the hash. */
  function ProposalsPreHash(le: KeyOrder, b: Binding): string {
    "proposals\n" + Json.Print(Canonical(le, BindingValue(b)))
  }

  /** What a walk is bound to: its surface, kinds, status when there is one, tenant and order. */
  lemma ProposalsBind(le: KeyOrder, b: Binding, key: string, v: Value)
    ensures Binds(BindingValue(b).entries, key, v)
       <==> || (key == "surface" && v == Text(b.surface))
            || (key == "kinds" && v == Array(TextValues(b.kinds)))
            || (key == "status" && b.status.Some? && v == Text(b.status.value))
            || (key == "tenant" && v == Text(b.tenant))
            || (key == "order" && v == Text("created_at_desc"))
    ensures "proposals\n" <= ProposalsPreHash(le, b)
  {
  }

  /** A walk's text fixes its surface, status and tenant, and its kinds up to order. */
  lemma ProposalsDecide(le: KeyOrder, a: Binding, b: Binding)
    requires TotalPreorder(le) && KeysApart(le, BindingValue(a))
    ensures ProposalsPreHash(le, a) == ProposalsPreHash(le, b)
       <==> SameBinding(a, b)
  {
    var va, vb := BindingValue(a), BindingValue(b);
    CanonicalDecides(le, va, vb);
    BindingEquivalent(a, b);
    if ProposalsPreHash(le, a) == ProposalsPreHash(le, b) {
      Json.SameRest("proposals\n", Json.Print(Canonical(le, va)), Json.Print(Canonical(le, vb)));
      Json.PrintInjective(Canonical(le, va), Canonical(le, vb));
    }
  }

  /** Objects listing the same keys in the same places are compared place by place. */
  ghost predicate Aligned(a: seq<Entry>, b: seq<Entry>) {
    |a| == |b| && forall i | 0 <= i < |a| :: a[i].key == b[i].key
  }

  ghost predicate DefinedAlike(a: seq<Entry>, b: seq<Entry>)
    requires Aligned(a, b)
  {
    forall i | 0 <= i < |a| :: a[i].value.Undefined? == b[i].value.Undefined?
  }

  lemma AlignedKeys(a: seq<Entry>, b: seq<Entry>)
    requires Aligned(a, b) && UniqueKeys(a) && UniqueKeys(b)
    ensures (forall key :: HasKey(a, key) <==> HasKey(b, key)) <==> DefinedAlike(a, b)
  {
    forall i | 0 <= i < |a|
      ensures HasKey(a, a[i].key) <==> !a[i].value.Undefined?
      ensures HasKey(b, a[i].key) <==> !b[i].value.Undefined?
    {
      assert a[i] in a && b[i] in b;
    }
  }

  lemma AlignedEquivalent(a: seq<Entry>, b: seq<Entry>)
    requires Aligned(a, b) && UniqueKeys(a) && UniqueKeys(b)
    ensures Equivalent(Object(a), Object(b))
       <==> && DefinedAlike(a, b)
            && forall i | 0 <= i < |a| && !a[i].value.Undefined? :: Equivalent(a[i].value, b[i].value)
  {
    AlignedKeys(a, b);
  }

  lemma BindingShape(a: Binding, b: Binding)
    ensures var ea, eb := BindingValue(a).entries, BindingValue(b).entries;
            && Proper(BindingValue(a)) && UniqueKeys(ea) && Aligned(ea, eb) && |ea| == 5
            && (DefinedAlike(ea, eb) <==> a.status.Some? == b.status.Some?)
  {
    assert BindingValue(a).entries[2].value.Undefined? == a.status.None?;
    assert BindingValue(b).entries[2].value.Undefined? == b.status.None?;
    assert |"surface"| == 7 && |"kinds"| == 5 && |"status"| == 6 && |"tenant"| == 6 && |"order"| == 5;
    assert "kinds"[0] != "order"[0] && "status"[0] != "tenant"[0];
  }

  lemma BindingEquivalent(a: Binding, b: Binding)
    ensures Proper(BindingValue(a)) && Proper(BindingValue(b))
    ensures Equivalent(BindingValue(a), BindingValue(b)) <==> SameBinding(a, b)
  {
    var ea, eb := BindingValue(a).entries, BindingValue(b).entries;
    BindingShape(a, b);
    BindingShape(b, a);
    AlignedEquivalent(ea, eb);
    if a.status.Some? == b.status.Some? {
      forall i | 0 <= i < 5 && !ea[i].value.Undefined?
        ensures Equivalent(ea[i].value, eb[i].value) <==> SamePart(a, b, i)
      {
        BindingPart(a, b, i);
      }
      assert SameBinding(a, b) <==> SamePart(a, b, 0) && SamePart(a, b, 1) && SamePart(a, b, 2) && SamePart(a, b, 3);
      assert ea[2].value.Undefined? ==> SamePart(a, b, 2);
    }
  }

  /** The two walks agree on the `i`th thing they are bound to. */
  ghost predicate SamePart(a: Binding, b: Binding, i: nat) {
    match i
    case 0 => a.surface == b.surface
    case 1 => multiset(a.kinds) == multiset(b.kinds)
    case 2 => a.status == b.status
    case 3 => a.tenant == b.tenant
    case _ => true
  }

  lemma SameKinds(a: seq<string>, b: seq<string>)
    ensures Equivalent(Array(TextValues(a)), Array(TextValues(b))) <==> multiset(a) == multiset(b)
  {
  }

  lemma BindingPart(a: Binding, b: Binding, i: nat)
    requires i < 5 && a.status.Some? == b.status.Some?
    requires !BindingValue(a).entries[i].value.Undefined?
    ensures Equivalent(BindingValue(a).entries[i].value, BindingValue(b).entries[i].value) <==> SamePart(a, b, i)
  {
    if i == 1 { SameKinds(a.kinds, b.kinds); }
  }

  ghost predicate SameBinding(a: Binding, b: Binding) {
    && a.surface == b.surface && a.status == b.status && a.tenant == b.tenant
    && multiset(a.kinds) == multiset(b.kinds)
  }
}
