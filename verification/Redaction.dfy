/**
 The redacted history of one commitment (cmd/3ngram-hook/commitments_show.go): what the answer
 says about memories outside the caller's selector is reduced to counts.
 */
module Redaction {
  import opened Options
  import Members

  /** A JSON field that may be omitted, null or a string. */
  datatype Nullable = Omitted | Null | Given(value: string)

  /** Any kind but the two that file a memory selects nothing here. */
  datatype Selector =
    | ProjectKind(project: string)
    | ScopeProjectKind(scope: string, project: string, includeUnscoped: Option<bool>)
    | OtherKind

  datatype Filing = InProject | Unscoped

  datatype Memory = Memory(id: string, scope: string, project: Nullable, topic: string, status: string)

  datatype Edge = Edge(id: string, fromId: string, toId: string, edgeType: string)

  datatype Relationship = Relationship(memory: Memory, edge: Edge)

  datatype AuditEvent = AuditEvent(eventKind: string, actorKind: string, createdAt: string)

  datatype History = History(
    lineageAvailable: bool, events: seq<AuditEvent>, eventsTruncated: bool,
    nodes: seq<Memory>, edges: seq<Edge>, lineageTruncated: bool,
    predecessors: seq<Relationship>, successors: seq<Relationship>, relationshipsTruncated: bool)

  datatype Hidden = Hidden(nodes: nat, edges: nat, relationships: nat)

  datatype Redacted = Redacted(
    lineageOK: bool, events: seq<AuditEvent>, eventsTruncated: bool,
    lineage: seq<Memory>, edges: seq<Edge>, relationships: seq<Relationship>,
    lineageTruncated: bool, relationshipsTruncated: bool, hidden: Hidden)

  /** `memoryInSelector`; a memory whose project the answer omits is outside. */
  function MemoryInSelector(scope: string, project: Nullable, sel: Selector): Option<Filing> {
    if project.Omitted? then None
    else match sel
      case ProjectKind(p) => if project == Given(p) then Some(InProject) else None
      case ScopeProjectKind(s, p, includeUnscoped) =>
        if scope != s then None
        else if project == Given(p) then Some(InProject)
        else if project.Null? && includeUnscoped == Some(true) then Some(Unscoped)
        else None
      case OtherKind => None
  }

  predicate Inside(m: Memory, sel: Selector) {
    MemoryInSelector(m.scope, m.project, sel).Some?
  }

  // ---- What is kept ----

  function Filter<T>(shown: T -> bool, s: seq<T>): seq<T> {
    if s == [] then []
    else Filter(shown, s[..|s| - 1]) + if shown(s[|s| - 1]) then [s[|s| - 1]] else []
  }

  /** A lineage node is shown when it lies inside the selector and is not the inspected memory. */
  function NodeShown(memoryId: string, sel: Selector): Memory -> bool {
    (node: Memory) => node.id != memoryId && Inside(node, sel)
  }

  function PartnerShown(sel: Selector): Relationship -> bool {
    (rel: Relationship) => Inside(rel.memory, sel)
  }

  function EdgeShown(visible: set<string>): Edge -> bool {
    (edge: Edge) => edge.fromId in visible && edge.toId in visible
  }

  function NodeIds(nodes: seq<Memory>): set<string> {
    set i | 0 <= i < |nodes| :: nodes[i].id
  }

  function PartnerIds(rels: seq<Relationship>): set<string> {
    set i | 0 <= i < |rels| :: rels[i].memory.id
  }

  /** Lineage entries of the inspected memory itself. */
  function SelfCount(memoryId: string, nodes: seq<Memory>): nat {
    if nodes == [] then 0
    else SelfCount(memoryId, nodes[..|nodes| - 1]) + if nodes[|nodes| - 1].id == memoryId then 1 else 0
  }

  /** Successors are taken before predecessors. */
  function Relationships(h: History): seq<Relationship> {
    h.successors + h.predecessors
  }

  /** The memories the caller may show, as the passes collect them. */
  function Visible(memoryId: string, h: History, sel: Selector): set<string> {
    {memoryId} + NodeIds(Filter(NodeShown(memoryId, sel), h.nodes)) + PartnerIds(Filter(PartnerShown(sel), Relationships(h)))
  }

  ghost predicate IsRedaction(memoryId: string, h: History, sel: Selector, out: Redacted) {
    && out.lineageOK == h.lineageAvailable
    && out.events == h.events && out.eventsTruncated == h.eventsTruncated
    && out.lineageTruncated == h.lineageTruncated && out.relationshipsTruncated == h.relationshipsTruncated
    && out.lineage == Filter(NodeShown(memoryId, sel), h.nodes)
    && out.relationships == Filter(PartnerShown(sel), Relationships(h))
    && out.edges == Filter(EdgeShown(Visible(memoryId, h, sel)), h.edges)
    && |out.lineage| + out.hidden.nodes + SelfCount(memoryId, h.nodes) == |h.nodes|
    && |out.relationships| + out.hidden.relationships == |h.predecessors| + |h.successors|
    && |out.edges| + out.hidden.edges == |h.edges|
  }

  lemma FilterStep<T>(shown: T -> bool, s: seq<T>, i: nat)
    requires i < |s|
    ensures Filter(shown, s[..i + 1]) == Filter(shown, s[..i]) + if shown(s[i]) then [s[i]] else []
  {
    assert s[..i + 1][..i] == s[..i];
  }

  lemma SelfCountStep(memoryId: string, nodes: seq<Memory>, i: nat)
    requires i < |nodes|
    ensures SelfCount(memoryId, nodes[..i + 1]) == SelfCount(memoryId, nodes[..i]) + if nodes[i].id == memoryId then 1 else 0
  {
    assert nodes[..i + 1][..i] == nodes[..i];
  }

  lemma {:induction false} FilterConcat<T>(shown: T -> bool, a: seq<T>, b: seq<T>)
    ensures Filter(shown, a + b) == Filter(shown, a) + Filter(shown, b)
  {
    if b == [] {
      assert a + b == a;
    } else {
      FilterConcat(shown, a, b[..|b| - 1]);
      assert (a + b)[..|a + b| - 1] == a + b[..|b| - 1];
    }
  }

  lemma {:induction false} FilterMember<T>(shown: T -> bool, s: seq<T>, x: T)
    ensures x in Filter(shown, s) <==> x in s && shown(x)
  {
    if s != [] {
      FilterMember(shown, s[..|s| - 1], x);
      assert s == s[..|s| - 1] + [s[|s| - 1]];
    }
  }

  lemma PartnersConcat(a: seq<Relationship>, b: seq<Relationship>)
    ensures PartnerIds(a + b) == PartnerIds(a) + PartnerIds(b)
  {
    forall id ensures id in PartnerIds(a + b) <==> id in PartnerIds(a) + PartnerIds(b) {
      if id in PartnerIds(a) {
        var i :| 0 <= i < |a| && a[i].memory.id == id;
        assert (a + b)[i].memory.id == id;
      }
      if id in PartnerIds(b) {
        var i :| 0 <= i < |b| && b[i].memory.id == id;
        assert (a + b)[|a| + i].memory.id == id;
      }
    }
  }

  lemma OnePartner(rel: Relationship)
    ensures PartnerIds([rel]) == {rel.memory.id}
  {
    assert [rel][0].memory.id in PartnerIds([rel]);
  }

  lemma NodeIdsAppend(nodes: seq<Memory>, node: Memory)
    ensures NodeIds(nodes + [node]) == NodeIds(nodes) + {node.id}
  {
    var longer := nodes + [node];
    assert longer[|nodes|] == node;
    assert forall i | 0 <= i < |nodes| :: longer[i] == nodes[i];
  }

  method KeepNodes(memoryId: string, nodes: seq<Memory>, sel: Selector)
    returns (lineage: seq<Memory>, visible: set<string>, hidden: nat)
    ensures lineage == Filter(NodeShown(memoryId, sel), nodes)
    ensures visible == {memoryId} + NodeIds(lineage)
    ensures |lineage| + hidden + SelfCount(memoryId, nodes) == |nodes|
  {
    lineage, visible, hidden := [], {memoryId}, 0;
    for i := 0 to |nodes|
      invariant lineage == Filter(NodeShown(memoryId, sel), nodes[..i])
      invariant visible == {memoryId} + NodeIds(lineage)
      invariant |lineage| + hidden + SelfCount(memoryId, nodes[..i]) == i
    {
      FilterStep(NodeShown(memoryId, sel), nodes, i);
      SelfCountStep(memoryId, nodes, i);
      if nodes[i].id == memoryId { continue; }
      if MemoryInSelector(nodes[i].scope, nodes[i].project, sel).Some? {
        NodeIdsAppend(lineage, nodes[i]);
        visible := visible + {nodes[i].id};
        lineage := lineage + [nodes[i]];
      } else {
        hidden := hidden + 1;
      }
    }
    assert nodes[..|nodes|] == nodes;
  }

  /** One pass of `keepRelationship`, adding to what the passes before it kept. */
  method KeepRelationships(rels: seq<Relationship>, sel: Selector, kept: seq<Relationship>, seen: set<string>, before: nat)
    returns (relationships: seq<Relationship>, visible: set<string>, hidden: nat)
    ensures relationships == kept + Filter(PartnerShown(sel), rels)
    ensures visible == seen + PartnerIds(Filter(PartnerShown(sel), rels))
    ensures |relationships| + hidden == |kept| + before + |rels|
  {
    relationships, visible, hidden := kept, seen, before;
    for i := 0 to |rels|
      invariant relationships == kept + Filter(PartnerShown(sel), rels[..i])
      invariant visible == seen + PartnerIds(Filter(PartnerShown(sel), rels[..i]))
      invariant |relationships| + hidden == |kept| + before + i
    {
      ghost var shown := Filter(PartnerShown(sel), rels[..i]);
      FilterStep(PartnerShown(sel), rels, i);
      if MemoryInSelector(rels[i].memory.scope, rels[i].memory.project, sel).Some? {
        PartnersConcat(shown, [rels[i]]);
        OnePartner(rels[i]);
        visible := visible + {rels[i].memory.id};
        relationships := relationships + [rels[i]];
        assert Filter(PartnerShown(sel), rels[..i + 1]) == shown + [rels[i]];
      } else {
        assert Filter(PartnerShown(sel), rels[..i + 1]) == shown;
        hidden := hidden + 1;
      }
    }
    assert rels[..|rels|] == rels;
  }

  method KeepEdges(edges: seq<Edge>, visible: set<string>) returns (shown: seq<Edge>, hidden: nat)
    ensures shown == Filter(EdgeShown(visible), edges)
    ensures |shown| + hidden == |edges|
  {
    shown, hidden := [], 0;
    for i := 0 to |edges|
      invariant shown == Filter(EdgeShown(visible), edges[..i])
      invariant |shown| + hidden == i
    {
      FilterStep(EdgeShown(visible), edges, i);
      if edges[i].fromId in visible && edges[i].toId in visible {
        shown := shown + [edges[i]];
      } else {
        hidden := hidden + 1;
      }
    }
    assert edges[..|edges|] == edges;
  }

  lemma RelationshipsKept(h: History, sel: Selector)
    ensures var first, second := Filter(PartnerShown(sel), h.successors), Filter(PartnerShown(sel), h.predecessors);
            && Filter(PartnerShown(sel), Relationships(h)) == first + second
            && PartnerIds(first + second) == PartnerIds(first) + PartnerIds(second)
  {
    FilterConcat(PartnerShown(sel), h.successors, h.predecessors);
    PartnersConcat(Filter(PartnerShown(sel), h.successors), Filter(PartnerShown(sel), h.predecessors));
  }

  method RedactHistory(memoryId: string, h: History, sel: Selector) returns (out: Redacted, visible: set<string>)
    ensures IsRedaction(memoryId, h, sel, out)
    ensures visible == Visible(memoryId, h, sel)
  {
    var lineage, nodeIds, hiddenNodes := KeepNodes(memoryId, h.nodes, sel);
    var kept, soFar, hiddenSoFar := KeepRelationships(h.successors, sel, [], nodeIds, 0);
    var relationships, all, hiddenRelationships := KeepRelationships(h.predecessors, sel, kept, soFar, hiddenSoFar);
    RelationshipsKept(h, sel);
    visible := all;
    assert visible == Visible(memoryId, h, sel);
    var edges, hiddenEdges := KeepEdges(h.edges, visible);
    out := Redacted(h.lineageAvailable, h.events, h.eventsTruncated, lineage, edges, relationships,
                    h.lineageTruncated, h.relationshipsTruncated, Hidden(hiddenNodes, hiddenEdges, hiddenRelationships));
  }

  // ---- Who is visible ----

  /** The answer itself files the memory inside the selector, or it is the inspected one. */
  predicate FiledInside(memoryId: string, h: History, sel: Selector, id: string) {
    || id == memoryId
    || (exists m | m in h.nodes :: m.id == id && Inside(m, sel))
    || (exists r | r in h.successors + h.predecessors :: r.memory.id == id && Inside(r.memory, sel))
  }

  lemma VisibleIsFiled(memoryId: string, h: History, sel: Selector, id: string)
    ensures id in Visible(memoryId, h, sel) <==> FiledInside(memoryId, h, sel, id)
  {
    var nodes, rels := Filter(NodeShown(memoryId, sel), h.nodes), Filter(PartnerShown(sel), Relationships(h));
    if id in NodeIds(nodes) {
      var i :| 0 <= i < |nodes| && nodes[i].id == id;
      FilterMember(NodeShown(memoryId, sel), h.nodes, nodes[i]);
    }
    if id in PartnerIds(rels) {
      var i :| 0 <= i < |rels| && rels[i].memory.id == id;
      FilterMember(PartnerShown(sel), Relationships(h), rels[i]);
    }
    if m :| m in h.nodes && m.id == id && Inside(m, sel) && id != memoryId {
      FilterMember(NodeShown(memoryId, sel), h.nodes, m);
      var i := Members.IndexOf(nodes, m);
      assert nodes[i].id in NodeIds(nodes);
    }
    if r :| r in Relationships(h) && r.memory.id == id && Inside(r.memory, sel) {
      FilterMember(PartnerShown(sel), Relationships(h), r);
      var i := Members.IndexOf(rels, r);
      assert rels[i].memory.id in PartnerIds(rels);
    }
  }

  /**
   Inside the selector: in its project, for one that names a scope in that scope too; or filed under
   no project in that scope, when the selector asks for these. A project the answer leaves out is in no selector.
   */
  lemma InsideMeans(m: Memory, sel: Selector)
    ensures Inside(m, sel)
       <==> match sel
            case ProjectKind(p) => m.project == Given(p)
            case ScopeProjectKind(s, p, includeUnscoped) =>
              m.scope == s && (m.project == Given(p) || (m.project == Null && includeUnscoped == Some(true)))
            case OtherKind => false
    ensures MemoryInSelector(m.scope, m.project, sel) == Some(Unscoped) <==> Inside(m, sel) && m.project == Null
  {
  }

  /** What is shown is what the answer has inside the selector, but for the inspected memory among the nodes. */
  lemma ShownIsInside(memoryId: string, h: History, sel: Selector, out: Redacted, m: Memory, r: Relationship)
    requires IsRedaction(memoryId, h, sel, out)
    ensures m in out.lineage <==> m in h.nodes && m.id != memoryId && Inside(m, sel)
    ensures r in out.relationships <==> (r in h.successors || r in h.predecessors) && Inside(r.memory, sel)
  {
    FilterMember(NodeShown(memoryId, sel), h.nodes, m);
    FilterMember(PartnerShown(sel), Relationships(h), r);
  }

  lemma {:induction false} FilterAll<T>(shown: T -> bool, s: seq<T>)
    requires forall x | x in s :: shown(x)
    ensures Filter(shown, s) == s
  {
    if s != [] {
      FilterAll(shown, s[..|s| - 1]);
      assert s[|s| - 1] in s;
    }
  }

  lemma {:induction false} NoSelf(memoryId: string, nodes: seq<Memory>)
    requires forall m | m in nodes :: m.id != memoryId
    ensures SelfCount(memoryId, nodes) == 0
  {
    if nodes != [] {
      NoSelf(memoryId, nodes[..|nodes| - 1]);
      assert nodes[|nodes| - 1] in nodes;
    }
  }

  lemma AllNodesShown(memoryId: string, h: History, sel: Selector)
    requires forall m | m in h.nodes :: m.id != memoryId && Inside(m, sel)
    ensures Filter(NodeShown(memoryId, sel), h.nodes) == h.nodes
  {
    FilterAll(NodeShown(memoryId, sel), h.nodes);
  }

  lemma AllPartnersShown(h: History, sel: Selector)
    requires forall r | r in h.successors + h.predecessors :: Inside(r.memory, sel)
    ensures Filter(PartnerShown(sel), Relationships(h)) == h.successors + h.predecessors
  {
    FilterAll(PartnerShown(sel), Relationships(h));
  }

  lemma AllEdgesShown(memoryId: string, h: History, sel: Selector)
    requires forall e | e in h.edges :: FiledInside(memoryId, h, sel, e.fromId) && FiledInside(memoryId, h, sel, e.toId)
    ensures Filter(EdgeShown(Visible(memoryId, h, sel)), h.edges) == h.edges
  {
    forall e | e in h.edges ensures EdgeShown(Visible(memoryId, h, sel))(e) {
      VisibleIsFiled(memoryId, h, sel, e.fromId);
      VisibleIsFiled(memoryId, h, sel, e.toId);
    }
    FilterAll(EdgeShown(Visible(memoryId, h, sel)), h.edges);
  }

  /** Every node, partner and edge end of the answer is filed inside, and the inspected memory is no node. */
  ghost predicate AllInside(memoryId: string, h: History, sel: Selector) {
    && (forall m | m in h.nodes :: m.id != memoryId && Inside(m, sel))
    && (forall r | r in h.successors + h.predecessors :: Inside(r.memory, sel))
    && forall e | e in h.edges :: FiledInside(memoryId, h, sel, e.fromId) && FiledInside(memoryId, h, sel, e.toId)
  }

  lemma AllShown(memoryId: string, h: History, sel: Selector)
    requires AllInside(memoryId, h, sel)
    ensures Filter(NodeShown(memoryId, sel), h.nodes) == h.nodes && SelfCount(memoryId, h.nodes) == 0
    ensures Filter(PartnerShown(sel), Relationships(h)) == h.successors + h.predecessors
    ensures Filter(EdgeShown(Visible(memoryId, h, sel)), h.edges) == h.edges
  {
    NoSelf(memoryId, h.nodes);
    AllNodesShown(memoryId, h, sel);
    AllPartnersShown(h, sel);
    AllEdgesShown(memoryId, h, sel);
  }

  /** The output that shows all of an answer. */
  function Whole(h: History): Redacted {
    Redacted(
      lineageOK := h.lineageAvailable, events := h.events, eventsTruncated := h.eventsTruncated,
      lineage := h.nodes, edges := h.edges, relationships := h.successors + h.predecessors,
      lineageTruncated := h.lineageTruncated, relationshipsTruncated := h.relationshipsTruncated,
      hidden := Hidden(nodes := 0, edges := 0, relationships := 0))
  }

  lemma ShowsAll(memoryId: string, h: History, sel: Selector, out: Redacted)
    requires IsRedaction(memoryId, h, sel, out)
    requires Filter(NodeShown(memoryId, sel), h.nodes) == h.nodes && SelfCount(memoryId, h.nodes) == 0
    requires Filter(PartnerShown(sel), Relationships(h)) == h.successors + h.predecessors
    requires Filter(EdgeShown(Visible(memoryId, h, sel)), h.edges) == h.edges
    ensures out == Whole(h)
  {
  }

  /** An answer all inside the selector is shown as it came, successors first, and nothing is counted hidden. */
  lemma NothingToHide(memoryId: string, h: History, sel: Selector, out: Redacted)
    requires IsRedaction(memoryId, h, sel, out) && AllInside(memoryId, h, sel)
    ensures out == Whole(h)
  {
    AllShown(memoryId, h, sel);
    ShowsAll(memoryId, h, sel, out);
  }

  /** Every memory named by a shown lineage edge is the inspected one, or filed inside the selector by the answer. */
  lemma ShownEdgesNameVisible(memoryId: string, h: History, sel: Selector, out: Redacted, e: Edge)
    requires IsRedaction(memoryId, h, sel, out)
    ensures e in out.edges
       <==> e in h.edges && FiledInside(memoryId, h, sel, e.fromId) && FiledInside(memoryId, h, sel, e.toId)
  {
    FilterMember(EdgeShown(Visible(memoryId, h, sel)), h.edges, e);
    VisibleIsFiled(memoryId, h, sel, e.fromId);
    VisibleIsFiled(memoryId, h, sel, e.toId);
  }

  // ---- What the output depends on ----

  /**
   The two lists can be walked side by side so that every element is either the same in both or one
   that is not to be shown: elements not to be shown may be put in, left out or altered anywhere.
   */
  ghost predicate SameButHidden<T(!new)>(shown: T -> bool, a: seq<T>, b: seq<T>)
    decreases |a| + |b|
  {
    || (a == [] && b == [])
    || (a != [] && !shown(a[|a| - 1]) && SameButHidden(shown, a[..|a| - 1], b))
    || (b != [] && !shown(b[|b| - 1]) && SameButHidden(shown, a, b[..|b| - 1]))
    || (a != [] && b != [] && a[|a| - 1] == b[|b| - 1] && SameButHidden(shown, a[..|a| - 1], b[..|b| - 1]))
  }

  lemma {:induction false} SameGivesFilter<T(!new)>(shown: T -> bool, a: seq<T>, b: seq<T>)
    requires SameButHidden(shown, a, b)
    ensures Filter(shown, a) == Filter(shown, b)
    decreases |a| + |b|
  {
    if a != [] && !shown(a[|a| - 1]) && SameButHidden(shown, a[..|a| - 1], b) {
      SameGivesFilter(shown, a[..|a| - 1], b);
    } else if b != [] && !shown(b[|b| - 1]) && SameButHidden(shown, a, b[..|b| - 1]) {
      SameGivesFilter(shown, a, b[..|b| - 1]);
    } else if a != [] {
      SameGivesFilter(shown, a[..|a| - 1], b[..|b| - 1]);
    }
  }

  lemma SameLast<T>(a: seq<T>, x: T, b: seq<T>, y: T)
    requires a + [x] == b + [y]
    ensures a == b && x == y
  {
    assert (a + [x])[..|a|] == a && (b + [y])[..|b|] == b;
    assert (a + [x])[|a|] == x && (b + [y])[|b|] == y;
  }

  lemma {:induction false} FilterGivesSame<T(!new)>(shown: T -> bool, a: seq<T>, b: seq<T>)
    requires Filter(shown, a) == Filter(shown, b)
    ensures SameButHidden(shown, a, b)
    decreases |a| + |b|
  {
    if a != [] && !shown(a[|a| - 1]) {
      FilterGivesSame(shown, a[..|a| - 1], b);
    } else if b != [] && !shown(b[|b| - 1]) {
      FilterGivesSame(shown, a, b[..|b| - 1]);
    } else if a != [] && b != [] {
      SameLast(Filter(shown, a[..|a| - 1]), a[|a| - 1], Filter(shown, b[..|b| - 1]), b[|b| - 1]);
      FilterGivesSame(shown, a[..|a| - 1], b[..|b| - 1]);
    }
  }

  lemma SameFilter<T(!new)>(shown: T -> bool, a: seq<T>, b: seq<T>)
    ensures SameButHidden(shown, a, b) <==> Filter(shown, a) == Filter(shown, b)
  {
    if SameButHidden(shown, a, b) { SameGivesFilter(shown, a, b); }
    if Filter(shown, a) == Filter(shown, b) { FilterGivesSame(shown, a, b); }
  }

  /** An edge with both ends filed inside the selector by the answer, or ends at the inspected memory. */
  function EdgeInside(memoryId: string, h: History, sel: Selector): Edge -> bool {
    (e: Edge) => FiledInside(memoryId, h, sel, e.fromId) && FiledInside(memoryId, h, sel, e.toId)
  }

  /**
   The second answer is the first with any number of nodes and relationships outside the selector,
   entries of the inspected memory, and edges with an end the answer files nowhere inside, put in,
   left out or altered anywhere.
   */
  ghost predicate SameButOutside(memoryId: string, h: History, h': History, sel: Selector) {
    && h.lineageAvailable == h'.lineageAvailable
    && h.events == h'.events && h.eventsTruncated == h'.eventsTruncated
    && h.lineageTruncated == h'.lineageTruncated && h.relationshipsTruncated == h'.relationshipsTruncated
    && SameButHidden(NodeShown(memoryId, sel), h.nodes, h'.nodes)
    && SameButHidden(PartnerShown(sel), h.successors + h.predecessors, h'.successors + h'.predecessors)
    && SameButHidden(EdgeInside(memoryId, h, sel), h.edges, h'.edges)
  }

  lemma FiltersAgree(p: Edge -> bool, q: Edge -> bool, s: seq<Edge>)
    requires forall e :: p(e) == q(e)
    ensures Filter(p, s) == Filter(q, s)
  {
    if s != [] { FiltersAgree(p, q, s[..|s| - 1]); }
  }

  lemma EdgesShown(memoryId: string, h: History, sel: Selector, edges: seq<Edge>)
    ensures Filter(EdgeShown(Visible(memoryId, h, sel)), edges) == Filter(EdgeInside(memoryId, h, sel), edges)
  {
    forall e: Edge ensures EdgeShown(Visible(memoryId, h, sel))(e) == EdgeInside(memoryId, h, sel)(e) {
      VisibleIsFiled(memoryId, h, sel, e.fromId);
      VisibleIsFiled(memoryId, h, sel, e.toId);
    }
    FiltersAgree(EdgeShown(Visible(memoryId, h, sel)), EdgeInside(memoryId, h, sel), edges);
  }

  /** What lies outside the selector does not change who is visible. */
  lemma SameVisible(memoryId: string, h: History, h': History, sel: Selector)
    requires SameButHidden(NodeShown(memoryId, sel), h.nodes, h'.nodes)
    requires SameButHidden(PartnerShown(sel), h.successors + h.predecessors, h'.successors + h'.predecessors)
    ensures Visible(memoryId, h, sel) == Visible(memoryId, h', sel)
  {
    SameFilter(NodeShown(memoryId, sel), h.nodes, h'.nodes);
    SameFilter(PartnerShown(sel), Relationships(h), Relationships(h'));
  }

  /**
   Whatever is done outside the selector, the output stays the same apart from the counts; and two
   answers that give the same output apart from the counts differ only outside the selector.
   */
  lemma OutputIsInsideOnly(memoryId: string, h: History, h': History, sel: Selector, out: Redacted, out': Redacted)
    requires IsRedaction(memoryId, h, sel, out) && IsRedaction(memoryId, h', sel, out')
    ensures SameButOutside(memoryId, h, h', sel) <==> out'.(hidden := out.hidden) == out
  {
    SameFilter(NodeShown(memoryId, sel), h.nodes, h'.nodes);
    SameFilter(PartnerShown(sel), Relationships(h), Relationships(h'));
    SameFilter(EdgeInside(memoryId, h, sel), h.edges, h'.edges);
    EdgesShown(memoryId, h, sel, h.edges);
    EdgesShown(memoryId, h, sel, h'.edges);
  }

  /** And the counts change by exactly what was put in or left out outside the selector. */
  lemma OutsideChangesOnlyCounts(memoryId: string, h: History, h': History, sel: Selector, out: Redacted, out': Redacted)
    requires IsRedaction(memoryId, h, sel, out) && IsRedaction(memoryId, h', sel, out')
    requires SameButOutside(memoryId, h, h', sel)
    ensures out'.(hidden := out.hidden) == out
    ensures out'.hidden.nodes - out.hidden.nodes
         == (|h'.nodes| - SelfCount(memoryId, h'.nodes)) - (|h.nodes| - SelfCount(memoryId, h.nodes))
    ensures out'.hidden.relationships - out.hidden.relationships
         == (|h'.successors| + |h'.predecessors|) - (|h.successors| + |h.predecessors|)
    ensures out'.hidden.edges - out.hidden.edges == |h'.edges| - |h.edges|
  {
    OutputIsInsideOnly(memoryId, h, h', sel, out, out');
  }
}
