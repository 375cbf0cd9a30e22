/** Graph integrity: the strict check, which reports the first kind of
    problem it meets, and the repair step, which drops every relationship
    that is dangling or breaks the node-type constraint of its relation. */
module Validator {
  import opened Outcomes
  import opened Seqs
  import opened Schema

  // ---------------------------------------------------------------------
  // Strict validation

  lemma NodeIdSetAppend(nodes: seq<Node>, n: Node)
    ensures NodeIdSet(nodes + [n]) == NodeIdSet(nodes) + {n.id}
  {
    assert forall i :: 0 <= i < |nodes| ==> (nodes + [n])[i] == nodes[i];
    assert (nodes + [n])[|nodes|] == n;
  }

  lemma NodeIdSetAppendCard(nodes: seq<Node>, n: Node)
    ensures |NodeIdSet(nodes + [n])| == |NodeIdSet(nodes)| + (if n.id in NodeIdSet(nodes) then 0 else 1)
  {
    NodeIdSetAppend(nodes, n);
    var seen := NodeIdSet(nodes);
    if n.id in seen {
      assert seen + {n.id} == seen;
    } else {
      assert |seen + {n.id}| == |seen| + 1;
    }
  }

  /** Each id met again after its first occurrence, in node order (an id
      used three times is listed twice). */
  function DuplicateIds(nodes: seq<Node>): (r: seq<string>)
    // one entry per node beyond the first of each id
    ensures forall x :: x in r <==>
              exists i, j :: 0 <= i < j < |nodes| && nodes[i].id == x && nodes[j].id == x
  {
    if |nodes| == 0 then []
    else
      var init, last := nodes[..|nodes| - 1], nodes[|nodes| - 1];
      assert nodes == init + [last];
      NodeIdSetAppend(init, last);
      var seen := NodeIdSet(init);
      var r := DuplicateIds(init) + (if last.id in seen then [last.id] else []);
      forall x | x in r
        ensures exists i, j :: 0 <= i < j < |nodes| && nodes[i].id == x && nodes[j].id == x
      {
        if x in DuplicateIds(init) {
          var i, j :| 0 <= i < j < |init| && init[i].id == x && init[j].id == x;
          assert nodes[i] == init[i] && nodes[j] == init[j];
        } else {
          var i :| 0 <= i < |init| && init[i].id == x;
          assert nodes[i] == init[i];
        }
      }
      forall x | exists i, j :: 0 <= i < j < |nodes| && nodes[i].id == x && nodes[j].id == x
        ensures x in r
      {
        var i, j :| 0 <= i < j < |nodes| && nodes[i].id == x && nodes[j].id == x;
        if j < |init| {
          assert init[i] == nodes[i] && init[j] == nodes[j];
        } else {
          assert init[i] == nodes[i];
        }
      }
      r
  }

  /** One entry per node beyond the first of each id. */
  lemma {:induction false} DuplicateIdsCount(nodes: seq<Node>)
    ensures |DuplicateIds(nodes)| == |nodes| - |NodeIdSet(nodes)|
  {
    if |nodes| > 0 {
      var init, last := nodes[..|nodes| - 1], nodes[|nodes| - 1];
      assert nodes == init + [last];
      DuplicateIdsCount(init);
      NodeIdSetAppendCard(init, last);
    }
  }

  lemma DuplicateIdsEmptyIff(nodes: seq<Node>)
    ensures DuplicateIds(nodes) == [] <==> UniqueIds(nodes)
  {
    if DuplicateIds(nodes) != [] {
      assert DuplicateIds(nodes)[0] in DuplicateIds(nodes);
    }
  }

  /** `r` lists exactly the dangling endpoints of `rels`: every entry is
      an endpoint of some relationship and missing from `ids`, and every
      missing endpoint is listed. */
  predicate ListsDangling(ids: set<string>, rels: seq<Relationship>, r: seq<DanglingEnd>) {
    (forall e :: e in r ==> e.id !in ids)
    && (forall k :: 0 <= k < |rels| && rels[k].source !in ids ==> DanglingSource(rels[k].source) in r)
    && (forall k :: 0 <= k < |rels| && rels[k].target !in ids ==> DanglingTarget(rels[k].target) in r)
    && (forall e :: e in r ==>
          exists k :: 0 <= k < |rels| && (e == DanglingSource(rels[k].source) || e == DanglingTarget(rels[k].target)))
  }

  /** The endpoints of one relationship that are missing from `ids`. */
  function MissingEnds(ids: set<string>, rel: Relationship): seq<DanglingEnd> {
    (if rel.source !in ids then [DanglingSource(rel.source)] else [])
    + (if rel.target !in ids then [DanglingTarget(rel.target)] else [])
  }

  function SourceMissing(ids: set<string>): Relationship -> bool {
    (rel: Relationship) => rel.source !in ids
  }

  function TargetMissing(ids: set<string>): Relationship -> bool {
    (rel: Relationship) => rel.target !in ids
  }

  /** For each relationship its source, then its target, when missing. */
  function DanglingList(ids: set<string>, rels: seq<Relationship>): seq<DanglingEnd> {
    if |rels| == 0 then []
    else DanglingList(ids, rels[..|rels| - 1]) + MissingEnds(ids, rels[|rels| - 1])
  }

  lemma {:induction false} DanglingListLists(ids: set<string>, rels: seq<Relationship>)
    ensures ListsDangling(ids, rels, DanglingList(ids, rels))
    ensures |DanglingList(ids, rels)| == |Filter(rels, SourceMissing(ids))| + |Filter(rels, TargetMissing(ids))|
  {
    if |rels| > 0 {
      var init := rels[..|rels| - 1];
      DanglingListLists(ids, init);
      DanglingStep(ids, rels, DanglingList(ids, init));
    }
  }

  /** The dangling endpoints of `rels` with respect to `ids`. */
  function DanglingEnds(ids: set<string>, rels: seq<Relationship>): (r: seq<DanglingEnd>)
    ensures ListsDangling(ids, rels, r)
    // one entry per missing endpoint, repeats included
    ensures |r| == |Filter(rels, SourceMissing(ids))| + |Filter(rels, TargetMissing(ids))|
  {
    DanglingListLists(ids, rels);
    DanglingList(ids, rels)
  }

  /** The entries follow relationship order: the list for a concatenation
      is the list for the first part followed by the list for the second. */
  lemma DanglingEndsInOrder(ids: set<string>, a: seq<Relationship>, b: seq<Relationship>)
    ensures DanglingEnds(ids, a + b) == DanglingEnds(ids, a) + DanglingEnds(ids, b)
  {
    DanglingListConcat(ids, a, b);
  }

  lemma {:induction false} DanglingListConcat(ids: set<string>, a: seq<Relationship>, b: seq<Relationship>)
    ensures DanglingList(ids, a + b) == DanglingList(ids, a) + DanglingList(ids, b)
    decreases |b|
  {
    if |b| == 0 {
      assert a + b == a;
    } else {
      var init := b[..|b| - 1];
      var ab := a + b;
      DanglingListConcat(ids, a, init);
      assert ab[..|ab| - 1] == a + init;
      assert ab[|ab| - 1] == b[|b| - 1];
    }
  }

  /** One relationship contributes its missing source, then its missing
      target. */
  lemma DanglingEndsOne(ids: set<string>, rel: Relationship)
    ensures DanglingEnds(ids, [rel]) == MissingEnds(ids, rel)
  {
    assert [rel][..0] == [];
  }

  lemma DanglingStep(ids: set<string>, rels: seq<Relationship>, prev: seq<DanglingEnd>)
    requires |rels| > 0 && ListsDangling(ids, rels[..|rels| - 1], prev)
    ensures ListsDangling(ids, rels, prev + MissingEnds(ids, rels[|rels| - 1]))
  {
    var init, rel := rels[..|rels| - 1], rels[|rels| - 1];
    var r := prev + MissingEnds(ids, rel);
    assert forall k :: 0 <= k < |init| ==> rels[k] == init[k];
    forall e | e in r
      ensures exists k :: 0 <= k < |rels| && (e == DanglingSource(rels[k].source) || e == DanglingTarget(rels[k].target))
    {
      if e !in prev {
        assert e == DanglingSource(rels[|rels| - 1].source) || e == DanglingTarget(rels[|rels| - 1].target);
      }
    }
  }

  function DanglingReferences(g: Graph): (r: seq<DanglingEnd>)
    ensures r == [] <==> ReferencesResolve(g)
  {
    var ids := NodeIdSet(g.nodes);
    var r := DanglingEnds(ids, g.relationships);
    if r == [] then
      assert forall k :: 0 <= k < |g.relationships| ==> Resolves(g.relationships[k], g.nodes);
      r
    else
      var e := r[0];
      assert e in r;
      var k :| 0 <= k < |g.relationships|
               && (e == DanglingSource(g.relationships[k].source) || e == DanglingTarget(g.relationships[k].target));
      assert !Resolves(g.relationships[k], g.nodes);
      r
  }

  /** `validate_knowledge_graph`: no nodes, then duplicate ids, then
      dangling references; the first failing check is reported. */
  function StrictValidate(g: Graph): (r: Outcome)
    ensures r == Pass <==> |g.nodes| > 0 && UniqueIds(g.nodes) && ReferencesResolve(g)
    ensures |g.nodes| == 0 ==> r == Fail(EmptyGraph)
    ensures |g.nodes| > 0 && !UniqueIds(g.nodes) ==>
              r.Fail? && r.error.DuplicateNodeIds? && r.error.ids == DuplicateIds(g.nodes)
    ensures |g.nodes| > 0 && UniqueIds(g.nodes) && !ReferencesResolve(g) ==>
              r.Fail? && r.error.InvalidReferences? && r.error.refs == DanglingReferences(g)
  {
    DuplicateIdsEmptyIff(g.nodes);
    if |g.nodes| == 0 then Fail(EmptyGraph)
    else
      var dups := DuplicateIds(g.nodes);
      if dups != [] then Fail(DuplicateNodeIds(dups))
      else
        var dangling := DanglingReferences(g);
        if dangling != [] then Fail(InvalidReferences(dangling))
        else Pass
  }

  // ---------------------------------------------------------------------
  // Repair

  /** No node after position `i` has the id of the node at `i`. */
  predicate LastWithId(nodes: seq<Node>, i: nat)
    requires i < |nodes|
  {
    forall j :: i < j < |nodes| ==> nodes[j].id != nodes[i].id
  }

  /** Every entry of `m` is the last node of `nodes` with its id. */
  predicate MapsToLast(m: map<string, Node>, nodes: seq<Node>) {
    forall id :: id in m ==>
      exists i :: 0 <= i < |nodes| && nodes[i] == m[id] && nodes[i].id == id && LastWithId(nodes, i)
  }

  /** `{node.id: node for node in nodes}`: a later node with the same id
      replaces an earlier one. */
  function NodeMap(nodes: seq<Node>): (m: map<string, Node>)
    ensures m.Keys == NodeIdSet(nodes)
    ensures MapsToLast(m, nodes)
  {
    if |nodes| == 0 then map[]
    else
      var m := NodeMap(nodes[..|nodes| - 1]);
      NodeMapStep(nodes, m);
      m[nodes[|nodes| - 1].id := nodes[|nodes| - 1]]
  }

  /** Adding the last node to the map of the others. */
  lemma NodeMapStep(nodes: seq<Node>, m: map<string, Node>)
    requires |nodes| > 0
    requires m.Keys == NodeIdSet(nodes[..|nodes| - 1]) && MapsToLast(m, nodes[..|nodes| - 1])
    ensures m[nodes[|nodes| - 1].id := nodes[|nodes| - 1]].Keys == NodeIdSet(nodes)
    ensures MapsToLast(m[nodes[|nodes| - 1].id := nodes[|nodes| - 1]], nodes)
  {
    var init, last := nodes[..|nodes| - 1], nodes[|nodes| - 1];
    assert nodes == init + [last];
    NodeIdSetAppend(init, last);
    var m' := m[last.id := last];
    forall id | id in m'
      ensures exists i :: 0 <= i < |nodes| && nodes[i] == m'[id] && nodes[i].id == id && LastWithId(nodes, i)
    {
      if id != last.id {
        var i :| 0 <= i < |init| && init[i] == m[id] && init[i].id == id && LastWithId(init, i);
        assert nodes[i] == init[i];
        forall j | i < j < |nodes|
          ensures nodes[j].id != nodes[i].id
        {
          if j < |init| {
            assert nodes[j] == init[j];
          }
        }
        assert LastWithId(nodes, i);
      } else {
        assert LastWithId(nodes, |nodes| - 1);
      }
    }
  }

  /** The node-type constraint of a relation: `HAS_RISK` needs a risk
      factor target, `REPORTS_AMOUNT` a dollar amount target, `OWNS` two
      companies; any other relation is unconstrained. */
  predicate RelationAllowed(rel: Relation, source: NodeType, target: NodeType) {
    match rel
    case HasRisk => target == RiskFactor
    case ReportsAmount => target == DollarAmount
    case Owns => source == Company && target == Company
    case Other(_) => true
  }

  /** Whether the repair step keeps `r`, given the node map. */
  predicate Keeps(m: map<string, Node>, r: Relationship) {
    r.source in m && r.target in m && RelationAllowed(r.relation, m[r.source].ntype, m[r.target].ntype)
  }

  datatype Scan = Scan(kept: seq<Relationship>, removed: nat)

  /** The repair loop: kept relationships in order, and the removal count. */
  function RepairScan(m: map<string, Node>, rels: seq<Relationship>): (s: Scan)
    ensures s.kept == Filter(rels, r => Keeps(m, r))
    ensures s.removed + |s.kept| == |rels|
  {
    if |rels| == 0 then Scan([], 0)
    else
      var prev := RepairScan(m, rels[..|rels| - 1]);
      var rel := rels[|rels| - 1];
      if Keeps(m, rel) then Scan(prev.kept + [rel], prev.removed)
      else Scan(prev.kept, prev.removed + 1)
  }

  datatype Repaired = Repaired(graph: Graph, removed: nat)

  /** `validate_and_repair_graph`. */
  function Repair(g: Graph): (r: Result<Repaired>)
    ensures r.Err? <==> |g.nodes| == 0
    ensures r.Err? ==> r.error == EmptyGraph
    ensures r.Ok? ==> r.value.graph.schemaVersion == g.schemaVersion && r.value.graph.nodes == g.nodes
    // every kept relationship resolves and meets its type constraint
    ensures r.Ok? ==> forall rel :: rel in r.value.graph.relationships ==>
              Resolves(rel, g.nodes) && Keeps(NodeMap(g.nodes), rel)
    // and every relationship that does is kept
    ensures r.Ok? ==> forall rel :: rel in g.relationships && Keeps(NodeMap(g.nodes), rel) ==>
              rel in r.value.graph.relationships
    ensures r.Ok? ==> r.value.removed == |g.relationships| - |r.value.graph.relationships|
    // exactly the kept relationships, in order and with their repeats
    ensures r.Ok? ==> r.value.graph.relationships == Filter(g.relationships, rel => Keeps(NodeMap(g.nodes), rel))
  {
    if |g.nodes| == 0 then Err(EmptyGraph)
    else
      var scan := RepairScan(NodeMap(g.nodes), g.relationships);
      Ok(Repaired(Graph(g.schemaVersion, g.nodes, scan.kept), scan.removed))
  }

  /** Repair only drops relationships; the rest keep their order. */
  lemma RepairIsSubsequence(g: Graph)
    requires |g.nodes| > 0
    ensures IsSubsequence(Repair(g).value.graph.relationships, g.relationships)
  {
    FilterIsSubsequence(g.relationships, r => Keeps(NodeMap(g.nodes), r));
  }

  /** Repairing a repaired graph changes nothing and removes nothing. */
  lemma RepairIdempotent(g: Graph)
    requires |g.nodes| > 0
    ensures Repair(Repair(g).value.graph) == Ok(Repaired(Repair(g).value.graph, 0))
  {
    var h := Repair(g).value.graph;
    var p := (r: Relationship) => Keeps(NodeMap(g.nodes), r);
    assert forall i :: 0 <= i < |h.relationships| ==> p(h.relationships[i]);
    FilterKeepsAll(h.relationships, p);
  }

  /** With unique ids, the repaired graph passes the strict check. */
  lemma RepairedPassesStrict(g: Graph)
    requires |g.nodes| > 0 && UniqueIds(g.nodes)
    ensures StrictValidate(Repair(g).value.graph) == Pass
  {
  }
}
