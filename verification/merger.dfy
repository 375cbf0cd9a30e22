/** Merging the graphs extracted from consecutive chunks into one graph.

  With two or more inputs the merge is a two-pass canonicalisation:
  1. every node, graph by graph and top to bottom, is looked up by its
     `(type, name)` key; an unseen key gets a fresh per-type id such as
     `company_3`, and `(graph index, old id)` is mapped to the canonical id;
  2. every relationship has its endpoints rewritten through that map
     (ids the map does not know pass through unchanged) and is kept only if
     its `(source, target, relation)` was not kept before.
  The nested loops of the source are folds over the flattened, graph-tagged
  node and relationship lists. */
module Merger {
  import opened Outcomes
  import opened Text
  import opened Seqs
  import opened Schema

  // ---------------------------------------------------------------------
  // Canonical ids

  function TypePrefix(t: NodeType): string {
    match t
    case Company => "company"
    case RiskFactor => "risk"
    case DollarAmount => "amount"
  }

  /** `f"{prefix}_{k}"` */
  function CanonicalId(t: NodeType, k: nat): string {
    TypePrefix(t) + "_" + NatToString(k)
  }

  /** The first underscore of a canonical id ends its type prefix. */
  lemma UnderscoreEndsPrefix(t: NodeType, k: nat)
    ensures Find(CanonicalId(t, k), "_") == |TypePrefix(t)|
  {
    var s := CanonicalId(t, k);
    var p := TypePrefix(t);
    assert s[|p|..|p| + 1] == "_";
    assert OccursAt(s, "_", |p|);
    forall j | 0 <= j < |p|
      ensures !OccursAt(s, "_", j)
    {
      assert s[j] == p[j];
      assert s[j..j + 1] == [p[j]];
    }
  }

  /** Distinct (type, counter) pairs give distinct ids. */
  lemma CanonicalIdInjective(t1: NodeType, k1: nat, t2: NodeType, k2: nat)
    ensures CanonicalId(t1, k1) == CanonicalId(t2, k2) <==> t1 == t2 && k1 == k2
  {
    UnderscoreEndsPrefix(t1, k1);
    UnderscoreEndsPrefix(t2, k2);
    NatToStringInjective(k1, k2);
    var n := |TypePrefix(t1)|;
    assert CanonicalId(t1, k1)[n + 1..] == NatToString(k1);
    if t1 == t2 {
      assert CanonicalId(t2, k2)[n + 1..] == NatToString(k2);
    }
  }

  // ---------------------------------------------------------------------
  // Flattening the inputs

  function Tag<T>(g: nat, xs: seq<T>): (r: seq<(nat, T)>)
    ensures |r| == |xs|
    ensures forall i :: 0 <= i < |xs| ==> r[i] == (g, xs[i])
  {
    seq(|xs|, i requires 0 <= i < |xs| => (g, xs[i]))
  }

  /** The items of every graph, graph by graph, each tagged with the index
      of its graph: the iteration order of the source's nested loops. */
  function TaggedItems<T>(graphs: seq<Graph>, part: Graph -> seq<T>): (r: seq<(nat, T)>)
    ensures forall j :: 0 <= j < |r| ==> r[j].0 < |graphs| && r[j].1 in part(graphs[r[j].0])
    ensures forall g, x :: 0 <= g < |graphs| && x in part(graphs[g]) ==> (g, x) in r
  {
    if |graphs| == 0 then []
    else
      var init := graphs[..|graphs| - 1];
      var g := |graphs| - 1;
      var r := TaggedItems(init, part) + Tag(g, part(graphs[g]));
      assert forall x :: x in part(graphs[g]) ==> (g, x) in Tag(g, part(graphs[g]));
      r
  }

  function AllNodes(graphs: seq<Graph>): seq<(nat, Node)> {
    TaggedItems(graphs, (g: Graph) => g.nodes)
  }

  function AllRelationships(graphs: seq<Graph>): seq<(nat, Relationship)> {
    TaggedItems(graphs, (g: Graph) => g.relationships)
  }

  function ItemKeys(items: seq<(nat, Node)>): (r: seq<NodeKey>)
    ensures |r| == |items|
    ensures forall i :: 0 <= i < |items| ==> r[i] == KeyOf(items[i].1)
  {
    seq(|items|, i requires 0 <= i < |items| => KeyOf(items[i].1))
  }

  // ---------------------------------------------------------------------
  // Pass 1: nodes

  /** Number of nodes of type `t` in `nodes`. */
  function TypeCount(nodes: seq<Node>, t: NodeType): nat {
    if |nodes| == 0 then 0
    else TypeCount(nodes[..|nodes| - 1], t) + (if nodes[|nodes| - 1].ntype == t then 1 else 0)
  }

  /** How many nodes of its type `nodes[..i + 1]` holds: the counter value
      the node at `i` was created with. */
  function Rank(nodes: seq<Node>, i: nat): nat
    requires i < |nodes|
  {
    TypeCount(nodes[..i], nodes[i].ntype) + 1
  }

  /** `type_counters.get(t, 0)` */
  function Counter(counters: map<NodeType, nat>, t: NodeType): nat {
    if t in counters then counters[t] else 0
  }

  datatype NodePass = NodePass(
    keyToId: map<NodeKey, string>,
    nodes: seq<Node>,
    idMap: map<(nat, string), string>,
    counters: map<NodeType, nat>)

  const InitialNodePass: NodePass :=
    NodePass(map[], [], map[], map[Company := 0, RiskFactor := 0, DollarAmount := 0])

  /** One iteration of the first pass. */
  function VisitNode(st: NodePass, item: (nat, Node)): NodePass {
    var (g, n) := item;
    var key := KeyOf(n);
    if key in st.keyToId then
      st.(idMap := st.idMap[(g, n.id) := st.keyToId[key]])
    else
      var count := Counter(st.counters, n.ntype) + 1;
      var newId := CanonicalId(n.ntype, count);
      NodePass(
        st.keyToId[key := newId],
        st.nodes + [Node(newId, n.ntype, n.name, None)],
        st.idMap[(g, n.id) := newId],
        st.counters[n.ntype := count])
  }

  /** The key of the last item tagged `p.0` whose node id is `p.1`: the
      node whose mapping a later assignment to the same dictionary key
      leaves in place. */
  function LastKeyFor(items: seq<(nat, Node)>, p: (nat, string)): (r: Option<NodeKey>)
    ensures r.Some? ==> r.value in ItemKeys(items)
  {
    if |items| == 0 then None
    else
      var last := items[|items| - 1];
      if (last.0, last.1.id) == p then Some(KeyOf(last.1))
      else
        var r := LastKeyFor(items[..|items| - 1], p);
        assert r.Some? ==> r.value in ItemKeys(items[..|items| - 1]);
        assert forall k :: k in ItemKeys(items[..|items| - 1]) ==> k in ItemKeys(items);
        r
  }

  lemma LastKeyForPresent(items: seq<(nat, Node)>, j: nat)
    requires j < |items|
    ensures LastKeyFor(items, (items[j].0, items[j].1.id)).Some?
  {
    if j < |items| - 1 {
      var last := items[|items| - 1];
      if (last.0, last.1.id) != (items[j].0, items[j].1.id) {
        LastKeyForPresent(items[..|items| - 1], j);
      }
    }
  }

  /** Output nodes: one per distinct key, in first-seen order, and the
      key-to-id table agrees with them. */
  ghost predicate KeysInv(items: seq<(nat, Node)>, st: NodePass) {
    && NodeKeys(st.nodes) == Distinct(ItemKeys(items))
    && (forall k :: k in st.keyToId <==> k in ItemKeys(items))
    && (forall i :: 0 <= i < |st.nodes| ==>
          KeyOf(st.nodes[i]) in st.keyToId && st.keyToId[KeyOf(st.nodes[i])] == st.nodes[i].id)
  }

  /** Output ids count per type, and the context is dropped. */
  ghost predicate IdsInv(st: NodePass) {
    && (forall i :: 0 <= i < |st.nodes| ==>
          st.nodes[i].context == None
          && st.nodes[i].id == CanonicalId(st.nodes[i].ntype, Rank(st.nodes, i)))
    && (forall t :: Counter(st.counters, t) == TypeCount(st.nodes, t))
  }

  /** Every (graph, old id) maps to the canonical id of the key of the last
      node carrying that tag. */
  ghost predicate MapInv(items: seq<(nat, Node)>, st: NodePass) {
    && (forall p :: p in st.idMap <==> LastKeyFor(items, p).Some?)
    && (forall p :: p in st.idMap ==>
          LastKeyFor(items, p).Some? && LastKeyFor(items, p).value in st.keyToId
          && st.idMap[p] == st.keyToId[LastKeyFor(items, p).value])
  }

  /** What the first pass has established after visiting `items`. */
  ghost predicate NodePassInv(items: seq<(nat, Node)>, st: NodePass) {
    KeysInv(items, st) && IdsInv(st) && MapInv(items, st)
  }

  lemma InitialNodePassInv()
    ensures NodePassInv([], InitialNodePass)
  {
    forall t ensures Counter(InitialNodePass.counters, t) == 0 {
    }
  }

  lemma ItemKeysAppend(items: seq<(nat, Node)>, item: (nat, Node))
    ensures ItemKeys(items + [item]) == ItemKeys(items) + [KeyOf(item.1)]
    ensures forall k :: k in ItemKeys(items + [item]) <==> k in ItemKeys(items) || k == KeyOf(item.1)
  {
    assert ItemKeys(items + [item]) == ItemKeys(items) + [KeyOf(item.1)];
  }

  lemma LastKeyForAppend(items: seq<(nat, Node)>, item: (nat, Node))
    ensures forall p :: LastKeyFor(items + [item], p) ==
              if p == (item.0, item.1.id) then Some(KeyOf(item.1)) else LastKeyFor(items, p)
  {
    assert (items + [item])[..|items|] == items;
  }

  lemma VisitKnownKeyInv(items: seq<(nat, Node)>, st: NodePass, item: (nat, Node))
    requires NodePassInv(items, st)
    requires KeyOf(item.1) in st.keyToId
    ensures NodePassInv(items + [item], VisitNode(st, item))
  {
    var st' := VisitNode(st, item);
    assert st'.nodes == st.nodes && st'.keyToId == st.keyToId && st'.counters == st.counters;
    VisitKnownKeyKeys(items, st, item);
    VisitKnownKeyMap(items, st, item);
  }

  lemma VisitKnownKeyKeys(items: seq<(nat, Node)>, st: NodePass, item: (nat, Node))
    requires KeysInv(items, st)
    requires KeyOf(item.1) in st.keyToId
    ensures KeysInv(items + [item], VisitNode(st, item))
  {
    ItemKeysAppend(items, item);
    DistinctAppend(ItemKeys(items), KeyOf(item.1));
  }

  lemma VisitKnownKeyMap(items: seq<(nat, Node)>, st: NodePass, item: (nat, Node))
    requires KeysInv(items, st) && MapInv(items, st)
    requires KeyOf(item.1) in st.keyToId
    ensures MapInv(items + [item], VisitNode(st, item))
  {
    LastKeyForAppend(items, item);
  }

  lemma VisitNewKeyKeys(items: seq<(nat, Node)>, st: NodePass, item: (nat, Node))
    requires KeysInv(items, st)
    requires KeyOf(item.1) !in st.keyToId
    ensures KeysInv(items + [item], VisitNode(st, item))
  {
    NewKeyOrder(items, st, item);
    NewKeyTable(items, st, item);
    NewKeyAgrees(st, item);
  }

  lemma NodeKeysAppend(nodes: seq<Node>, n: Node)
    ensures NodeKeys(nodes + [n]) == NodeKeys(nodes) + [KeyOf(n)]
  {
  }

  lemma NewKeyOrder(items: seq<(nat, Node)>, st: NodePass, item: (nat, Node))
    requires NodeKeys(st.nodes) == Distinct(ItemKeys(items))
    requires forall k :: k in st.keyToId <==> k in ItemKeys(items)
    requires KeyOf(item.1) !in st.keyToId
    ensures NodeKeys(VisitNode(st, item).nodes) == Distinct(ItemKeys(items + [item]))
  {
    var key := KeyOf(item.1);
    var n := item.1;
    var count := Counter(st.counters, n.ntype) + 1;
    var added := Node(CanonicalId(n.ntype, count), n.ntype, n.name, None);
    assert VisitNode(st, item).nodes == st.nodes + [added];
    calc {
      NodeKeys(st.nodes + [added]);
      { NodeKeysAppend(st.nodes, added); }
      NodeKeys(st.nodes) + [key];
      Distinct(ItemKeys(items)) + [key];
      { assert key !in ItemKeys(items);
        DistinctAppend(ItemKeys(items), key); }
      Distinct(ItemKeys(items) + [key]);
      { ItemKeysAppend(items, item); }
      Distinct(ItemKeys(items + [item]));
    }
  }

  lemma NewKeyTable(items: seq<(nat, Node)>, st: NodePass, item: (nat, Node))
    requires forall k :: k in st.keyToId <==> k in ItemKeys(items)
    requires KeyOf(item.1) !in st.keyToId
    ensures forall k :: k in VisitNode(st, item).keyToId <==> k in ItemKeys(items + [item])
  {
    ItemKeysAppend(items, item);
  }

  lemma NewKeyAgrees(st: NodePass, item: (nat, Node))
    requires forall i :: 0 <= i < |st.nodes| ==>
               KeyOf(st.nodes[i]) in st.keyToId && st.keyToId[KeyOf(st.nodes[i])] == st.nodes[i].id
    requires KeyOf(item.1) !in st.keyToId
    ensures var st' := VisitNode(st, item);
      forall i :: 0 <= i < |st'.nodes| ==>
        KeyOf(st'.nodes[i]) in st'.keyToId && st'.keyToId[KeyOf(st'.nodes[i])] == st'.nodes[i].id
  {
    var st' := VisitNode(st, item);
    forall i | 0 <= i < |st'.nodes|
      ensures KeyOf(st'.nodes[i]) in st'.keyToId && st'.keyToId[KeyOf(st'.nodes[i])] == st'.nodes[i].id
    {
      if i < |st.nodes| {
        assert st'.nodes[i] == st.nodes[i];
      }
    }
  }

  lemma VisitNewKeyIds(items: seq<(nat, Node)>, st: NodePass, item: (nat, Node))
    requires IdsInv(st)
    requires KeyOf(item.1) !in st.keyToId
    ensures IdsInv(VisitNode(st, item))
  {
    NewKeyRanks(st, item);
    NewKeyCounters(st, item);
  }

  lemma NewKeyRanks(st: NodePass, item: (nat, Node))
    requires IdsInv(st)
    requires KeyOf(item.1) !in st.keyToId
    ensures var st' := VisitNode(st, item);
      forall i :: 0 <= i < |st'.nodes| ==>
        st'.nodes[i].context == None && st'.nodes[i].id == CanonicalId(st'.nodes[i].ntype, Rank(st'.nodes, i))
  {
    var st' := VisitNode(st, item);
    var n, ns := item.1, st.nodes;
    var added := Node(CanonicalId(n.ntype, Counter(st.counters, n.ntype) + 1), n.ntype, n.name, None);
    assert st'.nodes == ns + [added];
    assert Counter(st.counters, n.ntype) == TypeCount(ns, n.ntype);
    forall i | 0 <= i < |st'.nodes|
      ensures st'.nodes[i].context == None
      ensures st'.nodes[i].id == CanonicalId(st'.nodes[i].ntype, Rank(st'.nodes, i))
    {
      RankSnoc(ns, added, i);
    }
  }

  /** Appending a node keeps the ranks before it; its own rank counts the
      nodes of its type before it. */
  lemma RankSnoc(ns: seq<Node>, x: Node, i: nat)
    requires i <= |ns|
    ensures i < |ns| ==> (ns + [x])[i] == ns[i] && Rank(ns + [x], i) == Rank(ns, i)
    ensures i == |ns| ==> (ns + [x])[i] == x && Rank(ns + [x], i) == TypeCount(ns, x.ntype) + 1
  {
    assert (ns + [x])[..i] == ns[..i];
  }

  lemma NewKeyCounters(st: NodePass, item: (nat, Node))
    requires forall t :: Counter(st.counters, t) == TypeCount(st.nodes, t)
    requires KeyOf(item.1) !in st.keyToId
    ensures forall t :: Counter(VisitNode(st, item).counters, t) == TypeCount(VisitNode(st, item).nodes, t)
  {
    var st' := VisitNode(st, item);
    assert st'.nodes[..|st'.nodes| - 1] == st.nodes;
  }

  lemma VisitNewKeyMap(items: seq<(nat, Node)>, st: NodePass, item: (nat, Node))
    requires MapInv(items, st)
    requires KeyOf(item.1) !in st.keyToId
    ensures MapInv(items + [item], VisitNode(st, item))
  {
    LastKeyForAppend(items, item);
  }

  lemma VisitNodeInv(items: seq<(nat, Node)>, st: NodePass, item: (nat, Node))
    requires NodePassInv(items, st)
    ensures NodePassInv(items + [item], VisitNode(st, item))
  {
    if KeyOf(item.1) in st.keyToId {
      VisitKnownKeyInv(items, st, item);
    } else {
      VisitNewKeyKeys(items, st, item);
      VisitNewKeyIds(items, st, item);
      VisitNewKeyMap(items, st, item);
    }
  }

  /** The whole first pass. */
  function CollectNodes(items: seq<(nat, Node)>): (st: NodePass)
    ensures NodePassInv(items, st)
  {
    if |items| == 0 then
      InitialNodePassInv();
      InitialNodePass
    else
      var init, last := items[..|items| - 1], items[|items| - 1];
      assert init + [last] == items;
      var st := CollectNodes(init);
      VisitNodeInv(init, st, last);
      VisitNode(st, last)
  }

  /** Every id the first pass hands out is the id of an output node. */
  lemma IdMapTargetsNodes(items: seq<(nat, Node)>)
    ensures forall p :: p in CollectNodes(items).idMap ==>
              CollectNodes(items).idMap[p] in NodeIdSet(CollectNodes(items).nodes)
  {
    var st := CollectNodes(items);
    forall p | p in st.idMap
      ensures st.idMap[p] in NodeIdSet(st.nodes)
    {
      var k := LastKeyFor(items, p).value;
      assert k in Distinct(ItemKeys(items));
      var i :| 0 <= i < |st.nodes| && NodeKeys(st.nodes)[i] == k;
      assert st.keyToId[KeyOf(st.nodes[i])] == st.nodes[i].id;
    }
  }

  // ---------------------------------------------------------------------
  // Pass 2: relationships

  /** `id_mapping.get((g, id), id)` */
  function Resolve(idMap: map<(nat, string), string>, g: nat, id: string): string {
    if (g, id) in idMap then idMap[(g, id)] else id
  }

  function Rewrite(idMap: map<(nat, string), string>, item: (nat, Relationship)): Relationship {
    var (g, r) := item;
    r.(source := Resolve(idMap, g, r.source), target := Resolve(idMap, g, r.target))
  }

  function Rewritten(idMap: map<(nat, string), string>, items: seq<(nat, Relationship)>): (r: seq<Relationship>)
    ensures |r| == |items|
    ensures forall i :: 0 <= i < |items| ==> r[i] == Rewrite(idMap, items[i])
  {
    seq(|items|, i requires 0 <= i < |items| => Rewrite(idMap, items[i]))
  }

  type RelKey = (string, string, Relation)

  /** The identity of a relationship for deduplication. */
  function RelKeyOf(r: Relationship): RelKey {
    (r.source, r.target, r.relation)
  }

  datatype RelPass = RelPass(seen: set<RelKey>, rels: seq<Relationship>)

  /** One iteration of the second pass. */
  function VisitRelationship(idMap: map<(nat, string), string>, st: RelPass,
                             item: (nat, Relationship)): RelPass {
    var r := Rewrite(idMap, item);
    var key := RelKeyOf(r);
    if key in st.seen then st
    else RelPass(st.seen + {key}, st.rels + [r])
  }

  /** The whole second pass: the rewritten relationships, each kept only
      at the first occurrence of its key. */
  function CollectRelationships(idMap: map<(nat, string), string>,
                                items: seq<(nat, Relationship)>): (st: RelPass)
    ensures st.rels == FirstOccurrences(Rewritten(idMap, items), RelKeyOf)
    ensures forall k :: k in st.seen <==> KeyOccurs(st.rels, RelKeyOf, k)
  {
    if |items| == 0 then RelPass({}, [])
    else
      var init := items[..|items| - 1];
      var st := CollectRelationships(idMap, init);
      var rw := Rewritten(idMap, items);
      var r := Rewrite(idMap, items[|items| - 1]);
      assert rw[..|items| - 1] == Rewritten(idMap, init);
      assert rw[|items| - 1] == r;
      KeyOccursAppend(st.rels, r, RelKeyOf);
      VisitRelationship(idMap, st, items[|items| - 1])
  }

  // ---------------------------------------------------------------------
  // The merge

  /** `(graph index, old id) -> canonical id` as built by the first pass. */
  function IdMapping(graphs: seq<Graph>): (m: map<(nat, string), string>)
    ensures forall g, n :: 0 <= g < |graphs| && n in graphs[g].nodes ==> (g, n.id) in m
  {
    var items := AllNodes(graphs);
    var st := CollectNodes(items);
    forall g, n | 0 <= g < |graphs| && n in graphs[g].nodes
      ensures (g, n.id) in st.idMap
    {
      assert (g, n) in items;
      var j :| 0 <= j < |items| && items[j] == (g, n);
      LastKeyForPresent(items, j);
    }
    st.idMap
  }

  /** `merge_graphs`. */
  function MergeGraphs(graphs: seq<Graph>): (r: Result<Graph>)
    ensures r.Err? <==> |graphs| == 0
    ensures r.Err? ==> r.error == EmptyGraphList
    ensures |graphs| == 1 ==> r == Ok(graphs[0])
    ensures |graphs| >= 2 ==> r.Ok? && r.value.schemaVersion == graphs[0].schemaVersion
    // exactly one node per distinct (type, name), in first-seen order
    ensures |graphs| >= 2 ==> NodeKeys(r.value.nodes) == Distinct(ItemKeys(AllNodes(graphs)))
    // the k-th node of a type is prefix_k, and only id, type and name are kept
    ensures |graphs| >= 2 ==> forall i :: 0 <= i < |r.value.nodes| ==>
              r.value.nodes[i].context == None
              && r.value.nodes[i].id == CanonicalId(r.value.nodes[i].ntype, Rank(r.value.nodes, i))
    // endpoints rewritten, first occurrence of each (source, target, relation) kept
    ensures |graphs| >= 2 ==>
              r.value.relationships == FirstOccurrences(Rewritten(IdMapping(graphs), AllRelationships(graphs)), RelKeyOf)
    ensures |graphs| >= 2 ==> forall i, j :: 0 <= i < j < |r.value.relationships| ==>
              RelKeyOf(r.value.relationships[i]) != RelKeyOf(r.value.relationships[j])
  {
    if |graphs| == 0 then Err(EmptyGraphList)
    else if |graphs| == 1 then Ok(graphs[0])
    else
      var nodePass := CollectNodes(AllNodes(graphs));
      var relPass := CollectRelationships(nodePass.idMap, AllRelationships(graphs));
      Ok(Graph(graphs[0].schemaVersion, nodePass.nodes, relPass.rels))
  }

  /** A merge of at least one graph always succeeds. */
  function Merged(graphs: seq<Graph>): Graph
    requires |graphs| >= 1
  {
    MergeGraphs(graphs).value
  }

  /** Nodes numbered per type by `Rank` never share an id. */
  lemma RankedIdsUnique(st: NodePass)
    requires IdsInv(st)
    ensures UniqueIds(st.nodes)
  {
    var nodes := st.nodes;
    forall i, j | 0 <= i < j < |nodes|
      ensures nodes[i].id != nodes[j].id
    {
      if nodes[i].ntype == nodes[j].ntype {
        TypeCountGrows(nodes, i, j);
      }
      CanonicalIdInjective(nodes[i].ntype, Rank(nodes, i), nodes[j].ntype, Rank(nodes, j));
    }
  }

  /** A node of type `t` at `i` makes the count of `t` before `j > i` exceed
      the count before `i`. */
  lemma {:induction false} TypeCountGrows(nodes: seq<Node>, i: nat, j: nat)
    requires i < j <= |nodes|
    ensures TypeCount(nodes[..j], nodes[i].ntype) > TypeCount(nodes[..i], nodes[i].ntype)
    decreases j
  {
    assert nodes[..j][..j - 1] == nodes[..j - 1];
    if j - 1 > i {
      TypeCountGrows(nodes, i, j - 1);
    } else {
      assert nodes[..j][j - 1] == nodes[i];
    }
  }

  /** The merged graph is built from the two passes. */
  lemma MergedParts(graphs: seq<Graph>)
    requires |graphs| >= 2
    ensures Merged(graphs).nodes == CollectNodes(AllNodes(graphs)).nodes
    ensures IdMapping(graphs) == CollectNodes(AllNodes(graphs)).idMap
  {
  }

  /** Output ids are unique. */
  lemma MergedIdsUnique(graphs: seq<Graph>)
    requires |graphs| >= 2
    ensures UniqueIds(Merged(graphs).nodes)
  {
    MergedParts(graphs);
    RankedIdsUnique(CollectNodes(AllNodes(graphs)));
  }

  /** Every input node is mapped to the canonical id of the output node with
      the same (type, name), taken from the last node of its graph with that
      id when a graph reuses an id. */
  lemma MergedIdMapping(graphs: seq<Graph>, j: nat)
    requires |graphs| >= 2
    requires j < |AllNodes(graphs)|
    requires forall j' :: j < j' < |AllNodes(graphs)| ==>
               (AllNodes(graphs)[j'].0, AllNodes(graphs)[j'].1.id) != (AllNodes(graphs)[j].0, AllNodes(graphs)[j].1.id)
    ensures exists i :: 0 <= i < |Merged(graphs).nodes|
              && KeyOf(Merged(graphs).nodes[i]) == KeyOf(AllNodes(graphs)[j].1)
              && IdMapping(graphs)[(AllNodes(graphs)[j].0, AllNodes(graphs)[j].1.id)] == Merged(graphs).nodes[i].id
  {
    var items := AllNodes(graphs);
    var st := CollectNodes(items);
    MergedParts(graphs);
    var p := (items[j].0, items[j].1.id);
    LastKeyForPresent(items, j);
    LastKeyIsLastMatch(items, j);
    var k := KeyOf(items[j].1);
    assert ItemKeys(items)[j] == k;
    assert k in Distinct(ItemKeys(items));
    var i :| 0 <= i < |st.nodes| && NodeKeys(st.nodes)[i] == k;
    assert st.keyToId[KeyOf(st.nodes[i])] == st.nodes[i].id;
    assert st.idMap[p] == st.nodes[i].id;
  }

  lemma {:induction false} LastKeyIsLastMatch(items: seq<(nat, Node)>, j: nat)
    requires j < |items|
    requires forall j' :: j < j' < |items| ==> (items[j'].0, items[j'].1.id) != (items[j].0, items[j].1.id)
    ensures LastKeyFor(items, (items[j].0, items[j].1.id)) == Some(KeyOf(items[j].1))
  {
    if j < |items| - 1 {
      var init := items[..|items| - 1];
      LastKeyIsLastMatch(init, j);
    }
  }

  /** If every input graph only references its own node ids, every merged
      relationship references a merged node id. */
  lemma MergedReferencesResolve(graphs: seq<Graph>)
    requires |graphs| >= 2
    requires forall g :: 0 <= g < |graphs| ==> ReferencesResolve(graphs[g])
    ensures ReferencesResolve(Merged(graphs))
  {
    forall r | r in Merged(graphs).relationships
      ensures Resolves(r, Merged(graphs).nodes)
    {
      MergedRelationshipResolves(graphs, r);
    }
  }

  lemma MergedRelationshipResolves(graphs: seq<Graph>, r: Relationship)
    requires |graphs| >= 2
    requires forall g :: 0 <= g < |graphs| ==> ReferencesResolve(graphs[g])
    requires r in Merged(graphs).relationships
    ensures Resolves(r, Merged(graphs).nodes)
  {
    var rw := Rewritten(IdMapping(graphs), AllRelationships(graphs));
    assert r in rw;
    var j :| 0 <= j < |rw| && rw[j] == r;
    RewrittenResolves(graphs, j);
  }

  /** Each rewritten relationship of inputs without dangling references
      names merged nodes. */
  lemma RewrittenResolves(graphs: seq<Graph>, j: nat)
    requires |graphs| >= 2
    requires forall g :: 0 <= g < |graphs| ==> ReferencesResolve(graphs[g])
    requires j < |AllRelationships(graphs)|
    ensures Resolves(Rewritten(IdMapping(graphs), AllRelationships(graphs))[j], Merged(graphs).nodes)
  {
    var relItems := AllRelationships(graphs);
    var (g, r0) := relItems[j];
    assert r0 in graphs[g].relationships;
    assert Resolves(r0, graphs[g].nodes);
    ResolvedEndpoint(graphs, g, r0.source);
    ResolvedEndpoint(graphs, g, r0.target);
  }

  lemma ResolvedEndpoint(graphs: seq<Graph>, g: nat, id: string)
    requires |graphs| >= 2 && g < |graphs|
    requires id in NodeIdSet(graphs[g].nodes)
    ensures Resolve(IdMapping(graphs), g, id) in NodeIdSet(Merged(graphs).nodes)
  {
    var i :| 0 <= i < |graphs[g].nodes| && graphs[g].nodes[i].id == id;
    assert graphs[g].nodes[i] in graphs[g].nodes;
    IdMapTargetsNodes(AllNodes(graphs));
  }
}
