/** The knowledge-graph records: nodes, relationships and the graph that
    holds them. Construction-time checks of the source's record library
    (accepted node types, accepted relation names) are the parsing
    functions `ParseNodeType` and `RelationFromName`. */
module Schema {
  import opened Outcomes

  /** The three node types a node may have; no other value is accepted. */
  datatype NodeType = Company | RiskFactor | DollarAmount

  function TypeName(t: NodeType): string {
    match t
    case Company => "Company"
    case RiskFactor => "RiskFactor"
    case DollarAmount => "DollarAmount"
  }

  /** Accepts exactly the three type names; anything else is rejected. */
  function ParseNodeType(s: string): (r: Option<NodeType>)
    ensures r.Some? <==> s == "Company" || s == "RiskFactor" || s == "DollarAmount"
    ensures r.Some? ==> TypeName(r.value) == s
  {
    if s == "Company" then Some(Company)
    else if s == "RiskFactor" then Some(RiskFactor)
    else if s == "DollarAmount" then Some(DollarAmount)
    else None
  }

  lemma ParseTypeName(t: NodeType)
    ensures ParseNodeType(TypeName(t)) == Some(t)
  {
  }

  /** Relation names that the repair step constrains by node type. */
  const ConstrainedRelationNames: set<string> := {"OWNS", "HAS_RISK", "REPORTS_AMOUNT"}

  datatype RelationKind = Owns | HasRisk | ReportsAmount | Other(name: string)

  /** A relation value. The three constrained relations have their own
      constructors; every other name is carried as `Other`, so that each
      relation name has exactly one representation. */
  type Relation = r: RelationKind | r.Other? ==> r.name !in ConstrainedRelationNames
    witness Owns

  function RelationName(r: Relation): string {
    match r
    case Owns => "OWNS"
    case HasRisk => "HAS_RISK"
    case ReportsAmount => "REPORTS_AMOUNT"
    case Other(n) => n
  }

  /** Every name is a legal relation; only the three constrained names map
      to the dedicated constructors. */
  function RelationFromName(s: string): (r: Relation)
    ensures RelationName(r) == s
    ensures r.Other? <==> s !in ConstrainedRelationNames
  {
    if s == "OWNS" then Owns
    else if s == "HAS_RISK" then HasRisk
    else if s == "REPORTS_AMOUNT" then ReportsAmount
    else Other(s)
  }

  lemma RelationNameRoundTrip(r: Relation)
    ensures RelationFromName(RelationName(r)) == r
  {
  }

  /** Confidence scores are carried along and never inspected. */
  type Confidence = real

  datatype Node = Node(id: string, ntype: NodeType, name: string, context: Option<string>)

  datatype Relationship = Relationship(
    source: string,
    target: string,
    relation: Relation,
    confidence: Option<Confidence>)

  /** Builds a relationship; the confidence defaults to none. */
  function NewRelationship(source: string, target: string, relation: Relation,
                           confidence: Option<Confidence> := None): Relationship
  {
    Relationship(source, target, relation, confidence)
  }

  /** A graph: a schema version and ordered node and relationship lists.
      Empty lists are allowed here; only the validator rejects a graph
      without nodes. */
  datatype Graph = Graph(schemaVersion: string, nodes: seq<Node>, relationships: seq<Relationship>)

  /** The identity of a node for deduplication: its type and exact name. */
  type NodeKey = (NodeType, string)

  function KeyOf(n: Node): NodeKey {
    (n.ntype, n.name)
  }

  function NodeKeys(nodes: seq<Node>): (r: seq<NodeKey>)
    ensures |r| == |nodes|
    ensures forall i :: 0 <= i < |nodes| ==> r[i] == KeyOf(nodes[i])
  {
    seq(|nodes|, i requires 0 <= i < |nodes| => KeyOf(nodes[i]))
  }

  function NodeIdSet(nodes: seq<Node>): (r: set<string>)
    ensures forall id :: id in r <==> exists i :: 0 <= i < |nodes| && nodes[i].id == id
  {
    set i | 0 <= i < |nodes| :: nodes[i].id
  }

  /** No id is used by two nodes. */
  predicate UniqueIds(nodes: seq<Node>) {
    forall i, j :: 0 <= i < j < |nodes| ==> nodes[i].id != nodes[j].id
  }

  /** Both endpoints of the relationship name a node of `nodes`. */
  predicate Resolves(r: Relationship, nodes: seq<Node>) {
    r.source in NodeIdSet(nodes) && r.target in NodeIdSet(nodes)
  }

  /** Every relationship of `g` names nodes of `g`. */
  predicate ReferencesResolve(g: Graph) {
    forall r :: r in g.relationships ==> Resolves(r, g.nodes)
  }
}
