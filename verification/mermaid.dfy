/** Mermaid flowchart text for a graph: label escaping, node shapes, the
    diagram's lines and its division into pages. File writes and the HTML
    page around the diagram are not modelled. */
module Mermaid {
  import opened Outcomes
  import opened Schema
  import Text
  import Seqs

  // ---------------------------------------------------------------------
  // Labels

  /** The characters that break Mermaid label syntax. */
  predicate IsSpecial(c: char) {
    c == '"' || c == '`' || c == '#' || c == '&' || c == '<' || c == '>'
    || c == '[' || c == ']' || c == '{' || c == '}' || c == '|'
  }

  predicate NoSpecials(s: string) {
    forall i :: 0 <= i < |s| ==> !IsSpecial(s[i])
  }

  /** The eleven `str.replace` calls, in the order the source makes them:
      each character and the text that replaces it. */
  const EscapeTable: seq<(char, string)> := [
    ('"', "'"), ('`', "'"), ('#', ""), ('&', "and"), ('<', ""), ('>', ""),
    ('[', "("), (']', ")"), ('{', "("), ('}', ")"), ('|', "-")]

  /** Applies the replacements of `table` one after the other. */
  function ReplaceAll(s: string, table: seq<(char, string)>): string
    decreases |table|
  {
    if |table| == 0 then s
    else ReplaceAll(Text.ReplaceChar(s, table[0].0, table[0].1), table[1..])
  }

  /** The source's chain of replacements. */
  function Replacements(s: string): string {
    ReplaceAll(s, EscapeTable)
  }

  /** What one character becomes: the reference meaning of the
      replacement chain, one character at a time. */
  function EscapeChar(c: char): (r: string)
    ensures NoSpecials(r)
    ensures !IsSpecial(c) ==> r == [c]
  {
    match c
    case '"' => "'"
    case '`' => "'"
    case '#' => ""
    case '&' => "and"
    case '<' => ""
    case '>' => ""
    case '[' => "("
    case ']' => ")"
    case '{' => "("
    case '}' => ")"
    case '|' => "-"
    case _ => [c]
  }

  function EscapeEach(s: string): (r: string)
    ensures NoSpecials(r)
    ensures NoSpecials(s) ==> r == s
    ensures forall c :: c in r && !(c in "'and()-") ==> c in s
  {
    if |s| == 0 then []
    else
      var head, rest := EscapeChar(s[0]), EscapeEach(s[1..]);
      assert forall c :: c in head && !(c in "'and()-") ==> c == s[0];
      assert NoSpecials(s) ==> NoSpecials(s[1..]) && s == [s[0]] + s[1..];
      head + rest
  }

  lemma {:induction false} ReplaceCharAppend(a: string, b: string, c: char, rep: string)
    ensures Text.ReplaceChar(a + b, c, rep) == Text.ReplaceChar(a, c, rep) + Text.ReplaceChar(b, c, rep)
  {
    if |a| > 0 {
      assert (a + b)[1..] == a[1..] + b;
      ReplaceCharAppend(a[1..], b, c, rep);
    } else {
      assert a + b == b;
    }
  }

  lemma {:induction false} ReplaceAllAppend(a: string, b: string, table: seq<(char, string)>)
    ensures ReplaceAll(a + b, table) == ReplaceAll(a, table) + ReplaceAll(b, table)
    decreases |table|
  {
    if |table| > 0 {
      var (c, rep) := table[0];
      ReplaceCharAppend(a, b, c, rep);
      ReplaceAllAppend(Text.ReplaceChar(a, c, rep), Text.ReplaceChar(b, c, rep), table[1..]);
    }
  }

  /** Replacing characters that do not occur changes nothing. */
  lemma {:induction false} ReplaceAllAbsent(s: string, table: seq<(char, string)>)
    requires forall j :: 0 <= j < |table| ==> table[j].0 !in s
    ensures ReplaceAll(s, table) == s
  {
    if |table| > 0 {
      ReplaceAllAbsent(s, table[1..]);
    }
  }

  /** The replacement text of the first entry for `x`, or `x` itself. */
  function Lookup(table: seq<(char, string)>, x: char): string {
    if |table| == 0 then [x]
    else if table[0].0 == x then table[0].1
    else Lookup(table[1..], x)
  }

  /** No replacement text holds a character that a later entry replaces. */
  predicate Closed(table: seq<(char, string)>) {
    forall i, j :: 0 <= i < j < |table| ==> table[j].0 !in table[i].1
  }

  /** On a single character, a closed chain of replacements gives that
      character's first entry. */
  lemma {:induction false} ReplaceAllOneChar(x: char, table: seq<(char, string)>)
    requires Closed(table)
    ensures ReplaceAll([x], table) == Lookup(table, x)
  {
    if |table| > 0 {
      var (c, rep) := table[0];
      if c == x {
        assert [x][1..] == [];
        assert Text.ReplaceChar([x], c, rep) == rep + Text.ReplaceChar([], c, rep);
        assert rep + [] == rep;
        assert forall j :: 0 <= j < |table[1..]| ==> table[1..][j].0 !in rep by {
          forall j | 0 <= j < |table[1..]|
            ensures table[1..][j].0 !in rep
          {
            assert table[1..][j] == table[j + 1];
          }
        }
        ReplaceAllAbsent(rep, table[1..]);
      } else {
        assert Text.ReplaceChar([x], c, rep) == [x];
        ReplaceAllOneChar(x, table[1..]);
      }
    }
  }

  lemma EscapeTableClosed()
    ensures Closed(EscapeTable)
  {
  }

  /** The first six entries of the table. */
  lemma EscapeLookupHead(x: char)
    ensures x == '"' || x == '`' || x == '#' || x == '&' || x == '<' || x == '>' ==> Lookup(EscapeTable, x) == EscapeChar(x)
    ensures !(x == '"' || x == '`' || x == '#' || x == '&' || x == '<' || x == '>') ==> Lookup(EscapeTable, x) == Lookup(EscapeTable[6..], x)
  {
    var t := EscapeTable;
    assert Lookup(t[0..], x) == if x == '"' then "'" else Lookup(t[1..], x);
    assert Lookup(t[1..], x) == if x == '`' then "'" else Lookup(t[2..], x);
    assert Lookup(t[2..], x) == if x == '#' then "" else Lookup(t[3..], x);
    assert Lookup(t[3..], x) == if x == '&' then "and" else Lookup(t[4..], x);
    assert Lookup(t[4..], x) == if x == '<' then "" else Lookup(t[5..], x);
    assert Lookup(t[5..], x) == if x == '>' then "" else Lookup(t[6..], x);
  }

  /** The last five entries of the table. */
  lemma EscapeLookupTail(x: char)
    requires !(x == '"' || x == '`' || x == '#' || x == '&' || x == '<' || x == '>')
    ensures Lookup(EscapeTable[6..], x) == EscapeChar(x)
  {
    var t := EscapeTable;
    assert Lookup(t[6..], x) == if x == '[' then "(" else Lookup(t[7..], x);
    assert Lookup(t[7..], x) == if x == ']' then ")" else Lookup(t[8..], x);
    assert Lookup(t[8..], x) == if x == '{' then "(" else Lookup(t[9..], x);
    assert Lookup(t[9..], x) == if x == '}' then ")" else Lookup(t[10..], x);
    assert Lookup(t[10..], x) == if x == '|' then "-" else Lookup(t[11..], x);
  }

  lemma EscapeCharIsLookup(x: char)
    ensures Lookup(EscapeTable, x) == EscapeChar(x)
  {
    EscapeLookupHead(x);
    if !(x == '"' || x == '`' || x == '#' || x == '&' || x == '<' || x == '>') {
      EscapeLookupTail(x);
    }
  }

  /** The chain of replacements on a non-empty text: the first
      character's escape, then the chain on the rest. */
  lemma ReplacementsCons(s: string)
    requires |s| > 0
    ensures Replacements(s) == EscapeChar(s[0]) + Replacements(s[1..])
  {
    assert s == [s[0]] + s[1..];
    ReplaceAllAppend([s[0]], s[1..], EscapeTable);
    EscapeTableClosed();
    ReplaceAllOneChar(s[0], EscapeTable);
    EscapeCharIsLookup(s[0]);
  }

  /** The chain of replacements is the per-character escape. */
  lemma {:induction false} ReplacementsPerChar(s: string)
    ensures Replacements(s) == EscapeEach(s)
  {
    if |s| > 0 {
      ReplacementsCons(s);
      ReplacementsPerChar(s[1..]);
    }
  }

  /** Cuts a label longer than `limit` to its first `limit - 3` characters
      followed by "...". */
  function Truncate(s: string, limit: nat): (r: string)
    requires limit >= 3
    ensures |r| <= limit
    ensures |s| <= limit ==> r == s
    ensures |s| > limit ==> |r| == limit && r[..limit - 3] == s[..limit - 3] && r[limit - 3..] == "..."
  {
    if |s| > limit then s[..limit - 3] + "..." else s
  }

  /** `_escape_mermaid_label`: the replacements, then the cut to 60
      characters. The replacements are written as `EscapeEach`, which
      `ReplacementsPerChar` shows equal to the source's chain. */
  function EscapeLabel(text: string): (r: string)
    ensures |r| <= 60
    ensures NoSpecials(r)
    ensures |EscapeEach(text)| <= 60 ==> r == EscapeEach(text)
    ensures |EscapeEach(text)| > 60 ==> r == EscapeEach(text)[..57] + "..."
  {
    var e := EscapeEach(text);
    assert |e| > 60 ==> NoSpecials(e[..57]) && NoSpecials("...");
    Truncate(e, 60)
  }

  /** A label with no special character and at most 60 characters is left
      as it is. */
  lemma EscapeUnchanged(text: string)
    requires NoSpecials(text) && |text| <= 60
    ensures EscapeLabel(text) == text
  {
  }

  /** Escaping an escaped label changes nothing. */
  lemma EscapeIdempotent(text: string)
    ensures EscapeLabel(EscapeLabel(text)) == EscapeLabel(text)
  {
    EscapeUnchanged(EscapeLabel(text));
  }

  // ---------------------------------------------------------------------
  // Nodes

  /** The label shown for a node: the escaped name, with the escaped
      context in front of an amount or in parentheses after anything else
      when the node has a non-empty context; cut to 80 characters. */
  function NodeLabel(n: Node): (r: string)
    ensures |r| <= 80
    ensures n.context.None? || n.context.value == [] ==> r == EscapeLabel(n.name)
    ensures n.context.Some? && n.context.value != [] && n.ntype == DollarAmount ==>
              r == Truncate(EscapeLabel(n.context.value) + ": " + EscapeLabel(n.name), 80)
    ensures n.context.Some? && n.context.value != [] && n.ntype != DollarAmount ==>
              r == Truncate(EscapeLabel(n.name) + " (" + EscapeLabel(n.context.value) + ")", 80)
  {
    Truncate(FullLabel(n), 80)
  }

  /** The node label before the final cut. */
  function FullLabel(n: Node): string {
    var name := EscapeLabel(n.name);
    if n.context.Some? && n.context.value != [] then
      var ctx := EscapeLabel(n.context.value);
      if n.ntype == DollarAmount then ctx + ": " + name else name + " (" + ctx + ")"
    else name
  }

  /** A node label never holds a double quote, so it cannot end the quoted
      label of its shape early. */
  lemma LabelHasNoQuote(n: Node)
    ensures '"' !in NodeLabel(n)
  {
    var name := EscapeLabel(n.name);
    assert '"' !in name by { assert NoSpecials(name); }
    if n.context.Some? && n.context.value != [] {
      var ctx := EscapeLabel(n.context.value);
      assert '"' !in ctx by { assert NoSpecials(ctx); }
    }
    var full := FullLabel(n);
    assert '"' !in full;
    if |full| > 80 {
      assert '"' !in full[..77];
    }
  }

  /** The brackets around a node's quoted label: a rectangle for a
      company, rounded for a risk factor, a parallelogram for an amount. */
  function ShapeOpen(t: NodeType): string {
    match t
    case Company => "[\""
    case RiskFactor => "(\""
    case DollarAmount => "[/\""
  }

  function ShapeClose(t: NodeType): string {
    match t
    case Company => "\"]"
    case RiskFactor => "\")"
    case DollarAmount => "\"/]"
  }

  /** `_get_node_shape` */
  function NodeShape(n: Node): (r: string)
    ensures Text.StartsWith(r, n.id + ShapeOpen(n.ntype))
    ensures Text.EndsWith(r, ShapeClose(n.ntype))
    ensures |r| == |n.id| + |ShapeOpen(n.ntype)| + |NodeLabel(n)| + |ShapeClose(n.ntype)|
    ensures r[|n.id| + |ShapeOpen(n.ntype)|..|r| - |ShapeClose(n.ntype)|] == NodeLabel(n)
  {
    var r := n.id + ShapeOpen(n.ntype) + NodeLabel(n) + ShapeClose(n.ntype);
    assert r[..|n.id + ShapeOpen(n.ntype)|] == n.id + ShapeOpen(n.ntype);
    assert r[|n.id| + |ShapeOpen(n.ntype)|..|r| - |ShapeClose(n.ntype)|] == NodeLabel(n);
    r
  }

  /** Two nodes with the same id get the same shape text only when they
      have the same type and the same label: the line can be read back. */
  lemma ShapeDeterminesTypeAndLabel(a: Node, b: Node)
    requires a.id == b.id
    ensures NodeShape(a) == NodeShape(b) <==> a.ntype == b.ntype && NodeLabel(a) == NodeLabel(b)
  {
    if NodeShape(a) == NodeShape(b) {
      SameShape(a, b);
    }
  }

  lemma SameShape(a: Node, b: Node)
    requires a.id == b.id && NodeShape(a) == NodeShape(b)
    ensures a.ntype == b.ntype && NodeLabel(a) == NodeLabel(b)
  {
    assert NodeShape(a) == a.id + ShapeOpen(a.ntype) + NodeLabel(a) + ShapeClose(a.ntype);
    assert NodeShape(b) == a.id + ShapeOpen(b.ntype) + NodeLabel(b) + ShapeClose(b.ntype);
    ShapeTextParts(a.id, a.ntype, NodeLabel(a), b.ntype, NodeLabel(b));
  }

  /** The shape text around an id gives back its type and its label. */
  lemma ShapeTextParts(id: string, ta: NodeType, la: string, tb: NodeType, lb: string)
    requires id + ShapeOpen(ta) + la + ShapeClose(ta) == id + ShapeOpen(tb) + lb + ShapeClose(tb)
    ensures ta == tb && la == lb
  {
    OpenChars(id, ShapeOpen(ta), la, ShapeClose(ta));
    OpenChars(id, ShapeOpen(tb), lb, ShapeClose(tb));
    OpenDeterminesType(ta, tb);
    CancelAffixes(id + ShapeOpen(ta), la, lb, ShapeClose(ta));
  }

  /** The two characters after `p` are the first two of `o`. */
  lemma OpenChars(p: string, o: string, l: string, c: string)
    requires |o| >= 2
    ensures (p + o + l + c)[|p|] == o[0] && (p + o + l + c)[|p| + 1] == o[1]
  {
  }

  /** The same prefix and suffix around two strings give the same text
      only when the strings are equal. */
  lemma CancelAffixes(p: string, x: string, y: string, c: string)
    requires p + x + c == p + y + c
    ensures x == y
  {
    var t := p + x + c;
    assert x == t[|p|..|p| + |x|];
    assert y == t[|p|..|p| + |y|];
  }

  /** The first two characters of the opening bracket tell the three
      shapes apart. */
  lemma OpenDeterminesType(a: NodeType, b: NodeType)
    requires ShapeOpen(a)[0] == ShapeOpen(b)[0] && ShapeOpen(a)[1] == ShapeOpen(b)[1]
    ensures a == b
  {
  }

  // ---------------------------------------------------------------------
  // Diagram text

  function NodeLine(n: Node): string {
    "    " + NodeShape(n)
  }

  function EdgeLine(r: Relationship): string {
    "    " + r.source + " -->|" + RelationName(r.relation) + "| " + r.target
  }

  /** The lines of a flowchart for the given nodes and relationships:
      a header, a blank line and a comment, one line per node, a blank
      line and a comment, one line per relationship. */
  function DiagramLines(nodes: seq<Node>, rels: seq<Relationship>): (r: seq<string>)
    ensures |r| == 5 + |nodes| + |rels|
    ensures r[0] == "flowchart TD" && r[1] == "" && r[2] == "    %% Node definitions"
    ensures forall i :: 0 <= i < |nodes| ==> r[3 + i] == NodeLine(nodes[i])
    ensures r[3 + |nodes|] == "" && r[4 + |nodes|] == "    %% Relationships"
    ensures forall j :: 0 <= j < |rels| ==> r[5 + |nodes| + j] == EdgeLine(rels[j])
  {
    ["flowchart TD", "", "    %% Node definitions"] + NodeLines(nodes)
    + ["", "    %% Relationships"] + EdgeLines(rels)
  }

  function NodeLines(nodes: seq<Node>): (r: seq<string>)
    ensures |r| == |nodes|
    ensures forall i :: 0 <= i < |nodes| ==> r[i] == NodeLine(nodes[i])
  {
    seq(|nodes|, i requires 0 <= i < |nodes| => NodeLine(nodes[i]))
  }

  function EdgeLines(rels: seq<Relationship>): (r: seq<string>)
    ensures |r| == |rels|
    ensures forall j :: 0 <= j < |rels| ==> r[j] == EdgeLine(rels[j])
  {
    seq(|rels|, j requires 0 <= j < |rels| => EdgeLine(rels[j]))
  }

  /** The diagram text: its lines joined by newlines. */
  function Diagram(nodes: seq<Node>, rels: seq<Relationship>): string {
    Text.Join(DiagramLines(nodes, rels), "\n")
  }

  /** `_generate_mermaid_content` */
  function MermaidContent(g: Graph): string {
    Diagram(g.nodes, g.relationships)
  }

  /** No field that reaches the diagram holds a line break. */
  predicate SingleLineFields(nodes: seq<Node>, rels: seq<Relationship>) {
    (forall i :: 0 <= i < |nodes| ==> SingleLineNode(nodes[i]))
    && (forall j :: 0 <= j < |rels| ==> SingleLineEdge(rels[j]))
  }

  predicate SingleLineNode(n: Node) {
    '\n' !in n.id && '\n' !in n.name && (n.context.Some? ==> '\n' !in n.context.value)
  }

  predicate SingleLineEdge(r: Relationship) {
    '\n' !in r.source && '\n' !in r.target && '\n' !in RelationName(r.relation)
  }

  lemma EscapeKeepsLine(s: string)
    requires '\n' !in s
    ensures '\n' !in EscapeLabel(s)
  {
    var e := EscapeEach(s);
    assert '\n' !in "'and()-";
    assert '\n' !in e;
    if |e| > 60 {
      assert '\n' !in e[..57];
    }
  }

  lemma NodeLineSingle(n: Node)
    requires SingleLineNode(n)
    ensures '\n' !in NodeLine(n)
  {
    LabelSingle(n);
    assert '\n' !in ShapeOpen(n.ntype) && '\n' !in ShapeClose(n.ntype);
  }

  lemma LabelSingle(n: Node)
    requires SingleLineNode(n)
    ensures '\n' !in NodeLabel(n)
  {
    FullLabelSingle(n);
    var full := FullLabel(n);
    if |full| > 80 {
      assert '\n' !in full[..77];
    }
  }

  lemma FullLabelSingle(n: Node)
    requires SingleLineNode(n)
    ensures '\n' !in FullLabel(n)
  {
    EscapeKeepsLine(n.name);
    if n.context.Some? {
      EscapeKeepsLine(n.context.value);
    }
  }

  /** When no field holds a line break, splitting the diagram text at line
      breaks gives back its lines: the header first, then one line per
      node and one per relationship, in order. */
  lemma DiagramSplitsIntoLines(nodes: seq<Node>, rels: seq<Relationship>)
    requires SingleLineFields(nodes, rels)
    ensures Text.Split(Diagram(nodes, rels), '\n') == DiagramLines(nodes, rels)
  {
    var lines := DiagramLines(nodes, rels);
    forall k | 0 <= k < |lines|
      ensures '\n' !in lines[k]
    {
      LineSingle(nodes, rels, k);
    }
    Text.SplitJoin(lines, '\n');
  }

  /** Each line of the diagram is free of line breaks. */
  lemma LineSingle(nodes: seq<Node>, rels: seq<Relationship>, k: nat)
    requires SingleLineFields(nodes, rels)
    requires k < 5 + |nodes| + |rels|
    ensures '\n' !in DiagramLines(nodes, rels)[k]
  {
    var lines := DiagramLines(nodes, rels);
    if k < 3 {
      assert lines[k] in ["flowchart TD", "", "    %% Node definitions"];
    } else if k < 3 + |nodes| {
      NodeLineSingle(nodes[k - 3]);
    } else if k < 5 + |nodes| {
      assert lines[k] in ["", "    %% Relationships"];
    } else {
      EdgeLineSingle(rels[k - 5 - |nodes|]);
    }
  }

  lemma EdgeLineSingle(r: Relationship)
    requires SingleLineEdge(r)
    ensures '\n' !in EdgeLine(r)
  {
  }

  // ---------------------------------------------------------------------
  // Pages

  /** The node slices of the pages starting at `start`: consecutive runs of
      `size` nodes, the last one possibly shorter. */
  function PageSlices(nodes: seq<Node>, size: nat, start: nat): (r: seq<seq<Node>>)
    requires size > 0
    ensures forall k :: 0 <= k < |r| ==> 1 <= |r[k]| <= size
    decreases |nodes| - start
  {
    if start >= |nodes| then []
    else [nodes[start..Seqs.Min(start + size, |nodes|)]] + PageSlices(nodes, size, start + size)
  }

  function Concat<T>(parts: seq<seq<T>>): seq<T> {
    if |parts| == 0 then [] else parts[0] + Concat(parts[1..])
  }

  /** The slices, put back together, are the nodes from `start` on. */
  lemma {:induction false} SlicesPartition(nodes: seq<Node>, size: nat, start: nat)
    requires size > 0 && start <= |nodes|
    ensures Concat(PageSlices(nodes, size, start)) == nodes[start..]
    decreases |nodes| - start
  {
    if start < |nodes| {
      var next := start + size;
      if next <= |nodes| {
        SlicesPartition(nodes, size, next);
        assert nodes[start..] == nodes[start..next] + nodes[next..];
      } else {
        assert PageSlices(nodes, size, next) == [];
      }
      assert PageSlices(nodes, size, start)[1..] == PageSlices(nodes, size, next);
    }
  }

  /** There are `ceil((n - start) / size)` slices: enough to hold the
      nodes, and one fewer would not be. */
  lemma {:induction false} SliceCount(nodes: seq<Node>, size: nat, start: nat)
    requires size > 0 && start <= |nodes|
    ensures var c := |PageSlices(nodes, size, start)|;
            c * size >= |nodes| - start && (c == 0 || (c - 1) * size < |nodes| - start)
    decreases |nodes| - start
  {
    if start < |nodes| {
      var next := start + size;
      var c := |PageSlices(nodes, size, start)|;
      if next <= |nodes| {
        SliceCount(nodes, size, next);
        var c' := |PageSlices(nodes, size, next)|;
        assert c == c' + 1;
        assert c * size == c' * size + size;
      } else {
        var page := nodes[start..Seqs.Min(next, |nodes|)];
        assert PageSlices(nodes, size, start) == [page] + PageSlices(nodes, size, next);
        assert PageSlices(nodes, size, next) == [];
        assert c == 1;
      }
    }
  }

  /** The relationships drawn on a page: those with both endpoints on it. */
  function PageRelationships(rels: seq<Relationship>, page: seq<Node>): (r: seq<Relationship>)
    ensures Seqs.IsSubsequence(r, rels)
    ensures forall x :: x in r <==> x in rels && Resolves(x, page)
  {
    Seqs.FilterIsSubsequence(rels, x => Resolves(x, page));
    Seqs.Filter(rels, x => Resolves(x, page))
  }

  /** `_generate_paginated_mermaid`: one diagram per slice of `pageSize`
      nodes. A page size of zero is an error; a negative one gives no
      pages, as a `range` with a negative step from 0 up does. */
  function PaginatedMermaid(g: Graph, pageSize: int): (r: Result<seq<string>>)
    ensures pageSize == 0 <==> r == Err(ZeroPageSize)
    ensures pageSize < 0 ==> r == Ok([])
    ensures pageSize > 0 ==> r.Ok? && |r.value| == |PageSlices(g.nodes, pageSize, 0)|
    ensures pageSize > 0 ==> forall k :: 0 <= k < |r.value| ==>
              var page := PageSlices(g.nodes, pageSize, 0)[k];
              r.value[k] == Diagram(page, PageRelationships(g.relationships, page))
  {
    if pageSize == 0 then Err(ZeroPageSize)
    else if pageSize < 0 then Ok([])
    else
      var slices := PageSlices(g.nodes, pageSize, 0);
      Ok(seq(|slices|, k requires 0 <= k < |slices| =>
        Diagram(slices[k], PageRelationships(g.relationships, slices[k]))))
  }

  /** With a positive page size the pages hold every node once, in order,
      at most `pageSize` per page, in as few pages as that allows. */
  lemma PagesPartitionNodes(g: Graph, pageSize: nat)
    requires pageSize > 0
    ensures var slices := PageSlices(g.nodes, pageSize, 0);
            Concat(slices) == g.nodes &&
            |slices| * pageSize >= |g.nodes| &&
            (|slices| == 0 || (|slices| - 1) * pageSize < |g.nodes|)
  {
    SlicesPartition(g.nodes, pageSize, 0);
    SliceCount(g.nodes, pageSize, 0);
  }
}
