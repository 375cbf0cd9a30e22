/** The graph clean-up script: a node test that rejects names carrying no
    information (bare numbers, "H 10"-style labels, bare quantities with a
    unit, dollar amounts with neither currency nor context), then the three
    filtering steps of its `main`: keep the meaningful nodes, keep the
    relationships between them, drop the nodes no kept relationship
    touches. The two regular expressions of the test are modelled by
    matchers that scan the name, each proved equal to a declarative reading
    of its pattern. */
module Cleaning {
  import opened Outcomes
  import opened Schema
  import Text
  import Seqs

  // ---------------------------------------------------------------------
  // Bare numbers

  /** The characters removed before the number test. */
  predicate IsSeparator(c: char) {
    c == ',' || c == '.' || c == ' ' || c == '-'
  }

  /** `s.replace(c, "")` keeps every other character. */
  lemma {:induction false} DeleteChar(s: string, c: char)
    ensures forall x :: x in Text.ReplaceChar(s, c, "") <==> x in s && x != c
  {
    if |s| > 0 {
      DeleteChar(s[1..], c);
      assert s == [s[0]] + s[1..];
    }
  }

  /** The replacements of `cs`'s characters by nothing, one after the
      other in the order given. */
  function DeleteChars(s: string, cs: string): (r: string)
    ensures forall x :: x in r <==> x in s && x !in cs
    decreases |cs|
  {
    if |cs| == 0 then s
    else
      DeleteChar(s, cs[0]);
      DeleteChars(Text.ReplaceChar(s, cs[0], ""), cs[1..])
  }

  /** `name.replace(",", "").replace(".", "").replace(" ", "").replace("-", "")` */
  function RemoveSeparators(s: string): (r: string)
    ensures forall x :: x in r <==> x in s && !IsSeparator(x)
  {
    DeleteChars(s, ",. -")
  }

  /** `s.isdigit()`: non-empty and all digits. */
  predicate IsDigits(s: string) {
    |s| > 0 && forall i :: 0 <= i < |s| ==> Text.IsDigit(s[i])
  }

  /** What the number test accepts, read directly: digits and separators
      only, and at least one digit. */
  predicate NumberLike(s: string) {
    (forall i :: 0 <= i < |s| ==> Text.IsDigit(s[i]) || IsSeparator(s[i]))
    && exists i :: 0 <= i < |s| && Text.IsDigit(s[i])
  }

  lemma NumberTest(s: string)
    ensures IsDigits(RemoveSeparators(s)) <==> NumberLike(s)
  {
    if IsDigits(RemoveSeparators(s)) {
      DigitsAreNumberLike(s);
    }
    if NumberLike(s) {
      NumberLikeIsDigits(s);
    }
  }

  lemma DigitsAreNumberLike(s: string)
    requires IsDigits(RemoveSeparators(s))
    ensures NumberLike(s)
  {
    var r := RemoveSeparators(s);
    assert r[0] in r && Text.IsDigit(r[0]);
    var i :| 0 <= i < |s| && s[i] == r[0];
    forall i | 0 <= i < |s| && !IsSeparator(s[i])
      ensures Text.IsDigit(s[i])
    {
      assert s[i] in r;
    }
  }

  lemma NumberLikeIsDigits(s: string)
    requires NumberLike(s)
    ensures IsDigits(RemoveSeparators(s))
  {
    var r := RemoveSeparators(s);
    var i :| 0 <= i < |s| && Text.IsDigit(s[i]);
    assert s[i] in r;
    forall j | 0 <= j < |r|
      ensures Text.IsDigit(r[j])
    {
      var c := r[j];
      assert c in r;
      assert c in s && !IsSeparator(c);
      var k :| 0 <= k < |s| && s[k] == c;
    }
  }

  // ---------------------------------------------------------------------
  // `^[A-Z]\s+[\d,\.]+$`

  predicate IsNumeral(c: char) {
    Text.IsDigit(c) || c == ',' || c == '.'
  }

  /** The matcher: an upper-case letter, the whitespace run after it (at
      least one character), then numerals to the end (at least one). */
  predicate MatchesLetterNumber(s: string) {
    |s| > 1 && Text.IsUpperAscii(s[0]) &&
    var k := 1 + Text.LeadingSpaces(s[1..]);
    1 < k < |s| && forall i :: k <= i < |s| ==> IsNumeral(s[i])
  }

  /** The pattern read directly: `s` is a letter, the whitespace
      `s[1..k]` and the numerals `s[k..]`. */
  predicate LetterNumberAt(s: string, k: nat) {
    1 < k < |s| && Text.IsUpperAscii(s[0]) && Text.AllSpace(s[1..k])
    && forall i :: k <= i < |s| ==> IsNumeral(s[i])
  }

  lemma LetterNumberMatch(s: string)
    ensures MatchesLetterNumber(s) <==> exists k :: LetterNumberAt(s, k)
  {
    if MatchesLetterNumber(s) {
      var k := 1 + Text.LeadingSpaces(s[1..]);
      assert LetterNumberAt(s, k);
    }
    if exists k :: LetterNumberAt(s, k) {
      var k: nat :| LetterNumberAt(s, k);
      var t := s[1..];
      assert forall i :: 0 <= i < k - 1 ==> Text.IsSpace(t[i]) by {
        assert forall i :: 0 <= i < k - 1 ==> t[i] == s[1..k][i];
      }
      assert !Text.IsSpace(t[k - 1]) by {
        assert t[k - 1] == s[k] && IsNumeral(s[k]);
      }
      assert Text.LeadingSpaces(t) == k - 1;
    }
  }

  // ---------------------------------------------------------------------
  // `^[\d,\.~]+\s*(GW|GWh|MMTPA|MTPA|TPD|TPA|MW|MWh|acres?|lacs?\s*TPA|\+)h?$`,
  // matched without regard to case

  predicate IsQuantityChar(c: char) {
    Text.IsDigit(c) || c == ',' || c == '.' || c == '~'
  }

  /** Length of the leading run of quantity characters. */
  function QuantityRun(s: string): (n: nat)
    ensures n <= |s|
    ensures forall k :: 0 <= k < n ==> IsQuantityChar(s[k])
    ensures n == |s| || !IsQuantityChar(s[n])
  {
    if |s| > 0 && IsQuantityChar(s[0]) then 1 + QuantityRun(s[1..]) else 0
  }

  /** The single-word alternatives of the unit group, lower-cased. */
  const UnitWords: set<string> :=
    {"gw", "gwh", "mmtpa", "mtpa", "tpd", "tpa", "mw", "mwh", "acre", "acres", "+"}

  /** `lacs?\s*tpa` */
  predicate IsLacTpa(u: string) {
    |u| >= 6 && u[..3] == "lac" && u[|u| - 3..] == "tpa" &&
    var mid := u[3..|u| - 3];
    Text.AllSpace(mid) || (|mid| > 0 && mid[0] == 's' && Text.AllSpace(mid[1..]))
  }

  predicate IsUnitAlternative(u: string) {
    u in UnitWords || IsLacTpa(u)
  }

  /** The unit group followed by the optional `h`, on lower-cased text. */
  predicate IsUnit(u: string) {
    IsUnitAlternative(u) || (|u| > 0 && u[|u| - 1] == 'h' && IsUnitAlternative(u[..|u| - 1]))
  }

  /** The matcher: the quantity run (at least one character), the
      whitespace run after it, then a unit, in either case, to the end. */
  predicate MatchesUnit(s: string) {
    var i := QuantityRun(s);
    var j := i + Text.LeadingSpaces(s[i..]);
    i > 0 && IsUnit(Text.Lower(s[j..]))
  }

  /** The pattern read directly: quantity characters `s[..i]`, whitespace
      `s[i..j]` and a unit `s[j..]`. */
  predicate UnitAt(s: string, i: nat, j: nat) {
    0 < i <= j <= |s| && (forall k :: 0 <= k < i ==> IsQuantityChar(s[k]))
    && Text.AllSpace(s[i..j]) && IsUnit(Text.Lower(s[j..]))
  }

  lemma UnitWordStart(u: string)
    requires u in UnitWords
    ensures |u| > 0 && u[0] in "gmta+"
  {
  }

  /** A unit begins with a letter or `+`: neither a quantity character nor
      whitespace. */
  lemma UnitStart(u: string)
    requires IsUnit(Text.Lower(u))
    ensures |u| > 0 && !IsQuantityChar(u[0]) && !Text.IsSpace(u[0])
  {
    var l := Text.Lower(u);
    LowerUnitStart(l);
    assert l[0] == Text.LowerChar(u[0]);
    StartChar(u[0]);
  }

  /** A lower-cased unit starts with one of `gmtal+`. */
  lemma LowerUnitStart(l: string)
    requires IsUnit(l)
    ensures |l| > 0 && l[0] in "gmtal+"
  {
    if IsUnitAlternative(l) {
      AlternativeStart(l);
    } else {
      var a := l[..|l| - 1];
      AlternativeStart(a);
      assert l[0] == a[0];
    }
  }

  lemma AlternativeStart(a: string)
    requires IsUnitAlternative(a)
    ensures |a| > 0 && a[0] in "gmtal+"
  {
    if a in UnitWords {
      UnitWordStart(a);
    } else {
      assert a[..3][0] == 'l';
    }
  }

  /** A character whose lower case starts a unit is no quantity character
      and no whitespace. */
  lemma StartChar(c: char)
    requires Text.LowerChar(c) in "gmtal+"
    ensures !IsQuantityChar(c) && !Text.IsSpace(c)
  {
  }

  lemma UnitMatch(s: string)
    ensures MatchesUnit(s) <==> exists i, j :: UnitAt(s, i, j)
  {
    if MatchesUnit(s) {
      MatchIsUnitAt(s);
    }
    if exists i, j :: UnitAt(s, i, j) {
      var i: nat, j: nat :| UnitAt(s, i, j);
      UnitAtMatches(s, i, j);
    }
  }

  lemma UnitAtMatches(s: string, i: nat, j: nat)
    requires UnitAt(s, i, j)
    ensures MatchesUnit(s)
  {
    var u := Text.Lower(s[j..]);
    assert IsUnit(u);
    UnitAtIsMatch(s, i, j);
    assert Text.Lower(s[QuantityRun(s) + Text.LeadingSpaces(s[QuantityRun(s)..])..]) == u;
  }

  lemma MatchIsUnitAt(s: string)
    requires MatchesUnit(s)
    ensures UnitAt(s, QuantityRun(s), QuantityRun(s) + Text.LeadingSpaces(s[QuantityRun(s)..]))
  {
    var i := QuantityRun(s);
    var j := i + Text.LeadingSpaces(s[i..]);
    assert s[i..j] == s[i..][..j - i];
  }

  /** The split of a unit name is the one the matcher finds: the quantity
      run and the whitespace run are both maximal. */
  lemma UnitAtIsMatch(s: string, i: nat, j: nat)
    requires UnitAt(s, i, j)
    ensures QuantityRun(s) == i && i + Text.LeadingSpaces(s[i..]) == j
  {
    UnitStart(s[j..]);
    assert s[j..][0] == s[j];
    assert !IsQuantityChar(s[i]) by {
      if i < j {
        assert s[i..j][0] == s[i];
      }
    }
    assert QuantityRun(s) == i;
    var t := s[i..];
    assert forall k :: 0 <= k < j - i ==> Text.IsSpace(t[k]) by {
      assert forall k :: 0 <= k < j - i ==> t[k] == s[i..j][k];
    }
    assert !Text.IsSpace(t[j - i]) by {
      assert t[j - i] == s[j];
    }
    assert Text.LeadingSpaces(t) == j - i;
  }

  // ---------------------------------------------------------------------
  // The node test

  /** The markers whose presence in a name counts as a currency. */
  const CurrencyMarkers: seq<string> :=
    ["$", "\U{20B9}", "Rs", "USD", "INR", "crore", "billion", "million", "lakh"]

  predicate HasCurrency(name: string) {
    exists m :: m in CurrencyMarkers && Text.Contains(name, m)
  }

  /** `(node.context or "").strip()` */
  function ContextText(n: Node): string {
    Text.Strip(n.context.GetOr(""))
  }

  /** `is_meaningful_node`: the tests in the order the script applies them. */
  function IsMeaningfulNode(n: Node): (r: bool)
    ensures r ==> |Text.Strip(n.name)| >= 3
  {
    var name, context := Text.Strip(n.name), ContextText(n);
    if |name| < 3 then false
    else if IsDigits(RemoveSeparators(name)) then false
    else if MatchesLetterNumber(name) then false
    else if MatchesUnit(name) && |context| < 10 then false
    else if n.ntype == DollarAmount && !HasCurrency(name) && |context| <= 5 then false
    else true
  }

  /** The node test in terms of the patterns read directly: a node is
      meaningful exactly when its stripped name has at least three
      characters, is not a bare number, not a letter followed by a number,
      not a bare quantity with a unit unless the context has ten characters
      or more, and, for a dollar amount, carries a currency marker or more
      than five characters of context. */
  lemma MeaningfulIff(n: Node)
    ensures IsMeaningfulNode(n) <==>
      var name, context := Text.Strip(n.name), ContextText(n);
      |name| >= 3
      && !NumberLike(name)
      && !(exists k :: LetterNumberAt(name, k))
      && !((exists i, j :: UnitAt(name, i, j)) && |context| < 10)
      && !(n.ntype == DollarAmount && !HasCurrency(name) && |context| <= 5)
  {
    var name := Text.Strip(n.name);
    NumberTest(name);
    LetterNumberMatch(name);
    UnitMatch(name);
  }

  /** More context never turns a meaningful node into a meaningless one:
      the context only ever rescues a name. */
  lemma ContextOnlyHelps(n: Node, more: Option<string>)
    requires IsMeaningfulNode(n)
    requires |Text.Strip(more.GetOr(""))| >= |ContextText(n)|
    ensures IsMeaningfulNode(n.(context := more))
  {
  }

  /** The three examples the script gives for the letter-and-number
      pattern are rejected, whatever their type and context. */
  lemma LetterNumberExamples(id: string, t: NodeType, context: Option<string>)
    ensures !IsMeaningfulNode(Node(id, t, "H 10", context))
    ensures !IsMeaningfulNode(Node(id, t, "J 5,74,956", context))
    ensures !IsMeaningfulNode(Node(id, t, "C 1,458", context))
  {
    RejectsExample(Node(id, t, "H 10", context));
    RejectsExample(Node(id, t, "J 5,74,956", context));
    RejectsExample(Node(id, t, "C 1,458", context));
  }

  lemma RejectsExample(n: Node)
    requires n.name in {"H 10", "J 5,74,956", "C 1,458"}
    ensures !IsMeaningfulNode(n)
  {
    assert n.name[1] == ' ' && Text.IsUpperAscii(n.name[0]);
    RejectsLetterNumber(n);
  }

  lemma RejectsLetterNumber(n: Node)
    requires |n.name| >= 3 && n.name[1] == ' ' && Text.IsUpperAscii(n.name[0])
    requires forall i :: 2 <= i < |n.name| ==> IsNumeral(n.name[i])
    ensures !IsMeaningfulNode(n)
  {
    var s := n.name;
    assert Text.IsStripped(s);
    Text.StripOfStripped(s);
    assert LetterNumberAt(s, 2);
    LetterNumberMatch(s);
  }

  // ---------------------------------------------------------------------
  // The graph

  /** Both endpoints are among `ids`. */
  predicate LinksWithin(r: Relationship, ids: set<string>) {
    r.source in ids && r.target in ids
  }

  /** `[r for r in rels if r.source in ids and r.target in ids]` */
  function RelationshipsWithin(rels: seq<Relationship>, ids: set<string>): seq<Relationship> {
    Seqs.Filter(rels, (r: Relationship) => LinksWithin(r, ids))
  }

  /** Every id some relationship of `rels` starts or ends at. */
  function Endpoints(rels: seq<Relationship>): (r: set<string>)
    ensures forall id :: id in r <==>
      exists i :: 0 <= i < |rels| && (rels[i].source == id || rels[i].target == id)
  {
    (set i | 0 <= i < |rels| :: rels[i].source) + (set i | 0 <= i < |rels| :: rels[i].target)
  }

  /** `[n for n in nodes if n.id in ids]` */
  function NodesWithin(nodes: seq<Node>, ids: set<string>): seq<Node> {
    Seqs.Filter(nodes, (n: Node) => n.id in ids)
  }

  /** The filtering steps of the script's `main`, for a node test `keep`:
      the nodes that pass it, the relationships between them, and those of
      the passing nodes some kept relationship touches. */
  function CleanWith(g: Graph, keep: Node -> bool): (r: Graph)
    ensures r.schemaVersion == g.schemaVersion
    ensures |r.nodes| <= |g.nodes| && |r.relationships| <= |g.relationships|
  {
    var kept := Seqs.Filter(g.nodes, keep);
    var rels := RelationshipsWithin(g.relationships, NodeIdSet(kept));
    Graph(g.schemaVersion, NodesWithin(kept, Endpoints(rels)), rels)
  }

  /** The script's clean-up, with `is_meaningful_node` as the test. */
  function CleanGraph(g: Graph): (r: Graph)
    ensures r.schemaVersion == g.schemaVersion
    ensures |r.nodes| <= |g.nodes| && |r.relationships| <= |g.relationships|
  {
    CleanWith(g, IsMeaningfulNode)
  }

  /** Some node of `nodes` that passes `keep` has this id. */
  predicate KeptId(nodes: seq<Node>, keep: Node -> bool, id: string) {
    exists i :: 0 <= i < |nodes| && nodes[i].id == id && keep(nodes[i])
  }

  lemma KeptIds(nodes: seq<Node>, keep: Node -> bool)
    ensures forall id :: id in NodeIdSet(Seqs.Filter(nodes, keep)) <==> KeptId(nodes, keep, id)
  {
    var m := Seqs.Filter(nodes, keep);
    forall id | id in NodeIdSet(m)
      ensures KeptId(nodes, keep, id)
    {
      var i :| 0 <= i < |m| && m[i].id == id;
      assert m[i] in m;
      var k :| 0 <= k < |nodes| && nodes[k] == m[i];
    }
    forall id | KeptId(nodes, keep, id)
      ensures id in NodeIdSet(m)
    {
      var i :| 0 <= i < |nodes| && nodes[i].id == id && keep(nodes[i]);
      assert nodes[i] in m;
      var k :| 0 <= k < |m| && m[k] == nodes[i];
    }
  }

  /** A relationship is kept exactly when it is in the input and both its
      endpoints are ids of passing nodes. */
  lemma CleanRelationshipsIff(g: Graph, keep: Node -> bool, r: Relationship)
    ensures r in CleanWith(g, keep).relationships <==>
      r in g.relationships && KeptId(g.nodes, keep, r.source) && KeptId(g.nodes, keep, r.target)
  {
    KeptIds(g.nodes, keep);
  }

  /** A node is kept exactly when it is a passing node of the input and
      some kept relationship starts or ends at it. */
  lemma CleanNodesIff(g: Graph, keep: Node -> bool, n: Node)
    ensures n in CleanWith(g, keep).nodes <==>
      n in g.nodes && keep(n) && n.id in Endpoints(CleanWith(g, keep).relationships)
  {
  }

  /** Both steps keep the input's order: the nodes and the relationships of
      the result are subsequences of the input's. */
  lemma CleanSubsequences(g: Graph, keep: Node -> bool)
    ensures Seqs.IsSubsequence(CleanWith(g, keep).nodes, g.nodes)
    ensures Seqs.IsSubsequence(CleanWith(g, keep).relationships, g.relationships)
  {
    var kept := Seqs.Filter(g.nodes, keep);
    var rels := RelationshipsWithin(g.relationships, NodeIdSet(kept));
    Seqs.FilterIsSubsequence(g.relationships, (r: Relationship) => LinksWithin(r, NodeIdSet(kept)));
    Seqs.FilterFilterIsSubsequence(g.nodes, keep, (n: Node) => n.id in Endpoints(rels));
  }

  /** Every kept relationship names kept nodes: the cleaned graph has no
      dangling reference. */
  lemma CleanResolves(g: Graph, keep: Node -> bool)
    ensures ReferencesResolve(CleanWith(g, keep))
  {
    var c := CleanWith(g, keep);
    forall r | r in c.relationships
      ensures Resolves(r, c.nodes)
    {
      var j :| 0 <= j < |c.relationships| && c.relationships[j] == r;
      EndpointKept(g, keep, r.source, j);
      EndpointKept(g, keep, r.target, j);
    }
  }

  lemma EndpointKept(g: Graph, keep: Node -> bool, id: string, j: nat)
    requires j < |CleanWith(g, keep).relationships|
    requires id == CleanWith(g, keep).relationships[j].source || id == CleanWith(g, keep).relationships[j].target
    ensures id in NodeIdSet(CleanWith(g, keep).nodes)
  {
    var c := CleanWith(g, keep);
    var kept := Seqs.Filter(g.nodes, keep);
    var r := c.relationships[j];
    assert r in c.relationships;
    assert id in NodeIdSet(kept);
    var i :| 0 <= i < |kept| && kept[i].id == id;
    assert kept[i] in kept;
    assert id in Endpoints(c.relationships);
    assert kept[i] in c.nodes;
    var k :| 0 <= k < |c.nodes| && c.nodes[k] == kept[i];
  }

  /** No orphan is left: every kept node is an endpoint of a kept
      relationship. */
  lemma CleanNoOrphans(g: Graph, keep: Node -> bool)
    ensures forall n :: n in CleanWith(g, keep).nodes ==> n.id in Endpoints(CleanWith(g, keep).relationships)
  {
  }

  /** Cleaning a cleaned graph changes nothing. */
  lemma CleanIdempotent(g: Graph, keep: Node -> bool)
    ensures CleanWith(CleanWith(g, keep), keep) == CleanWith(g, keep)
  {
    var c := CleanWith(g, keep);
    var kept := Seqs.Filter(g.nodes, keep);
    forall i | 0 <= i < |c.nodes|
      ensures keep(c.nodes[i])
    {
      assert c.nodes[i] in c.nodes;
      assert c.nodes[i] in kept;
    }
    Seqs.FilterKeepsAll(c.nodes, keep);
    var ids := NodeIdSet(c.nodes);
    CleanResolves(g, keep);
    forall i | 0 <= i < |c.relationships|
      ensures LinksWithin(c.relationships[i], ids)
    {
      assert c.relationships[i] in c.relationships;
    }
    Seqs.FilterKeepsAll(c.relationships, (r: Relationship) => LinksWithin(r, ids));
    var ends := Endpoints(c.relationships);
    forall i | 0 <= i < |c.nodes|
      ensures c.nodes[i].id in ends
    {
      assert c.nodes[i] in c.nodes;
    }
    Seqs.FilterKeepsAll(c.nodes, (n: Node) => n.id in ends);
  }
}
