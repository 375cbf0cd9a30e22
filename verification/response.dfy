/** Repair of a backend's raw answer before it is read as a graph: cutting
    the JSON object out of the text, fixing node objects whose id was
    written into a key, and bringing relation names to the accepted
    vocabulary. The Ollama and OpenAI backends share the node and relation
    repair and the two tables word for word; they differ only in the
    OpenAI backend's removal of a Markdown code fence. */
module ResponseRepair {
  import opened Outcomes
  import opened Json
  import Text
  import Seqs

  // ---------------------------------------------------------------------
  // Cutting out the JSON object

  /** The text holds a `{` with a `}` somewhere after it. */
  predicate HasBraces(c: string) {
    exists i, j :: 0 <= i < j < |c| && c[i] == '{' && c[j] == '}'
  }

  /** `r` is the part of `c` from its first `{` to its last `}`. */
  predicate IsOutermostSpan(c: string, r: string, a: nat) {
    Text.OccursAt(c, r, a) && |r| >= 2 && r[0] == '{' && r[|r| - 1] == '}'
    && (forall i :: 0 <= i < a ==> c[i] != '{')
    && (forall j :: a + |r| <= j < |c| ==> c[j] != '}')
  }

  /** Index of the first `{` of `c` that a `}` follows. */
  function SpanStart(c: string): (a: nat)
    requires HasBraces(c)
    ensures a < |c| && c[a] == '{' && forall i :: 0 <= i < a ==> c[i] != '{'
  {
    var i, j :| 0 <= i < j < |c| && c[i] == '{' && c[j] == '}';
    Text.OccursAtChar(c, '{', i);
    var a := Text.Find(c, "{");
    Text.OccursAtChar(c, '{', a);
    assert forall k :: 0 <= k < a ==> c[k] != '{' by {
      forall k | 0 <= k < a
        ensures c[k] != '{'
      {
        Text.OccursAtChar(c, '{', k);
      }
    }
    a
  }

  /** The first-`{`-to-last-`}` search of both backends, on text already
      stripped. */
  function JsonSpan(c: string): (r: string)
    ensures !HasBraces(c) ==> r == c
    ensures HasBraces(c) ==> IsOutermostSpan(c, r, SpanStart(c))
  {
    var first := Text.Find(c, "{");
    var last := Text.RFind(c, "}");
    SpanSearch(c);
    if first != -1 && last > first then c[first..last + 1] else c
  }

  /** The two searches find a span exactly when the text has braces, and
      then they bound the outermost one. */
  lemma SpanSearch(c: string)
    ensures var first, last := Text.Find(c, "{"), Text.RFind(c, "}");
            (first != -1 && last > first <==> HasBraces(c)) &&
            (HasBraces(c) ==>
               (first == SpanStart(c) && last < |c| && c[last] == '}' &&
                forall j :: last < j < |c| ==> c[j] != '}'))
  {
    var first, last := Text.Find(c, "{"), Text.RFind(c, "}");
    if first != -1 {
      Text.OccursAtChar(c, '{', first);
    }
    if last != -1 {
      Text.OccursAtChar(c, '}', last);
    }
    if HasBraces(c) {
      var i, j :| 0 <= i < j < |c| && c[i] == '{' && c[j] == '}';
      Text.OccursAtChar(c, '{', i);
      Text.OccursAtChar(c, '}', j);
      var a := SpanStart(c);
      Text.OccursAtChar(c, '{', a);
      forall k | 0 <= k < first
        ensures c[k] != '{'
      {
        Text.OccursAtChar(c, '{', k);
      }
      forall k | last < k < |c|
        ensures c[k] != '}'
      {
        Text.OccursAtChar(c, '}', k);
      }
    }
  }

  /** `_extract_json` of the Ollama backend. */
  function ExtractJson(content: string): (r: string)
    ensures !HasBraces(Text.Strip(content)) ==> r == Text.Strip(content)
    ensures HasBraces(Text.Strip(content)) ==>
              IsOutermostSpan(Text.Strip(content), r, SpanStart(Text.Strip(content)))
  {
    JsonSpan(Text.Strip(content))
  }

  /** A span from a `{` to a `}` is its own outermost span. */
  lemma SpanOfSpan(r: string)
    requires |r| >= 2 && r[0] == '{' && r[|r| - 1] == '}'
    ensures JsonSpan(r) == r
  {
    assert HasBraces(r) by {
      assert r[0] == '{' && r[|r| - 1] == '}';
    }
    var a := SpanStart(r);
    var s := JsonSpan(r);
    assert a == 0;
    assert r[|r| - 1] == '}';
    assert |s| == |r|;
    assert s == r[..|s|];
  }

  /** Cutting out the JSON object twice gives what cutting once gives. */
  lemma ExtractJsonIdempotent(content: string)
    ensures ExtractJson(ExtractJson(content)) == ExtractJson(content)
  {
    var c := Text.Strip(content);
    var r := ExtractJson(content);
    if HasBraces(c) {
      assert Text.IsStripped(r) by {
        assert r[0] == '{' && r[|r| - 1] == '}';
      }
      Text.StripOfStripped(r);
      SpanOfSpan(r);
    } else {
      Text.StripOfStripped(c);
    }
  }

  // ---------------------------------------------------------------------
  // Code fences

  /** The fence removal of the OpenAI backend, on stripped text: a text
      opening with three backquotes loses its first line, and its last
      line too when that line is only a closing fence. */
  function StripFences(c: string): (r: string)
    ensures !Text.StartsWith(c, "```") ==> r == c
    ensures Text.StartsWith(c, "```") ==> Text.IsStripped(r)
  {
    if Text.StartsWith(c, "```") then
      var lines := Text.Split(c, '\n');
      var body := if Text.StartsWith(lines[0], "```") then lines[1..] else lines;
      var inner := if |body| > 0 && Text.Strip(body[|body| - 1]) == "```" then body[..|body| - 1] else body;
      Text.Strip(Text.Join(inner, "\n"))
    else c
  }

  /** `_extract_json` of the OpenAI backend: the Ollama extraction, applied
      to the answer once its fences are removed. */
  function ExtractJsonFenced(content: string): (r: string)
    ensures !Text.StartsWith(Text.Strip(content), "```") ==> r == ExtractJson(content)
    ensures Text.StartsWith(Text.Strip(content), "```") ==> r == ExtractJson(StripFences(Text.Strip(content)))
  {
    var c := Text.Strip(content);
    if Text.StartsWith(c, "```") then
      Text.StripOfStripped(StripFences(c));
      JsonSpan(StripFences(c))
    else
      Text.StripOfStripped(c);
      JsonSpan(StripFences(c))
  }

  /** The last line of a text. */
  function LastLine(s: string): string {
    var lines := Text.Split(s, '\n');
    lines[|lines| - 1]
  }

  /** The lines of a fenced answer: the opening fence, the lines of the
      body, the closing fence. */
  lemma FencedLines(tag: string, body: string)
    requires '\n' !in tag
    ensures Text.Split("```" + tag + "\n" + body + "\n```", '\n')
            == ["```" + tag] + (Text.Split(body, '\n') + ["```"])
  {
    var open := "```" + tag;
    assert '\n' !in open by {
      assert forall i :: 0 <= i < |open| ==> open[i] == '`' || open[i] in tag;
    }
    Text.SplitNoSeparator(open, '\n');
    Text.SplitNoSeparator("```", '\n');
    assert open + "\n" + body + "\n```" == open + ['\n'] + (body + ['\n'] + "```");
    Text.SplitConcat(open, '\n', body + ['\n'] + "```");
    Text.SplitConcat(body, '\n', "```");
  }

  /** Removing the fences of a fenced answer leaves the body, stripped. */
  lemma FencesRemoved(tag: string, body: string)
    requires '\n' !in tag
    ensures StripFences("```" + tag + "\n" + body + "\n```") == Text.Strip(body)
  {
    var open := "```" + tag;
    var c := open + "\n" + body + "\n```";
    assert Text.StartsWith(c, "```") by {
      assert c[..3] == "```";
    }
    FencedLines(tag, body);
    var pieces := Text.Split(body, '\n');
    var lines := Text.Split(c, '\n');
    assert Text.StartsWith(lines[0], "```") by {
      assert lines[0] == open && open[..3] == "```";
    }
    var rest := lines[1..];
    assert rest == pieces + ["```"];
    Text.StripOfStripped("```");
    assert rest[..|rest| - 1] == pieces;
    Text.JoinSplit(body, '\n');
  }

  /** The lines of an answer that opens a fence: the opening line, then
      the lines of the rest. */
  lemma OpenedLines(tag: string, rest: string)
    requires '\n' !in tag
    ensures Text.Split("```" + tag + "\n" + rest, '\n') == ["```" + tag] + Text.Split(rest, '\n')
  {
    var open := "```" + tag;
    assert '\n' !in open by {
      assert forall i :: 0 <= i < |open| ==> open[i] == '`' || open[i] in tag;
    }
    Text.SplitNoSeparator(open, '\n');
    assert open + "\n" + rest == open + ['\n'] + rest;
    Text.SplitConcat(open, '\n', rest);
  }

  /** An opening fence without a closing one, as in a truncated answer,
      loses only its first line: the rest is kept, stripped. */
  lemma UnclosedFenceKept(tag: string, body: string)
    requires '\n' !in tag
    requires Text.Strip(LastLine(body)) != "```"
    ensures StripFences("```" + tag + "\n" + body) == Text.Strip(body)
  {
    var open := "```" + tag;
    var c := open + "\n" + body;
    assert Text.StartsWith(c, "```") by {
      assert c[..3] == "```";
    }
    OpenedLines(tag, body);
    var lines := Text.Split(c, '\n');
    assert Text.StartsWith(lines[0], "```") by {
      assert lines[0] == open && open[..3] == "```";
    }
    assert lines[1..] == Text.Split(body, '\n');
    Text.JoinSplit(body, '\n');
  }

  /** A fenced answer gives what the Ollama backend gives for the text
      between the fences. */
  lemma FencedAnswer(tag: string, body: string)
    requires '\n' !in tag
    ensures ExtractJsonFenced("```" + tag + "\n" + body + "\n```") == ExtractJson(body)
  {
    var c := "```" + tag + "\n" + body + "\n```";
    assert Text.IsStripped(c) by {
      assert c[0] == '`' && c[|c| - 1] == '`';
    }
    Text.StripOfStripped(c);
    FencesRemoved(tag, body);
  }

  /** A fenced answer on a single line loses everything: the one line is
      the opening fence. */
  lemma SingleLineFenceIsEmpty(content: string)
    requires Text.StartsWith(Text.Strip(content), "```")
    requires '\n' !in Text.Strip(content)
    ensures ExtractJsonFenced(content) == ""
  {
    var c := Text.Strip(content);
    Text.SplitNoSeparator(c, '\n');
    assert Text.Split(c, '\n')[0] == c;
  }

  // ---------------------------------------------------------------------
  // Relation names

  /** `VALID_RELATIONS` */
  const ValidRelations: set<string> := {
    "OWNS", "HAS_RISK", "REPORTS_AMOUNT", "OPERATES", "IMPACTED_BY",
    "DECLINED_DUE_TO", "SUPPORTED_BY", "PARTNERED_WITH", "JOINT_VENTURE_WITH",
    "RAISED_CAPITAL", "INVESTED_IN", "COMMITTED_CAPEX", "TARGETS",
    "PLANS_TO", "ON_TRACK_TO", "COMMITTED_TO", "COMPLIES_WITH", "SUBJECT_TO"}

  /** `RELATION_MAPPING`: names a backend tends to produce instead of an
      accepted one. */
  const RelationMapping: map<string, string> := map[
    "SUBSIDIARY" := "OWNS",
    "SUBSIDIARY_OF" := "OWNS",
    "PART_OF" := "OWNS",
    "PART_OF_GROUP" := "OWNS",
    "BELONGS_TO" := "OWNS",
    "JOINT_VENTURE" := "JOINT_VENTURE_WITH",
    "JV" := "JOINT_VENTURE_WITH",
    "PARTNER" := "PARTNERED_WITH",
    "FACES_RISK" := "HAS_RISK",
    "REPORTED" := "REPORTS_AMOUNT",
    "REVENUE" := "REPORTS_AMOUNT"]

  /** Every replacement name is an accepted name. */
  lemma MappingIntoValid()
    ensures forall k :: k in RelationMapping ==> RelationMapping[k] in ValidRelations
  {
  }

  /** `.upper().replace(" ", "_")`: each letter upper-cased, each space an
      underscore, everything else as it is. */
  function NormalizeName(s: string): (r: string)
    ensures |r| == |s|
    ensures forall i :: 0 <= i < |s| ==> r[i] == (if s[i] == ' ' then '_' else Text.UpperChar(s[i]))
  {
    Text.ReplaceChar(Text.Upper(s), ' ', "_")
  }

  /** Capital letters and underscores only: what normalising leaves alone. */
  predicate IsNormalName(s: string) {
    forall i :: 0 <= i < |s| ==> Text.IsUpperAscii(s[i]) || s[i] == '_'
  }

  lemma NormalNameUnchanged(s: string)
    requires IsNormalName(s)
    ensures NormalizeName(s) == s
  {
    assert Text.Upper(s) == s;
  }

  // The eighteen accepted names are checked in three groups of six only to
  // keep each proof small for the solver.

  lemma NamesNormal1(s: string)
    requires s == "OWNS" || s == "HAS_RISK" || s == "REPORTS_AMOUNT" || s == "OPERATES" || s == "IMPACTED_BY" || s == "DECLINED_DUE_TO"
    ensures IsNormalName(s)
  {
  }

  lemma NamesNormal2(s: string)
    requires s == "SUPPORTED_BY" || s == "PARTNERED_WITH" || s == "JOINT_VENTURE_WITH" || s == "RAISED_CAPITAL" || s == "INVESTED_IN" || s == "COMMITTED_CAPEX"
    ensures IsNormalName(s)
  {
  }

  lemma NamesNormal3(s: string)
    requires s == "TARGETS" || s == "PLANS_TO" || s == "ON_TRACK_TO" || s == "COMMITTED_TO" || s == "COMPLIES_WITH" || s == "SUBJECT_TO"
    ensures IsNormalName(s)
  {
  }

  /** Every accepted name is already normal. */
  lemma ValidNamesNormal(s: string)
    requires s in ValidRelations
    ensures IsNormalName(s)
  {
    if s == "OWNS" || s == "HAS_RISK" || s == "REPORTS_AMOUNT" || s == "OPERATES" || s == "IMPACTED_BY" || s == "DECLINED_DUE_TO" {
      NamesNormal1(s);
    } else if s == "SUPPORTED_BY" || s == "PARTNERED_WITH" || s == "JOINT_VENTURE_WITH" || s == "RAISED_CAPITAL" || s == "INVESTED_IN" || s == "COMMITTED_CAPEX" {
      NamesNormal2(s);
    } else {
      NamesNormal3(s);
    }
  }

  /** The accepted name a relation name stands for, if any. */
  function CanonicalRelation(s: string): (r: Option<string>)
    ensures r.Some? ==> r.value in ValidRelations
    // the normalised name itself when it is accepted, else its mapping
    ensures NormalizeName(s) in ValidRelations ==> r == Some(NormalizeName(s))
    ensures NormalizeName(s) !in ValidRelations && NormalizeName(s) in RelationMapping ==>
              r == Some(RelationMapping[NormalizeName(s)])
    // and nothing exactly when the normalised name is in neither table
    ensures r.None? <==> NormalizeName(s) !in ValidRelations && NormalizeName(s) !in RelationMapping
  {
    MappingIntoValid();
    var n := NormalizeName(s);
    if n in ValidRelations then Some(n)
    else if n in RelationMapping then Some(RelationMapping[n])
    else None
  }

  /** An accepted name stands for itself. */
  lemma CanonicalOfValid(s: string)
    requires s in ValidRelations
    ensures CanonicalRelation(s) == Some(s)
  {
    ValidNamesNormal(s);
    NormalNameUnchanged(s);
  }

  /** What one entry of the relationship list becomes: kept with its
      relation renamed, dropped, or an error when its relation is not a
      string (`.upper()` on a non-string raises). */
  function NormalizeRel(rel: Value): (r: Result<Option<Value>>)
    ensures r.Err? <==> rel.Object? && Has(rel.fields, "relation") && !Get(rel.fields, "relation").value.Str?
    ensures r.Err? ==> r.error == RelationNotString
    // a string relation that stands for an accepted name is kept
    ensures (rel.Object? && Has(rel.fields, "relation") && Get(rel.fields, "relation").value.Str?
             && CanonicalRelation(Get(rel.fields, "relation").value.s).Some?) ==> r.Ok? && r.value.Some?
    ensures r.Ok? && r.value.Some? ==>
              rel.Object? && Has(rel.fields, "relation") && Get(rel.fields, "relation").value.Str?
              && CanonicalRelation(Get(rel.fields, "relation").value.s).Some?
              && r.value.value == Object(Set(rel.fields, "relation",
                   Str(CanonicalRelation(Get(rel.fields, "relation").value.s).value)))
  {
    if rel.Object? && Has(rel.fields, "relation") then
      match Get(rel.fields, "relation").value
      case Str(s) =>
        (match CanonicalRelation(s)
         case Some(n) => Ok(Some(Object(Set(rel.fields, "relation", Str(n)))))
         case None => Ok(None))
      case _ => Err(RelationNotString)
    else Ok(None)
  }

  /** Lower case is normalised before the mapping is consulted: "jv" is
      kept as `JOINT_VENTURE_WITH`. */
  lemma NormalizeRelMapped()
    ensures NormalizeRel(Object([("relation", Str("jv"))])) == Ok(Some(Object([("relation", Str("JOINT_VENTURE_WITH"))])))
  {
    assert NormalizeName("jv") == "JV";
    assert "JV" !in ValidRelations;
    NormalizeRelOfOne("jv", "JOINT_VENTURE_WITH");
  }

  /** "Owns" is accepted once upper-cased. */
  lemma NormalizeRelUpper()
    ensures NormalizeRel(Object([("relation", Str("Owns"))])) == Ok(Some(Object([("relation", Str("OWNS"))])))
  {
    assert NormalizeName("Owns") == "OWNS";
    NormalizeRelOfOne("Owns", "OWNS");
  }

  /** A one-key object whose relation stands for `n` becomes the object
      holding `n`. */
  lemma NormalizeRelOfOne(s: string, n: string)
    requires CanonicalRelation(s) == Some(n)
    ensures NormalizeRel(Object([("relation", Str(s))])) == Ok(Some(Object([("relation", Str(n))])))
  {
    assert Set([("relation", Str(s))], "relation", Str(n)) == [("relation", Str(n))];
  }

  /** An object whose relation is a string holding an accepted name. */
  predicate HasValidRelation(v: Value) {
    v.Object? && Has(v.fields, "relation") && Get(v.fields, "relation").value.Str?
    && Get(v.fields, "relation").value.s in ValidRelations
  }

  /** The loop of `_normalize_relations` over the list. */
  function NormalizeRels(items: seq<Value>): (r: Result<seq<Value>>)
    ensures r.Ok? ==> |r.value| <= |items|
    ensures r.Ok? ==> forall j :: 0 <= j < |r.value| ==> HasValidRelation(r.value[j])
    ensures r.Err? ==> r.error == RelationNotString
  {
    if |items| == 0 then Ok([])
    else
      var init :- NormalizeRels(items[..|items| - 1]);
      var one :- NormalizeRel(items[|items| - 1]);
      match one
      case Some(v) =>
        assert HasValidRelation(v);
        Ok(init + [v])
      case None => Ok(init)
  }

  /** An entry the loop keeps. */
  predicate Kept(v: Value) {
    NormalizeRel(v).Ok? && NormalizeRel(v).value.Some?
  }

  function Renamed(v: Value): Value
    requires Kept(v)
  {
    NormalizeRel(v).value.value
  }

  function RenameAll(s: seq<Value>): (r: seq<Value>)
    requires forall i :: 0 <= i < |s| ==> Kept(s[i])
    ensures |r| == |s| && forall i :: 0 <= i < |s| ==> r[i] == Renamed(s[i])
  {
    seq(|s|, i requires 0 <= i < |s| => Renamed(s[i]))
  }

  /** Some entry of the list is an object whose relation is not a string. */
  predicate SomeRelationNotString(items: seq<Value>) {
    exists i :: 0 <= i < |items| && NormalizeRel(items[i]).Err?
  }

  /** The loop fails exactly when some entry's relation is not a string. */
  lemma {:induction false} NormalizeRelsFails(items: seq<Value>)
    ensures NormalizeRels(items).Err? <==> SomeRelationNotString(items)
  {
    if |items| > 0 {
      var init, last := items[..|items| - 1], items[|items| - 1];
      NormalizeRelsFails(init);
      assert forall i :: 0 <= i < |init| ==> items[i] == init[i];
      if NormalizeRels(init).Err? {
        var i :| 0 <= i < |init| && NormalizeRel(init[i]).Err?;
        assert NormalizeRel(items[i]).Err?;
      }
    }
  }

  /** The loop keeps, in order, the entries whose relation is an accepted
      name or stands for one, renamed to it. */
  lemma {:induction false} NormalizeRelsFilters(items: seq<Value>)
    requires NormalizeRels(items).Ok?
    ensures NormalizeRels(items).value == RenameAll(Seqs.Filter(items, Kept))
  {
    if |items| > 0 {
      var init, last := items[..|items| - 1], items[|items| - 1];
      NormalizeRelsSnoc(items);
      NormalizeRelsFilters(init);
      assert items == init + [last];
      var f := Seqs.Filter(init, Kept);
      if Kept(last) {
        assert Seqs.Filter(items, Kept) == f + [last];
        RenameAllSnoc(f, last);
      } else {
        assert Seqs.Filter(items, Kept) == f;
      }
    }
  }

  /** One more entry: the loop's result on the entries before it, then the
      entry renamed when it is kept. */
  lemma NormalizeRelsSnoc(items: seq<Value>)
    requires |items| > 0 && NormalizeRels(items).Ok?
    ensures NormalizeRels(items[..|items| - 1]).Ok?
    ensures NormalizeRels(items).value ==
              NormalizeRels(items[..|items| - 1]).value + (if Kept(items[|items| - 1]) then [Renamed(items[|items| - 1])] else [])
  {
    var init, last := items[..|items| - 1], items[|items| - 1];
    var one := NormalizeRel(last);
    assert NormalizeRels(init).Ok? && one.Ok?;
    if one.value.Some? {
      assert NormalizeRels(items).value == NormalizeRels(init).value + [one.value.value];
    } else {
      assert NormalizeRels(items).value == NormalizeRels(init).value;
    }
  }

  lemma RenameAllSnoc(s: seq<Value>, x: Value)
    requires (forall i :: 0 <= i < |s| ==> Kept(s[i])) && Kept(x)
    ensures RenameAll(s + [x]) == RenameAll(s) + [Renamed(x)]
  {
  }

  /** `_normalize_relations`: without a `relationships` key the data is
      returned as it is; otherwise that key is set to the kept entries. */
  function NormalizeRelations(data: Fields): (r: Result<Fields>)
    ensures !Has(data, "relationships") ==> r == Ok(data)
    // a value that cannot be iterated raises before any entry is looked at
    ensures Has(data, "relationships") && Iterate(Get(data, "relationships").value, "relationships").Err? ==>
              r == Err(NotIterable("relationships"))
    // otherwise it fails exactly when some entry's relation is not a string
    ensures Has(data, "relationships") && Iterate(Get(data, "relationships").value, "relationships").Ok? ==>
              var items := Iterate(Get(data, "relationships").value, "relationships").value;
              (r.Err? <==> SomeRelationNotString(items))
              && (r.Err? ==> r.error == RelationNotString)
              && (r.Ok? ==> Get(r.value, "relationships") == Some(Array(RenameAll(Seqs.Filter(items, Kept)))))
    ensures Has(data, "relationships") && r.Ok? ==>
              Has(r.value, "relationships") &&
              var rels := Get(r.value, "relationships").value;
              rels.Array? && forall j :: 0 <= j < |rels.items| ==> HasValidRelation(rels.items[j])
    ensures r.Ok? ==> forall k :: k != "relationships" ==> Get(r.value, k) == Get(data, k)
  {
    if !Has(data, "relationships") then Ok(data)
    else
      match Iterate(Get(data, "relationships").value, "relationships")
      case Err(e) => Err(e)
      case Ok(items) =>
        NormalizeRelsFails(items);
        match NormalizeRels(items)
        case Err(e) => Err(e)
        case Ok(kept) =>
          NormalizeRelsFilters(items);
          Ok(Set(data, "relationships", Array(kept)))
  }

  /** An entry that already carries an accepted name comes out unchanged. */
  lemma NormalizeValidRel(v: Value)
    requires HasValidRelation(v)
    ensures NormalizeRel(v) == Ok(Some(v))
  {
    var s := Get(v.fields, "relation").value.s;
    CanonicalOfValid(s);
    SetExisting(v.fields, "relation", Str(s));
  }

  lemma {:induction false} NormalizeRelsOfValid(items: seq<Value>)
    requires forall j :: 0 <= j < |items| ==> HasValidRelation(items[j])
    ensures NormalizeRels(items) == Ok(items)
  {
    if |items| > 0 {
      var init, last := items[..|items| - 1], items[|items| - 1];
      assert items == init + [last];
      assert forall j :: 0 <= j < |init| ==> init[j] == items[j];
      NormalizeRelsOfValid(init);
      NormalizeValidRel(last);
    }
  }

  /** Normalising normalised data changes nothing. */
  lemma NormalizeRelationsIdempotent(data: Fields)
    requires NormalizeRelations(data).Ok?
    ensures NormalizeRelations(NormalizeRelations(data).value) == NormalizeRelations(data)
  {
    if Has(data, "relationships") {
      var once := NormalizeRelations(data).value;
      var kept := Get(once, "relationships").value.items;
      assert once == Set(data, "relationships", Array(kept));
      NormalizeRelsOfValid(kept);
      SetTwice(data, "relationships", Array(kept), Array(kept));
    }
  }

  // ---------------------------------------------------------------------
  // Node objects

  /** A key such as `id: risk_1`, where the backend wrote the id into the
      key and the type into the value. */
  predicate IsIdKey(key: string) {
    Text.Contains(key, ": ") && Text.StartsWith(key, "id:")
  }

  /** `key.split(": ", 1)[1].strip()`: the text after the first `": "`. */
  function IdFromKey(key: string): (r: string)
    requires IsIdKey(key)
    ensures Text.IsStripped(r)
  {
    var k := Text.Find(key, ": ");
    Text.Strip(key[k + 2..])
  }

  /** The key loop of `_fix_malformed_nodes`: an id key becomes `id` and
      `type`, any other key is copied. */
  function RepairKeys(fields: Fields): Fields {
    if |fields| == 0 then []
    else
      var acc := RepairKeys(fields[..|fields| - 1]);
      var (key, value) := fields[|fields| - 1];
      if IsIdKey(key) then Set(Set(acc, "id", Str(IdFromKey(key))), "type", value)
      else Set(acc, key, value)
  }

  predicate NoIdKeys(f: Fields) {
    forall i :: 0 <= i < |f| ==> !IsIdKey(f[i].0)
  }

  lemma PlainKeys()
    ensures !IsIdKey("id") && !IsIdKey("type") && !IsIdKey("name") && !IsIdKey("context")
  {
    assert "type"[..3][0] == 't';
    assert "name"[..3][0] == 'n';
    assert "context"[..3][0] == 'c';
  }

  /** Writing a key that is not an id key keeps the keys distinct and free
      of id keys. */
  lemma SetKeepsClean(o: Fields, k: string, v: Value)
    requires UniqueKeys(o) && NoIdKeys(o) && !IsIdKey(k)
    ensures UniqueKeys(Set(o, k, v)) && NoIdKeys(Set(o, k, v))
  {
    SetKeepsUnique(o, k, v);
    if Has(o, k) {
      SetKeepsKeys(o, k, v);
      SameKeysNoIdKeys(o, Set(o, k, v));
    } else {
      SetAppends(o, k, v);
      AppendNoIdKeys(o, k, v);
    }
  }

  lemma SameKeysNoIdKeys(o: Fields, r: Fields)
    requires Keys(r) == Keys(o) && NoIdKeys(o)
    ensures NoIdKeys(r)
  {
    forall i | 0 <= i < |r|
      ensures !IsIdKey(r[i].0)
    {
      assert r[i].0 == Keys(r)[i] == Keys(o)[i] == o[i].0;
    }
  }

  lemma AppendNoIdKeys(o: Fields, k: string, v: Value)
    requires NoIdKeys(o) && !IsIdKey(k)
    ensures NoIdKeys(o + [(k, v)])
  {
    var r := o + [(k, v)];
    forall i | 0 <= i < |r|
      ensures !IsIdKey(r[i].0)
    {
      if i < |o| {
        assert r[i] == o[i];
      }
    }
  }

  /** The repaired keys are distinct and none is an id key. */
  lemma {:induction false} RepairKeysClean(fields: Fields)
    ensures UniqueKeys(RepairKeys(fields)) && NoIdKeys(RepairKeys(fields))
  {
    if |fields| > 0 {
      var acc := RepairKeys(fields[..|fields| - 1]);
      RepairKeysClean(fields[..|fields| - 1]);
      var (key, value) := fields[|fields| - 1];
      PlainKeys();
      if IsIdKey(key) {
        SetKeepsClean(acc, "id", Str(IdFromKey(key)));
        SetKeepsClean(Set(acc, "id", Str(IdFromKey(key))), "type", value);
      } else {
        SetKeepsClean(acc, key, value);
      }
    }
  }

  /** The last id key wins: its id becomes the node's `id` and its value
      the node's `type`, unless a later plain `id` or `type` key
      overwrites them. */
  lemma {:induction false} RepairKeysIdKey(fields: Fields, i: nat)
    requires i < |fields| && IsIdKey(fields[i].0)
    requires forall j :: i < j < |fields| ==>
               !IsIdKey(fields[j].0) && fields[j].0 != "id" && fields[j].0 != "type"
    ensures Get(RepairKeys(fields), "id") == Some(Str(IdFromKey(fields[i].0)))
    ensures Get(RepairKeys(fields), "type") == Some(fields[i].1)
  {
    if i < |fields| - 1 {
      RepairKeysIdKey(fields[..|fields| - 1], i);
    }
  }

  /** A key that is not an id key survives the repair. */
  lemma {:induction false} RepairKeysKeeps(fields: Fields, k: string)
    requires Has(fields, k) && !IsIdKey(k)
    ensures Has(RepairKeys(fields), k)
  {
    var init := fields[..|fields| - 1];
    var (key, value) := fields[|fields| - 1];
    if Has(init, k) {
      RepairKeysKeeps(init, k);
    } else {
      assert fields == init + [(key, value)];
      HasIffKey(fields, k);
      HasIffKey(init, k);
      assert Keys(fields) == Keys(init) + [key] by {
        KeysAppend(init, key, value);
      }
    }
  }

  lemma {:induction false} KeysAppend(o: Fields, k: string, v: Value)
    ensures Keys(o + [(k, v)]) == Keys(o) + [k]
  {
    if |o| > 0 {
      KeysAppend(o[1..], k, v);
      assert (o + [(k, v)])[1..] == o[1..] + [(k, v)];
    }
  }

  /** A node with distinct keys and no id key comes out of the repair
      unchanged. */
  lemma {:induction false} RepairKeysOfClean(fields: Fields)
    requires UniqueKeys(fields) && NoIdKeys(fields)
    ensures RepairKeys(fields) == fields
  {
    if |fields| > 0 {
      var init, last := fields[..|fields| - 1], fields[|fields| - 1];
      CleanPrefix(fields);
      RepairKeysOfClean(init);
      RepairKeysNewLast(fields);
      assert fields == init + [last];
    }
  }

  /** Dropping the last entry of a clean object leaves a clean object that
      lacks the last key. */
  lemma CleanPrefix(fields: Fields)
    requires |fields| > 0 && UniqueKeys(fields) && NoIdKeys(fields)
    ensures var init := fields[..|fields| - 1];
            UniqueKeys(init) && NoIdKeys(init) && !Has(init, fields[|fields| - 1].0)
            && !IsIdKey(fields[|fields| - 1].0)
  {
    var init := fields[..|fields| - 1];
    var key := fields[|fields| - 1].0;
    assert forall i :: 0 <= i < |init| ==> init[i] == fields[i];
    HasIffKey(init, key);
    assert forall i :: 0 <= i < |init| ==> Keys(init)[i] == init[i].0;
  }

  /** A last key that is neither an id key nor already written is
      appended as it is. */
  lemma RepairKeysNewLast(fields: Fields)
    requires |fields| > 0 && !IsIdKey(fields[|fields| - 1].0)
    requires !Has(RepairKeys(fields[..|fields| - 1]), fields[|fields| - 1].0)
    ensures RepairKeys(fields) == RepairKeys(fields[..|fields| - 1]) + [fields[|fields| - 1]]
  {
    var acc, last := RepairKeys(fields[..|fields| - 1]), fields[|fields| - 1];
    RepairKeysPlainLast(fields);
    SetAppends(acc, last.0, last.1);
  }

  /** The key loop on an object whose last key is not an id key copies that
      entry. */
  lemma RepairKeysPlainLast(fields: Fields)
    requires |fields| > 0 && !IsIdKey(fields[|fields| - 1].0)
    ensures RepairKeys(fields) ==
              Set(RepairKeys(fields[..|fields| - 1]), fields[|fields| - 1].0, fields[|fields| - 1].1)
  {
  }

  /** The defaults of a node that has an id and a type: the name falls back
      to the context, then to "Unknown"; the context to the empty string. */
  function Complete(f: Fields): (r: Fields)
    ensures Get(r, "name") == if Has(f, "name") then Get(f, "name") else Some(Get(f, "context").GetOr(Str("Unknown")))
    ensures Get(r, "context") == if Has(f, "context") then Get(f, "context") else Some(Str(""))
    ensures forall k :: k != "name" && k != "context" ==> Get(r, k) == Get(f, k)
  {
    var named := if Has(f, "name") then f else Set(f, "name", Get(f, "context").GetOr(Str("Unknown")));
    if Has(named, "context") then named else Set(named, "context", Str(""))
  }

  /** A node as the repair leaves it: distinct keys, no id key, and the
      four keys a node needs. */
  predicate IsRepairedNode(f: Fields) {
    UniqueKeys(f) && NoIdKeys(f)
    && Has(f, "id") && Has(f, "type") && Has(f, "name") && Has(f, "context")
  }

  lemma CompleteClean(f: Fields)
    requires UniqueKeys(f) && NoIdKeys(f) && Has(f, "id") && Has(f, "type")
    ensures IsRepairedNode(Complete(f))
  {
    PlainKeys();
    var named := if Has(f, "name") then f else Set(f, "name", Get(f, "context").GetOr(Str("Unknown")));
    if !Has(f, "name") {
      SetKeepsClean(f, "name", Get(f, "context").GetOr(Str("Unknown")));
    }
    if !Has(named, "context") {
      SetKeepsClean(named, "context", Str(""));
    }
  }

  /** What one entry of the node list becomes. The source's second branch,
      for a node that has `id` and `type` keys of its own, is kept as
      written; `RepairKeysKeeps` shows it is never taken. */
  function FixNode(node: Value): (r: Option<Fields>)
    ensures r.Some? ==> node.Object?
  {
    match node
    case Object(fields) =>
      var f := RepairKeys(fields);
      if Has(f, "id") && Has(f, "type") then Some(Complete(f))
      else if Has(fields, "id") && Has(fields, "type") then
        Some(if Has(fields, "context") then fields else Set(fields, "context", Str("")))
      else None
    case _ => None
  }

  /** An entry is kept exactly when it is an object that has, after the key
      repair, an id and a type; it is then completed with the defaults. The
      second branch is never the one taken. */
  lemma FixNodeSome(node: Value)
    ensures FixNode(node).Some? <==> node.Object? && Has(RepairKeys(node.fields), "id") && Has(RepairKeys(node.fields), "type")
    ensures FixNode(node).Some? ==> FixNode(node).value == Complete(RepairKeys(node.fields))
  {
    if node.Object? && Has(node.fields, "id") && Has(node.fields, "type") {
      PlainKeys();
      RepairKeysKeeps(node.fields, "id");
      RepairKeysKeeps(node.fields, "type");
    }
  }

  /** Every node the repair keeps is a repaired node. */
  lemma FixNodeRepaired(node: Value)
    requires FixNode(node).Some?
    ensures IsRepairedNode(FixNode(node).value)
  {
    FixNodeSome(node);
    RepairKeysClean(node.fields);
    CompleteClean(RepairKeys(node.fields));
  }

  /** A repaired node is repaired again to itself. */
  lemma FixRepairedNode(f: Fields)
    requires IsRepairedNode(f)
    ensures FixNode(Object(f)) == Some(f)
  {
    RepairKeysOfClean(f);
    SetExistingName(f);
  }

  lemma SetExistingName(f: Fields)
    requires Has(f, "name") && Has(f, "context")
    ensures Complete(f) == f
  {
  }

  /** The entries `fix` keeps, each as the object it makes of them, in
      order. */
  function Collect(items: seq<Value>, fix: Value -> Option<Fields>): (r: seq<Value>)
    ensures |r| <= |items|
  {
    if |items| == 0 then []
    else
      var init, last := Collect(items[..|items| - 1], fix), items[|items| - 1];
      match fix(last)
      case Some(f) => init + [Object(f)]
      case None => init
  }

  /** Every object `fix` makes satisfies `good`, so every collected entry
      does. */
  lemma {:induction false} CollectAll(items: seq<Value>, fix: Value -> Option<Fields>, good: Fields -> bool)
    requires forall x :: fix(x).Some? ==> good(fix(x).value)
    ensures forall j :: 0 <= j < |Collect(items, fix)| ==>
              Collect(items, fix)[j].Object? && good(Collect(items, fix)[j].fields)
  {
    if |items| > 0 {
      CollectAll(items[..|items| - 1], fix, good);
    }
  }

  /** The objects `fix` makes of a list whose entries it all keeps. */
  function MapSome(s: seq<Value>, fix: Value -> Option<Fields>): (r: seq<Value>)
    requires forall x :: x in s ==> fix(x).Some?
    ensures |r| == |s|
    ensures forall i :: 0 <= i < |s| ==> r[i] == Object(fix(s[i]).value)
  {
    if |s| == 0 then [] else MapSome(s[..|s| - 1], fix) + [Object(fix(s[|s| - 1]).value)]
  }

  /** Collecting is filtering by `keep` and then mapping. */
  lemma {:induction false} CollectFilters(items: seq<Value>, fix: Value -> Option<Fields>, keep: Value -> bool)
    requires forall x :: keep(x) == fix(x).Some?
    ensures Collect(items, fix) == MapSome(Seqs.Filter(items, keep), fix)
  {
    if |items| > 0 {
      var init, last := items[..|items| - 1], items[|items| - 1];
      CollectFilters(init, fix, keep);
      var f := Seqs.Filter(init, keep);
      assert Seqs.Filter(items, keep) == f + (if keep(last) then [last] else []);
      if keep(last) {
        var g := f + [last];
        assert g[..|g| - 1] == f;
        assert MapSome(g, fix) == MapSome(f, fix) + [Object(fix(last).value)];
      }
    }
  }

  /** A list every entry of which `fix` returns as it is is collected to
      itself. */
  lemma {:induction false} CollectFixed(items: seq<Value>, fix: Value -> Option<Fields>)
    requires forall j :: 0 <= j < |items| ==> items[j].Object? && fix(items[j]) == Some(items[j].fields)
    ensures Collect(items, fix) == items
  {
    if |items| > 0 {
      var init := items[..|items| - 1];
      CollectFixed(init, fix);
      assert init + [items[|items| - 1]] == items;
    }
  }

  predicate Fixable(v: Value) {
    FixNode(v).Some?
  }

  /** The loop of `_fix_malformed_nodes` over the list: every node kept is a
      repaired node. */
  function FixNodes(items: seq<Value>): (r: seq<Value>)
    ensures |r| <= |items|
    ensures forall j :: 0 <= j < |r| ==> r[j].Object? && IsRepairedNode(r[j].fields)
  {
    forall x | FixNode(x).Some? ensures IsRepairedNode(FixNode(x).value) {
      FixNodeRepaired(x);
    }
    CollectAll(items, FixNode, IsRepairedNode);
    Collect(items, FixNode)
  }

  /** The loop keeps, in order, the objects that have or get an id and a
      type, each repaired. */
  lemma FixNodesFilters(items: seq<Value>)
    ensures FixNodes(items) == MapSome(Seqs.Filter(items, Fixable), FixNode)
  {
    CollectFilters(items, FixNode, Fixable);
  }

  /** Repaired nodes are kept as they are. */
  lemma FixNodesOfRepaired(items: seq<Value>)
    requires forall j :: 0 <= j < |items| ==> items[j].Object? && IsRepairedNode(items[j].fields)
    ensures FixNodes(items) == items
  {
    forall j | 0 <= j < |items| ensures FixNode(items[j]) == Some(items[j].fields) {
      FixRepairedNode(items[j].fields);
    }
    CollectFixed(items, FixNode);
  }

  /** `_fix_malformed_nodes`: without a `nodes` key the data is returned as
      it is; otherwise that key is set to the repaired nodes. */
  function FixMalformedNodes(data: Fields): (r: Result<Fields>)
    ensures !Has(data, "nodes") ==> r == Ok(data)
    ensures Has(data, "nodes") ==> (r.Err? <==> Iterate(Get(data, "nodes").value, "nodes").Err?)
    ensures Has(data, "nodes") && r.Ok? ==>
              Has(r.value, "nodes") &&
              var nodes := Get(r.value, "nodes").value;
              nodes.Array? && forall j :: 0 <= j < |nodes.items| ==>
                nodes.items[j].Object? && IsRepairedNode(nodes.items[j].fields)
    // the nodes kept are, in order, the entries that have or get an id and
    // a type, each repaired
    ensures Has(data, "nodes") && r.Ok? ==>
              var items := Iterate(Get(data, "nodes").value, "nodes").value;
              Get(r.value, "nodes") == Some(Array(MapSome(Seqs.Filter(items, Fixable), FixNode)))
    ensures r.Ok? ==> forall k :: k != "nodes" ==> Get(r.value, k) == Get(data, k)
  {
    if !Has(data, "nodes") then Ok(data)
    else
      var items :- Iterate(Get(data, "nodes").value, "nodes");
      FixNodesFilters(items);
      Ok(Set(data, "nodes", Array(FixNodes(items))))
  }

  /** Repairing repaired data changes nothing. */
  lemma FixMalformedNodesIdempotent(data: Fields)
    requires FixMalformedNodes(data).Ok?
    ensures FixMalformedNodes(FixMalformedNodes(data).value) == FixMalformedNodes(data)
  {
    if Has(data, "nodes") {
      var once := FixMalformedNodes(data).value;
      var fixed := Get(once, "nodes").value.items;
      assert once == Set(data, "nodes", Array(fixed));
      FixNodesOfRepaired(fixed);
      SetTwice(data, "nodes", Array(fixed), Array(fixed));
    }
  }
}
