# Financial knowledge-graph extraction, modelled in Dafny

This project models the deterministic core of a pipeline that turns financial
text into a knowledge graph. The graph's nodes are companies, risk factors and
dollar amounts, and its edges are typed relationships. The modelled parts are:

- **Schema** (`schema.dfy`): nodes, relationships and the graph; node types;
  relation names.
- **Chunker** (`chunker.dfy`): `estimate_tokens`, `split_text` and
  `_split_at_boundary`. Splitting cuts a long text into overlapping windows,
  each trimmed back to a paragraph, sentence or word boundary.
- **Orchestrator** (`orchestrator.dfy`): `extract_knowledge_graph`. It makes
  either one backend call, or one call per chunk followed by a merge, and
  reports progress and failed chunks.
- **Merger** (`merger.dfy`): `merge_graphs`. It deduplicates nodes by
  (type, name), gives them canonical per-type ids, rewrites relationship
  endpoints and deduplicates relationships.
- **Validator** (`validator.dfy`): the strict `validate_knowledge_graph` and
  the repairing `validate_and_repair_graph`.
- **Mermaid** (`mermaid.dfy`): label escaping, node shapes, diagram lines and
  pagination.
- **Response repair** (`json.dfy`, `response.dfy`): what the Ollama and OpenAI
  backends do to a raw answer before it is read as a graph. That is cutting
  out the JSON object, removing a Markdown fence (OpenAI only), repairing node
  objects and normalising relation names.
- **Clean-up** (`cleaning.dfy`): the `is_meaningful_node` filter of the
  clean-up script and its three-step graph filtering.
- Support modules: `outcomes.dfy` holds `Option`, `Result` and one `Error`
  constructor per raise site; `seqs.dfy` holds filtering, subsequences and
  first-occurrence deduplication; `text.dfy` holds the Python `str` operations
  used.

Every raise becomes an `Err` of a `Result`. The extraction backend and the
progress callback are parameters: `extract: string -> Result<Graph>`, plus a
flag saying whether a callback is present. The callback's calls are recorded
in the result.

Where the code does something other than its docstrings, its names or the
modules that consume its results suggest, the model follows the code:

- `src/schema.py` declares a node without `context` and only three relation
  names. The visualizer, the backends and the clean-up script all read or
  write `node.context` and use eighteen relation names. The model gives a
  node an optional context and keeps any relation name. The three names the
  repair step constrains have their own constructors.
- `merge_graphs` returns a single graph unchanged. With two or more graphs it
  builds nodes from id, type and name only, so every node's context is
  dropped (`src/graph_merger.py:97-101`).
- The OpenAI backend's fence removal turns an answer that is entirely on one
  line and starts with three backquotes into the empty string
  (`ResponseRepair.SingleLineFenceIsEmpty`).
- In `_fix_malformed_nodes`, the branch for a node that already has `id` and
  `type` keys (`src/extractor/ollama_llm.py:141-145`) can never be taken,
  because the key loop copies those keys. The model keeps the branch as
  written, and `ResponseRepair.RepairKeysKeeps` proves that it is unreachable.
- The entry point splits with `split_text` as written
  (`Orchestrator.ExtractKnowledgeGraph`), which can leave text out of every
  chunk; see Findings. `Orchestrator.ExtractKnowledgeGraphCorrected` is the
  same entry point on the corrected splitter.

## Model

| member | source | states |
|---|---|---|
| Schema.ParseNodeType | src/schema.py:26-28 | a node type is accepted exactly when it is one of "Company", "RiskFactor", "DollarAmount", and parsing returns the type with that name |
| Schema.ParseTypeName | src/schema.py:27 | every node type's name parses back to that type |
| Schema.RelationFromName | src/schema.py:45-48 | every relation name is kept as written, and it is a constrained relation exactly when it is OWNS, HAS_RISK or REPORTS_AMOUNT |
| Schema.RelationNameRoundTrip | src/schema.py:47 | reading a relation's name back gives the same relation, so there is one relation value per name |
| Schema.NodeIdSet | src/validator.py:134 | the id set holds exactly the ids of some node of the list |
| Text.Strip | src/chunker.py:88 | the stripped text is a slice of the input with no whitespace at either end, and only whitespace was removed |
| Text.StripOfStripped | src/chunker.py:88 | a text with no whitespace at either end is its own strip |
| Text.StripEmptyIffAllSpace | src/chunker.py:63-64 | a text strips to nothing exactly when every character is whitespace |
| Text.Find | src/extractor/ollama_llm.py:104 | the least index where the pattern occurs, or -1 exactly when it occurs nowhere |
| Text.RFind | src/extractor/ollama_llm.py:105 | the greatest index where the pattern occurs, or -1 exactly when it occurs nowhere |
| Text.JoinSplit | src/extractor/openai_llm.py:106 | joining the pieces of a split with the separator gives the text back |
| Text.SplitJoin | src/extractor/openai_llm.py:101 | splitting a join of separator-free pieces gives the pieces back |
| Text.NatToStringInjective | src/graph_merger.py:90 | two numbers print the same exactly when they are equal |
| Seqs.FirstOccurrences | src/graph_merger.py:113-117 | keeps each element whose key was not seen before: keys distinct, every input key still present, each kept element the first of its key |
| Seqs.FirstOccurrencesIsSubsequence | src/graph_merger.py:113-124 | deduplication only drops elements and keeps the order |
| Seqs.FilterIsSubsequence | clean_graph.py:51 | a list comprehension with a condition only drops elements and keeps the order |
| Merger.UnderscoreEndsPrefix | src/graph_merger.py:89-90 | the first underscore of a canonical id sits right after the type prefix |
| Merger.CanonicalIdInjective | src/graph_merger.py:88-90 | two canonical ids are equal exactly when both type and counter are equal |
| Merger.TaggedItems | src/graph_merger.py:78-79 | the flattened list holds exactly the items of the graphs, each tagged with its graph's index |
| Merger.CollectNodes | src/graph_merger.py:78-101 | after the first pass: one node per distinct (type, name) key in first-seen order, ids numbered per type, contexts dropped, and each (graph, old id) mapped to the id of its key |
| Merger.VisitNodeInv | src/graph_merger.py:80-101 | one loop iteration, with a known or a new key, preserves the first-pass invariant |
| Merger.IdMapTargetsNodes | src/graph_merger.py:82-94 | every id the mapping hands out is the id of an output node |
| Merger.CollectRelationships | src/graph_merger.py:107-124 | the second pass keeps the rewritten relationships, each only on the first occurrence of its (source, target, relation) |
| Merger.MergeGraphs | src/graph_merger.py:51-130 | an empty list fails; one graph is returned as is; otherwise the first schema version, deduplicated and canonically numbered nodes without context, and rewritten, deduplicated relationships |
| Merger.MergedIdsUnique | src/graph_merger.py:88-101 | merged node ids are unique |
| Merger.MergedIdMapping | src/graph_merger.py:78-94 | each input node maps to the id of the output node with its (type, name); when a graph reuses an id, the last such node of that graph decides |
| Merger.MergedReferencesResolve | src/graph_merger.py:107-124 | if every input graph references only its own nodes, every merged relationship references merged nodes |
| Merger.ResolvedEndpoint | src/graph_merger.py:110-111 | an endpoint naming a node of its own graph is rewritten to an id of a merged node |
| Validator.DuplicateIds | src/validator.py:113-119 | an id is listed exactly when two nodes carry it |
| Validator.DuplicateIdsCount | src/validator.py:116-119 | one entry for each node beyond the first of its id |
| Validator.DuplicateIdsEmptyIff | src/validator.py:121-122 | no duplicates are reported exactly when the ids are unique |
| Validator.DanglingEnds | src/validator.py:137-141 | the list holds exactly the missing sources and targets, one entry per missing endpoint, so its length is the number of missing sources plus the number of missing targets |
| Validator.DanglingEndsInOrder | src/validator.py:137-141 | entries follow relationship order: the list for two runs of relationships is the first run's list followed by the second's |
| Validator.DanglingEndsOne | src/validator.py:138-141 | one relationship contributes its missing source, then its missing target |
| Validator.DanglingReferences | src/validator.py:125-144 | nothing is reported exactly when every relationship's endpoints are node ids |
| Validator.StrictValidate | src/validator.py:12-36 | passes exactly for a non-empty graph with unique ids and no dangling endpoints, and otherwise reports the first failing check with its details |
| Validator.NodeMap | src/validator.py:57-58 | the map's keys are the node ids, and each id maps to the last node carrying it |
| Validator.RepairScan | src/validator.py:64-92 | kept relationships are those with both endpoints present and allowed by the type constraints, in order; the removal count accounts for the rest |
| Validator.Repair | src/validator.py:40-101 | no nodes fails; otherwise nodes and version are unchanged, a relationship is kept exactly when it resolves and meets its relation's type constraint, the output is the input relationships filtered by that test, in order and with their repeats, and the count is of those removed |
| Validator.RepairIsSubsequence | src/validator.py:61-90 | repair only drops relationships and keeps their order |
| Validator.RepairIdempotent | src/validator.py:64-101 | repairing a repaired graph changes nothing and removes nothing |
| Validator.RepairedPassesStrict | src/validator.py:40-101 | with unique ids, the repaired graph passes the strict check |
| Chunker.EstimateTokens | src/chunker.py:11-27 | the estimate is the character count divided by four, rounded down |
| Chunker.ParagraphEndsExact | src/chunker.py:116 | the reported ends are exactly the ends of maximal runs of two or more newlines |
| Chunker.SentenceEndsExact | src/chunker.py:122 | the reported ends are exactly the ends of the whitespace runs after a sentence mark |
| Chunker.WordEndsExact | src/chunker.py:132 | the reported ends are exactly the ends of maximal whitespace runs |
| Chunker.SplitAtBoundary | src/chunker.py:103-139 | with a cut, the result is a prefix of the window that stops at or before the cut, with only whitespace between it and the cut and no whitespace at its end (the rstrip); with no cut, the whole window |
| Chunker.CutAtLastParagraph | src/chunker.py:116-119 | with a paragraph break present, the cut is the end of the last one |
| Chunker.CutAtSentence | src/chunker.py:122-129 | without paragraph breaks, the cut is a sentence end with at most one later sentence end, and the second-to-last one when there are two or more |
| Chunker.CutAtWord | src/chunker.py:131-139 | without paragraph breaks or sentence ends, a cut exists exactly when there are more than ten whitespace runs; it falls at the end of a whole run with exactly int(0.8·n) of the n run ends before it |
| Chunker.TrimmedOccurs | src/chunker.py:82-86 | the trimmed window is the text from the cursor on |
| Chunker.StripOccurs | src/chunker.py:88 | a stripped piece of the text is still a piece of it, just after the leading whitespace |
| Chunker.EmittedOccurs | src/chunker.py:88 | each emitted chunk occurs in the text right after the window's leading whitespace |
| Chunker.EmittedCovers | src/chunker.py:88 | stripping loses only whitespace: every other character of the trimmed window lies in the chunk |
| Chunker.CutSpaces | src/chunker.py:86 | only whitespace lies between the end of the trimmed window and the cut |
| Chunker.CursorsAsWritten | src/chunker.py:77-98 | the source's cursors start at 0, each follows the source's cursor rule, and the loop stops at the first window that reaches the end |
| Chunker.WindowsAsWritten | src/chunker.py:77-98 | one chunk per cursor: the stripped trimmed window there |
| Chunker.NextCursor | src/chunker.py:92-96 | the corrected next cursor moves forward and never past the cut |
| Chunker.Cursors | src/chunker.py:77-98 | the corrected cursors start at 0 and increase, each no later than the previous window's cut |
| Chunker.Windows | src/chunker.py:77-98 | one chunk per corrected cursor: the stripped trimmed window there |
| Chunker.CursorHolding | src/chunker.py:77-98 | every position lies between some window's cursor and that window's cut |
| Chunker.WindowsCover | src/chunker.py:77-98 | every character other than whitespace lies inside some corrected chunk |
| Chunker.EmittedFits | src/chunker.py:79-88 | each chunk is stripped, at most a window long, and a piece of the text |
| Chunker.LastChunk | src/chunker.py:79-88 | the last window is only stripped, not cut |
| Chunker.WindowsShape | src/chunker.py:66-98 | a text longer than one window gives at least two chunks, all fitting |
| Chunker.WindowsAsWrittenShape | src/chunker.py:66-98 | the same holds for the source's cursor rule |
| Chunker.CheckChunkArgs | src/chunker.py:56-61 | the arguments pass exactly when 0 <= overlap < size; otherwise the first failing check is reported |
| Chunker.SplitTextAsWritten | src/chunker.py:30-100 | argument errors; no chunks exactly for a blank text; the text itself when it fits; otherwise the source's windows, at least two, each a stripped piece of at most 4*size characters |
| Chunker.SplitText | src/chunker.py:30-100 | the same results, with the windows advanced from the cut |
| Chunker.SplitTextCovers | src/chunker.py:30-100 | every non-whitespace character of the text lies inside some chunk the corrected splitter returns |
| Chunker.SentenceExample | src/chunker.py:122-129 | the window "a. b" is cut after its only sentence end, giving "a." |
| Chunker.SplitExample | src/chunker.py:30-100 | the source splits "a. bxxxx" with size 1 and overlap 0 into ["a.", "xxxx"] |
| Chunker.SplitTextAsWrittenLosesText | src/chunker.py:92-96 | the source's chunks for "a. bxxxx" do not cover the "b" at index 3 |
| Orchestrator.RunChunks | src/extractor/__init__.py:91-111 | every chunk is recorded as a success or a failure, and there is one callback call per success when a callback is given |
| Orchestrator.RunChunksSucceeded | src/extractor/__init__.py:93-100 | the j-th success names a chunk the backend turned into the j-th graph |
| Orchestrator.RunChunksFailed | src/extractor/__init__.py:107-108 | each recorded failure names a chunk the backend failed on |
| Orchestrator.RunChunksOrdered | src/extractor/__init__.py:91-111 | successes and failures are recorded in chunk order |
| Orchestrator.RunChunksPartition | src/extractor/__init__.py:93-108 | a chunk index is a success exactly when its extraction succeeded, and a failure exactly when it failed |
| Orchestrator.RunChunksProgress | src/extractor/__init__.py:102-105 | the j-th callback call gets the first j+1 graphs and the 1-based index of the chunk that gave the last one |
| Orchestrator.RunOnChunks | src/extractor/__init__.py:81-129 | all chunks failing gives the all-failed error with the chunk count; otherwise the merge of the successful graphs |
| Orchestrator.FailedChunks | src/extractor/__init__.py:107-119 | the reported failed chunks are exactly those the backend failed on, in increasing order |
| Orchestrator.ProgressReports | src/extractor/__init__.py:102-105 | each callback call reports the total chunk count, the successful chunk's index, and the graphs extracted so far |
| Orchestrator.ExtractKnowledgeGraph | src/extractor/__init__.py:63-132 | a short text or disabled chunking gives one backend call on the whole text; otherwise the overlap check fails first, then the errors of split_text as written, then the chunk loop over its chunks and the merge |
| Orchestrator.ExtractAsWrittenLosesText | src/extractor/__init__.py:75-79 | for "a. bxxxx" with one-token chunks and no overlap the backend is sent "a." and "xxxx", and the "b" at index 3 is in neither |
| Orchestrator.ExtractKnowledgeGraphCorrected | src/extractor/__init__.py:63-132 | the same paths and errors with the corrected splitter in place of split_text |
| Orchestrator.CorrectedExtractCovers | src/extractor/__init__.py:63-132 | with the corrected splitter, every non-whitespace character of the text reaches the backend inside some chunk, on either path |
| Orchestrator.OneSuccessUnchanged | src/extractor/__init__.py:129 | when exactly one chunk succeeds, its graph is returned unchanged |
| Orchestrator.BlankTextFails | src/extractor/__init__.py:75-126 | a long all-whitespace text splits into no chunks and fails with the all-failed error for zero chunks, calling no backend |
| Mermaid.EscapeChar | src/visualizer_mermaid.py:25-35 | a character's replacement holds no special character, and an ordinary character stays as it is |
| Mermaid.EscapeEach | src/visualizer_mermaid.py:25-35 | the escaped text has no special characters, equals text that had none, and adds only replacement characters |
| Mermaid.ReplacementsPerChar | src/visualizer_mermaid.py:25-35 | the eleven chained replacements equal escaping each character on its own |
| Mermaid.Truncate | src/visualizer_mermaid.py:37-38 | a long text is cut to the limit with "..." at the end, and a short one is kept |
| Mermaid.EscapeLabel | src/visualizer_mermaid.py:15-39 | the label is at most 60 characters, free of special characters, and the escaped text or its cut to 57 plus "..." |
| Mermaid.EscapeUnchanged | src/visualizer_mermaid.py:15-39 | a short text with no special characters is its own label |
| Mermaid.EscapeIdempotent | src/visualizer_mermaid.py:15-39 | escaping a label again changes nothing |
| Mermaid.NodeLabel | src/visualizer_mermaid.py:56-73 | at most 80 characters: the escaped name, with a non-empty context in front of an amount or in parentheses after anything else |
| Mermaid.LabelHasNoQuote | src/visualizer_mermaid.py:56-73 | a node label never holds a double quote, so it cannot close its shape's quotes early |
| Mermaid.NodeShape | src/visualizer_mermaid.py:75-80 | the shape text is the id, the type's opening bracket, the label and the type's closing bracket |
| Mermaid.ShapeDeterminesTypeAndLabel | src/visualizer_mermaid.py:75-80 | for one id, two shape texts are equal exactly when type and label are equal |
| Mermaid.DiagramLines | src/visualizer_mermaid.py:143-162 | the header lines, one line per node in order, the separator lines, then one line per relationship in order |
| Mermaid.DiagramSplitsIntoLines | src/visualizer_mermaid.py:143-162 | when no field holds a newline, splitting the diagram on newlines gives back exactly its lines |
| Mermaid.SlicesPartition | src/visualizer_mermaid.py:179-181 | the pages concatenate to the node list |
| Mermaid.PageRelationships | src/visualizer_mermaid.py:184-188 | a page keeps exactly the relationships with both ends on the page, in order |
| Mermaid.PaginatedMermaid | src/visualizer_mermaid.py:165-202 | page size zero fails, a negative one gives no pages, and otherwise one diagram per slice of nodes with that slice's relationships |
| Mermaid.PagesPartitionNodes | src/visualizer_mermaid.py:179-181 | the pages hold every node once, in order, in as few pages as the size allows |
| Json.Get | src/extractor/ollama_llm.py:137 | a found value belongs to an entry for the key, and nothing is found exactly when no entry has the key |
| Json.Set | src/extractor/ollama_llm.py:129-132 | after writing, the key reads the new value, every other key reads as before, and the size grows only for a new key |
| Json.SetKeepsKeys | src/extractor/ollama_llm.py:132 | writing an existing key keeps the key order |
| Json.SetAppends | src/extractor/ollama_llm.py:132 | writing a new key appends it at the end |
| Json.SetExisting | src/extractor/ollama_llm.py:163 | writing the value a key already has changes nothing |
| Json.SetTwice | src/extractor/ollama_llm.py:129-132 | writing a key twice equals writing only the second value |
| Json.Iterate | src/extractor/ollama_llm.py:121 | lists give their items; strings give their characters, one one-character string per item, in order; objects give their keys in insertion order; any other value is a type error |
| ResponseRepair.JsonSpan | src/extractor/ollama_llm.py:104-108 | with a "{" followed somewhere by a "}", the span runs from the first "{" to the last "}"; otherwise the text is kept |
| ResponseRepair.SpanSearch | src/extractor/ollama_llm.py:104-106 | find and rfind locate a span exactly when the text has such braces |
| ResponseRepair.ExtractJson | src/extractor/ollama_llm.py:101-108 | the stripped answer, cut to its outermost braces when it has them |
| ResponseRepair.ExtractJsonIdempotent | src/extractor/ollama_llm.py:101-108 | cutting out the object twice gives what cutting once gives |
| ResponseRepair.StripFences | src/extractor/openai_llm.py:100-106 | text not opening with a fence is left alone; fenced text comes out with no whitespace at either end |
| ResponseRepair.ExtractJsonFenced | src/extractor/openai_llm.py:95-113 | an answer not opening with a fence is handled as the Ollama backend handles it; a fenced one is handled as the Ollama backend handles the answer with its fences removed |
| ResponseRepair.FencesRemoved | src/extractor/openai_llm.py:100-106 | a fenced answer loses both fence lines, leaving the stripped body |
| ResponseRepair.UnclosedFenceKept | src/extractor/openai_llm.py:100-106 | an opening fence with no closing fence line, as in a truncated answer, loses only its first line, and the rest is kept, stripped |
| ResponseRepair.FencedAnswer | src/extractor/openai_llm.py:95-113 | a fenced answer gives what the Ollama backend gives for its body |
| ResponseRepair.SingleLineFenceIsEmpty | src/extractor/openai_llm.py:100-106 | an answer on one line that opens with a fence yields the empty string |
| ResponseRepair.MappingIntoValid | src/extractor/ollama_llm.py:34-46 | every replacement name is an accepted relation name |
| ResponseRepair.ValidNamesNormal | src/extractor/ollama_llm.py:26-31 | every accepted name is already upper case with underscores |
| ResponseRepair.CanonicalOfValid | src/extractor/ollama_llm.py:162-164 | an accepted name stands for itself |
| ResponseRepair.NormalizeName | src/extractor/ollama_llm.py:159 | position by position, a space becomes an underscore, an ASCII lower-case letter its capital, and any other character stays |
| Text.ReplaceChar | src/extractor/ollama_llm.py:159 | a one-character replacement keeps the length and changes exactly the positions holding the replaced character |
| ResponseRepair.CanonicalRelation | src/extractor/ollama_llm.py:159-167 | the normalised name when it is accepted, otherwise its mapping when it has one, and nothing exactly when the normalised name is in neither table |
| ResponseRepair.NormalizeRel | src/extractor/ollama_llm.py:158-167 | a relation that is not a string is an error; a string relation is kept exactly when it stands for an accepted name, and then the object gets that name; anything else is dropped |
| ResponseRepair.NormalizeRelOfOne | src/extractor/ollama_llm.py:158-167 | an entry whose relation stands for an accepted name is rewritten to that name |
| ResponseRepair.NormalizeRelMapped | src/extractor/ollama_llm.py:159-167 | "jv" is upper-cased, looked up in the mapping and kept as JOINT_VENTURE_WITH |
| ResponseRepair.NormalizeRelUpper | src/extractor/ollama_llm.py:159-164 | "Owns" is upper-cased and kept as OWNS |
| ResponseRepair.NormalizeRelsFails | src/extractor/ollama_llm.py:157-159 | the loop fails exactly when some entry's relation is not a string |
| ResponseRepair.NormalizeRelsFilters | src/extractor/ollama_llm.py:156-168 | the loop keeps, in order, the entries whose name maps to an accepted one, each renamed |
| ResponseRepair.NormalizeRelations | src/extractor/ollama_llm.py:151-171 | without a relationships key the data is unchanged; a value that cannot be iterated is a type error; otherwise it fails exactly when some entry's relation is not a string, and else that key holds the kept entries, renamed, in order, and no other key changes |
| ResponseRepair.NormalizeRelsOfValid | src/extractor/ollama_llm.py:162-164 | entries that already carry accepted names come out unchanged |
| ResponseRepair.NormalizeRelationsIdempotent | src/extractor/ollama_llm.py:151-171 | normalising normalised data changes nothing |
| ResponseRepair.RepairKeysClean | src/extractor/ollama_llm.py:124-132 | the repaired keys are distinct and none is an "id: x" key |
| ResponseRepair.RepairKeysIdKey | src/extractor/ollama_llm.py:125-130 | for the last "id: x" key, with no later id or type key, the repaired node's id is the stripped text after ": " and its type is that key's value |
| ResponseRepair.RepairKeysKeeps | src/extractor/ollama_llm.py:141-145 | every key that is not an "id: x" key survives the key loop, so the already-valid branch is never reached |
| ResponseRepair.RepairKeysOfClean | src/extractor/ollama_llm.py:124-132 | a node with distinct keys and no "id: x" key is copied unchanged |
| ResponseRepair.Complete | src/extractor/ollama_llm.py:136-139 | the name defaults to the context, or to "Unknown"; the context defaults to ""; no other key changes |
| ResponseRepair.FixNodeSome | src/extractor/ollama_llm.py:122-145 | an entry is kept exactly when it is an object that has id and type after the key loop, and it is kept completed |
| ResponseRepair.FixNodeRepaired | src/extractor/ollama_llm.py:134-140 | every kept node has distinct keys, no "id: x" key, and id, type, name and context |
| ResponseRepair.FixRepairedNode | src/extractor/ollama_llm.py:122-140 | a repaired node is repaired to itself |
| ResponseRepair.FixNodesFilters | src/extractor/ollama_llm.py:120-145 | the loop keeps, in order, the fixable entries, each repaired |
| ResponseRepair.FixNodesOfRepaired | src/extractor/ollama_llm.py:120-145 | a list of repaired nodes is kept as it is |
| ResponseRepair.FixMalformedNodes | src/extractor/ollama_llm.py:111-148 | without a nodes key the data is unchanged; a non-iterable value is an error; otherwise nodes holds, in order, exactly the entries that have or get an id and a type, each repaired, and no other key changes |
| ResponseRepair.FixMalformedNodesIdempotent | src/extractor/ollama_llm.py:111-148 | repairing repaired data changes nothing |
| Cleaning.RemoveSeparators | clean_graph.py:20 | the cleaned name holds exactly the name's characters other than comma, dot, space and hyphen |
| Cleaning.NumberTest | clean_graph.py:20-22 | the cleaned name is all digits exactly when the name is made of digits and separators and has at least one digit |
| Cleaning.LetterNumberMatch | clean_graph.py:25 | the letter-and-number matcher accepts exactly a capital letter, whitespace, then digits, commas and dots |
| Cleaning.UnitMatch | clean_graph.py:29 | the unit matcher accepts exactly a quantity, optional whitespace and a unit, ignoring case |
| Cleaning.UnitAtIsMatch | clean_graph.py:29 | the split of a unit name into quantity, whitespace and unit is unique |
| Cleaning.MeaningfulIff | clean_graph.py:10-40 | a node is kept exactly when its name is long enough, is not a bare number, not a letter with a number, not a bare unit quantity without ten characters of context, and, for an amount, has a currency marker or more than five characters of context |
| Cleaning.ContextOnlyHelps | clean_graph.py:28-38 | a longer context never turns a meaningful node into a meaningless one |
| Cleaning.LetterNumberExamples | clean_graph.py:24-26 | "H 10", "J 5,74,956" and "C 1,458" are rejected |
| Cleaning.RejectsLetterNumber | clean_graph.py:25-26 | a capital letter, a space and a numeral run is rejected |
| Cleaning.Endpoints | clean_graph.py:66-69 | the set holds exactly the sources and targets of the relationships |
| Cleaning.KeptIds | clean_graph.py:56-58 | the kept id set holds exactly the ids of passing nodes |
| Cleaning.CleanRelationshipsIff | clean_graph.py:61 | a relationship is kept exactly when both its ends are ids of passing nodes |
| Cleaning.CleanNodesIff | clean_graph.py:66-71 | a node is kept exactly when it passes and some kept relationship touches it |
| Cleaning.CleanSubsequences | clean_graph.py:51-71 | nodes and relationships keep their input order |
| Cleaning.CleanResolves | clean_graph.py:56-82 | every kept relationship names kept nodes |
| Cleaning.CleanNoOrphans | clean_graph.py:65-71 | every kept node is an endpoint of a kept relationship |
| Cleaning.CleanIdempotent | clean_graph.py:50-82 | cleaning a cleaned graph changes nothing |

## Left out

- File and console I/O is not modelled, because none of it affects a result:
  - `render_mermaid`'s file write (`src/visualizer_mermaid.py:86-131`);
  - the HTML renderers `render_mermaid_html` and `_render_paginated_html`;
  - the clean-up script's load, save and prints, including its page count
    (`clean_graph.py:44-48`, `clean_graph.py:84-92`);
  - the validator's removal message (`src/validator.py:94-95`);
  - the orchestrator's progress prints.
- The backends' network calls, configuration loading and extractor selection
  are external. The extraction function is a parameter instead.
- `json.loads` and `KnowledgeGraph.model_validate` parse and validate with
  libraries. The model starts from decoded JSON values, and stops at the
  repaired data.
- The orchestrator's catch-all `except` also catches an exception raised by
  the callback or by the incremental merge (`src/extractor/__init__.py:102-108`).
  Such an exception would mark an extracted chunk as failed. The model's
  callback cannot fail.
- Error messages are abbreviated to their data, for example the
  `str(e)[:100]` text and the formatted id lists.
- Text.IsSpace, Text.Upper and Text.Lower cover ASCII only. Python's
  `str.strip`, `\s`, `str.isdigit`, `str.upper` and `re.IGNORECASE` also act
  on other Unicode characters.
- Chunker.BoundaryCut: the word boundary `int(len(matches) * 0.8)` is
  computed as `(4 * n) / 5`. The two agree for every match count a window
  can hold.
- Mermaid.NodeShape: the fallback rectangle for an unknown type
  (`src/visualizer_mermaid.py:81-83`) is not modelled, because node types are
  a closed datatype. The same goes for the fallback prefix of
  `_get_type_prefix` (`src/graph_merger.py:147`).
- Confidence scores are carried as reals and never inspected.

## Findings

| source | as written | input that shows it | evidently intended | confidence | as-written member | corrected member |
|---|---|---|---|---|---|---|
| src/chunker.py:92-96 | the next window starts at the untrimmed window end minus the overlap, so text between the boundary cut and that point is never emitted | `split_text("a. bxxxx", 1, 0)` returns `["a.", "xxxx"]`, and the "b" at index 3 is in no chunk | every non-whitespace character of the text lies in some chunk | not executed | Chunker.SplitTextAsWrittenLosesText | Chunker.SplitTextCovers |
