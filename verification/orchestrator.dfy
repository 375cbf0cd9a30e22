/** The extraction entry point: one backend call on the whole text, or, for
    a long text with chunking enabled, one call per chunk with the
    successful graphs merged.

  The configuration and the backend are parameters; a backend is a function
  from a text to a graph or a failure. The progress callback is modelled by
  the list of values it would receive, in call order. */
module Orchestrator {
  import opened Outcomes
  import opened Schema
  import Merger
  import Chunker
  import Text
  import opened Seqs

  /** The chunking settings of the configuration. */
  datatype ChunkConfig = ChunkConfig(enabled: bool, sizeTokens: int, overlapTokens: int)

  /** One call of the progress callback: the graphs extracted so far, whose
      merge the callback receives, the 1-based index of the chunk just
      extracted, and the number of chunks. */
  datatype Progress = Progress(graphsSoFar: seq<Graph>, index: nat, total: nat)

  /** The merged graph handed to the callback. */
  function MergedSoFar(p: Progress): Graph
    requires |p.graphsSoFar| >= 1
  {
    Merger.Merged(p.graphsSoFar)
  }

  /** The state of the chunk loop: the graphs extracted, the 1-based
      indices of the chunks that gave them and of those that failed, and
      the callback calls made. */
  datatype ChunkRun = ChunkRun(graphs: seq<Graph>, succeeded: seq<nat>, failed: seq<nat>, progress: seq<Progress>)

  /** What the entry point returns or raises, which texts it handed to the
      backend, which chunks failed and what the callback received. */
  datatype Run = Run(result: Result<Graph>, extracted: seq<string>, failed: seq<nat>, progress: seq<Progress>)

  /** The graphs of the chunks the backend handles, in chunk order: the
      reference meaning of the loop's `graphs` list. */
  function Successes(chunks: seq<string>, extract: string -> Result<Graph>): (r: seq<Graph>)
    ensures |r| <= |chunks|
  {
    if |chunks| == 0 then []
    else
      var init := chunks[..|chunks| - 1];
      var res := extract(chunks[|chunks| - 1]);
      Successes(init, extract) + (if res.Ok? then [res.value] else [])
  }

  /** The loop over the chunks. After every success the callback, when there
      is one, gets the merge of the graphs so far. */
  function RunChunks(chunks: seq<string>, extract: string -> Result<Graph>, notify: bool, total: nat): (r: ChunkRun)
    ensures r.graphs == Successes(chunks, extract)
    ensures |r.succeeded| == |r.graphs| && |r.succeeded| + |r.failed| == |chunks|
    ensures |r.progress| == if notify then |r.graphs| else 0
    ensures forall x :: x in r.succeeded ==> 1 <= x <= |chunks|
    ensures forall x :: x in r.failed ==> 1 <= x <= |chunks|
  {
    if |chunks| == 0 then ChunkRun([], [], [], [])
    else
      var i := |chunks|;
      var acc := RunChunks(chunks[..i - 1], extract, notify, total);
      match extract(chunks[i - 1])
      case Ok(g) =>
        var graphs := acc.graphs + [g];
        var progress := if notify then acc.progress + [Progress(graphs, i, total)] else acc.progress;
        ChunkRun(graphs, acc.succeeded + [i], acc.failed, progress)
      case Err(_) =>
        ChunkRun(acc.graphs, acc.succeeded, acc.failed + [i], acc.progress)
  }

  /** The j-th recorded success names a chunk the backend turned into the
      j-th graph. */
  lemma {:induction false} RunChunksSucceeded(chunks: seq<string>, extract: string -> Result<Graph>, notify: bool, total: nat, j: nat)
    requires j < |RunChunks(chunks, extract, notify, total).succeeded|
    ensures var r := RunChunks(chunks, extract, notify, total);
            1 <= r.succeeded[j] <= |chunks| && extract(chunks[r.succeeded[j] - 1]) == Ok(r.graphs[j])
  {
    var n := |chunks|;
    var init := chunks[..n - 1];
    var acc := RunChunks(init, extract, notify, total);
    if j < |acc.succeeded| {
      RunChunksSucceeded(init, extract, notify, total, j);
      assert chunks[acc.succeeded[j] - 1] == init[acc.succeeded[j] - 1];
    }
  }

  /** The j-th recorded failure names a chunk the backend failed on. */
  lemma {:induction false} RunChunksFailed(chunks: seq<string>, extract: string -> Result<Graph>, notify: bool, total: nat, j: nat)
    requires j < |RunChunks(chunks, extract, notify, total).failed|
    ensures var r := RunChunks(chunks, extract, notify, total);
            1 <= r.failed[j] <= |chunks| && extract(chunks[r.failed[j] - 1]).Err?
  {
    var n := |chunks|;
    var init := chunks[..n - 1];
    var acc := RunChunks(init, extract, notify, total);
    var r := RunChunks(chunks, extract, notify, total);
    if j < |acc.failed| {
      RunChunksFailed(init, extract, notify, total, j);
      assert r.failed[j] == acc.failed[j];
      assert chunks[acc.failed[j] - 1] == init[acc.failed[j] - 1];
    } else {
      assert r.failed[j] == n && extract(chunks[n - 1]).Err?;
    }
  }

  /** Successes and failures are both recorded in chunk order. */
  lemma {:induction false} RunChunksOrdered(chunks: seq<string>, extract: string -> Result<Graph>, notify: bool, total: nat)
    ensures Increasing(RunChunks(chunks, extract, notify, total).succeeded)
    ensures Increasing(RunChunks(chunks, extract, notify, total).failed)
  {
    var n := |chunks|;
    if n > 0 {
      var acc := RunChunks(chunks[..n - 1], extract, notify, total);
      var r := RunChunks(chunks, extract, notify, total);
      RunChunksOrdered(chunks[..n - 1], extract, notify, total);
      AppendIncreasing(acc.succeeded, n);
      AppendIncreasing(acc.failed, n);
    }
  }

  lemma AppendIncreasing(s: seq<nat>, x: nat)
    requires Increasing(s) && forall y :: y in s ==> y < x
    ensures Increasing(s + [x])
  {
    forall a, b | 0 <= a < b < |s| + 1
      ensures (s + [x])[a] < (s + [x])[b]
    {
      assert s[a] in s;
    }
  }

  /** The j-th callback call gets the first j + 1 graphs and the index of
      the chunk that gave the last of them. */
  lemma {:induction false} RunChunksProgress(chunks: seq<string>, extract: string -> Result<Graph>, total: nat, j: nat)
    requires j < |RunChunks(chunks, extract, true, total).progress|
    ensures var r := RunChunks(chunks, extract, true, total);
            r.progress[j] == Progress(r.graphs[..j + 1], r.succeeded[j], total)
  {
    var n := |chunks|;
    var init := chunks[..n - 1];
    var acc := RunChunks(init, extract, true, total);
    var r := RunChunks(chunks, extract, true, total);
    if j < |acc.progress| {
      RunChunksProgress(init, extract, total, j);
      assert r.graphs[..j + 1] == acc.graphs[..j + 1];
    } else {
      assert r.graphs[..j + 1] == r.graphs;
    }
  }

  /** The chunk loop records every chunk exactly once: as a success when the
      backend returns a graph for it, as a failure otherwise. */
  lemma {:induction false} RunChunksPartition(chunks: seq<string>, extract: string -> Result<Graph>, notify: bool, total: nat, i: nat)
    requires 1 <= i <= |chunks|
    ensures i in RunChunks(chunks, extract, notify, total).succeeded <==> extract(chunks[i - 1]).Ok?
    ensures i in RunChunks(chunks, extract, notify, total).failed <==> extract(chunks[i - 1]).Err?
  {
    var n := |chunks|;
    var init := chunks[..n - 1];
    var acc := RunChunks(init, extract, notify, total);
    var r := RunChunks(chunks, extract, notify, total);
    var ok := extract(chunks[n - 1]).Ok?;
    assert r.succeeded == acc.succeeded + (if ok then [n] else []);
    assert r.failed == acc.failed + (if ok then [] else [n]);
    if i < n {
      RunChunksPartition(init, extract, notify, total, i);
      assert chunks[i - 1] == init[i - 1];
    } else {
      assert i !in acc.succeeded && i !in acc.failed;
    }
  }

  /** The chunked path is taken when chunking is on and the text is
      estimated to need more tokens than one chunk holds. */
  predicate Chunked(config: ChunkConfig, text: string) {
    config.enabled && Chunker.EstimateTokens(text) > config.sizeTokens
  }

  /** The chunked path once the text is split: extract every chunk, fail
      when none gave a graph, else merge the graphs. */
  function RunOnChunks(chunks: seq<string>, extract: string -> Result<Graph>, notify: bool): (run: Run)
    ensures run.extracted == chunks
    ensures Successes(chunks, extract) == [] ==> run.result == Err(AllChunksFailed(|chunks|))
    ensures Successes(chunks, extract) != [] ==> run.result == Ok(Merger.Merged(Successes(chunks, extract)))
    ensures |run.progress| == if notify then |Successes(chunks, extract)| else 0
  {
    var loop := RunChunks(chunks, extract, notify, |chunks|);
    var result := if loop.graphs == [] then Err(AllChunksFailed(|chunks|)) else Ok(Merger.Merged(loop.graphs));
    Run(result, chunks, loop.failed, loop.progress)
  }

  /** The failed indices reported are exactly the chunks the backend
      failed on, in chunk order. */
  lemma FailedChunks(chunks: seq<string>, extract: string -> Result<Graph>, notify: bool)
    ensures var run := RunOnChunks(chunks, extract, notify);
            Increasing(run.failed) &&
            forall i :: i in run.failed <==> 1 <= i <= |chunks| && extract(chunks[i - 1]).Err?
  {
    RunChunksFailedExact(chunks, extract, notify, |chunks|);
    assert RunOnChunks(chunks, extract, notify).failed == RunChunks(chunks, extract, notify, |chunks|).failed;
  }

  lemma RunChunksFailedExact(chunks: seq<string>, extract: string -> Result<Graph>, notify: bool, total: nat)
    ensures var failed := RunChunks(chunks, extract, notify, total).failed;
            Increasing(failed) &&
            forall i :: i in failed <==> 1 <= i <= |chunks| && extract(chunks[i - 1]).Err?
  {
    var failed := RunChunks(chunks, extract, notify, total).failed;
    RunChunksOrdered(chunks, extract, notify, total);
    forall i
      ensures i in failed <==> 1 <= i <= |chunks| && extract(chunks[i - 1]).Err?
    {
      if 1 <= i <= |chunks| {
        RunChunksPartition(chunks, extract, notify, total, i);
      }
    }
  }

  /** The callback's calls, one per successful chunk in order, each with the
      graphs extracted up to that chunk. */
  lemma ProgressReports(chunks: seq<string>, extract: string -> Result<Graph>, j: nat)
    requires j < |RunOnChunks(chunks, extract, true).progress|
    ensures var p := RunOnChunks(chunks, extract, true).progress[j];
            p.total == |chunks| && 1 <= p.index <= |chunks| &&
            extract(chunks[p.index - 1]) == Ok(Successes(chunks, extract)[j]) &&
            p.graphsSoFar == Successes(chunks, extract)[..j + 1]
  {
    var loop := RunChunks(chunks, extract, true, |chunks|);
    assert RunOnChunks(chunks, extract, true).progress == loop.progress;
    assert loop.graphs == Successes(chunks, extract);
    RunChunksProgress(chunks, extract, |chunks|, j);
    assert loop.progress[j] == Progress(loop.graphs[..j + 1], loop.succeeded[j], |chunks|);
    RunChunksSucceeded(chunks, extract, true, |chunks|, j);
  }

  /** The entry point once the splitter's outcome is known: the overlap
      check, then the split, then one backend call per chunk. */
  function ExtractWithSplit(config: ChunkConfig, text: string, split: Result<seq<string>>,
                            extract: string -> Result<Graph>, notify: bool): Run
  {
    if !Chunked(config, text) then Run(extract(text), [text], [], [])
    else if config.overlapTokens >= config.sizeTokens then Run(Err(OverlapConfig), [], [], [])
    else
      match split
      case Err(e) => Run(Err(e), [], [], [])
      case Ok(chunks) => RunOnChunks(chunks, extract, notify)
  }

  /** `extract_knowledge_graph`, splitting with the splitter as written. */
  function ExtractKnowledgeGraph(config: ChunkConfig, text: string, extract: string -> Result<Graph>, notify: bool): (run: Run)
    // a short text, or chunking off: one backend call on the whole text
    ensures !Chunked(config, text) ==> run == Run(extract(text), [text], [], [])
    // the overlap setting is checked before any split or backend call
    ensures Chunked(config, text) && config.overlapTokens >= config.sizeTokens ==>
              run == Run(Err(OverlapConfig), [], [], [])
    // a failed split is raised before any backend call
    ensures Chunked(config, text) && config.overlapTokens < config.sizeTokens &&
            Chunker.SplitTextAsWritten(text, config.sizeTokens, config.overlapTokens).Err? ==>
              run == Run(Err(Chunker.SplitTextAsWritten(text, config.sizeTokens, config.overlapTokens).error), [], [], [])
    ensures Chunked(config, text) && config.overlapTokens < config.sizeTokens &&
            Chunker.SplitTextAsWritten(text, config.sizeTokens, config.overlapTokens).Ok? ==>
              run == RunOnChunks(Chunker.SplitTextAsWritten(text, config.sizeTokens, config.overlapTokens).value, extract, notify)
  {
    ExtractWithSplit(config, text, Chunker.SplitTextAsWritten(text, config.sizeTokens, config.overlapTokens), extract, notify)
  }

  /** The same entry point with the corrected splitter of `Chunker.SplitText`. */
  function ExtractKnowledgeGraphCorrected(config: ChunkConfig, text: string, extract: string -> Result<Graph>, notify: bool): (run: Run)
    ensures !Chunked(config, text) ==> run == Run(extract(text), [text], [], [])
    ensures Chunked(config, text) && config.overlapTokens >= config.sizeTokens ==>
              run == Run(Err(OverlapConfig), [], [], [])
    ensures Chunked(config, text) && config.overlapTokens < config.sizeTokens &&
            Chunker.SplitText(text, config.sizeTokens, config.overlapTokens).Err? ==>
              run == Run(Err(Chunker.SplitText(text, config.sizeTokens, config.overlapTokens).error), [], [], [])
    ensures Chunked(config, text) && config.overlapTokens < config.sizeTokens &&
            Chunker.SplitText(text, config.sizeTokens, config.overlapTokens).Ok? ==>
              run == RunOnChunks(Chunker.SplitText(text, config.sizeTokens, config.overlapTokens).value, extract, notify)
  {
    ExtractWithSplit(config, text, Chunker.SplitText(text, config.sizeTokens, config.overlapTokens), extract, notify)
  }

  /** With the corrected splitter, every non-whitespace character of the
      text reaches the backend inside some chunk, whichever path is taken. */
  lemma CorrectedExtractCovers(config: ChunkConfig, text: string, extract: string -> Result<Graph>, notify: bool, k: nat)
    requires k < |text| && !Text.IsSpace(text[k])
    requires !Chunked(config, text) || 0 <= config.overlapTokens < config.sizeTokens
    ensures Chunker.Covered(text, ExtractKnowledgeGraphCorrected(config, text, extract, notify).extracted, k)
  {
    var run := ExtractKnowledgeGraphCorrected(config, text, extract, notify);
    if Chunked(config, text) {
      Chunker.SplitTextCovers(text, config.sizeTokens, config.overlapTokens, k);
    } else {
      assert Chunker.CoversAt(text, run.extracted[0], 0, k);
    }
  }

  /** As written, the chunked path can hand the backend chunks that miss
      part of the text: for "a. bxxxx" with one-token chunks and no overlap
      the "b" at index 3 is in neither chunk sent. */
  lemma ExtractAsWrittenLosesText(extract: string -> Result<Graph>, notify: bool)
    ensures ExtractKnowledgeGraph(ChunkConfig(true, 1, 0), "a. bxxxx", extract, notify).extracted == ["a.", "xxxx"]
    ensures !Chunker.Covered("a. bxxxx", ExtractKnowledgeGraph(ChunkConfig(true, 1, 0), "a. bxxxx", extract, notify).extracted, 3)
  {
    Chunker.SplitTextAsWrittenLosesText();
  }

  /** When exactly one chunk is extracted, its graph is the result, unchanged. */
  lemma OneSuccessUnchanged(chunks: seq<string>, extract: string -> Result<Graph>, notify: bool)
    requires |Successes(chunks, extract)| == 1
    ensures RunOnChunks(chunks, extract, notify).result == Ok(Successes(chunks, extract)[0])
  {
  }

  /** A long text of nothing but whitespace splits into no chunks, so the
      chunked path fails with a count of zero without calling the backend. */
  lemma BlankTextFails(config: ChunkConfig, text: string, extract: string -> Result<Graph>, notify: bool)
    requires Chunked(config, text) && 0 <= config.overlapTokens < config.sizeTokens
    requires Text.AllSpace(text)
    ensures ExtractKnowledgeGraph(config, text, extract, notify) == Run(Err(AllChunksFailed(0)), [], [], [])
  {
  }
}
