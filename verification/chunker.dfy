/** Splitting a long text into overlapping windows of about `chunkSize`
    tokens, one token being four characters. A window that does not reach
    the end of the text is cut back to its last paragraph break, else its
    second-to-last sentence end, else a word break four fifths of the way
    through its word breaks.

  The three regular expressions of the boundary search are written out as
  left-to-right scans that, like `re.finditer`, report the end of each
  non-overlapping, greedy match. */
module Chunker {
  import opened Outcomes
  import opened Text
  import opened Seqs

  /** `len(text) // 4` */
  function EstimateTokens(t: string): (r: nat)
    ensures 4 * r <= |t| < 4 * r + 4
  {
    |t| / 4
  }

  // ---------------------------------------------------------------------
  // Regular-expression scans

  /** The end of the run of `c`-characters starting at `i`. */
  function RunEnd(t: string, i: nat, c: char -> bool): (e: nat)
    requires i <= |t|
    ensures i <= e <= |t|
    ensures forall k :: i <= k < e ==> c(t[k])
    ensures e == |t| || !c(t[e])
    decreases |t| - i
  {
    if i < |t| && c(t[i]) then RunEnd(t, i + 1, c) else i
  }

  predicate IsNewline(ch: char) {
    ch == '\n'
  }

  predicate IsSentencePunct(ch: char) {
    ch == '.' || ch == '!' || ch == '?'
  }

  /** Position `i` is not strictly inside a run of `c`-characters. */
  predicate NotInsideRun(t: string, i: nat, c: char -> bool) {
    i == 0 || i >= |t| || !c(t[i - 1]) || !c(t[i])
  }

  /** Match ends of `\n\n+` from position `i` on. */
  function ParagraphEnds(t: string, i: nat): (r: seq<nat>)
    requires i <= |t|
    ensures Increasing(r)
    ensures forall k :: 0 <= k < |r| ==> i < r[k] <= |t|
    decreases |t| - i
  {
    if i + 1 >= |t| then []
    else if t[i] == '\n' && t[i + 1] == '\n' then
      var e := RunEnd(t, i, IsNewline);
      [e] + ParagraphEnds(t, e)
    else ParagraphEnds(t, i + 1)
  }

  /** `e` ends a maximal run of two or more newlines. */
  predicate ParagraphEndAt(t: string, e: int) {
    2 <= e <= |t| && t[e - 2] == '\n' && t[e - 1] == '\n' && (e == |t| || t[e] != '\n')
  }

  lemma {:induction false} ParagraphEndsExact(t: string, i: nat)
    requires i <= |t| && NotInsideRun(t, i, IsNewline)
    ensures forall e :: e in ParagraphEnds(t, i) <==> i < e && ParagraphEndAt(t, e)
    ensures ParagraphEnds(t, i) != [] ==> ParagraphEndAt(t, ParagraphEnds(t, i)[0])
    decreases |t| - i
  {
    if i + 1 >= |t| {
    } else if t[i] == '\n' && t[i + 1] == '\n' {
      var e := RunEnd(t, i, IsNewline);
      ParagraphEndsExact(t, e);
      ParagraphRun(t, i);
      assert ParagraphEnds(t, i) == [e] + ParagraphEnds(t, e);
    } else {
      ParagraphEndsExact(t, i + 1);
    }
  }

  /** A run of two or more newlines ends exactly once. */
  lemma ParagraphRun(t: string, i: nat)
    requires i + 1 < |t| && t[i] == '\n' && t[i + 1] == '\n'
    ensures ParagraphEndAt(t, RunEnd(t, i, IsNewline))
    ensures forall e :: i < e < RunEnd(t, i, IsNewline) ==> !ParagraphEndAt(t, e)
    ensures NotInsideRun(t, RunEnd(t, i, IsNewline), IsNewline)
  {
    var e := RunEnd(t, i, IsNewline);
    assert i + 2 <= e;
    assert forall e' :: i < e' < e ==> t[e'] == '\n';
  }

  /** A match of `[.!?]\s+` starts at `p`. */
  predicate SentenceMatchAt(t: string, p: int) {
    0 <= p && p + 1 < |t| && IsSentencePunct(t[p]) && IsSpace(t[p + 1])
  }

  /** Match ends of `[.!?]\s+` from position `i` on. */
  function SentenceEnds(t: string, i: nat): (r: seq<nat>)
    requires i <= |t|
    ensures Increasing(r)
    ensures forall k :: 0 <= k < |r| ==> i < r[k] <= |t|
    decreases |t| - i
  {
    if i + 1 >= |t| then []
    else if SentenceMatchAt(t, i) then
      var e := RunEnd(t, i + 1, IsSpace);
      [e] + SentenceEnds(t, e)
    else SentenceEnds(t, i + 1)
  }

  /** `e` is the end of some sentence match. */
  ghost predicate SentenceEndAt(t: string, e: nat) {
    exists p :: SentenceMatchAt(t, p) && e == RunEnd(t, p + 1, IsSpace)
  }

  /** Every punctuation mark followed by whitespace starts a match: the
      whitespace a match consumes holds no further punctuation. */
  lemma {:induction false} SentenceEndsExact(t: string, i: nat)
    requires i <= |t|
    ensures forall e :: e in SentenceEnds(t, i) <==>
              exists p :: i <= p && SentenceMatchAt(t, p) && e == RunEnd(t, p + 1, IsSpace)
    decreases |t| - i
  {
    if i + 1 >= |t| {
    } else if SentenceMatchAt(t, i) {
      var e := RunEnd(t, i + 1, IsSpace);
      SentenceEndsExact(t, e);
      assert forall p :: i < p < e ==> !SentenceMatchAt(t, p);
    } else {
      SentenceEndsExact(t, i + 1);
    }
  }

  /** Match ends of `\s+` from position `i` on. */
  function WordEnds(t: string, i: nat): (r: seq<nat>)
    requires i <= |t|
    ensures Increasing(r)
    ensures forall k :: 0 <= k < |r| ==> i < r[k] <= |t|
    decreases |t| - i
  {
    if i >= |t| then []
    else if IsSpace(t[i]) then
      var e := RunEnd(t, i, IsSpace);
      [e] + WordEnds(t, e)
    else WordEnds(t, i + 1)
  }

  /** `e` ends a maximal whitespace run. */
  predicate WordEndAt(t: string, e: int) {
    1 <= e <= |t| && IsSpace(t[e - 1]) && (e == |t| || !IsSpace(t[e]))
  }

  lemma {:induction false} WordEndsExact(t: string, i: nat)
    requires i <= |t| && NotInsideRun(t, i, IsSpace)
    ensures forall e :: e in WordEnds(t, i) <==> i < e && WordEndAt(t, e)
    decreases |t| - i
  {
    if i >= |t| {
    } else if IsSpace(t[i]) {
      var e := RunEnd(t, i, IsSpace);
      WordEndsExact(t, e);
      assert forall e' :: i < e' < e ==> IsSpace(t[e']);
    } else {
      WordEndsExact(t, i + 1);
    }
  }

  // ---------------------------------------------------------------------
  // Boundary trimming

  /** Where `_split_at_boundary` cuts, if anywhere. */
  function BoundaryCut(t: string): (r: Option<nat>)
    ensures r.Some? ==> 1 <= r.value <= |t|
  {
    var pe := ParagraphEnds(t, 0);
    if |pe| > 0 then Some(pe[|pe| - 1])
    else
      var se := SentenceEnds(t, 0);
      if |se| >= 2 then Some(se[|se| - 2])
      else if |se| == 1 then Some(se[0])
      else
        var we := WordEnds(t, 0);
        if |we| > 10 then Some(we[(4 * |we|) / 5]) else None
  }

  /** `_split_at_boundary`: the text up to the cut, right-stripped, or the
      whole text when there is no cut. */
  function SplitAtBoundary(t: string): (r: string)
    ensures |r| <= |t| && r == t[..|r|]
    ensures BoundaryCut(t).Some? ==>
              |r| <= BoundaryCut(t).value && forall k :: |r| <= k < BoundaryCut(t).value ==> IsSpace(t[k])
    ensures BoundaryCut(t).Some? ==> NoTrailingSpace(r)
    ensures BoundaryCut(t).None? ==> r == t
  {
    match BoundaryCut(t)
    case None => t
    case Some(c) =>
      RStrip(t[..c])
  }

  /** With a paragraph break present, the cut is after the last one. */
  lemma CutAtLastParagraph(t: string, e: nat)
    requires ParagraphEndAt(t, e)
    ensures BoundaryCut(t).Some?
    ensures ParagraphEndAt(t, BoundaryCut(t).value)
    ensures forall e' :: ParagraphEndAt(t, e') ==> e' <= BoundaryCut(t).value
  {
    ParagraphEndsExact(t, 0);
    var pe := ParagraphEnds(t, 0);
    assert e in pe;
    assert pe[|pe| - 1] in pe;
    forall e' | ParagraphEndAt(t, e')
      ensures e' <= pe[|pe| - 1]
    {
      assert e' in pe;
    }
  }

  lemma NoParagraphEnds(t: string)
    requires forall e :: !ParagraphEndAt(t, e)
    ensures ParagraphEnds(t, 0) == []
  {
    ParagraphEndsExact(t, 0);
  }

  /** The members of the sentence scan from the start are the sentence ends. */
  lemma SentenceEndsFromStart(t: string)
    ensures forall e: nat :: e in SentenceEnds(t, 0) <==> SentenceEndAt(t, e)
  {
    SentenceEndsExact(t, 0);
  }

  /** Without a paragraph break, the cut is at a sentence end, and at most
      one sentence end lies beyond it; exactly one when there are two or
      more. */
  lemma CutAtSentence(t: string, p: nat)
    requires forall e :: !ParagraphEndAt(t, e)
    requires SentenceMatchAt(t, p)
    ensures BoundaryCut(t).Some?
    ensures SentenceEndAt(t, BoundaryCut(t).value)
    ensures forall e: nat, e': nat :: SentenceEndAt(t, e) && SentenceEndAt(t, e') && BoundaryCut(t).value < e && BoundaryCut(t).value < e' ==> e == e'
    ensures (exists e: nat :: SentenceEndAt(t, e) && e != BoundaryCut(t).value) ==>
              exists e: nat :: SentenceEndAt(t, e) && e > BoundaryCut(t).value
  {
    NoParagraphEnds(t);
    SentenceEndsFromStart(t);
    var se := SentenceEnds(t, 0);
    assert SentenceEndAt(t, RunEnd(t, p + 1, IsSpace));
    assert |se| >= 1;
    var c := if |se| >= 2 then se[|se| - 2] else se[0];
    assert BoundaryCut(t) == Some(c);
    assert c in se;
    forall e: nat | e in se && c < e
      ensures e == se[|se| - 1]
    {
      var k :| 0 <= k < |se| && se[k] == e;
    }
    if |se| >= 2 {
      assert se[|se| - 1] in se;
    } else {
      forall e: nat | e in se
        ensures e == c
      {
        var k :| 0 <= k < |se| && se[k] == e;
      }
    }
  }

  lemma {:induction false} NoSentenceEnds(t: string, i: nat)
    requires i <= |t|
    requires forall p :: !SentenceMatchAt(t, p)
    ensures SentenceEnds(t, i) == []
    decreases |t| - i
  {
    if i + 1 < |t| {
      NoSentenceEnds(t, i + 1);
    }
  }

  /** Without a paragraph break or a sentence end, the cut needs more than
      ten whitespace runs and falls at the end of one of them, with
      exactly four fifths of the run ends, rounded down, before it. */
  lemma CutAtWord(t: string)
    requires forall e :: !ParagraphEndAt(t, e)
    requires forall p :: !SentenceMatchAt(t, p)
    ensures BoundaryCut(t).Some? <==> |WordEnds(t, 0)| > 10
    ensures BoundaryCut(t).Some? ==> WordEndAt(t, BoundaryCut(t).value)
    ensures BoundaryCut(t).Some? ==>
              var we := WordEnds(t, 0);
              forall k :: 0 <= k < |we| ==> (we[k] < BoundaryCut(t).value <==> k < (4 * |we|) / 5)
  {
    NoParagraphEnds(t);
    NoSentenceEnds(t, 0);
    WordEndsExact(t, 0);
    var we := WordEnds(t, 0);
    if |we| > 10 {
      assert we[(4 * |we|) / 5] in we;
    }
  }

  // ---------------------------------------------------------------------
  // Windows

  /** A stripped piece of the text is still a piece of the text. */
  lemma StripOccurs(text: string, s: string, a: nat)
    requires OccursAt(text, s, a)
    ensures OccursAt(text, Strip(s), a + LeadingSpaces(s))
  {
    OccursSlice(text, s, a, LeadingSpaces(s), |Strip(s)|);
  }

  /** A slice of a piece of the text is a piece of the text. */
  lemma OccursSlice(text: string, s: string, a: nat, l: nat, m: nat)
    requires OccursAt(text, s, a) && l + m <= |s|
    ensures OccursAt(text, s[l..l + m], a + l)
  {
    SliceOfSlice(text, a, a + |s|, l, l + m);
  }

  /** `s` is a piece of `text` that covers position `k`. */
  predicate CoversAt(text: string, s: string, a: nat, k: nat) {
    OccursAt(text, s, a) && a <= k < a + |s|
  }

  /** Some chunk of `chunks` is a piece of `text` covering position `k`. */
  ghost predicate Covered(text: string, chunks: seq<string>, k: nat) {
    exists i, a: nat :: 0 <= i < |chunks| && CoversAt(text, chunks[i], a, k)
  }

  /** `s` occurs somewhere in `text`. */
  ghost predicate IsPiece(text: string, s: string) {
    exists a: nat :: OccursAt(text, s, a)
  }

  /** The window at `pos` before stripping: `_split_at_boundary` of the
      `cc`-character window when the window stops short of the end of the
      text, else the untrimmed rest of the text. */
  function Trimmed(text: string, cc: nat, pos: nat): (w: string)
    requires pos < |text|
    ensures pos + |w| <= |text| && |w| <= cc
    ensures pos + cc >= |text| ==> w == text[pos..]
  {
    if pos + cc < |text| then SplitAtBoundary(text[pos..pos + cc]) else text[pos..]
  }

  /** The trimmed window is the text from `pos` on, cut short. */
  lemma TrimmedOccurs(text: string, cc: nat, pos: nat)
    requires pos < |text|
    ensures OccursAt(text, Trimmed(text, cc, pos), pos)
  {
    if pos + cc < |text| {
      var raw := text[pos..pos + cc];
      var w := SplitAtBoundary(raw);
      assert w == raw[..|w|] == text[pos..pos + |w|];
    }
  }

  /** The chunk emitted for the window at `pos`: the trimmed window, stripped. */
  function Emitted(text: string, cc: nat, pos: nat): (c: string)
    requires pos < |text|
    ensures IsStripped(c)
    ensures |c| <= |Trimmed(text, cc, pos)|
  {
    Strip(Trimmed(text, cc, pos))
  }

  /** The emitted chunk is a piece of the text, just after the leading
      whitespace of the trimmed window. */
  lemma EmittedOccurs(text: string, cc: nat, pos: nat)
    requires pos < |text|
    ensures OccursAt(text, Emitted(text, cc, pos), pos + LeadingSpaces(Trimmed(text, cc, pos)))
  {
    var w := Trimmed(text, cc, pos);
    TrimmedOccurs(text, cc, pos);
    StripOccurs(text, w, pos);
    assert Emitted(text, cc, pos) == Strip(w);
  }

  /** Stripping loses only whitespace: every other character of the trimmed
      window is inside the emitted chunk. */
  lemma EmittedCovers(text: string, cc: nat, pos: nat, k: nat)
    requires pos < |text|
    requires pos <= k < pos + |Trimmed(text, cc, pos)| && !IsSpace(text[k])
    ensures CoversAt(text, Emitted(text, cc, pos), pos + LeadingSpaces(Trimmed(text, cc, pos)), k)
  {
    var w := Trimmed(text, cc, pos);
    TrimmedOccurs(text, cc, pos);
    EmittedOccurs(text, cc, pos);
    assert w[k - pos] == text[k];
  }

  /** Where the window at `pos` is cut: the boundary found in a window that
      stops short of the end of the text (its full length when there is
      none), else the end of the text. */
  function Cut(text: string, cc: nat, pos: nat): (c: nat)
    requires 0 < cc && pos < |text|
    ensures 1 <= c && pos + c <= |text|
    ensures pos + cc < |text| ==> c <= cc
    ensures pos + cc >= |text| ==> pos + c == |text|
  {
    if pos + cc < |text| then
      match BoundaryCut(text[pos..pos + cc])
      case None => cc
      case Some(c) => c
    else |text| - pos
  }

  /** Only whitespace lies between the end of the trimmed window and the cut. */
  lemma CutSpaces(text: string, cc: nat, pos: nat)
    requires 0 < cc && pos < |text|
    ensures |Trimmed(text, cc, pos)| <= Cut(text, cc, pos)
    ensures forall k :: pos + |Trimmed(text, cc, pos)| <= k < pos + Cut(text, cc, pos) ==> IsSpace(text[k])
  {
    if pos + cc < |text| {
      var raw := text[pos..pos + cc];
      assert forall k :: 0 <= k < cc ==> raw[k] == text[pos + k];
    }
  }

  // ---------------------------------------------------------------------
  // The window loop

  /** The cursors the window loop visits from `pos` on, when `next` gives the
      cursor after each window that stops short of the end: the loop runs
      until a window reaches the end of the text. */
  function Steps(len: nat, cc: nat, next: nat -> nat, pos: nat): (cs: seq<nat>)
    requires pos < len
    requires forall p: nat :: p + cc < len ==> p < next(p) < len
    ensures |cs| >= 1 && cs[0] == pos
    ensures forall i :: 0 <= i < |cs| ==> pos <= cs[i] < len
    ensures forall i :: 0 <= i < |cs| - 1 ==> cs[i] + cc < len
    ensures forall i, j :: 0 <= i && j == i + 1 < |cs| ==> cs[j] == next(cs[i])
    ensures cs[|cs| - 1] + cc >= len
    decreases len - pos
  {
    if pos + cc < len then [pos] + Steps(len, cc, next, next(pos)) else [pos]
  }

  /** The index of the cursor whose stretch holds position `k`: the last
      cursor at or before `k`. */
  function StepHolding(len: nat, cc: nat, next: nat -> nat, pos: nat, k: nat): (i: nat)
    requires pos <= k < len
    requires forall p: nat :: p + cc < len ==> p < next(p) < len
    ensures i < |Steps(len, cc, next, pos)|
    ensures Steps(len, cc, next, pos)[i] <= k
    ensures i + 1 == |Steps(len, cc, next, pos)| || k < Steps(len, cc, next, pos)[i + 1]
    decreases len - pos
  {
    if pos + cc < len && next(pos) <= k then
      var rest := Steps(len, cc, next, next(pos));
      assert Steps(len, cc, next, pos) == [pos] + rest;
      1 + StepHolding(len, cc, next, next(pos), k)
    else 0
  }

  // ---------------------------------------------------------------------
  // Windows, as the source advances them

  /** The cursor after the window at `pos`, as the source computes it: back
      from the untrimmed window end by the overlap, or to that end when the
      new cursor would not pass the place where the trimmed window's first
      hundred characters occur in the emitted chunk. */
  function NextCursorAsWritten(text: string, cc: nat, oc: nat, pos: nat): (next: nat)
    requires oc < cc && pos + cc < |text|
    ensures pos + (cc - oc) <= next < |text|
  {
    var end := pos + cc;
    var w := Trimmed(text, cc, pos);
    if end - oc <= Find(Emitted(text, cc, pos), w[..Min(100, |w|)]) then end else end - oc
  }

  /** The cursors of the source's window loop: each window after the first
      starts at least `cc - oc` characters after the one before. */
  function CursorsAsWritten(text: string, cc: nat, oc: nat): (cs: seq<nat>)
    requires oc < cc && 0 < |text|
    ensures |cs| >= 1 && cs[0] == 0
    ensures forall i :: 0 <= i < |cs| ==> cs[i] < |text|
    ensures forall i :: 0 <= i < |cs| - 1 ==> cs[i] + cc < |text|
    ensures forall i, j :: 0 <= i && j == i + 1 < |cs| ==>
              cs[i] + (cc - oc) <= cs[j] && cs[j] == NextCursorAsWritten(text, cc, oc, cs[i])
    ensures cs[|cs| - 1] + cc >= |text|
  {
    Steps(|text|, cc, (p: nat) => if p + cc < |text| then NextCursorAsWritten(text, cc, oc, p) else p + 1, 0)
  }

  /** The chunks of the window loop as the source runs it: each stripped,
      all but the last at most `cc` long, the last the stripped rest of the
      text. */
  function WindowsAsWritten(text: string, cc: nat, oc: nat): (r: seq<string>)
    requires oc < cc && 0 < |text|
    ensures |r| == |CursorsAsWritten(text, cc, oc)|
    ensures forall i :: 0 <= i < |r| ==> r[i] == Emitted(text, cc, CursorsAsWritten(text, cc, oc)[i])
  {
    var cs := CursorsAsWritten(text, cc, oc);
    seq(|cs|, i requires 0 <= i < |cs| => Emitted(text, cc, cs[i]))
  }

  // ---------------------------------------------------------------------
  // Windows, advancing from the cut

  /** The cursor after the window at `pos`: back by the overlap from where
      the window was cut, or to the cut when stepping back would not move
      forward. */
  function NextCursor(text: string, cc: nat, oc: nat, pos: nat): (next: nat)
    requires oc < cc && pos + cc < |text|
    ensures pos < next <= pos + Cut(text, cc, pos) < |text|
  {
    var end := pos + Cut(text, cc, pos);
    if end - oc > pos then end - oc else end
  }

  /** The cursors of the window loop when the cursor is taken from the cut:
      each window after the first starts after the one before and no later
      than where that one was cut. */
  function Cursors(text: string, cc: nat, oc: nat): (cs: seq<nat>)
    requires oc < cc && 0 < |text|
    ensures |cs| >= 1 && cs[0] == 0
    ensures forall i :: 0 <= i < |cs| ==> cs[i] < |text|
    ensures forall i :: 0 <= i < |cs| - 1 ==> cs[i] + cc < |text|
    ensures forall i, j :: 0 <= i && j == i + 1 < |cs| ==> cs[i] < cs[j] <= cs[i] + Cut(text, cc, cs[i])
    ensures cs[|cs| - 1] + cc >= |text|
  {
    Steps(|text|, cc, (p: nat) => if p + cc < |text| then NextCursor(text, cc, oc, p) else p + 1, 0)
  }

  /** The chunks of the window loop with the cursor taken from the cut. */
  function Windows(text: string, cc: nat, oc: nat): (r: seq<string>)
    requires oc < cc && 0 < |text|
    ensures |r| == |Cursors(text, cc, oc)|
    ensures forall i :: 0 <= i < |r| ==> r[i] == Emitted(text, cc, Cursors(text, cc, oc)[i])
  {
    var cs := Cursors(text, cc, oc);
    seq(|cs|, i requires 0 <= i < |cs| => Emitted(text, cc, cs[i]))
  }

  /** The window whose stretch from its cursor to its cut holds position `k`. */
  function CursorHolding(text: string, cc: nat, oc: nat, k: nat): (i: nat)
    requires oc < cc && k < |text|
    ensures i < |Cursors(text, cc, oc)|
    ensures Cursors(text, cc, oc)[i] <= k < Cursors(text, cc, oc)[i] + Cut(text, cc, Cursors(text, cc, oc)[i])
  {
    var next := (p: nat) => if p + cc < |text| then NextCursor(text, cc, oc, p) else p + 1;
    var i := StepHolding(|text|, cc, next, 0, k);
    HoldingBounds(text, cc, oc, k, i);
    i
  }

  /** The last cursor at or before `k` is cut after `k`. */
  lemma HoldingBounds(text: string, cc: nat, oc: nat, k: nat, i: nat)
    requires oc < cc && k < |text|
    requires i < |Cursors(text, cc, oc)| && Cursors(text, cc, oc)[i] <= k
    requires i + 1 == |Cursors(text, cc, oc)| || k < Cursors(text, cc, oc)[i + 1]
    ensures k < Cursors(text, cc, oc)[i] + Cut(text, cc, Cursors(text, cc, oc)[i])
  {
  }

  /** No character other than whitespace is lost: each lies inside some chunk. */
  lemma WindowsCover(text: string, cc: nat, oc: nat, k: nat)
    requires oc < cc && k < |text| && !IsSpace(text[k])
    ensures Covered(text, Windows(text, cc, oc), k)
  {
    var i := CursorHolding(text, cc, oc, k);
    var cs := Cursors(text, cc, oc);
    var a := CutCovers(text, cc, cs[i], k);
    assert CoversAt(text, Windows(text, cc, oc)[i], a, k);
  }

  /** The window at `p` covers a non-space position between `p` and its cut. */
  lemma CutCovers(text: string, cc: nat, p: nat, k: nat) returns (a: nat)
    requires 0 < cc && k < |text| && !IsSpace(text[k])
    requires p <= k < p + Cut(text, cc, p)
    ensures CoversAt(text, Emitted(text, cc, p), a, k)
  {
    CutSpaces(text, cc, p);
    EmittedCovers(text, cc, p, k);
    a := p + LeadingSpaces(Trimmed(text, cc, p));
  }

  /** Every chunk is a stripped piece of the text at most `cc` long. */
  ghost predicate ChunksFit(text: string, cc: nat, r: seq<string>) {
    forall i :: 0 <= i < |r| ==> IsStripped(r[i]) && |r[i]| <= cc && IsPiece(text, r[i])
  }

  lemma EmittedFits(text: string, cc: nat, pos: nat)
    requires pos < |text|
    ensures IsStripped(Emitted(text, cc, pos)) && |Emitted(text, cc, pos)| <= cc
    ensures IsPiece(text, Emitted(text, cc, pos))
  {
    EmittedOccurs(text, cc, pos);
  }

  /** The chunks of a window loop are stripped pieces of the text at most
      `cc` long. */
  lemma ChunksAllFit(text: string, cc: nat, cs: seq<nat>, r: seq<string>)
    requires |r| == |cs|
    requires forall i :: 0 <= i < |cs| ==> cs[i] < |text| && r[i] == Emitted(text, cc, cs[i])
    ensures ChunksFit(text, cc, r)
  {
    forall i | 0 <= i < |r|
      ensures IsStripped(r[i]) && |r[i]| <= cc && IsPiece(text, r[i])
    {
      EmittedFits(text, cc, cs[i]);
    }
  }

  /** The last window reaches the end of the text and is only stripped. */
  lemma LastChunk(text: string, cc: nat, p: nat)
    requires p < |text| <= p + cc
    ensures Emitted(text, cc, p) == Strip(text[p..])
  {
  }

  /** A text longer than one window gives two chunks or more, all fitting. */
  lemma WindowsAsWrittenShape(text: string, cc: nat, oc: nat)
    requires oc < cc < |text|
    ensures var r := WindowsAsWritten(text, cc, oc);
            |r| >= 2 && ChunksFit(text, cc, r) &&
            r[|r| - 1] == Strip(text[CursorsAsWritten(text, cc, oc)[|r| - 1]..])
  {
    var cs := CursorsAsWritten(text, cc, oc);
    ChunksAllFit(text, cc, cs, WindowsAsWritten(text, cc, oc));
    LastChunk(text, cc, cs[|cs| - 1]);
  }

  lemma WindowsShape(text: string, cc: nat, oc: nat)
    requires oc < cc < |text|
    ensures var r := Windows(text, cc, oc);
            |r| >= 2 && ChunksFit(text, cc, r) &&
            r[|r| - 1] == Strip(text[Cursors(text, cc, oc)[|r| - 1]..])
  {
    var cs := Cursors(text, cc, oc);
    ChunksAllFit(text, cc, cs, Windows(text, cc, oc));
    LastChunk(text, cc, cs[|cs| - 1]);
  }

  // ---------------------------------------------------------------------
  // split_text

  /** The argument checks of `split_text`, in the order it makes them. */
  function CheckChunkArgs(size: int, overlap: int): (r: Outcome)
    ensures r == Pass <==> 0 <= overlap < size
    ensures size <= 0 ==> r == Fail(ChunkSizeNotPositive)
    ensures 0 < size && overlap < 0 ==> r == Fail(OverlapNegative)
    ensures 0 <= overlap && size <= overlap && 0 < size ==> r == Fail(OverlapNotLessThanSize)
  {
    if size <= 0 then Fail(ChunkSizeNotPositive)
    else if overlap < 0 then Fail(OverlapNegative)
    else if overlap >= size then Fail(OverlapNotLessThanSize)
    else Pass
  }

  /** `split_text` as the source writes it. */
  function SplitTextAsWritten(text: string, size: int, overlap: int): (r: Result<seq<string>>)
    ensures CheckChunkArgs(size, overlap).Fail? ==> r == Err(CheckChunkArgs(size, overlap).error)
    ensures r.Ok? <==> 0 <= overlap < size
    ensures r.Ok? ==> (r.value == [] <==> AllSpace(text))
    ensures r.Ok? && !AllSpace(text) && |text| < 4 * size + 4 ==> r.value == [text]
    ensures r.Ok? && |text| >= 4 * size + 4 && !AllSpace(text) ==>
              r.value == WindowsAsWritten(text, 4 * size, 4 * overlap) && |r.value| >= 2 && ChunksFit(text, 4 * size, r.value)
  {
    match CheckChunkArgs(size, overlap)
    case Fail(e) => Err(e)
    case Pass =>
      StripEmptyIffAllSpace(text);
      if Strip(text) == [] then Ok([])
      else if EstimateTokens(text) <= size then Ok([text])
      else
        var cc, oc := 4 * size, 4 * overlap;
        WindowsAsWrittenShape(text, cc, oc);
        Ok(WindowsAsWritten(text, cc, oc))
  }

  /** `split_text` with the cursor taken from where each window was cut. */
  function SplitText(text: string, size: int, overlap: int): (r: Result<seq<string>>)
    ensures CheckChunkArgs(size, overlap).Fail? ==> r == Err(CheckChunkArgs(size, overlap).error)
    ensures r.Ok? <==> 0 <= overlap < size
    ensures r.Ok? ==> (r.value == [] <==> AllSpace(text))
    ensures r.Ok? && !AllSpace(text) && |text| < 4 * size + 4 ==> r.value == [text]
    ensures r.Ok? && |text| >= 4 * size + 4 && !AllSpace(text) ==>
              r.value == Windows(text, 4 * size, 4 * overlap) && |r.value| >= 2 && ChunksFit(text, 4 * size, r.value)
  {
    match CheckChunkArgs(size, overlap)
    case Fail(e) => Err(e)
    case Pass =>
      StripEmptyIffAllSpace(text);
      if Strip(text) == [] then Ok([])
      else if EstimateTokens(text) <= size then Ok([text])
      else
        var cc, oc := 4 * size, 4 * overlap;
        WindowsShape(text, cc, oc);
        Ok(Windows(text, cc, oc))
  }

  /** Every character of the text other than whitespace lies inside some
      chunk that `SplitText` returns. */
  lemma SplitTextCovers(text: string, size: int, overlap: int, k: nat)
    requires SplitText(text, size, overlap).Ok?
    requires k < |text| && !IsSpace(text[k])
    ensures Covered(text, SplitText(text, size, overlap).value, k)
  {
    var r := SplitText(text, size, overlap).value;
    if |text| < 4 * size + 4 {
      assert r == [text];
      assert CoversAt(text, r[0], 0, k);
    } else {
      WindowsCover(text, 4 * size, 4 * overlap, k);
    }
  }

  /** A chunk covering a position holds the character there. */
  lemma CoversHolds(text: string, c: string, a: nat, k: nat)
    requires CoversAt(text, c, a, k)
    ensures text[k] in c
  {
    assert c[k - a] == text[a..a + |c|][k - a];
  }

  /** `_split_at_boundary("a. b")` cuts after the only sentence end. */
  lemma SentenceExample()
    ensures SplitAtBoundary("a. b") == "a."
  {
    var raw := "a. b";
    assert ParagraphEnds(raw, 2) == [];
    assert ParagraphEnds(raw, 1) == [];
    assert ParagraphEnds(raw, 0) == [];
    assert RunEnd(raw, 2, IsSpace) == 3;
    assert SentenceEnds(raw, 3) == [];
    assert SentenceEnds(raw, 0) == [3];
    assert raw[..3] == "a. ";
    assert TrailingSpaces("a. ") == 1;
  }

  /** After the window "a. b" the source moves the cursor to index 4. */
  lemma NextExample()
    ensures NextCursorAsWritten("a. bxxxx", 4, 0, 0) == 4
  {
    var text := "a. bxxxx";
    assert text[0..4] == "a. b";
    SentenceExample();
    assert Trimmed(text, 4, 0) == "a.";
    assert Emitted(text, 4, 0) == "a.";
    assert OccursAt("a.", "a.", 0);
  }

  /** The source's cursors for "a. bxxxx" with four-character windows and
      no overlap: the second window starts at index 4. */
  lemma CursorsExample()
    ensures CursorsAsWritten("a. bxxxx", 4, 0) == [0, 4]
  {
    var cs := CursorsAsWritten("a. bxxxx", 4, 0);
    NextExample();
    assert |cs| >= 2 ==> cs[1] == 4;
    assert |cs| == 2;
  }

  /** Neither "a." nor "xxxx" covers the "b" of "a. bxxxx". */
  lemma NotCoveredExample()
    ensures !Covered("a. bxxxx", ["a.", "xxxx"], 3)
  {
    var text := "a. bxxxx";
    forall i, a: nat | 0 <= i < 2 && CoversAt(text, ["a.", "xxxx"][i], a, 3)
      ensures false
    {
      CoversHolds(text, ["a.", "xxxx"][i], a, 3);
    }
  }

  lemma FirstChunkExample()
    ensures Emitted("a. bxxxx", 4, 0) == "a."
  {
    assert "a. bxxxx"[0..4] == "a. b";
    SentenceExample();
    assert Trimmed("a. bxxxx", 4, 0) == "a.";
    StripOfStripped("a.");
  }

  lemma LastChunkExample()
    ensures Emitted("a. bxxxx", 4, 4) == "xxxx"
  {
    assert "a. bxxxx"[4..] == "xxxx";
  }

  /** The source's chunks for "a. bxxxx" with four-character windows and
      no overlap. */
  lemma WindowsExample()
    ensures WindowsAsWritten("a. bxxxx", 4, 0) == ["a.", "xxxx"]
  {
    CursorsExample();
    FirstChunkExample();
    LastChunkExample();
  }

  lemma SplitExample()
    ensures SplitTextAsWritten("a. bxxxx", 1, 0) == Ok(["a.", "xxxx"])
  {
    WindowsExample();
    assert !AllSpace("a. bxxxx") by {
      assert !IsSpace("a. bxxxx"[0]);
    }
  }

  /** The source's cursor rule loses text: for "a. bxxxx" with windows of
      one token and no overlap, the first window "a. b" is cut after "a. ",
      the next window starts at index 4, and the "b" at index 3 is in no
      chunk. */
  lemma SplitTextAsWrittenLosesText()
    ensures SplitTextAsWritten("a. bxxxx", 1, 0) == Ok(["a.", "xxxx"])
    ensures !IsSpace("a. bxxxx"[3]) && !Covered("a. bxxxx", ["a.", "xxxx"], 3)
  {
    SplitExample();
    NotCoveredExample();
  }
}
