/** spellchecker.py: the batching of subtitles around the corrector, the
    chunking of long texts, and the write-back of corrected texts into parsed
    subtitle entries. The language model behind the corrector is a parameter:
    any function from prompt to answer. */
module SpellChecking {
  import opened PyStrings
  import opened Utils
  import opened Subtitles

  /** The corrector (ModelProvider.correct_text): an arbitrary function of
      the prompt, together with the prompts it has been sent so far. */
  class Provider {
    const respond: string -> string
    var prompts: seq<string>

    constructor (respond: string -> string)
      ensures this.respond == respond && prompts == []
    {
      this.respond := respond;
      prompts := [];
    }

    method CorrectText(text: string) returns (r: string)
      modifies this
      ensures r == respond(text)
      ensures prompts == old(prompts) + [text]
    {
      r := respond(text);
      prompts := prompts + [text];
    }
  }

  // ---------------------------------------------------------------------------
  // correct_subtitles: fixed-size batches joined with "§SEP§"
  // ---------------------------------------------------------------------------

  /** The marker correct_subtitles puts between the subtitles of a batch. */
  const BatchSeparator := "§SEP§"

  /** The slices items[i : min(i + size, len)] for i in range(0, len, size);
      a size below 1 gives no slice at all. */
  function FixedBatches<T>(items: seq<T>, size: int): (bs: seq<seq<T>>)
    ensures size > 0 ==> Flatten(bs) == items
    ensures size <= 0 ==> bs == []
    ensures forall k :: 0 <= k < |bs| ==> 0 < |bs[k]| <= size
    ensures forall k :: 0 <= k < |bs| - 1 ==> |bs[k]| == size
    decreases |items|
  {
    if size <= 0 || items == [] then []
    else if |items| <= size then [items]
    else [items[..size]] + FixedBatches(items[size..], size)
  }

  /** The separator without its last character, and without its last two. */
  const CutSeparator1 := "§SEP"
  const CutSeparator2 := "§SE"

  /** The answer with "\n" appended when it ends in a cut-off separator. */
  function FixUp(answer: string): string {
    if EndsWith(answer, CutSeparator1) || EndsWith(answer, CutSeparator2) then answer + "\n"
    else answer
  }

  /** The strings one non-empty batch contributes: the fixed-up answer to the
      joined batch, split at every separator. */
  function BatchParts(batch: seq<string>, respond: string -> string): seq<string> {
    Split(FixUp(respond(Join(batch, BatchSeparator))), BatchSeparator)
  }

  /** The corrected list: the parts of every non-empty batch, in batch order. */
  function CorrectedAll(batches: seq<seq<string>>, respond: string -> string): seq<string>
    decreases |batches|
  {
    if batches == [] then []
    else
      var last := batches[|batches| - 1];
      CorrectedAll(batches[..|batches| - 1], respond) + (if last == [] then [] else BatchParts(last, respond))
  }

  /** The prompts sent: one joined text per non-empty batch, in batch order. */
  function BatchPrompts(batches: seq<seq<string>>): seq<string>
    decreases |batches|
  {
    if batches == [] then []
    else
      var last := batches[|batches| - 1];
      BatchPrompts(batches[..|batches| - 1]) + (if last == [] then [] else [Join(last, BatchSeparator)])
  }

  /** The number of strings a batch contributes is one more than the number of
      separators in the fixed-up answer: nothing pads or truncates the parts
      to the size of the batch. */
  lemma BatchPartsCount(batch: seq<string>, respond: string -> string)
    ensures |BatchParts(batch, respond)| == Count(FixUp(respond(Join(batch, BatchSeparator))), BatchSeparator) + 1
  {
    SplitCount(FixUp(respond(Join(batch, BatchSeparator))), BatchSeparator);
  }

  /** A subtitle the separator handling leaves alone: it holds no '§' and is
      not one of the two tails the fix-up mistakes for a cut-off separator. */
  predicate Plain(s: string) {
    '§' !in s && s != "SE" && s != "SEP"
  }

  /** Two or more plain subtitles joined: the end of the join can only look
      like a cut-off separator when the last subtitle is "SE" or "SEP". */
  lemma JoinedEnd(init: string, last: string)
    requires Plain(last)
    ensures FixUp(init + BatchSeparator + last) == init + BatchSeparator + last
  {
    var u := init + BatchSeparator + last;
    var n := |u|;
    assert u[n - |last|..] == last;
    if |last| >= 4 {
      NotEndsWithChar(u, CutSeparator1);
      NotEndsWithChar(u, CutSeparator2);
    } else if |last| == 3 {
      assert u[n - 3..] == last;
      NotEndsWithTail(u, CutSeparator1);
      NotEndsWithChar(u, CutSeparator2);
    } else if |last| == 2 {
      assert u[n - 4] == 'P';
      NotEndsWithChar(u, CutSeparator1);
      assert u[n - 2..] == last;
      NotEndsWithTail(u, CutSeparator2);
    } else if |last| == 1 {
      assert u[n - 4] == 'E' && u[n - 3] == 'P';
      NotEndsWithChar(u, CutSeparator1);
      NotEndsWithChar(u, CutSeparator2);
    } else {
      assert u[n - 4] == 'S' && u[n - 3] == 'E';
      NotEndsWithChar(u, CutSeparator1);
      NotEndsWithChar(u, CutSeparator2);
    }
  }

  /** A text cannot end with a word whose first character is not where that
      word would have to start. */
  lemma NotEndsWithChar(s: string, w: string)
    requires 0 < |w| <= |s| && s[|s| - |w|] != w[0]
    ensures !EndsWith(s, w)
  {
    assert s[|s| - |w|..][0] == s[|s| - |w|];
  }

  /** A text that does not end with the tail of a word does not end with the
      word. */
  lemma NotEndsWithTail(s: string, w: string)
    requires 0 < |w| && !EndsWith(s, w[1..])
    ensures !EndsWith(s, w)
  {
    if |w| <= |s| {
      assert s[|s| - |w|..][1..] == s[|s| - (|w| - 1)..];
    }
  }

  /** A subtitle that an echoing corrector's answer gives back wherever it
      stands in a batch: no separator starts inside it, and after a
      separator it does not end like a cut-off separator. */
  predicate EchoSafe(s: string) {
    && NoSepInside(s, BatchSeparator)
    && !EndsWith(BatchSeparator + s, CutSeparator1)
    && !EndsWith(BatchSeparator + s, CutSeparator2)
  }

  /** Plain subtitles are safe. */
  lemma PlainEchoSafe(s: string)
    requires Plain(s)
    ensures EchoSafe(s)
  {
    NoSepInsideOfAbsent(s, BatchSeparator);
    JoinedEnd([], s);
    assert [] + BatchSeparator + s == BatchSeparator + s;
  }

  /** A safe subtitle ending a batch, alone or after others, does not set off
      the fix-up. */
  lemma EchoSafeEnd(init: string, last: string)
    requires EchoSafe(last)
    ensures FixUp(last) == last
    ensures FixUp(init + BatchSeparator + last) == init + BatchSeparator + last
  {
    EndsWithPrefixed(BatchSeparator, last, CutSeparator1);
    EndsWithPrefixed(BatchSeparator, last, CutSeparator2);
    assert init + BatchSeparator + last == init + (BatchSeparator + last);
    EndsWithPrefixed(init, BatchSeparator + last, CutSeparator1);
    EndsWithPrefixed(init, BatchSeparator + last, CutSeparator2);
  }

  /** With a corrector that answers with its prompt, a batch of safe
      subtitles comes back unchanged. */
  lemma BatchPartsIdentity(batch: seq<string>)
    requires |batch| > 0 && forall k :: 0 <= k < |batch| ==> EchoSafe(batch[k])
    ensures BatchParts(batch, Identity) == batch
  {
    var joined := Join(batch, BatchSeparator);
    if |batch| == 1 {
      EchoSafeEnd([], batch[0]);
    } else {
      var init := batch[..|batch| - 1];
      assert init + [batch[|batch| - 1]] == batch;
      JoinAppend(init, batch[|batch| - 1], BatchSeparator);
      EchoSafeEnd(Join(init, BatchSeparator), batch[|batch| - 1]);
    }
    SplitJoin(batch, BatchSeparator);
  }

  /** With a corrector that answers with its prompt, batches of safe
      subtitles give back their concatenation. */
  lemma {:induction false} CorrectedAllIdentity(batches: seq<seq<string>>)
    requires forall k, j :: 0 <= k < |batches| && 0 <= j < |batches[k]| ==> EchoSafe(batches[k][j])
    ensures CorrectedAll(batches, Identity) == Flatten(batches)
    decreases |batches|
  {
    if batches != [] {
      var init := batches[..|batches| - 1];
      var last := batches[|batches| - 1];
      assert init + [last] == batches;
      CorrectedAllIdentity(init);
      FlattenAppend(init, last);
      if last != [] {
        BatchPartsIdentity(last);
      }
    }
  }

  /** The fix-up at work: a corrector that answers with its prompt turns the
      batch ["a", "SEP"] into ["a", "SEP\n"]. */
  lemma FixUpAltersIdentity()
    ensures BatchParts(["a", "SEP"], Identity) == ["a", "SEP\n"]
  {
    var joined := "a§SEP§SEP";
    assert Join(["a", "SEP"], BatchSeparator) == joined;
    assert EndsWith(joined, "§SEP");
    var fixed := "a§SEP§SEP\n";
    assert FixUp(joined) == fixed;
    assert fixed[0..5][0] == 'a';
    assert fixed[1..6] == BatchSeparator;
    assert IndexFrom(fixed, BatchSeparator, 1) == Some(1);
    assert IndexOf(fixed, BatchSeparator) == Some(1);
    var rest := fixed[6..];
    assert rest == "SEP\n";
    assert IndexOf(rest, BatchSeparator).None?;
    assert Split(rest, BatchSeparator) == [rest];
    assert fixed[..1] == "a";
    assert Split(fixed, BatchSeparator) == [fixed[..1]] + Split(rest, BatchSeparator);
    assert Identity(joined) == joined;
  }

  /** The batches correct_subtitles as written works on: batch size 0 asks for
      token-based batching, and the call it makes for that passes batch_items
      one argument more than it accepts, which raises TypeError. */
  function SubtitleBatches(subtitles: seq<string>, batchSize: int): (r: Result<seq<seq<string>>>)
    ensures batchSize == 0 <==> r == Err(TypeError)
    ensures batchSize != 0 ==> r == Ok(FixedBatches(subtitles, batchSize))
  {
    if batchSize == 0 then Err(TypeError) else Ok(FixedBatches(subtitles, batchSize))
  }

  /** The batches the token-based branch evidently means to use: batch_items
      with the texts themselves as items. */
  function IntendedBatches(subtitles: seq<string>, batchSize: int, maxTokens: int): seq<seq<string>> {
    if batchSize == 0 then GreedyBatches(subtitles, Identity, maxTokens, 7)
    else FixedBatches(subtitles, batchSize)
  }

  /** In either mode of the intended batching, safe subtitles (plain ones
      among them, see PlainEchoSafe) come back unchanged from a corrector
      that answers with its prompt. */
  lemma IntendedRoundTrip(subtitles: seq<string>, batchSize: int, maxTokens: int)
    requires batchSize >= 0
    requires forall k :: 0 <= k < |subtitles| ==> EchoSafe(subtitles[k])
    ensures CorrectedAll(IntendedBatches(subtitles, batchSize, maxTokens), Identity) == subtitles
  {
    var bs := IntendedBatches(subtitles, batchSize, maxTokens);
    if batchSize == 0 {
      GreedyBatchesPartition(subtitles, Identity, maxTokens, 7);
    }
    forall k, j | 0 <= k < |bs| && 0 <= j < |bs[k]| ensures EchoSafe(bs[k][j]) {
      FlattenMember(bs, k, j);
    }
    CorrectedAllIdentity(bs);
  }

  /** An element of a batch is an element of the flattened list. */
  lemma {:induction false} FlattenMember<T>(bs: seq<seq<T>>, k: nat, j: nat)
    requires k < |bs| && j < |bs[k]|
    ensures bs[k][j] in Flatten(bs)
    decreases k
  {
    if k == 0 {
      assert Flatten(bs) == bs[0] + Flatten(bs[1..]);
      assert Flatten(bs)[j] == bs[0][j];
    } else {
      FlattenMember(bs[1..], k - 1, j);
      assert Flatten(bs) == bs[0] + Flatten(bs[1..]);
    }
  }

  // ---------------------------------------------------------------------------
  // correct_text: the chunk boundaries and the merge
  // ---------------------------------------------------------------------------

  /** The (start, end) pairs correct_text computes for its chunks: each pair
      spans its chunk, and the next start steps back by the overlap. */
  method ChunkBoundaries(chunks: seq<string>, overlap: int) returns (bounds: seq<(int, int)>)
    ensures |bounds| == |chunks|
    ensures |chunks| > 0 ==> bounds[0].0 == 0
    ensures forall i :: 0 <= i < |chunks| ==> bounds[i].1 - bounds[i].0 == |chunks[i]|
    ensures forall i :: 0 < i < |chunks| ==> bounds[i].0 == bounds[i - 1].0 + |chunks[i - 1]| - overlap
  {
    bounds := [];
    var pos := 0;
    for i := 0 to |chunks|
      invariant |bounds| == i
      invariant i > 0 ==> bounds[0].0 == 0
      invariant i == 0 ==> pos == 0
      invariant forall j :: 0 <= j < i ==> bounds[j].1 - bounds[j].0 == |chunks[j]|
      invariant forall j :: 0 < j < i ==> bounds[j].0 == bounds[j - 1].0 + |chunks[j - 1]| - overlap
      invariant i > 0 ==> pos == bounds[i - 1].0 + |chunks[i - 1]| - overlap
    {
      var chunkLen := |chunks[i]|;
      bounds := bounds + [(pos, pos + chunkLen)];
      pos := pos + chunkLen - overlap;
    }
  }

  /** The corrector's answer to each chunk, in order. */
  function Responses(chunks: seq<string>, respond: string -> string): (rs: seq<string>)
    ensures |rs| == |chunks| && forall i :: 0 <= i < |chunks| ==> rs[i] == respond(chunks[i])
  {
    seq(|chunks|, i requires 0 <= i < |chunks| => respond(chunks[i]))
  }

  /** What correct_text returns: the answer itself for a text within the
      budget, otherwise the merge of the answers to the chunks. */
  function CorrectTextSpec(text: string, respond: string -> string, maxTokens: int, overlap: int): string {
    if CountTokens(text) <= maxTokens then respond(text)
    else
      var rs := Responses(ChunkTextSpec(text, maxTokens, overlap), respond);
      if |rs| == 1 then rs[0] else MergePrefix(rs, |rs|)
  }

  /** With one boundary pair per answer, the merge keeps every answer. */
  lemma MergedOfBounds(rs: seq<string>, bounds: seq<(int, int)>)
    requires |bounds| == |rs|
    ensures Merged(rs, bounds) == if |rs| == 1 then rs[0] else MergePrefix(rs, |rs|)
  {
  }

  /** A corrected text starts with the answer to its first chunk, whichever
      path correct_text takes. */
  lemma CorrectTextStartsWithFirst(text: string, respond: string -> string, maxTokens: int, overlap: int)
    requires |ChunkTextSpec(text, maxTokens, overlap)| > 0
    ensures StartsWith(CorrectTextSpec(text, respond, maxTokens, overlap), respond(ChunkTextSpec(text, maxTokens, overlap)[0]))
  {
    var chunks := ChunkTextSpec(text, maxTokens, overlap);
    var rs := Responses(chunks, respond);
    if CountTokens(text) > maxTokens && |rs| != 1 {
      MergePrefixStartsWithFirst(rs, |rs|);
    } else {
      var r := CorrectTextSpec(text, respond, maxTokens, overlap);
      assert r[..|r|] == r;
    }
  }

  /** The words of a corrected long text: all words of the first answer, then
      of every later answer the words after its first half. */
  lemma CorrectTextWords(text: string, respond: string -> string, maxTokens: int, overlap: int)
    requires CountTokens(text) > maxTokens && |ChunkTextSpec(text, maxTokens, overlap)| > 1
    ensures var rs := Responses(ChunkTextSpec(text, maxTokens, overlap), respond);
      Words(CorrectTextSpec(text, respond, maxTokens, overlap)) == Words(rs[0]) + KeptWords(rs, |rs|)
  {
    var rs := Responses(ChunkTextSpec(text, maxTokens, overlap), respond);
    MergePrefixWords(rs, |rs|);
  }

  // ---------------------------------------------------------------------------
  // correct_subtitle_file: batches of parsed entries, corrected in place
  // ---------------------------------------------------------------------------

  /** What an ASS line break "\N" is replaced with while its entry is being
      corrected. */
  const LineBreakMark := "§LINEBREAK§"

  function TextOf(e: Entry): string {
    e.text
  }

  /** The texts of all entries, in order. */
  function Texts(es: seq<Entry>): (ts: seq<string>)
    ensures |ts| == |es| && forall i :: 0 <= i < |es| ==> ts[i] == es[i].text
  {
    seq(|es|, i requires 0 <= i < |es| => es[i].text)
  }

  /** A batch of entries as the positions lo..hi-1 of the entry list. */
  predicate SpansWithin(spans: seq<(nat, nat)>, n: nat) {
    forall k :: 0 <= k < |spans| ==> spans[k].0 < spans[k].1 <= n
  }

  /** Where consecutive batches sit in the list they partition: batch k
      covers the positions after the batches before it. */
  function SpansOf<T>(bs: seq<seq<T>>): (spans: seq<(nat, nat)>)
    ensures |spans| == |bs|
  {
    seq(|bs|, k requires 0 <= k < |bs| => (|Flatten(bs[..k])|, |Flatten(bs[..k + 1])|))
  }

  /** The batches up to j are those up to i, then those from i to j. */
  lemma FlattenPrefixes<T>(bs: seq<seq<T>>, i: nat, j: nat)
    requires i <= j <= |bs|
    ensures Flatten(bs[..j]) == Flatten(bs[..i]) + Flatten(bs[i..j])
  {
    assert bs[..j] == bs[..i] + bs[i..j];
    FlattenConcat(bs[..i], bs[i..j]);
  }

  /** Batch k covers as many positions as it holds items. */
  lemma SpansOfWidth<T>(bs: seq<seq<T>>, k: nat)
    requires k < |bs|
    ensures Flatten(bs[..k + 1]) == Flatten(bs[..k]) + bs[k]
    ensures SpansOf(bs)[k].1 == SpansOf(bs)[k].0 + |bs[k]|
  {
    assert bs[..k + 1] == bs[..k] + [bs[k]];
    FlattenAppend(bs[..k], bs[k]);
  }

  /** Non-empty batches sit at non-empty ranges inside the list. */
  lemma SpansOfWithin<T>(bs: seq<seq<T>>)
    requires forall k :: 0 <= k < |bs| ==> |bs[k]| > 0
    ensures SpansWithin(SpansOf(bs), |Flatten(bs)|)
  {
    forall k | 0 <= k < |bs| ensures SpansOf(bs)[k].0 < SpansOf(bs)[k].1 <= |Flatten(bs)| {
      SpansOfWidth(bs, k);
      FlattenPrefixes(bs, k + 1, |bs|);
      assert bs[..|bs|] == bs;
    }
  }

  /** The batches follow one another: an earlier batch ends where or before
      a later one starts. */
  lemma SpansOfOrdered<T>(bs: seq<seq<T>>, m: nat, k: nat)
    requires m < k < |bs|
    ensures SpansOf(bs)[m].1 <= SpansOf(bs)[k].0
  {
    FlattenPrefixes(bs, m + 1, k);
  }

  /** The positions of the batches do pick out the batches: the batch that
      sits at lo..hi is the slice lo..hi of the list. */
  lemma SpansOfSlices<T>(bs: seq<seq<T>>, k: nat)
    requires k < |bs|
    ensures SpansOf(bs)[k].0 <= SpansOf(bs)[k].1 <= |Flatten(bs)|
    ensures Flatten(bs)[SpansOf(bs)[k].0..SpansOf(bs)[k].1] == bs[k]
  {
    var before := Flatten(bs[..k]);
    SpansOfWidth(bs, k);
    FlattenPrefixes(bs, k + 1, |bs|);
    assert bs[..|bs|] == bs;
    assert Flatten(bs) == before + bs[k] + Flatten(bs[k + 1..]);
  }

  /** How far the while loop of correct_subtitle_file shrinks the batch at
      lo..hi: it drops the last entry until the joined texts fit the budget
      or one entry is left. */
  function ShrunkEnd(texts: seq<string>, lo: nat, hi: nat, maxTokens: int): (end: nat)
    requires lo < hi <= |texts|
    ensures lo < end <= hi
    ensures end == lo + 1 || CountTokens(Join(texts[lo..end], SubtitleSeparator)) <= maxTokens
    ensures forall h :: end < h <= hi ==> CountTokens(Join(texts[lo..h], SubtitleSeparator)) > maxTokens
    decreases hi
  {
    if hi - lo == 1 || CountTokens(Join(texts[lo..hi], SubtitleSeparator)) <= maxTokens then hi
    else ShrunkEnd(texts, lo, hi - 1, maxTokens)
  }

  /** Every batch shrunk to fit. */
  function ShrinkAll(texts: seq<string>, slices: seq<(nat, nat)>, maxTokens: int): (spans: seq<(nat, nat)>)
    requires SpansWithin(slices, |texts|)
    ensures |spans| == |slices| && SpansWithin(spans, |texts|)
    ensures forall k :: 0 <= k < |slices| ==> spans[k] == (slices[k].0, ShrunkEnd(texts, slices[k].0, slices[k].1, maxTokens))
  {
    seq(|slices|, k requires 0 <= k < |slices| => (slices[k].0, ShrunkEnd(texts, slices[k].0, slices[k].1, maxTokens)))
  }

  /** The batches correct_subtitle_file works through: batch_items in token
      mode, otherwise the fixed-size slices, each shrunk to fit. */
  function FileSpans(es: seq<Entry>, batchSize: int, maxTokens: int): (spans: seq<(nat, nat)>)
    ensures SpansWithin(spans, |es|)
  {
    if batchSize == 0 then
      GreedyBatchesPartition(es, TextOf, maxTokens, 7);
      SpansOfWithin(GreedyBatches(es, TextOf, maxTokens, 7));
      SpansOf(GreedyBatches(es, TextOf, maxTokens, 7))
    else
      SpansOfWithin(FixedBatches(es, batchSize));
      ShrinkAll(Texts(es), SpansOf(FixedBatches(es, batchSize)), maxTokens)
  }

  /** An entry with its ASS line breaks protected. */
  function Protect(e: Entry): Entry {
    if e.format == Ass then e.(text := Replace(e.text, "\\N", LineBreakMark)) else e
  }

  /** An entry given its corrected text: stripped, and for ASS entries with
      the line breaks put back. */
  function Restore(e: Entry, part: string): Entry {
    var c := Strip(part);
    e.(text := if e.format == Ass then Replace(c, LineBreakMark, "\\N") else c)
  }

  function ProtectRange(es: seq<Entry>, lo: nat, hi: nat): (r: seq<Entry>)
    ensures |r| == |es|
    ensures forall i :: 0 <= i < |es| ==> r[i] == if lo <= i < hi then Protect(es[i]) else es[i]
  {
    seq(|es|, i requires 0 <= i < |es| => if lo <= i < hi then Protect(es[i]) else es[i])
  }

  /** The corrected parts written into the batch at lo..hi, as far as both
      last: entry lo + i takes part i. */
  function WriteBack(es: seq<Entry>, lo: nat, hi: nat, parts: seq<string>): (r: seq<Entry>)
    ensures |r| == |es|
    ensures forall i :: 0 <= i < |es| ==>
      r[i] == if lo <= i < hi && i - lo < |parts| then Restore(es[i], parts[i - lo]) else es[i]
  {
    seq(|es|, i requires 0 <= i < |es| =>
      if lo <= i < hi && i - lo < |parts| then Restore(es[i], parts[i - lo]) else es[i])
  }

  /** The text sent for the batch at lo..hi, once protected. */
  function BatchText(es: seq<Entry>, lo: nat, hi: nat): string
    requires lo <= hi <= |es|
  {
    Join(Texts(ProtectRange(es, lo, hi))[lo..hi], SubtitleSeparator)
  }

  /** The entries after the batch at lo..hi has been corrected. */
  function CorrectSpan(es: seq<Entry>, lo: nat, hi: nat, respond: string -> string, maxTokens: int, overlap: int): (r: seq<Entry>)
    requires lo <= hi <= |es|
    ensures |r| == |es|
  {
    var parts := Split(CorrectTextSpec(BatchText(es, lo, hi), respond, maxTokens, overlap), SubtitleSeparator);
    WriteBack(ProtectRange(es, lo, hi), lo, hi, parts)
  }

  /** The entries after the batches have been corrected one after the other. */
  function CorrectSpans(es: seq<Entry>, spans: seq<(nat, nat)>, respond: string -> string, maxTokens: int, overlap: int): (r: seq<Entry>)
    requires SpansWithin(spans, |es|)
    ensures |r| == |es|
    decreases |spans|
  {
    if spans == [] then es
    else
      var before := CorrectSpans(es, spans[..|spans| - 1], respond, maxTokens, overlap);
      CorrectSpan(before, spans[|spans| - 1].0, spans[|spans| - 1].1, respond, maxTokens, overlap)
  }

  /** The prompts sent while the batches are corrected one after the other. */
  function SpansPrompts(es: seq<Entry>, spans: seq<(nat, nat)>, respond: string -> string, maxTokens: int, overlap: int): seq<string>
    requires SpansWithin(spans, |es|)
    decreases |spans|
  {
    if spans == [] then []
    else
      var before := CorrectSpans(es, spans[..|spans| - 1], respond, maxTokens, overlap);
      SpansPrompts(es, spans[..|spans| - 1], respond, maxTokens, overlap)
        + ChunkTextSpec(BatchText(before, spans[|spans| - 1].0, spans[|spans| - 1].1), maxTokens, overlap)
  }

  /** One more batch corrected: the entries and the prompts so far. */
  lemma CorrectSpansStep(es: seq<Entry>, spans: seq<(nat, nat)>, k: nat, respond: string -> string, maxTokens: int, overlap: int)
    requires SpansWithin(spans, |es|) && k < |spans|
    ensures SpansWithin(spans[..k], |es|) && SpansWithin(spans[..k + 1], |es|)
    ensures var before := CorrectSpans(es, spans[..k], respond, maxTokens, overlap);
      && CorrectSpans(es, spans[..k + 1], respond, maxTokens, overlap) == CorrectSpan(before, spans[k].0, spans[k].1, respond, maxTokens, overlap)
      && SpansPrompts(es, spans[..k + 1], respond, maxTokens, overlap)
         == SpansPrompts(es, spans[..k], respond, maxTokens, overlap) + ChunkTextSpec(BatchText(before, spans[k].0, spans[k].1), maxTokens, overlap)
  {
    assert spans[..k + 1][..k] == spans[..k];
  }

  /** The prompt log after one more batch. */
  lemma PromptsStep(es: seq<Entry>, spans: seq<(nat, nat)>, k: nat, respond: string -> string, maxTokens: int, overlap: int,
                    start: seq<string>, sent: seq<string>, now: seq<string>)
    requires SpansWithin(spans, |es|) && k < |spans|
    requires sent == start + SpansPrompts(es, spans[..k], respond, maxTokens, overlap)
    requires now == sent + ChunkTextSpec(BatchText(CorrectSpans(es, spans[..k], respond, maxTokens, overlap), spans[k].0, spans[k].1), maxTokens, overlap)
    ensures now == start + SpansPrompts(es, spans[..k + 1], respond, maxTokens, overlap)
  {
    CorrectSpansStep(es, spans, k, respond, maxTokens, overlap);
  }

  /** An entry that lies in no batch is never touched. */
  lemma {:induction false} CorrectSpansOutside(es: seq<Entry>, spans: seq<(nat, nat)>, respond: string -> string, maxTokens: int, overlap: int, j: nat)
    requires SpansWithin(spans, |es|) && j < |es|
    requires forall k :: 0 <= k < |spans| ==> !(spans[k].0 <= j < spans[k].1)
    ensures CorrectSpans(es, spans, respond, maxTokens, overlap)[j] == es[j]
    decreases |spans|
  {
    if spans != [] {
      CorrectSpansOutside(es, spans[..|spans| - 1], respond, maxTokens, overlap, j);
    }
  }

  /** In fixed-size mode the entries a batch loses while it is shrunk to fit
      are never corrected: they keep their text. */
  lemma ShrunkTailUntouched(es: seq<Entry>, batchSize: int, maxTokens: int, respond: string -> string, overlap: int, k: nat, j: nat)
    requires batchSize > 0
    requires k < |FileSpans(es, batchSize, maxTokens)|
    requires FileSpans(es, batchSize, maxTokens)[k].1 <= j < SpansOf(FixedBatches(es, batchSize))[k].1
    ensures j < |es|
    ensures CorrectSpans(es, FileSpans(es, batchSize, maxTokens), respond, maxTokens, overlap)[j] == es[j]
  {
    var slices := SpansOf(FixedBatches(es, batchSize));
    var spans := FileSpans(es, batchSize, maxTokens);
    SpansOfWithin(FixedBatches(es, batchSize));
    forall m | 0 <= m < |spans| ensures !(spans[m].0 <= j < spans[m].1) {
      if m < k {
        SpansOfOrdered(FixedBatches(es, batchSize), m, k);
        assert spans[m].1 <= slices[m].1 <= slices[k].0;
      } else if m > k {
        SpansOfOrdered(FixedBatches(es, batchSize), k, m);
      }
    }
    CorrectSpansOutside(es, spans, respond, maxTokens, overlap, j);
  }

  /** A batch of entries whose corrector answer splits into parts: entry
      lo + i takes the stripped part i (line breaks restored for ASS), as far
      as there are parts; the rest of the batch keeps its protected text, and
      entries outside the batch are untouched. */
  lemma CorrectSpanEffect(es: seq<Entry>, lo: nat, hi: nat, respond: string -> string, maxTokens: int, overlap: int, i: nat)
    requires lo <= hi <= |es| && i < |es|
    ensures var parts := Split(CorrectTextSpec(BatchText(es, lo, hi), respond, maxTokens, overlap), SubtitleSeparator);
      var r := CorrectSpan(es, lo, hi, respond, maxTokens, overlap);
      && (lo <= i < hi && i - lo < |parts| ==> r[i] == Restore(Protect(es[i]), parts[i - lo]))
      && (lo <= i < hi && i - lo >= |parts| ==> r[i] == Protect(es[i]))
      && (!(lo <= i < hi) ==> r[i] == es[i])
  {
  }

  /** The corrected text of an entry keeps its position, times and format. */
  lemma RestoreKeepsFields(e: Entry, part: string)
    ensures var r := Restore(Protect(e), part);
      r.index == e.index && r.startTime == e.startTime && r.endTime == e.endTime && r.format == e.format
  {
  }

  /** An ASS text without '§' whose corrector answer is the protected text,
      possibly padded with whitespace, gets its line breaks back. */
  lemma ProtectRestore(e: Entry, ws: string)
    requires '§' !in e.text && IsStripped(Protect(e).text)
    requires forall i :: 0 <= i < |ws| ==> IsSpace(ws[i])
    ensures Restore(Protect(e), Protect(e).text + ws) == e
  {
    StripTrailing(Protect(e).text, ws);
    if e.format == Ass {
      ReplaceInverse(e.text, "\\N", LineBreakMark);
    }
  }

  /** The name written to when none is given: "_corrected" before the
      extension. */
  function DefaultOutputPath(filepath: string): string {
    var parts := SplitExt(filepath);
    parts.0 + "_corrected" + parts.1
  }

  function OutputPath(filepath: string, outputFilepath: string): string {
    if outputFilepath == "" then DefaultOutputPath(filepath) else outputFilepath
  }

  /** The default name has the same extension as the input, after a root
      extended by "_corrected". */
  lemma DefaultOutputSplit(filepath: string)
    ensures SplitExt(DefaultOutputPath(filepath)) == (SplitExt(filepath).0 + "_corrected", SplitExt(filepath).1)
  {
    var parts := SplitExt(filepath);
    SplitExtShape(filepath);
    if parts.1 == [] {
      assert forall i :: 0 <= i < |"_corrected"| ==> IsExtChar("_corrected"[i]);
      SplitExtAppendNone(filepath, "_corrected");
      assert parts.0 == filepath;
      assert DefaultOutputPath(filepath) == filepath + "_corrected";
    } else {
      SplitExtJoin(parts.0 + "_corrected", parts.1);
    }
  }

  /** So the corrected file is written in the format it was read in. */
  lemma DefaultOutputKind(filepath: string)
    ensures KindOf(DefaultOutputPath(filepath)) == KindOf(filepath)
  {
    DefaultOutputLower(filepath);
    DefaultOutputSplit(Lower(filepath));
  }

  /** Lower-casing commutes with building the default name. */
  lemma DefaultOutputLower(filepath: string)
    ensures Lower(DefaultOutputPath(filepath)) == DefaultOutputPath(Lower(filepath))
  {
    var parts := SplitExt(filepath);
    SplitExtLower(filepath);
    LowerCorrected(parts.0, parts.1);
  }

  /** The suffix "_corrected" is already lower case. */
  lemma LowerCorrected(root: string, ext: string)
    ensures Lower(root + "_corrected" + ext) == Lower(root) + "_corrected" + Lower(ext)
  {
    assert Lower("_corrected") == "_corrected";
    LowerConcat(root, "_corrected");
    LowerConcat(root + "_corrected", ext);
  }

  /** The spell checker: the corrector and the chunking parameters. */
  class SpellChecker {
    const provider: Provider
    const maxTokensPerChunk: int
    const chunkOverlap: int

    constructor (provider: Provider, maxTokensPerChunk: int, chunkOverlap: int)
      ensures this.provider == provider
      ensures this.maxTokensPerChunk == maxTokensPerChunk && this.chunkOverlap == chunkOverlap
    {
      this.provider := provider;
      this.maxTokensPerChunk := maxTokensPerChunk;
      this.chunkOverlap := chunkOverlap;
    }

    /** correct_subtitles's loop: each non-empty batch is joined, sent once,
        fixed up and split, in batch order. */
    method CorrectBatches(batches: seq<seq<string>>) returns (corrected: seq<string>)
      modifies provider
      ensures corrected == CorrectedAll(batches, provider.respond)
      ensures provider.prompts == old(provider.prompts) + BatchPrompts(batches)
    {
      corrected := [];
      for i := 0 to |batches|
        invariant corrected == CorrectedAll(batches[..i], provider.respond)
        invariant provider.prompts == old(provider.prompts) + BatchPrompts(batches[..i])
      {
        assert batches[..i + 1][..i] == batches[..i];
        var batch := batches[i];
        if batch == [] {
          continue;
        }
        var combined := Join(batch, BatchSeparator);
        var answer := provider.CorrectText(combined);
        if EndsWith(answer, CutSeparator1) || EndsWith(answer, CutSeparator2) {
          answer := answer + "\n";
        }
        var parts := Split(answer, BatchSeparator);
        corrected := corrected + parts;
      }
      assert batches[..|batches|] == batches;
    }

    /** correct_subtitles as written: batch size 0 raises TypeError before
        anything is sent; any other size sends the fixed-size slices. */
    method CorrectSubtitles(subtitles: seq<string>, batchSize: int) returns (r: Result<seq<string>>)
      modifies provider
      ensures batchSize == 0 ==> r == Err(TypeError) && provider.prompts == old(provider.prompts)
      ensures batchSize != 0 ==>
        var batches := FixedBatches(subtitles, batchSize);
        && r == Ok(CorrectedAll(batches, provider.respond))
        && provider.prompts == old(provider.prompts) + BatchPrompts(batches)
    {
      var batches := SubtitleBatches(subtitles, batchSize);
      if batches.Err? {
        return Err(batches.error);
      }
      var corrected := CorrectBatches(batches.value);
      return Ok(corrected);
    }

    /** correct_subtitles with the token-based branch calling batch_items as
        its signature allows. */
    method CorrectSubtitlesIntended(subtitles: seq<string>, batchSize: int) returns (r: seq<string>)
      modifies provider
      ensures var batches := IntendedBatches(subtitles, batchSize, maxTokensPerChunk);
        && r == CorrectedAll(batches, provider.respond)
        && provider.prompts == old(provider.prompts) + BatchPrompts(batches)
    {
      var batches;
      if batchSize == 0 {
        batches := BatchItems(subtitles, maxTokensPerChunk, Identity);
      } else {
        batches := FixedBatches(subtitles, batchSize);
      }
      r := CorrectBatches(batches);
    }

    /** correct_text: one call for a text within the budget, otherwise one
        call per chunk of chunk_text, in order, and the merge of the answers.
        Either way the prompts sent are exactly chunk_text's chunks. */
    method CorrectText(text: string) returns (r: string)
      modifies provider
      ensures r == CorrectTextSpec(text, provider.respond, maxTokensPerChunk, chunkOverlap)
      ensures provider.prompts == old(provider.prompts) + ChunkTextSpec(text, maxTokensPerChunk, chunkOverlap)
    {
      if CountTokens(text) <= maxTokensPerChunk {
        r := provider.CorrectText(text);
        return;
      }
      var chunks := ChunkText(text, maxTokensPerChunk, chunkOverlap);
      var correctedChunks := CorrectChunks(chunks);
      var bounds := ChunkBoundaries(chunks, chunkOverlap);
      r := MergeCorrectedChunks(text, correctedChunks, bounds);
      MergedOfBounds(correctedChunks, bounds);
    }

    /** correct_text's first loop: one call per chunk, in order. */
    method CorrectChunks(chunks: seq<string>) returns (correctedChunks: seq<string>)
      modifies provider
      ensures correctedChunks == Responses(chunks, provider.respond)
      ensures provider.prompts == old(provider.prompts) + chunks
    {
      correctedChunks := [];
      for i := 0 to |chunks|
        invariant correctedChunks == Responses(chunks[..i], provider.respond)
        invariant provider.prompts == old(provider.prompts) + chunks[..i]
      {
        var correctedChunk := provider.CorrectText(chunks[i]);
        correctedChunks := correctedChunks + [correctedChunk];
        assert chunks[..i + 1] == chunks[..i] + [chunks[i]];
      }
      assert chunks[..|chunks|] == chunks;
    }

    /** correct_subtitle_file from the parsed entries on: the entries are
        batched, each batch is protected, corrected and written back in
        place, and the entries are saved under the output name. Every entry's
        original_filepath is filepath, and originalContent is the text the
        ASS fallback writer reads back from that file. The result is the
        output path, or the exception writing raised; the corrections stay
        in the entries either way. */
    method CorrectSubtitleFile(data: array<Entry>, filepath: string, originalContent: string,
                               outputFilepath: string, batchSize: int)
      returns (r: Result<string>)
      modifies data, provider
      ensures var spans := FileSpans(old(data[..]), batchSize, maxTokensPerChunk);
        && data[..] == CorrectSpans(old(data[..]), spans, provider.respond, maxTokensPerChunk, chunkOverlap)
        && provider.prompts == old(provider.prompts) + SpansPrompts(old(data[..]), spans, provider.respond, maxTokensPerChunk, chunkOverlap)
      ensures var out := OutputPath(filepath, outputFilepath);
        var raised := WriteError(WriteSubtitleFile(data[..], out, filepath, originalContent));
        r == if raised.None? then Ok(out) else Err(raised.value)
    {
      var spans := FileBatches(data[..], batchSize);
      CorrectAll(data, spans);
      var out := OutputPath(filepath, outputFilepath);
      var raised := WriteError(WriteSubtitleFile(data[..], out, filepath, originalContent));
      r := if raised.None? then Ok(out) else Err(raised.value);
    }

    /** The batch loop of correct_subtitle_file. */
    method CorrectAll(data: array<Entry>, spans: seq<(nat, nat)>)
      requires SpansWithin(spans, data.Length)
      modifies data, provider
      ensures data[..] == CorrectSpans(old(data[..]), spans, provider.respond, maxTokensPerChunk, chunkOverlap)
      ensures provider.prompts == old(provider.prompts) + SpansPrompts(old(data[..]), spans, provider.respond, maxTokensPerChunk, chunkOverlap)
    {
      ghost var entries := data[..];
      ghost var respond, maxTokens, overlap := provider.respond, maxTokensPerChunk, chunkOverlap;
      for k := 0 to |spans|
        invariant data[..] == CorrectSpans(entries, spans[..k], respond, maxTokens, overlap)
        invariant provider.prompts == old(provider.prompts) + SpansPrompts(entries, spans[..k], respond, maxTokens, overlap)
      {
        ghost var sent := provider.prompts;
        CorrectSpansStep(entries, spans, k, respond, maxTokens, overlap);
        CorrectBatch(data, spans[k].0, spans[k].1);
        PromptsStep(entries, spans, k, respond, maxTokens, overlap, old(provider.prompts), sent, provider.prompts);
      }
      assert spans[..|spans|] == spans;
    }

    /** The batches of correct_subtitle_file, as positions in the entry list. */
    method FileBatches(entries: seq<Entry>, batchSize: int) returns (spans: seq<(nat, nat)>)
      ensures spans == FileSpans(entries, batchSize, maxTokensPerChunk)
    {
      if batchSize == 0 {
        var batches := BatchItems(entries, maxTokensPerChunk, TextOf);
        spans := SpansOf(batches);
      } else {
        var slices := SpansOf(FixedBatches(entries, batchSize));
        SpansOfWithin(FixedBatches(entries, batchSize));
        spans := ShrinkBatches(Texts(entries), slices);
      }
    }

    /** The shrink-to-fit filter of fixed-size mode, batch by batch. */
    method ShrinkBatches(texts: seq<string>, slices: seq<(nat, nat)>) returns (spans: seq<(nat, nat)>)
      requires SpansWithin(slices, |texts|)
      ensures spans == ShrinkAll(texts, slices, maxTokensPerChunk)
    {
      spans := [];
      for k := 0 to |slices|
        invariant |spans| == k
        invariant forall m :: 0 <= m < k ==> spans[m] == (slices[m].0, ShrunkEnd(texts, slices[m].0, slices[m].1, maxTokensPerChunk))
      {
        var end := ShrinkToFit(texts, slices[k].0, slices[k].1, maxTokensPerChunk);
        spans := spans + [(slices[k].0, end)];
      }
    }

    /** One batch of correct_subtitle_file: ASS line breaks protected, the
        texts joined and corrected, and the parts written back. */
    method CorrectBatch(data: array<Entry>, lo: nat, hi: nat)
      requires lo < hi <= data.Length
      modifies data, provider
      ensures data[..] == CorrectSpan(old(data[..]), lo, hi, provider.respond, maxTokensPerChunk, chunkOverlap)
      ensures provider.prompts == old(provider.prompts) + ChunkTextSpec(BatchText(old(data[..]), lo, hi), maxTokensPerChunk, chunkOverlap)
    {
      ghost var original := data[..];
      ProtectBatch(data, lo, hi);
      var protected := data[..];
      var combined := Join(Texts(protected)[lo..hi], SubtitleSeparator);
      assert combined == BatchText(original, lo, hi);
      var corrected := CorrectText(combined);
      var parts := Split(corrected, SubtitleSeparator);
      WriteParts(data, lo, hi, parts);
    }
  }

  /** The loop of correct_subtitle_file that swaps the ASS line breaks of a
      batch for the placeholder. */
  method ProtectBatch(data: array<Entry>, lo: nat, hi: nat)
    requires lo <= hi <= data.Length
    modifies data
    ensures data[..] == ProtectRange(old(data[..]), lo, hi)
  {
    for i := lo to hi
      invariant forall j :: 0 <= j < data.Length ==> data[j] == if lo <= j < i then Protect(old(data[j])) else old(data[j])
    {
      if data[i].format == Ass {
        data[i] := data[i].(text := Replace(data[i].text, "\\N", LineBreakMark));
      }
    }
  }

  /** The loop of correct_subtitle_file that writes the corrected parts back
      into a batch, as far as both last. */
  method WriteParts(data: array<Entry>, lo: nat, hi: nat, parts: seq<string>)
    requires lo <= hi <= data.Length
    modifies data
    ensures data[..] == WriteBack(old(data[..]), lo, hi, parts)
  {
    for i := 0 to |parts|
      invariant forall j :: 0 <= j < data.Length && !(lo <= j < hi && j - lo < i) ==> data[j] == old(data[j])
      invariant forall k :: 0 <= k < i && lo + k < hi ==> data[lo + k] == Restore(old(data[lo + k]), parts[k])
    {
      if i < hi - lo {
        var text := Strip(parts[i]);
        if data[lo + i].format == Ass {
          text := Replace(text, LineBreakMark, "\\N");
        }
        data[lo + i] := data[lo + i].(text := text);
      }
    }
  }

  /** The while loop that shrinks one batch of correct_subtitle_file. */
  method ShrinkToFit(texts: seq<string>, lo: nat, hi: nat, maxTokens: int) returns (end: nat)
    requires lo < hi <= |texts|
    ensures end == ShrunkEnd(texts, lo, hi, maxTokens)
  {
    end := hi;
    while end - lo > 1 && CountTokens(Join(texts[lo..end], SubtitleSeparator)) > maxTokens
      invariant lo < end <= hi
      invariant ShrunkEnd(texts, lo, end, maxTokens) == ShrunkEnd(texts, lo, hi, maxTokens)
      decreases end
    {
      end := end - 1;
    }
  }
}
