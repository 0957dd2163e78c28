/** The token estimator, the chunker, the chunk merger and the batcher of
    src/subspell/utils.py. */
module Utils {
  import opened PyStrings

  // ---------------------------------------------------------------------------
  // count_tokens
  // ---------------------------------------------------------------------------

  /** A character matched by [^\w\s]: neither a word character nor whitespace. */
  predicate IsSymbol(c: char) {
    !IsWordChar(c) && !IsSpace(c)
  }

  /** len(re.findall(r"[^\w\s]", s)) */
  function CountSymbols(s: string): nat {
    if s == [] then 0 else (if IsSymbol(s[0]) then 1 else 0) + CountSymbols(s[1..])
  }

  /** count_tokens: the number of maximal runs of word characters plus the
      number of characters that are neither word characters nor whitespace. */
  function CountTokens(text: string): nat {
    |Runs(text, IsWordChar)| + CountSymbols(text)
  }

  lemma {:induction false} CountSymbolsConcat(a: string, b: string)
    ensures CountSymbols(a + b) == CountSymbols(a) + CountSymbols(b)
  {
    if a == [] {
      assert a + b == b;
    } else {
      assert (a + b)[1..] == a[1..] + b;
      CountSymbolsConcat(a[1..], b);
    }
  }

  lemma {:induction false} CountSymbolsOfWord(s: string)
    requires forall i :: 0 <= i < |s| ==> IsWordChar(s[i])
    ensures CountSymbols(s) == 0
  {
    if s != [] {
      CountSymbolsOfWord(s[1..]);
    }
  }

  lemma {:induction false} CountSymbolsOfSpace(s: string)
    requires forall i :: 0 <= i < |s| ==> IsSpace(s[i])
    ensures CountSymbols(s) == 0
  {
    if s != [] {
      CountSymbolsOfSpace(s[1..]);
    }
  }

  /** The estimate never exceeds the length of the text, and the empty text
      has no tokens. */
  lemma {:induction false} CountTokensBound(text: string)
    ensures CountTokens(text) <= |text|
    ensures text == "" ==> CountTokens(text) == 0
    decreases |text|
  {
    if text != [] {
      if !IsWordChar(text[0]) {
        CountTokensBound(text[1..]);
      } else {
        var n := RunLength(text, IsWordChar);
        assert text == text[..n] + text[n..];
        CountSymbolsConcat(text[..n], text[n..]);
        CountSymbolsOfWord(text[..n]);
        CountTokensBound(text[n..]);
      }
    }
  }

  /** Two texts glued where no word run can continue have independent
      estimates. */
  lemma TokensConcat(a: string, b: string)
    requires a == [] || b == [] || !IsWordChar(a[|a| - 1]) || !IsWordChar(b[0])
    ensures CountTokens(a + b) == CountTokens(a) + CountTokens(b)
  {
    RunsConcat(a, b, IsWordChar);
    CountSymbolsConcat(a, b);
  }

  /** Whitespace carries no tokens. */
  lemma TokensOfSpace(ws: string)
    requires forall i :: 0 <= i < |ws| ==> IsSpace(ws[i])
    ensures CountTokens(ws) == 0
  {
    forall i | 0 <= i < |ws| ensures !IsWordChar(ws[i]) {
      WordCharIsNotSpace(ws[i]);
    }
    RunsOfNone(ws, IsWordChar);
    CountSymbolsOfSpace(ws);
  }

  /** Joining two texts with whitespace (" " or "\n\n" in chunk_text) neither
      merges nor adds tokens. */
  lemma TokensAroundSpaces(a: string, ws: string, b: string)
    requires |ws| > 0
    requires forall i :: 0 <= i < |ws| ==> IsSpace(ws[i])
    ensures CountTokens(a + ws + b) == CountTokens(a) + CountTokens(b)
  {
    WordCharIsNotSpace(ws[0]);
    WordCharIsNotSpace(ws[|ws| - 1]);
    TokensOfSpace(ws);
    TokensConcat(ws, b);
    TokensConcat(a, ws + b);
    assert a + ws + b == a + (ws + b);
  }

  // ---------------------------------------------------------------------------
  // chunk_text and get_overlap_text
  // ---------------------------------------------------------------------------

  const ParagraphBreak := "\n\n"

  predicate IsSentenceEnd(c: char) {
    c == '.' || c == '!' || c == '?'
  }

  /** The first position i (from `from` on) where whitespace follows '.', '!'
      or '?': where the pattern (?<=[.!?])\s+ can start a match. */
  function SentenceBreakFrom(s: string, from: nat): (r: Option<nat>)
    requires from >= 1
    ensures r.Some? ==> from <= r.value < |s| && IsSentenceEnd(s[r.value - 1]) && IsSpace(s[r.value])
    decreases |s| - from
  {
    if from >= |s| then None
    else if IsSentenceEnd(s[from - 1]) && IsSpace(s[from]) then Some(from)
    else SentenceBreakFrom(s, from + 1)
  }

  /** re.split(r"(?<=[.!?])\s+", p): the pieces between the maximal whitespace
      runs that follow sentence-ending punctuation. */
  function SplitSentences(p: string): (sentences: seq<string>)
    ensures |sentences| >= 1
    decreases |p|
  {
    match SentenceBreakFrom(p, 1)
    case None => [p]
    case Some(i) =>
      var j := i + RunLength(p[i..], IsSpace);
      [p[..i]] + SplitSentences(p[j..])
  }

  /** Splitting into sentences only drops whitespace: the words are kept. */
  lemma {:induction false} SentencesKeepWords(p: string)
    ensures AllWords(SplitSentences(p)) == Words(p)
    decreases |p|
  {
    var r := SentenceBreakFrom(p, 1);
    if r.Some? {
      var i := r.value;
      var n := RunLength(p[i..], IsSpace);
      var j := i + n;
      var rest := SplitSentences(p[j..]);
      assert SplitSentences(p) == [p[..i]] + rest;
      assert Words(p) == Words(p[..i]) + Words(p[j..]) by {
        forall k | i <= k < j
          ensures IsSpace(p[k])
        {
          assert p[k] == p[i..][k - i];
        }
        WordsAroundSpaceRun(p, i, j);
      }
      assert AllWords(rest) == Words(p[j..]) by {
        SentencesKeepWords(p[j..]);
      }
      AllWordsCons(p[..i], rest);
    }
  }

  /** The words of a text joined from pieces with whitespace are the pieces'
      words in order. */
  lemma {:induction false} WordsOfJoin(xs: seq<string>, glue: string)
    requires |glue| > 0 && forall i :: 0 <= i < |glue| ==> IsSpace(glue[i])
    ensures Words(Join(xs, glue)) == AllWords(xs)
  {
    if |xs| == 1 {
      assert xs[1..] == [];
    } else if |xs| > 1 {
      WordsOfJoin(xs[1..], glue);
      WordsAroundSpaces(xs[0], glue, Join(xs[1..], glue));
    }
  }

  /** The paragraphs of a text: text.split("\n\n"). */
  function Paragraphs(text: string): seq<string> {
    Split(text, ParagraphBreak)
  }

  lemma ParagraphsKeepWords(text: string)
    ensures AllWords(Paragraphs(text)) == Words(text)
  {
    JoinSplit(text, ParagraphBreak);
    WordsOfJoin(Paragraphs(text), ParagraphBreak);
  }

  /** The state of chunk_text's accumulation loop: the closed chunks, the open
      chunk and the running token total. */
  datatype Packing = Packing(chunks: seq<string>, current: string, tokens: int)

  const EmptyPacking := Packing([], "", 0)

  /** One step of the greedy accumulation: close the open chunk when the
      piece would push the running total over the budget, otherwise glue the
      piece on ("\n\n" between paragraphs, " " between sentences). */
  function AddPiece(acc: Packing, piece: string, glue: string, maxTokens: int): Packing {
    var t := CountTokens(piece);
    if acc.tokens + t > maxTokens then
      Packing(if acc.current != "" then acc.chunks + [acc.current] else acc.chunks, piece, t)
    else
      Packing(acc.chunks, if acc.current != "" then acc.current + glue + piece else piece, acc.tokens + t)
  }

  function AddPieces(acc: Packing, pieces: seq<string>, glue: string, maxTokens: int): Packing
    decreases |pieces|
  {
    if pieces == [] then acc
    else AddPiece(AddPieces(acc, pieces[..|pieces| - 1], glue, maxTokens), pieces[|pieces| - 1], glue, maxTokens)
  }

  /** A paragraph over the budget is fed sentence by sentence, any other as a
      whole. */
  function AddParagraph(acc: Packing, p: string, maxTokens: int): Packing {
    if CountTokens(p) > maxTokens then AddPieces(acc, SplitSentences(p), " ", maxTokens)
    else AddPiece(acc, p, ParagraphBreak, maxTokens)
  }

  function AddParagraphs(acc: Packing, ps: seq<string>, maxTokens: int): Packing
    decreases |ps|
  {
    if ps == [] then acc
    else AddParagraph(AddParagraphs(acc, ps[..|ps| - 1], maxTokens), ps[|ps| - 1], maxTokens)
  }

  /** The chunks chunk_text builds before it adds any overlap. */
  function BaseChunks(text: string, maxTokens: int): seq<string> {
    var acc := AddParagraphs(EmptyPacking, Paragraphs(text), maxTokens);
    if acc.current != "" then acc.chunks + [acc.current] else acc.chunks
  }

  /** c is one sentence of a paragraph of ps that is itself over the budget. */
  ghost predicate OversizedSentence(c: string, ps: seq<string>, maxTokens: int) {
    exists k :: 0 <= k < |ps| && CountTokens(ps[k]) > maxTokens && c in SplitSentences(ps[k])
  }

  /** What every chunk satisfies: within the budget, or a single sentence of
      an over-budget paragraph. */
  ghost predicate ChunkAllowed(c: string, ps: seq<string>, maxTokens: int) {
    CountTokens(c) <= maxTokens || OversizedSentence(c, ps, maxTokens)
  }

  /** The invariant of chunk_text's loop. */
  ghost predicate PackingSound(acc: Packing, ps: seq<string>, maxTokens: int) {
    && acc.tokens == CountTokens(acc.current)
    && (forall k :: 0 <= k < |acc.chunks| ==> acc.chunks[k] != "")
    && (forall k :: 0 <= k < |acc.chunks| ==> ChunkAllowed(acc.chunks[k], ps, maxTokens))
    && (acc.current == "" || ChunkAllowed(acc.current, ps, maxTokens))
  }

  function PackedWords(acc: Packing): seq<string> {
    AllWords(acc.chunks) + Words(acc.current)
  }

  /** Non-empty whitespace, as both of chunk_text's glues are. */
  predicate IsBlank(glue: string) {
    |glue| > 0 && forall i :: 0 <= i < |glue| ==> IsSpace(glue[i])
  }

  lemma AddPieceWords(acc: Packing, piece: string, glue: string, maxTokens: int)
    requires IsBlank(glue)
    ensures PackedWords(AddPiece(acc, piece, glue, maxTokens)) == PackedWords(acc) + Words(piece)
  {
    var t := CountTokens(piece);
    var next := AddPiece(acc, piece, glue, maxTokens);
    if acc.tokens + t > maxTokens {
      assert next == Packing(if acc.current != "" then acc.chunks + [acc.current] else acc.chunks, piece, t);
      assert AllWords(next.chunks) == AllWords(acc.chunks) + Words(acc.current) by {
        if acc.current != "" {
          AllWordsAppend(acc.chunks, acc.current);
        }
      }
    } else if acc.current != "" {
      var joined := acc.current + glue + piece;
      assert next == Packing(acc.chunks, joined, acc.tokens + t);
      assert Words(joined) == Words(acc.current) + Words(piece) by {
        WordsAroundSpaces(acc.current, glue, piece);
      }
    } else {
      assert next == Packing(acc.chunks, piece, acc.tokens + t);
    }
  }

  lemma AddPieceSound(acc: Packing, piece: string, glue: string, ps: seq<string>, maxTokens: int)
    requires PackingSound(acc, ps, maxTokens) && IsBlank(glue)
    requires ChunkAllowed(piece, ps, maxTokens)
    ensures PackingSound(AddPiece(acc, piece, glue, maxTokens), ps, maxTokens)
  {
    var t := CountTokens(piece);
    if acc.tokens + t <= maxTokens && acc.current != "" {
      TokensAroundSpaces(acc.current, glue, piece);
    }
  }

  lemma {:induction false} AddPiecesWords(acc: Packing, pieces: seq<string>, glue: string, maxTokens: int)
    requires IsBlank(glue)
    ensures PackedWords(AddPieces(acc, pieces, glue, maxTokens)) == PackedWords(acc) + AllWords(pieces)
    decreases |pieces|
  {
    if pieces != [] {
      var init := pieces[..|pieces| - 1];
      var last := pieces[|pieces| - 1];
      var mid := AddPieces(acc, init, glue, maxTokens);
      assert PackedWords(mid) == PackedWords(acc) + AllWords(init) by {
        AddPiecesWords(acc, init, glue, maxTokens);
      }
      var next := AddPiece(mid, last, glue, maxTokens);
      assert PackedWords(next) == PackedWords(mid) + Words(last) by {
        AddPieceWords(mid, last, glue, maxTokens);
      }
      assert AllWords(pieces) == AllWords(init) + Words(last) by {
        assert pieces == init + [last];
        AllWordsAppend(init, last);
      }
      assert AddPieces(acc, pieces, glue, maxTokens) == next;
      ConcatAssoc(PackedWords(acc), AllWords(init), Words(last));
    }
  }

  lemma {:induction false} AddPiecesSound(acc: Packing, pieces: seq<string>, glue: string, ps: seq<string>, maxTokens: int)
    requires PackingSound(acc, ps, maxTokens) && IsBlank(glue)
    requires forall k :: 0 <= k < |pieces| ==> ChunkAllowed(pieces[k], ps, maxTokens)
    ensures PackingSound(AddPieces(acc, pieces, glue, maxTokens), ps, maxTokens)
    decreases |pieces|
  {
    if pieces != [] {
      var init := pieces[..|pieces| - 1];
      var last := pieces[|pieces| - 1];
      var mid := AddPieces(acc, init, glue, maxTokens);
      assert PackingSound(mid, ps, maxTokens) by {
        AddPiecesSound(acc, init, glue, ps, maxTokens);
      }
      AddPieceSound(mid, last, glue, ps, maxTokens);
    }
  }

  lemma AddParagraphWords(acc: Packing, p: string, maxTokens: int)
    ensures PackedWords(AddParagraph(acc, p, maxTokens)) == PackedWords(acc) + Words(p)
  {
    if CountTokens(p) > maxTokens {
      assert IsBlank(" ");
      AddPiecesWords(acc, SplitSentences(p), " ", maxTokens);
      SentencesKeepWords(p);
    } else {
      assert IsBlank(ParagraphBreak);
      AddPieceWords(acc, p, ParagraphBreak, maxTokens);
    }
  }

  lemma AddParagraphSound(acc: Packing, ps: seq<string>, k: nat, maxTokens: int)
    requires k < |ps| && PackingSound(acc, ps, maxTokens)
    ensures PackingSound(AddParagraph(acc, ps[k], maxTokens), ps, maxTokens)
  {
    var p := ps[k];
    if CountTokens(p) > maxTokens {
      var sentences := SplitSentences(p);
      forall i | 0 <= i < |sentences| ensures ChunkAllowed(sentences[i], ps, maxTokens) {
        assert sentences[i] in SplitSentences(ps[k]);
      }
      assert IsBlank(" ");
      AddPiecesSound(acc, sentences, " ", ps, maxTokens);
    } else {
      assert IsBlank(ParagraphBreak);
      AddPieceSound(acc, p, ParagraphBreak, ps, maxTokens);
    }
  }

  lemma {:induction false} AddParagraphsWords(done: seq<string>, maxTokens: int)
    ensures PackedWords(AddParagraphs(EmptyPacking, done, maxTokens)) == AllWords(done)
    decreases |done|
  {
    if done != [] {
      var init := done[..|done| - 1];
      var last := done[|done| - 1];
      var acc := AddParagraphs(EmptyPacking, init, maxTokens);
      assert PackedWords(acc) == AllWords(init) by {
        AddParagraphsWords(init, maxTokens);
      }
      assert PackedWords(AddParagraph(acc, last, maxTokens)) == PackedWords(acc) + Words(last) by {
        AddParagraphWords(acc, last, maxTokens);
      }
      assert AllWords(done) == AllWords(init) + Words(last) by {
        assert init + [last] == done;
        AllWordsAppend(init, last);
      }
      assert AddParagraphs(EmptyPacking, done, maxTokens) == AddParagraph(acc, last, maxTokens);
    }
  }

  lemma {:induction false} AddParagraphsSound(done: seq<string>, ps: seq<string>, maxTokens: int)
    requires |done| <= |ps| && done == ps[..|done|]
    ensures PackingSound(AddParagraphs(EmptyPacking, done, maxTokens), ps, maxTokens)
    decreases |done|
  {
    if done != [] {
      var init := done[..|done| - 1];
      var acc := AddParagraphs(EmptyPacking, init, maxTokens);
      assert PackingSound(acc, ps, maxTokens) by {
        assert init == ps[..|init|];
        AddParagraphsSound(init, ps, maxTokens);
      }
      AddParagraphSound(acc, ps, |done| - 1, maxTokens);
    }
  }

  lemma PackingInvariant(text: string, maxTokens: int)
    ensures var ps := Paragraphs(text);
      var acc := AddParagraphs(EmptyPacking, ps, maxTokens);
      PackingSound(acc, ps, maxTokens) && PackedWords(acc) == AllWords(ps)
  {
    var ps := Paragraphs(text);
    assert ps[..|ps|] == ps;
    AddParagraphsSound(ps, ps, maxTokens);
    AddParagraphsWords(ps, maxTokens);
  }

  /** In chunk_text's loop the running total always equals the estimate of
      the open chunk. */
  lemma PackingTokensExact(text: string, maxTokens: int)
    ensures var acc := AddParagraphs(EmptyPacking, Paragraphs(text), maxTokens);
      acc.tokens == CountTokens(acc.current)
  {
    PackingInvariant(text, maxTokens);
  }

  /** No base chunk is empty. */
  lemma BaseChunksNonEmpty(text: string, maxTokens: int)
    ensures var chunks := BaseChunks(text, maxTokens);
      forall k :: 0 <= k < |chunks| ==> chunks[k] != ""
  {
    PackingInvariant(text, maxTokens);
  }

  /** A base chunk is over the budget only when it is a single sentence of a
      paragraph that is itself over the budget. */
  lemma BaseChunksWithinBudget(text: string, maxTokens: int)
    ensures var chunks := BaseChunks(text, maxTokens);
      forall k :: 0 <= k < |chunks| ==> ChunkAllowed(chunks[k], Paragraphs(text), maxTokens)
  {
    var ps := Paragraphs(text);
    var acc := AddParagraphs(EmptyPacking, ps, maxTokens);
    var chunks := BaseChunks(text, maxTokens);
    assert PackingSound(acc, ps, maxTokens) by {
      PackingInvariant(text, maxTokens);
    }
    forall k | 0 <= k < |chunks| ensures ChunkAllowed(chunks[k], ps, maxTokens) {
      if k < |acc.chunks| {
        assert chunks[k] == acc.chunks[k];
      } else {
        assert chunks[k] == acc.current;
      }
    }
  }

  /** Before overlap is added, the base chunks hold exactly the words of the
      text, in order: nothing lost, duplicated or reordered. */
  lemma BaseChunksKeepWords(text: string, maxTokens: int)
    ensures AllWords(BaseChunks(text, maxTokens)) == Words(text)
  {
    var ps := Paragraphs(text);
    var acc := AddParagraphs(EmptyPacking, ps, maxTokens);
    assert PackedWords(acc) == AllWords(ps) by {
      PackingInvariant(text, maxTokens);
    }
    assert AllWords(ps) == Words(text) by {
      ParagraphsKeepWords(text);
    }
    AllWordsAppend(acc.chunks, acc.current);
  }

  /** words[start:] with Python's slice semantics for any integer start. */
  function PySliceFrom<T>(xs: seq<T>, start: int): seq<T> {
    if start >= 0 then xs[(if start <= |xs| then start else |xs|)..]
    else xs[(if -start <= |xs| then |xs| + start else 0)..]
  }

  /** get_overlap_text: the text itself when it has at most overlapTokens
      words, otherwise the last overlapTokens words joined by single spaces
      and followed by one space. */
  function GetOverlapText(text: string, overlapTokens: int): string {
    var words := Words(text);
    if |words| <= overlapTokens then text
    else Join(PySliceFrom(words, -overlapTokens), " ") + " "
  }

  lemma OverlapWords(tail: seq<string>)
    requires forall k :: 0 <= k < |tail| ==> |tail[k]| > 0
    requires forall k, i :: 0 <= k < |tail| && 0 <= i < |tail[k]| ==> IsNonSpace(tail[k][i])
    ensures Words(Join(tail, " ") + " ") == tail
  {
    WordsOfSpaceJoin(tail);
    RunsOfNone(" ", IsNonSpace);
    RunsConcat(Join(tail, " "), " ", IsNonSpace);
  }

  /** The overlap is the whole text when it has at most overlapTokens words
      (without a trailing space); otherwise it holds exactly the last
      overlapTokens words and ends with a space. An overlap of 0 keeps every
      word, because words[-0:] is the whole list. */
  lemma OverlapTextWords(text: string, overlapTokens: int)
    ensures var r := GetOverlapText(text, overlapTokens);
      && (|Words(text)| <= overlapTokens ==> r == text)
      && (0 < overlapTokens < |Words(text)| ==>
            Words(r) == Words(text)[|Words(text)| - overlapTokens..] && EndsWith(r, " "))
      && (overlapTokens == 0 < |Words(text)| ==> Words(r) == Words(text))
  {
    var words := Words(text);
    if |words| > overlapTokens {
      var tail := PySliceFrom(words, -overlapTokens);
      OverlapWords(tail);
    }
  }

  /** Chunk i of the overlapped list. */
  function OverlapChunk(base: seq<string>, i: nat, overlap: int): string
    requires i < |base|
  {
    if i == 0 then base[0] else GetOverlapText(base[i - 1], overlap) + base[i]
  }

  /** The chunks with overlap: chunk i > 0 is prefixed by the overlap taken
      from base chunk i - 1. */
  function Overlapped(base: seq<string>, overlap: int): seq<string> {
    seq(|base|, i requires 0 <= i < |base| => OverlapChunk(base, i, overlap))
  }

  /** What chunk_text returns. */
  function ChunkTextSpec(text: string, maxTokens: int, overlap: int): seq<string> {
    if CountTokens(text) <= maxTokens then [text]
    else
      var base := BaseChunks(text, maxTokens);
      if |base| > 1 && overlap > 0 then Overlapped(base, overlap) else base
  }

  /** The shape of chunk_text's result: the text itself when it fits the
      budget; otherwise one chunk per base chunk, each after the first
      prefixed by the overlap of the base chunk before it. */
  lemma ChunkTextShape(text: string, maxTokens: int, overlap: int)
    ensures var chunks := ChunkTextSpec(text, maxTokens, overlap);
      && (CountTokens(text) <= maxTokens ==> chunks == [text])
      && (CountTokens(text) > maxTokens ==>
            var base := BaseChunks(text, maxTokens);
            && |chunks| == |base|
            && (|base| > 1 && overlap > 0 ==>
                  chunks[0] == base[0]
                  && forall i :: 1 <= i < |base| ==> chunks[i] == GetOverlapText(base[i - 1], overlap) + base[i])
            && (|base| <= 1 || overlap <= 0 ==> chunks == base))
  {
    var chunks := ChunkTextSpec(text, maxTokens, overlap);
    if CountTokens(text) > maxTokens {
      var base := BaseChunks(text, maxTokens);
      if |base| > 1 && overlap > 0 {
        forall i | 1 <= i < |base| ensures chunks[i] == GetOverlapText(base[i - 1], overlap) + base[i] {
          assert chunks[i] == OverlapChunk(base, i, overlap);
        }
      }
    }
  }

  /** A budget of zero or less does not give the text back whole: two
      one-word paragraphs still become two chunks. */
  lemma ChunkTextNonPositiveBudget(maxTokens: int)
    requires maxTokens <= 0
    ensures ChunkTextSpec("a\n\nb", maxTokens, 0) == ["a", "b"]
  {
    TwoParagraphTokens();
    TwoParagraphs();
    PackTwoWords(maxTokens);
  }

  lemma TwoParagraphTokens()
    ensures CountTokens("a\n\nb") == 2
  {
    OneWordToken('a');
    OneWordToken('b');
    assert "a\n\nb" == "a" + ParagraphBreak + "b";
    TokensAroundSpaces("a", ParagraphBreak, "b");
  }

  lemma TwoParagraphs()
    ensures Paragraphs("a\n\nb") == ["a", "b"]
  {
    var text := "a\n\nb";
    assert IndexFrom(text, ParagraphBreak, 1) == Some(1) by {
      assert text[1..3] == ParagraphBreak;
    }
    assert IndexOf(text, ParagraphBreak) == Some(1) by {
      assert text[0..2][0] == 'a' && ParagraphBreak[0] == '\n';
    }
    assert text[3..] == "b" && text[..1] == "a";
    assert Split("b", ParagraphBreak) == ["b"];
  }

  /** Each one-word paragraph is over a budget of 0 or less, so each closes
      the chunk before it. */
  lemma PackTwoWords(maxTokens: int)
    requires maxTokens <= 0
    ensures AddParagraphs(EmptyPacking, ["a", "b"], maxTokens) == Packing(["a"], "b", 1)
  {
    OneWordToken('a');
    OneWordToken('b');
    assert SplitSentences("a") == ["a"];
    assert SplitSentences("b") == ["b"];
    var first := AddParagraphs(EmptyPacking, ["a"], maxTokens);
    assert first == Packing([], "a", 1) by {
      assert ["a"][..0] == [];
      assert AddPieces(EmptyPacking, ["a"], " ", maxTokens) == Packing([], "a", 1) by {
        assert ["a"][..0] == [];
      }
    }
    assert ["a", "b"][..1] == ["a"];
    assert AddPieces(first, ["b"], " ", maxTokens) == Packing(["a"], "b", 1) by {
      assert ["b"][..0] == [];
    }
  }

  /** A single word character is one token. */
  lemma OneWordToken(c: char)
    requires IsWordChar(c)
    ensures CountTokens([c]) == 1
  {
    RunsOfAll([c], IsWordChar);
    CountSymbolsOfWord([c]);
  }

  /** Without overlap the chunks hold exactly the words of the text, in
      order. */
  lemma ChunkTextKeepsWords(text: string, maxTokens: int, overlap: int)
    requires overlap <= 0
    ensures AllWords(ChunkTextSpec(text, maxTokens, overlap)) == Words(text)
  {
    if CountTokens(text) <= maxTokens {
      assert AllWords([text]) == Words(text) + AllWords([]);
    } else {
      BaseChunksKeepWords(text, maxTokens);
    }
  }

  /** chunk_text */
  method ChunkText(text: string, maxTokens: int, overlap: int) returns (chunks: seq<string>)
    ensures chunks == ChunkTextSpec(text, maxTokens, overlap)
  {
    if CountTokens(text) <= maxTokens {
      return [text];
    }
    var paragraphs := Split(text, ParagraphBreak);
    var currentChunk, currentTokens;
    chunks, currentChunk, currentTokens := PackParagraphs(paragraphs, maxTokens);
    if currentChunk != "" {
      chunks := chunks + [currentChunk];
    }
    if |chunks| > 1 && overlap > 0 {
      chunks := AddOverlap(chunks, overlap);
    }
  }

  /** chunk_text's outer loop: paragraphs are accumulated one by one, an
      over-budget one sentence by sentence. */
  method PackParagraphs(paragraphs: seq<string>, maxTokens: int)
    returns (chunks: seq<string>, currentChunk: string, currentTokens: int)
    ensures Packing(chunks, currentChunk, currentTokens) == AddParagraphs(EmptyPacking, paragraphs, maxTokens)
  {
    chunks := [];
    currentChunk := "";
    currentTokens := 0;
    for pi := 0 to |paragraphs|
      invariant Packing(chunks, currentChunk, currentTokens) == AddParagraphs(EmptyPacking, paragraphs[..pi], maxTokens)
    {
      var paragraph := paragraphs[pi];
      var paragraphTokens := CountTokens(paragraph);
      ghost var before := Packing(chunks, currentChunk, currentTokens);
      if paragraphTokens > maxTokens {
        var sentences := SplitSentences(paragraph);
        chunks, currentChunk, currentTokens := PackSentences(chunks, currentChunk, currentTokens, sentences, maxTokens);
        assert Packing(chunks, currentChunk, currentTokens) == AddParagraph(before, paragraph, maxTokens);
      } else {
        if currentTokens + paragraphTokens > maxTokens {
          if currentChunk != "" {
            chunks := chunks + [currentChunk];
          }
          currentChunk := paragraph;
          currentTokens := paragraphTokens;
        } else {
          if currentChunk != "" {
            currentChunk := currentChunk + ParagraphBreak + paragraph;
          } else {
            currentChunk := paragraph;
          }
          currentTokens := currentTokens + paragraphTokens;
        }
        assert Packing(chunks, currentChunk, currentTokens) == AddParagraph(before, paragraph, maxTokens);
      }
      assert AddParagraphs(EmptyPacking, paragraphs[..pi + 1], maxTokens) == AddParagraph(before, paragraph, maxTokens) by {
        assert paragraphs[..pi + 1][..pi] == paragraphs[..pi];
      }
    }
    assert paragraphs[..|paragraphs|] == paragraphs;
  }

  /** chunk_text's inner loop: the sentences of an over-budget paragraph
      are accumulated one by one, glued with a space. */
  method PackSentences(chunks0: seq<string>, currentChunk0: string, currentTokens0: int, sentences: seq<string>, maxTokens: int)
    returns (chunks: seq<string>, currentChunk: string, currentTokens: int)
    ensures Packing(chunks, currentChunk, currentTokens)
         == AddPieces(Packing(chunks0, currentChunk0, currentTokens0), sentences, " ", maxTokens)
  {
    chunks, currentChunk, currentTokens := chunks0, currentChunk0, currentTokens0;
    ghost var start := Packing(chunks0, currentChunk0, currentTokens0);
    for si := 0 to |sentences|
      invariant Packing(chunks, currentChunk, currentTokens) == AddPieces(start, sentences[..si], " ", maxTokens)
    {
      var sentence := sentences[si];
      var sentenceTokens := CountTokens(sentence);
      ghost var acc := Packing(chunks, currentChunk, currentTokens);
      if currentTokens + sentenceTokens > maxTokens {
        if currentChunk != "" {
          chunks := chunks + [currentChunk];
        }
        currentChunk := sentence;
        currentTokens := sentenceTokens;
      } else {
        if currentChunk != "" {
          currentChunk := currentChunk + " " + sentence;
        } else {
          currentChunk := sentence;
        }
        currentTokens := currentTokens + sentenceTokens;
      }
      assert Packing(chunks, currentChunk, currentTokens) == AddPiece(acc, sentence, " ", maxTokens);
      assert AddPieces(start, sentences[..si + 1], " ", maxTokens) == AddPiece(acc, sentence, " ", maxTokens) by {
        assert sentences[..si + 1][..si] == sentences[..si];
      }
    }
    assert sentences[..|sentences|] == sentences;
  }

  /** chunk_text's last loop: prefix every chunk after the first with the
      overlap taken from the chunk before it. */
  method AddOverlap(chunks: seq<string>, overlap: int) returns (overlapChunks: seq<string>)
    ensures overlapChunks == Overlapped(chunks, overlap)
  {
    ghost var full := Overlapped(chunks, overlap);
    overlapChunks := [];
    for i := 0 to |chunks|
      invariant overlapChunks == full[..i]
    {
      var next;
      if i == 0 {
        next := chunks[i];
      } else {
        var prevChunk := chunks[i - 1];
        var overlapText := GetOverlapText(prevChunk, overlap);
        next := overlapText + chunks[i];
      }
      assert next == full[i];
      assert full[..i + 1] == full[..i] + [next];
      overlapChunks := overlapChunks + [next];
    }
    assert full[..|chunks|] == full;
  }

  // ---------------------------------------------------------------------------
  // merge_corrected_chunks
  // ---------------------------------------------------------------------------

  /** The words kept from a later corrected chunk: those after the first
      max(1, n // 2) of its n words. */
  function SecondHalfWords(chunk: string): seq<string> {
    var words := Words(chunk);
    var halfPoint := if |words| / 2 > 1 then |words| / 2 else 1;
    if halfPoint <= |words| then words[halfPoint..] else []
  }

  /** The merge of the first n (chunk, boundary) pairs. */
  function MergePrefix(corrected: seq<string>, n: nat): string
    requires n <= |corrected|
  {
    if n == 0 then ""
    else if n == 1 then corrected[0]
    else MergePrefix(corrected, n - 1) + " " + Join(SecondHalfWords(corrected[n - 1]), " ")
  }

  /** What merge_corrected_chunks returns: zip stops at the shorter list. */
  function Merged(corrected: seq<string>, boundaries: seq<(int, int)>): string {
    if |corrected| == 1 then corrected[0]
    else MergePrefix(corrected, if |corrected| <= |boundaries| then |corrected| else |boundaries|)
  }

  /** The words each later chunk contributes to the merge, in order. */
  function KeptWords(corrected: seq<string>, n: nat): seq<string>
    requires n <= |corrected|
  {
    if n <= 1 then [] else KeptWords(corrected, n - 1) + SecondHalfWords(corrected[n - 1])
  }

  /** The kept words are words: non-empty runs of non-space characters. */
  lemma SecondHalfAreWords(chunk: string)
    ensures var kept := SecondHalfWords(chunk);
      && (forall k :: 0 <= k < |kept| ==> |kept[k]| > 0)
      && (forall k, i :: 0 <= k < |kept| && 0 <= i < |kept[k]| ==> IsNonSpace(kept[k][i]))
  {
    var words := Words(chunk);
    var kept := SecondHalfWords(chunk);
    forall k | 0 <= k < |kept|
      ensures |kept[k]| > 0 && forall i :: 0 <= i < |kept[k]| ==> IsNonSpace(kept[k][i])
    {
      var halfPoint := if |words| / 2 > 1 then |words| / 2 else 1;
      assert kept[k] == words[halfPoint + k];
    }
  }

  /** The merge keeps every word of the first chunk and, of every later chunk,
      exactly the words after its first half, in order. */
  lemma {:induction false} MergePrefixWords(corrected: seq<string>, n: nat)
    requires 1 <= n <= |corrected|
    ensures Words(MergePrefix(corrected, n)) == Words(corrected[0]) + KeptWords(corrected, n)
  {
    if n > 1 {
      var m := MergePrefix(corrected, n - 1);
      var kept := SecondHalfWords(corrected[n - 1]);
      var joined := Join(kept, " ");
      assert Words(m) == Words(corrected[0]) + KeptWords(corrected, n - 1) by {
        MergePrefixWords(corrected, n - 1);
      }
      assert Words(joined) == kept by {
        SecondHalfAreWords(corrected[n - 1]);
        WordsOfSpaceJoin(kept);
      }
      assert Words(m + " " + joined) == Words(m) + Words(joined) by {
        WordsAroundSpaces(m, " ", joined);
      }
      assert MergePrefix(corrected, n) == m + " " + joined;
      assert KeptWords(corrected, n) == KeptWords(corrected, n - 1) + kept;
      ConcatAssoc(Words(corrected[0]), KeptWords(corrected, n - 1), kept);
    }
  }

  /** The merged text begins with the first corrected chunk verbatim. */
  lemma {:induction false} MergePrefixStartsWithFirst(corrected: seq<string>, n: nat)
    requires 1 <= n <= |corrected|
    ensures StartsWith(MergePrefix(corrected, n), corrected[0])
  {
    if n > 1 {
      var m := MergePrefix(corrected, n - 1);
      var rest := " " + Join(SecondHalfWords(corrected[n - 1]), " ");
      assert StartsWith(m, corrected[0]) by {
        MergePrefixStartsWithFirst(corrected, n - 1);
      }
      assert StartsWith(m + rest, corrected[0]) by {
        StartsWithAppend(m, rest, corrected[0]);
      }
      assert MergePrefix(corrected, n) == m + rest;
    }
  }

  /** merge_corrected_chunks (the original text and the boundary values are
      not used by the merge). */
  method MergeCorrectedChunks(originalText: string, corrected: seq<string>, boundaries: seq<(int, int)>)
    returns (result: string)
    ensures result == Merged(corrected, boundaries)
    ensures |corrected| == 1 ==> result == corrected[0]
    ensures |corrected| == 0 ==> result == ""
  {
    if |corrected| == 1 {
      return corrected[0];
    }
    result := "";
    var n := if |corrected| <= |boundaries| then |corrected| else |boundaries|;
    for i := 0 to n
      invariant result == MergePrefix(corrected, i)
    {
      var chunk := corrected[i];
      if i > 0 {
        var words := Words(chunk);
        var halfPoint := if |words| / 2 > 1 then |words| / 2 else 1;
        var kept := if halfPoint <= |words| then words[halfPoint..] else [];
        result := result + " " + Join(kept, " ");
      } else {
        result := chunk;
      }
    }
  }

  // ---------------------------------------------------------------------------
  // batch_items
  // ---------------------------------------------------------------------------

  /** The separator whose cost batch_items charges between two items, and
      which correct_subtitle_file puts between the texts of a batch. */
  const SubtitleSeparator := "\n===SUBTITLE_SEPARATOR===\n"

  lemma {:induction false} CountSymbolsOfSymbols(s: string)
    requires forall i :: 0 <= i < |s| ==> IsSymbol(s[i])
    ensures CountSymbols(s) == |s|
  {
    if s != [] {
      CountSymbolsOfSymbols(s[1..]);
    }
  }

  /** The cost of a separator shaped like SubtitleSeparator: a whitespace
      character, three symbols, one word, three symbols, whitespace again. */
  lemma SeparatorShapeTokens(nl: string, marks: string, word: string)
    requires |nl| == 1 && IsSpace(nl[0])
    requires |marks| == 3 && forall i :: 0 <= i < |marks| ==> IsSymbol(marks[i])
    requires |word| > 0 && forall i :: 0 <= i < |word| ==> IsWordChar(word[i])
    ensures CountTokens(nl + marks + word + marks + nl) == 7
  {
    WordCharIsNotSpace(nl[0]);
    assert CountTokens(nl) == 0 by {
      TokensOfSpace(nl);
    }
    assert CountTokens(marks) == 3 by {
      RunsOfNone(marks, IsWordChar);
      CountSymbolsOfSymbols(marks);
    }
    assert CountTokens(word) == 1 by {
      RunsOfAll(word, IsWordChar);
      CountSymbolsOfWord(word);
    }
    var tail := marks + nl;
    var middle := word + tail;
    var body := marks + middle;
    assert CountTokens(tail) == 3 by {
      TokensConcat(marks, nl);
    }
    assert CountTokens(middle) == 4 by {
      TokensConcat(word, tail);
    }
    assert CountTokens(body) == 7 by {
      TokensConcat(marks, middle);
    }
    assert CountTokens(nl + body) == 7 by {
      TokensConcat(nl, body);
    }
    assert nl + marks + word + marks + nl == nl + body;
  }

  /** The separator costs 7 tokens: one word run and six '=' characters. */
  lemma SeparatorTokens()
    ensures CountTokens(SubtitleSeparator) == 7
  {
    var nl, marks, word := "\n", "===", "SUBTITLE_SEPARATOR";
    SeparatorPieces();
    SeparatorWord();
    SeparatorShapeTokens(nl, marks, word);
  }

  lemma SeparatorPieces()
    ensures "\n" + "===" + "SUBTITLE_SEPARATOR" + "===" + "\n" == SubtitleSeparator
  {
  }

  lemma SeparatorWord()
    ensures forall i :: 0 <= i < |"SUBTITLE_SEPARATOR"| ==> IsWordChar("SUBTITLE_SEPARATOR"[i])
  {
  }

  /** What batch_items charges for a batch: the estimates of its items plus
      one separator between each two of them. */
  function BatchCost<T>(batch: seq<T>, textOf: T -> string, sepTokens: int): int
    decreases |batch|
  {
    if |batch| == 0 then 0
    else if |batch| == 1 then CountTokens(textOf(batch[0]))
    else BatchCost(batch[..|batch| - 1], textOf, sepTokens) + sepTokens + CountTokens(textOf(batch[|batch| - 1]))
  }

  predicate IsLarge<T>(item: T, textOf: T -> string, maxTokens: int) {
    CountTokens(textOf(item)) >= maxTokens
  }

  /** A batch made of one item that alone reaches the budget. */
  predicate IsLargeSingleton<T>(batch: seq<T>, textOf: T -> string, maxTokens: int) {
    |batch| == 1 && IsLarge(batch[0], textOf, maxTokens)
  }

  /** A batch of items each under the budget whose cost fits the budget. */
  predicate WithinBudget<T>(batch: seq<T>, textOf: T -> string, maxTokens: int, sepTokens: int) {
    (forall k :: 0 <= k < |batch| ==> !IsLarge(batch[k], textOf, maxTokens))
    && BatchCost(batch, textOf, sepTokens) <= maxTokens
  }

  /** Greedy fill: the next batch was started only because its first item
      did not fit into the previous one. */
  predicate FullBefore<T>(batch: seq<T>, next: seq<T>, textOf: T -> string, maxTokens: int, sepTokens: int)
    requires |next| > 0
  {
    IsLargeSingleton(batch, textOf, maxTokens) || IsLarge(next[0], textOf, maxTokens)
    || BatchCost(batch, textOf, sepTokens) + CountTokens(textOf(next[0])) + sepTokens > maxTokens
  }

  /** The state of batch_items's loop. */
  datatype Batching<T> = Batching(batches: seq<seq<T>>, current: seq<T>, count: int)

  function BatchStep<T>(acc: Batching<T>, item: T, textOf: T -> string, maxTokens: int, sepTokens: int): Batching<T> {
    var t := CountTokens(textOf(item));
    if t >= maxTokens then
      Batching((if |acc.current| > 0 then acc.batches + [acc.current] else acc.batches) + [[item]],
               [], if |acc.current| > 0 then 0 else acc.count)
    else if |acc.current| > 0 && acc.count + t + sepTokens > maxTokens then
      Batching(acc.batches + [acc.current], [item], t)
    else
      Batching(acc.batches, acc.current + [item], acc.count + t + (if |acc.current| + 1 > 1 then sepTokens else 0))
  }

  function BatchSteps<T>(items: seq<T>, textOf: T -> string, maxTokens: int, sepTokens: int): Batching<T>
    decreases |items|
  {
    if items == [] then Batching([], [], 0)
    else BatchStep(BatchSteps(items[..|items| - 1], textOf, maxTokens, sepTokens), items[|items| - 1], textOf, maxTokens, sepTokens)
  }

  /** What batch_items returns when each separator costs sepTokens. */
  function GreedyBatches<T>(items: seq<T>, textOf: T -> string, maxTokens: int, sepTokens: int): seq<seq<T>> {
    if items == [] then []
    else
      var acc := BatchSteps(items, textOf, maxTokens, sepTokens);
      if |acc.current| > 0 then acc.batches + [acc.current] else acc.batches
  }

  /** A batch batch_items may return: non-empty, and either one large item or
      items each under the budget whose cost fits it. */
  predicate BatchAllowed<T>(batch: seq<T>, textOf: T -> string, maxTokens: int, sepTokens: int) {
    |batch| > 0 && (IsLargeSingleton(batch, textOf, maxTokens) || WithinBudget(batch, textOf, maxTokens, sepTokens))
  }

  /** Closed batches: each allowed, each filled before the next was started. */
  ghost predicate BatchesSound<T>(bs: seq<seq<T>>, textOf: T -> string, maxTokens: int, sepTokens: int) {
    && (forall j :: 0 <= j < |bs| ==> BatchAllowed(bs[j], textOf, maxTokens, sepTokens))
    && (forall j :: 0 < j < |bs| ==> FullBefore(bs[j - 1], bs[j], textOf, maxTokens, sepTokens))
  }

  lemma BatchesSoundAppend<T>(bs: seq<seq<T>>, b: seq<T>, textOf: T -> string, maxTokens: int, sepTokens: int)
    requires BatchesSound(bs, textOf, maxTokens, sepTokens)
    requires BatchAllowed(b, textOf, maxTokens, sepTokens)
    requires |bs| > 0 ==> FullBefore(bs[|bs| - 1], b, textOf, maxTokens, sepTokens)
    ensures BatchesSound(bs + [b], textOf, maxTokens, sepTokens)
  {
    var bs' := bs + [b];
    forall j | 0 < j < |bs'|
      ensures FullBefore(bs'[j - 1], bs'[j], textOf, maxTokens, sepTokens)
    {
      if j < |bs| {
        assert bs'[j - 1] == bs[j - 1] && bs'[j] == bs[j];
      }
    }
  }

  /** The open batch of batch_items's loop and its running count. */
  ghost predicate CurrentSound<T>(acc: Batching<T>, textOf: T -> string, maxTokens: int, sepTokens: int) {
    && (|acc.current| == 0 ==> acc.count == 0)
    && (|acc.current| == 0 && |acc.batches| > 0 ==> IsLargeSingleton(acc.batches[|acc.batches| - 1], textOf, maxTokens))
    && (|acc.current| > 0 ==>
          acc.count == BatchCost(acc.current, textOf, sepTokens) && WithinBudget(acc.current, textOf, maxTokens, sepTokens))
    && (|acc.batches| > 0 && |acc.current| > 0 ==>
          FullBefore(acc.batches[|acc.batches| - 1], acc.current, textOf, maxTokens, sepTokens))
  }

  ghost predicate BatchingSound<T>(acc: Batching<T>, done: seq<T>, textOf: T -> string, maxTokens: int, sepTokens: int) {
    && Flatten(acc.batches) + acc.current == done
    && BatchesSound(acc.batches, textOf, maxTokens, sepTokens)
    && CurrentSound(acc, textOf, maxTokens, sepTokens)
  }

  lemma BatchStepSound<T>(acc: Batching<T>, done: seq<T>, item: T, textOf: T -> string, maxTokens: int, sepTokens: int)
    requires BatchingSound(acc, done, textOf, maxTokens, sepTokens)
    ensures BatchingSound(BatchStep(acc, item, textOf, maxTokens, sepTokens), done + [item], textOf, maxTokens, sepTokens)
  {
    var t := CountTokens(textOf(item));
    if t >= maxTokens {
      LargeStepSound(acc, done, item, textOf, maxTokens, sepTokens);
    } else if |acc.current| > 0 && acc.count + t + sepTokens > maxTokens {
      CloseStepSound(acc, done, item, textOf, maxTokens, sepTokens);
    } else {
      GrowStepSound(acc, done, item, textOf, maxTokens, sepTokens);
    }
  }

  lemma SingletonCost<T>(item: T, textOf: T -> string, sepTokens: int)
    ensures BatchCost([item], textOf, sepTokens) == CountTokens(textOf(item))
  {
  }

  lemma LargeStepSound<T>(acc: Batching<T>, done: seq<T>, item: T, textOf: T -> string, maxTokens: int, sepTokens: int)
    requires BatchingSound(acc, done, textOf, maxTokens, sepTokens)
    requires IsLarge(item, textOf, maxTokens)
    ensures BatchingSound(BatchStep(acc, item, textOf, maxTokens, sepTokens), done + [item], textOf, maxTokens, sepTokens)
  {
    var closed := if |acc.current| > 0 then acc.batches + [acc.current] else acc.batches;
    var next := BatchStep(acc, item, textOf, maxTokens, sepTokens);
    assert next == Batching(closed + [[item]], [], if |acc.current| > 0 then 0 else acc.count);
    assert Flatten(closed) == done by {
      if |acc.current| > 0 {
        FlattenAppend(acc.batches, acc.current);
      }
    }
    assert Flatten(next.batches) == done + [item] by {
      FlattenAppend(closed, [item]);
    }
    assert BatchesSound(closed, textOf, maxTokens, sepTokens) by {
      if |acc.current| > 0 {
        BatchesSoundAppend(acc.batches, acc.current, textOf, maxTokens, sepTokens);
      }
    }
    assert IsLargeSingleton([item], textOf, maxTokens);
    BatchesSoundAppend(closed, [item], textOf, maxTokens, sepTokens);
  }

  lemma CloseStepSound<T>(acc: Batching<T>, done: seq<T>, item: T, textOf: T -> string, maxTokens: int, sepTokens: int)
    requires BatchingSound(acc, done, textOf, maxTokens, sepTokens)
    requires !IsLarge(item, textOf, maxTokens)
    requires |acc.current| > 0 && acc.count + CountTokens(textOf(item)) + sepTokens > maxTokens
    ensures BatchingSound(BatchStep(acc, item, textOf, maxTokens, sepTokens), done + [item], textOf, maxTokens, sepTokens)
  {
    var next := BatchStep(acc, item, textOf, maxTokens, sepTokens);
    assert next == Batching(acc.batches + [acc.current], [item], CountTokens(textOf(item)));
    assert Flatten(next.batches) == done by {
      FlattenAppend(acc.batches, acc.current);
    }
    BatchesSoundAppend(acc.batches, acc.current, textOf, maxTokens, sepTokens);
    SingletonCost(item, textOf, sepTokens);
  }

  lemma GrowStepSound<T>(acc: Batching<T>, done: seq<T>, item: T, textOf: T -> string, maxTokens: int, sepTokens: int)
    requires BatchingSound(acc, done, textOf, maxTokens, sepTokens)
    requires !IsLarge(item, textOf, maxTokens)
    requires !(|acc.current| > 0 && acc.count + CountTokens(textOf(item)) + sepTokens > maxTokens)
    ensures BatchingSound(BatchStep(acc, item, textOf, maxTokens, sepTokens), done + [item], textOf, maxTokens, sepTokens)
  {
    var t := CountTokens(textOf(item));
    var grown := acc.current + [item];
    var next := BatchStep(acc, item, textOf, maxTokens, sepTokens);
    assert next == Batching(acc.batches, grown, acc.count + t + (if |acc.current| > 0 then sepTokens else 0));
    assert next.count == BatchCost(grown, textOf, sepTokens) by {
      assert grown[..|grown| - 1] == acc.current;
    }
    assert forall k :: 0 <= k < |grown| ==> !IsLarge(grown[k], textOf, maxTokens) by {
      assert forall k :: 0 <= k < |acc.current| ==> grown[k] == acc.current[k];
    }
    assert Flatten(next.batches) + grown == done + [item] by {
      ConcatAssoc(Flatten(acc.batches), acc.current, [item]);
    }
  }

  lemma {:induction false} BatchStepsSound<T>(items: seq<T>, textOf: T -> string, maxTokens: int, sepTokens: int)
    ensures BatchingSound(BatchSteps(items, textOf, maxTokens, sepTokens), items, textOf, maxTokens, sepTokens)
    decreases |items|
  {
    if items != [] {
      var init := items[..|items| - 1];
      var last := items[|items| - 1];
      var acc := BatchSteps(init, textOf, maxTokens, sepTokens);
      assert BatchingSound(BatchStep(acc, last, textOf, maxTokens, sepTokens), init + [last], textOf, maxTokens, sepTokens) by {
        BatchStepsSound(init, textOf, maxTokens, sepTokens);
        BatchStepSound(acc, init, last, textOf, maxTokens, sepTokens);
      }
      assert init + [last] == items;
      assert BatchSteps(items, textOf, maxTokens, sepTokens) == BatchStep(acc, last, textOf, maxTokens, sepTokens);
    }
  }

  /** The batches partition the input: flattening them gives the items back
      in order, and no batch is empty. */
  lemma GreedyBatchesPartition<T>(items: seq<T>, textOf: T -> string, maxTokens: int, sepTokens: int)
    ensures Flatten(GreedyBatches(items, textOf, maxTokens, sepTokens)) == items
    ensures forall j :: 0 <= j < |GreedyBatches(items, textOf, maxTokens, sepTokens)| ==>
      |GreedyBatches(items, textOf, maxTokens, sepTokens)[j]| > 0
  {
    if items != [] {
      var acc := BatchSteps(items, textOf, maxTokens, sepTokens);
      BatchStepsSound(items, textOf, maxTokens, sepTokens);
      FlattenAppend(acc.batches, acc.current);
    }
  }

  /** Every batch is either one item that alone reaches the budget, or items
      each under the budget whose cost, separators included, fits it. */
  lemma GreedyBatchesBudget<T>(items: seq<T>, textOf: T -> string, maxTokens: int, sepTokens: int)
    ensures var bs := GreedyBatches(items, textOf, maxTokens, sepTokens);
      forall j :: 0 <= j < |bs| ==>
        IsLargeSingleton(bs[j], textOf, maxTokens) || WithinBudget(bs[j], textOf, maxTokens, sepTokens)
  {
    if items != [] {
      BatchStepsSound(items, textOf, maxTokens, sepTokens);
    }
  }

  /** An item that alone reaches the budget is alone in its batch. */
  lemma GreedyBatchesIsolateLarge<T>(items: seq<T>, textOf: T -> string, maxTokens: int, sepTokens: int)
    ensures var bs := GreedyBatches(items, textOf, maxTokens, sepTokens);
      forall j, k :: 0 <= j < |bs| && 0 <= k < |bs[j]| && IsLarge(bs[j][k], textOf, maxTokens) ==> |bs[j]| == 1
  {
    GreedyBatchesBudget(items, textOf, maxTokens, sepTokens);
  }

  /** Each batch is filled as far as the greedy rule allows: the first item
      of the next batch would not have fitted. */
  lemma GreedyBatchesFull<T>(items: seq<T>, textOf: T -> string, maxTokens: int, sepTokens: int)
    ensures var bs := GreedyBatches(items, textOf, maxTokens, sepTokens);
      forall j :: 0 < j < |bs| ==> |bs[j]| > 0 && FullBefore(bs[j - 1], bs[j], textOf, maxTokens, sepTokens)
  {
    GreedyBatchesPartition(items, textOf, maxTokens, sepTokens);
    if items != [] {
      BatchStepsSound(items, textOf, maxTokens, sepTokens);
    }
  }

  /** batch_items's loop, for a separator that costs sepTokens. */
  method BatchWithCost<T>(items: seq<T>, maxTokens: int, textOf: T -> string, separatorTokens: int)
    returns (batches: seq<seq<T>>)
    ensures batches == GreedyBatches(items, textOf, maxTokens, separatorTokens)
  {
    if items == [] {
      return [];
    }
    batches := [];
    var currentBatch := [];
    var currentTokenCount := 0;
    for i := 0 to |items|
      invariant Batching(batches, currentBatch, currentTokenCount) == BatchSteps(items[..i], textOf, maxTokens, separatorTokens)
    {
      var item := items[i];
      var itemTokens := CountTokens(textOf(item));
      if itemTokens >= maxTokens {
        if |currentBatch| > 0 {
          batches := batches + [currentBatch];
          currentBatch := [];
          currentTokenCount := 0;
        }
        batches := batches + [[item]];
      } else if |currentBatch| > 0 && currentTokenCount + itemTokens + separatorTokens > maxTokens {
        batches := batches + [currentBatch];
        currentBatch := [item];
        currentTokenCount := itemTokens;
      } else {
        currentBatch := currentBatch + [item];
        currentTokenCount := currentTokenCount + itemTokens + (if |currentBatch| > 1 then separatorTokens else 0);
      }
      assert items[..i + 1][..i] == items[..i];
    }
    assert items[..|items|] == items;
    if |currentBatch| > 0 {
      batches := batches + [currentBatch];
    }
  }

  /** batch_items: the separator cost is that of SubtitleSeparator (7 tokens),
      whatever separator the caller joins with. */
  method BatchItems<T>(items: seq<T>, maxTokens: int, textOf: T -> string) returns (batches: seq<seq<T>>)
    ensures batches == GreedyBatches(items, textOf, maxTokens, 7)
  {
    var separatorTokens := CountTokens(SubtitleSeparator);
    SeparatorTokens();
    batches := BatchWithCost(items, maxTokens, textOf, separatorTokens);
  }

  function Identity(s: string): string {
    s
  }

  /** Joining texts with a separator that cannot extend a word run costs
      what batch_items charges for them. */
  lemma {:induction false} JoinTokens(texts: seq<string>, sep: string)
    requires |texts| > 0 && |sep| > 0
    requires !IsWordChar(sep[0]) && !IsWordChar(sep[|sep| - 1])
    ensures CountTokens(Join(texts, sep)) == BatchCost(texts, Identity, CountTokens(sep))
    decreases |texts|
  {
    if |texts| > 1 {
      var init := texts[..|texts| - 1];
      var last := texts[|texts| - 1];
      var front := Join(init, sep);
      assert CountTokens(front) == BatchCost(init, Identity, CountTokens(sep)) by {
        JoinTokens(init, sep);
      }
      assert Join(texts, sep) == front + sep + last by {
        assert init + [last] == texts;
        JoinAppend(init, last, sep);
      }
      assert CountTokens(front + sep) == CountTokens(front) + CountTokens(sep) by {
        TokensConcat(front, sep);
      }
      assert CountTokens(front + sep + last) == CountTokens(front + sep) + CountTokens(last) by {
        assert (front + sep)[|front + sep| - 1] == sep[|sep| - 1];
        TokensConcat(front + sep, last);
      }
    }
  }

  /** A batch's texts joined with SubtitleSeparator have exactly the estimate
      batch_items charged for the batch. */
  lemma JoinedBatchTokens(texts: seq<string>)
    requires |texts| > 0
    ensures CountTokens(Join(texts, SubtitleSeparator)) == BatchCost(texts, Identity, 7)
  {
    WordCharIsNotSpace('\n');
    JoinTokens(texts, SubtitleSeparator);
    SeparatorTokens();
  }
}
