// The data side of the desktop window: the subtitle rows it shows, the
// placeholders that carry ASS line breaks and tags through the corrector,
// the positional mapping of the answers back onto the rows, applying and
// rejecting changes, and writing the rows back into the parsed entries.

module Gui {
  import opened PyStrings
  import opened Subtitles
  import opened SpellChecking
  import opened Utils

  /* ---------------------------------------------------------------------
     Placeholders
     --------------------------------------------------------------------- */

  /** Stands for the tag "<*>" while a text is being corrected. */
  const TagMark := "§TAG§"

  /** The text sent for one subtitle: ASS line breaks first, then tags, each
      swapped for its placeholder. */
  function Encode(t: string): string {
    Replace(Replace(t, "\\N", LineBreakMark), "<*>", TagMark)
  }

  /** The answer for one subtitle as the window decodes it: stripped, then the
      line-break placeholder undone, then the tag placeholder, each over the
      whole text in turn. */
  function DecodeAsWritten(s: string): string {
    Replace(Replace(Strip(s), LineBreakMark, "\\N"), TagMark, "<*>")
  }

  /** Both placeholders undone in one left-to-right pass, so that text a
      replacement produces is never scanned again. */
  function DecodeMarks(s: string): (r: string)
    decreases |s|
  {
    if StartsWith(s, LineBreakMark) then "\\N" + DecodeMarks(s[|LineBreakMark|..])
    else if StartsWith(s, TagMark) then "<*>" + DecodeMarks(s[|TagMark|..])
    else if s == [] then []
    else [s[0]] + DecodeMarks(s[1..])
  }

  /** The answer for one subtitle decoded as intended: stripped, then both
      placeholders undone in one pass. */
  function Decode(s: string): string {
    DecodeMarks(Strip(s))
  }

  /** One step of the encoding: a line break, a tag or a single character
      at the front of the text. */
  lemma EncodeStep(t: string)
    ensures StartsWith(t, "\\N") ==> Encode(t) == LineBreakMark + Encode(t[2..])
    ensures !StartsWith(t, "\\N") && StartsWith(t, "<*>") ==> Encode(t) == TagMark + Encode(t[3..])
    ensures t != [] && !StartsWith(t, "\\N") && !StartsWith(t, "<*>") ==> Encode(t) == [t[0]] + Encode(t[1..])
    ensures t == [] ==> Encode(t) == []
  {
    if StartsWith(t, "\\N") {
      ReplacePrefix(LineBreakMark, Replace(t[2..], "\\N", LineBreakMark), "<*>", TagMark);
    } else if StartsWith(t, "<*>") {
      assert t == "<*>" + t[3..];
      ReplacePrefix("<*>", t[3..], "\\N", LineBreakMark);
      var x := Replace(t[3..], "\\N", LineBreakMark);
      assert ("<*>" + x)[..3] == "<*>";
      assert ("<*>" + x)[3..] == x;
    } else if t != [] {
      var x := Replace(t[1..], "\\N", LineBreakMark);
      assert Replace(t, "\\N", LineBreakMark) == [t[0]] + x;
      EncodeHeadNoTag(t);
    }
  }

  /** A text that does not start with a tag does not start with one once its
      line breaks are swapped for placeholders. */
  lemma EncodeHeadNoTag(t: string)
    requires t != [] && !StartsWith(t, "\\N") && !StartsWith(t, "<*>")
    ensures Replace([t[0]] + Replace(t[1..], "\\N", LineBreakMark), "<*>", TagMark)
      == [t[0]] + Encode(t[1..])
  {
    var x := Replace(t[1..], "\\N", LineBreakMark);
    var y := [t[0]] + x;
    TagKept(t);
    assert y[1..] == x;
  }

  /** Nor a tag behind a first character. */
  lemma TagKept(t: string)
    requires t != []
    ensures StartsWith([t[0]] + Replace(t[1..], "\\N", LineBreakMark), "<*>") ==> StartsWith(t, "<*>")
  {
    var x := Replace(t[1..], "\\N", LineBreakMark);
    var y := [t[0]] + x;
    StarsKept(t[1..]);
    if StartsWith(y, "<*>") {
      assert x[..2] == y[..3][1..];
      assert StartsWith(t[1..], "*>");
      assert t[..3] == [t[0]] + t[1..][..2];
    }
  }

  /** Swapping line breaks for placeholders does not make "*>" appear at the
      front. */
  lemma StarsKept(s: string)
    ensures StartsWith(Replace(s, "\\N", LineBreakMark), "*>") ==> StartsWith(s, "*>")
  {
    ReplaceHead(s);
    if s != [] {
      ReplaceHead(s[1..]);
    }
  }

  /** The first character once line breaks are swapped: the placeholder's or
      the text's own. */
  lemma ReplaceHead(s: string)
    ensures s != [] && !StartsWith(s, "\\N") ==>
      Replace(s, "\\N", LineBreakMark) == [s[0]] + Replace(s[1..], "\\N", LineBreakMark)
    ensures s != [] && StartsWith(s, "\\N") ==> Replace(s, "\\N", LineBreakMark)[0] == '§'
    ensures s == [] ==> Replace(s, "\\N", LineBreakMark) == []
  {
  }

  /** Decoding undoes the encoding of a text without '§'. */
  lemma {:induction false} DecodeEncode(t: string)
    requires '§' !in t
    ensures DecodeMarks(Encode(t)) == t
    decreases |t|
  {
    EncodeStep(t);
    if StartsWith(t, "\\N") {
      var e := Encode(t[2..]);
      assert (LineBreakMark + e)[..|LineBreakMark|] == LineBreakMark;
      assert (LineBreakMark + e)[|LineBreakMark|..] == e;
      DecodeEncode(t[2..]);
      assert t == "\\N" + t[2..];
    } else if StartsWith(t, "<*>") {
      var e := Encode(t[3..]);
      assert (TagMark + e)[1] != LineBreakMark[1];
      assert (TagMark + e)[..|TagMark|] == TagMark;
      assert (TagMark + e)[|TagMark|..] == e;
      DecodeEncode(t[3..]);
      assert t == "<*>" + t[3..];
    } else if t != [] {
      var e := Encode(t[1..]);
      assert ([t[0]] + e)[0] == t[0] != '§';
      assert ([t[0]] + e)[1..] == e;
      DecodeEncode(t[1..]);
      assert t == [t[0]] + t[1..];
    }
  }

  /** The encoding of a non-empty text starts and ends with the text's own
      first and last characters, or with a placeholder's '§'. */
  lemma {:induction false} EncodeEnds(t: string)
    requires t != []
    ensures var e := Encode(t);
      && e != []
      && (e[0] == '§' || e[0] == t[0])
      && (e[|e| - 1] == '§' || e[|e| - 1] == t[|t| - 1])
    decreases |t|
  {
    EncodeStep(t);
    var n := if StartsWith(t, "\\N") then 2 else if StartsWith(t, "<*>") then 3 else 1;
    var rest := t[n..];
    EncodeStep(rest);
    if rest != [] {
      EncodeEnds(rest);
      assert rest[|rest| - 1] == t[|t| - 1];
    }
  }

  /** The intended decoding gives back every text without '§' and without
      surrounding whitespace from its encoding, even when the corrector
      adds whitespace around it. */
  lemma DecodeEncodeAnswer(t: string, lead: string, trail: string)
    requires '§' !in t && IsStripped(t)
    requires forall i :: 0 <= i < |lead| ==> IsSpace(lead[i])
    requires forall i :: 0 <= i < |trail| ==> IsSpace(trail[i])
    ensures Decode(lead + Encode(t) + trail) == t
  {
    EncodeStep(t);
    if t != [] {
      EncodeEnds(t);
    }
    StripAround(lead, Encode(t), trail);
    DecodeEncode(t);
  }

  /** The two-pass decoding as written turns the end of the tag placeholder
      and the letters "LINEBREAK" that follow it into a line-break
      placeholder: the text "<*>LINEBREAK\N" has no '§' and no surrounding
      whitespace, yet it does not come back. */
  lemma DecodeAsWrittenBreaks()
    ensures '§' !in "<*>LINEBREAK\\N" && IsStripped("<*>LINEBREAK\\N")
    ensures Encode("<*>LINEBREAK\\N") == TagMark + "LINEBREAK" + LineBreakMark
    ensures DecodeAsWritten(Encode("<*>LINEBREAK\\N")) == "§TAG\\NLINEBREAK§"
    ensures Decode(Encode("<*>LINEBREAK\\N")) == "<*>LINEBREAK\\N"
  {
    var t := "<*>LINEBREAK\\N";
    var e := TagMark + "LINEBREAK" + LineBreakMark;
    CounterexamplePlain();
    EncodeCounterexample();
    assert DecodeAsWritten(e) == "§TAG\\NLINEBREAK§" by {
      assert Strip(e) == e by {
        assert IsStripped(e);
        StripStripped(e);
      }
      FirstPassCounterexample();
      SecondPassCounterexample();
    }
    assert Decode(Encode(t)) == t by {
      DecodeEncodeAnswer(t, [], []);
      assert [] + Encode(t) + [] == Encode(t);
    }
  }

  lemma CounterexamplePlain()
    ensures '§' !in "<*>LINEBREAK\\N" && IsStripped("<*>LINEBREAK\\N")
  {
  }

  lemma EncodeCounterexample()
    ensures Encode("<*>LINEBREAK\\N") == TagMark + "LINEBREAK" + LineBreakMark
  {
    assert "<*>LINEBREAK\\N" == "<*>" + "LINEBREAK" + "\\N";
    EncodeTagWordBreak("LINEBREAK");
  }

  /** A tag, a word, a line break. */
  lemma EncodeTagWordBreak(w: string)
    requires '\\' !in w && '<' !in w
    ensures Encode("<*>" + w + "\\N") == TagMark + w + LineBreakMark
  {
    var t := "<*>" + w + "\\N";
    var inner := "<*>" + (w + LineBreakMark);
    assert Replace(t, "\\N", LineBreakMark) == inner by {
      ReplacePrefix("<*>" + w, "\\N", "\\N", LineBreakMark);
      ReplaceOnce("\\N", LineBreakMark);
    }
    assert Replace(inner, "<*>", TagMark) == TagMark + (w + LineBreakMark) by {
      assert inner[..3] == "<*>" && inner[3..] == w + LineBreakMark;
      ReplaceAbsent(w + LineBreakMark, "<*>", TagMark);
    }
  }

  /** The whole text is one occurrence. */
  lemma ReplaceOnce(pat: string, rep: string)
    requires |pat| > 0
    ensures Replace(pat, pat, rep) == rep
  {
    assert StartsWith(pat, pat);
    assert pat[|pat|..] == [];
  }

  /** A text of one character other than the pattern's is left alone. */
  lemma ReplaceSingle(c: char, pat: string, rep: string)
    requires |pat| > 1
    ensures Replace([c], pat, rep) == [c]
  {
    assert [c][1..] == [];
  }

  lemma FirstPassCounterexample()
    ensures Replace(TagMark + "LINEBREAK" + LineBreakMark, LineBreakMark, "\\N") == "§TAG\\NLINEBREAK§"
  {
    var w := "LINEBREAK";
    assert LineBreakMark == "§" + w + "§";
    FirstPassTagWord(w);
    assert "§TAG" + "\\N" + w + "§" == "§TAG\\NLINEBREAK§";
  }

  /** The '§' that closes the tag placeholder, a word and a '§' read as a
      line-break placeholder when the word is "LINEBREAK". */
  lemma FirstPassTagWord(w: string)
    requires '§' !in w && LineBreakMark == "§" + w + "§"
    ensures Replace(TagMark + w + LineBreakMark, LineBreakMark, "\\N") == "§TAG" + "\\N" + w + "§"
  {
    var e := TagMark + w + LineBreakMark;
    var tail := LineBreakMark + (w + "§");
    var rest := Replace(w + "§", LineBreakMark, "\\N");
    assert Replace(e, LineBreakMark, "\\N") == "§" + Replace("TAG" + tail, LineBreakMark, "\\N") by {
      assert e == "§" + ("TAG" + tail);
      assert e[1] != LineBreakMark[1];
    }
    assert Replace("TAG" + tail, LineBreakMark, "\\N") == "TAG" + ("\\N" + rest) by {
      ReplacePrefix("TAG", tail, LineBreakMark, "\\N");
      assert tail[..|LineBreakMark|] == LineBreakMark && tail[|LineBreakMark|..] == w + "§";
    }
    assert rest == w + "§" by {
      ReplacePrefix(w, "§", LineBreakMark, "\\N");
      ReplaceSingle('§', LineBreakMark, "\\N");
    }
  }

  lemma SecondPassCounterexample()
    ensures Replace("§TAG\\NLINEBREAK§", TagMark, "<*>") == "§TAG\\NLINEBREAK§"
  {
    var r := "§TAG\\NLINEBREAK§";
    assert r == "§" + ("TAG\\NLINEBREAK" + "§");
    assert r[4] != TagMark[4];
    ReplacePrefix("TAG\\NLINEBREAK", "§", TagMark, "<*>");
    ReplaceSingle('§', TagMark, "<*>");
  }

  /* ---------------------------------------------------------------------
     Subtitle rows
     --------------------------------------------------------------------- */

  /** The value a subtitle row holds at one moment. */
  datatype Row = Row(lineNum: int, original: string, changed: string)

  /** A row whose correction differs from its original. */
  predicate Changed(r: Row) {
    r.original != r.changed
  }

  /** The row a new subtitle holds: an empty correction stands for "no
      correction", so the original is taken instead. */
  function NewRow(lineNum: int, original: string, changed: string): (r: Row)
    ensures r.lineNum == lineNum && r.original == original
    ensures changed != "" ==> r.changed == changed
    ensures Changed(r) <==> changed != "" && changed != original
  {
    Row(lineNum, original, if changed == "" then original else changed)
  }

  /** One subtitle row of the window, updated in place by apply and reject. */
  class Subtitle {
    var lineNum: int
    var original: string
    var changed: string

    constructor (lineNum: int, original: string, changed: string)
      ensures RowOf(this) == NewRow(lineNum, original, changed)
    {
      this.lineNum := lineNum;
      this.original := original;
      this.changed := if changed == "" then original else changed;
    }

    predicate IsChanged()
      reads this
    {
      Changed(RowOf(this))
    }
  }

  function RowOf(s: Subtitle): Row
    reads s
  {
    Row(s.lineNum, s.original, s.changed)
  }

  function RowsOf(subs: seq<Subtitle>): (rows: seq<Row>)
    reads subs
    ensures |rows| == |subs|
  {
    seq(|subs|, i requires 0 <= i < |subs| reads subs => RowOf(subs[i]))
  }

  /** No subtitle object appears twice in the list. */
  predicate Distinct(subs: seq<Subtitle>) {
    forall i, j :: 0 <= i < j < |subs| ==> subs[i] != subs[j]
  }

  /* ---------------------------------------------------------------------
     Loading
     --------------------------------------------------------------------- */

  /** The rows of a freshly loaded file: numbered from 1, with the entry's
      text as both original and correction. */
  function LoadRows(es: seq<Entry>): (rows: seq<Row>)
    ensures |rows| == |es|
    ensures forall i :: 0 <= i < |es| ==>
      rows[i].lineNum == i + 1 && rows[i].original == es[i].text && !Changed(rows[i])
  {
    seq(|es|, i requires 0 <= i < |es| => NewRow(i + 1, es[i].text, es[i].text))
  }

  method LoadSubtitles(data: seq<Entry>) returns (subs: seq<Subtitle>)
    ensures RowsOf(subs) == LoadRows(data)
    ensures Distinct(subs) && forall i :: 0 <= i < |subs| ==> fresh(subs[i])
  {
    subs := [];
    for i := 0 to |data|
      invariant |subs| == i && Distinct(subs)
      invariant forall k :: 0 <= k < i ==>
        fresh(subs[k]) && RowOf(subs[k]) == NewRow(k + 1, data[k].text, data[k].text)
    {
      var s := new Subtitle(i + 1, data[i].text, data[i].text);
      subs := subs + [s];
    }
  }

  /* ---------------------------------------------------------------------
     Spell checking from the window
     --------------------------------------------------------------------- */

  /** The texts sent to the corrector, one per row, in row order. */
  function EncodeRows(rows: seq<Row>): (texts: seq<string>)
    ensures |texts| == |rows|
  {
    seq(|rows|, i requires 0 <= i < |rows| => Encode(rows[i].original))
  }

  /** The rows built from the corrector's answers, matched by position and
      decoded with decode (the window's DecodeAsWritten, or the repaired
      Decode): an answer with a row keeps that row's number and original and
      proposes its decoding, an empty decoding proposing no change; a
      surplus answer becomes a new unchanged row; rows without an answer are
      dropped. */
  function MapRows(rows: seq<Row>, answers: seq<string>, decode: string -> string): (r: seq<Row>)
    ensures |r| == |answers|
    ensures forall i :: 0 <= i < |answers| && i < |rows| ==>
      r[i].lineNum == rows[i].lineNum && r[i].original == rows[i].original
      && (decode(answers[i]) != "" ==> r[i].changed == decode(answers[i]))
      && (decode(answers[i]) == "" ==> r[i].changed == rows[i].original)
    ensures forall i :: |rows| <= i < |answers| ==>
      r[i].lineNum == i + 1 && r[i].original == decode(answers[i]) && !Changed(r[i])
  {
    seq(|answers|, i requires 0 <= i < |answers| =>
      if i < |rows| then NewRow(rows[i].lineNum, rows[i].original, decode(answers[i]))
      else NewRow(i + 1, decode(answers[i]), decode(answers[i])))
  }

  /** The mapping with the window's own decoding: the echoed answer for a row
      holding "<*>LINEBREAK\N" proposes a change the corrector never made. */
  lemma MapRowsAsWrittenBreaks(lineNum: int)
    ensures var row := Row(lineNum, "<*>LINEBREAK\\N", "<*>LINEBREAK\\N");
      && MapRows([row], EncodeRows([row]), DecodeAsWritten)[0].changed == "§TAG\\NLINEBREAK§"
      && MapRows([row], EncodeRows([row]), Decode)[0] == row
  {
    DecodeAsWrittenBreaks();
  }

  /** New subtitle objects for the answers of correct_subtitles; when that
      call raised, its exception instead. */
  method MapResults(subs: seq<Subtitle>, answers: Result<seq<string>>, decode: string -> string)
    returns (r: Result<seq<Subtitle>>)
    ensures answers.Err? ==> r == Err(answers.error)
    ensures answers.Ok? ==> r.Ok? && RowsOf(r.value) == MapRows(RowsOf(subs), answers.value, decode)
    ensures r.Ok? ==> Distinct(r.value) && forall i :: 0 <= i < |r.value| ==> fresh(r.value[i])
  {
    if answers.Err? {
      return Err(answers.error);
    }
    var texts := answers.value;
    ghost var rows := RowsOf(subs);
    var out: seq<Subtitle> := [];
    for i := 0 to |texts|
      invariant |out| == i && Distinct(out)
      invariant forall k :: 0 <= k < i ==> fresh(out[k]) && RowOf(out[k]) == MapRows(rows, texts, decode)[k]
    {
      var text := decode(texts[i]);
      var s;
      if i < |subs| {
        s := new Subtitle(subs[i].lineNum, subs[i].original, text);
      } else {
        s := new Subtitle(i + 1, text, text);
      }
      out := out + [s];
    }
    return Ok(out);
  }

  /** The window's spell check as written: the corrector is asked for batch
      size 0, which raises TypeError before any prompt is sent, so no row is
      ever produced. */
  method RunSpellCheck(checker: SpellChecker, subs: seq<Subtitle>) returns (r: Result<seq<Subtitle>>)
    modifies checker.provider
    ensures r == Err(TypeError)
    ensures checker.provider.prompts == old(checker.provider.prompts)
  {
    var texts := EncodeRows(RowsOf(subs));
    var answers := checker.CorrectSubtitles(texts, 0);
    r := MapResults(subs, answers, DecodeAsWritten);
  }

  /** The window's spell check with both repairs: the corrected token
      batching, and the one-pass Decode in place of the window's two-pass
      decoding. */
  method RunSpellCheckIntended(checker: SpellChecker, subs: seq<Subtitle>) returns (r: seq<Subtitle>)
    modifies checker.provider
    ensures var batches := IntendedBatches(EncodeRows(RowsOf(subs)), 0, checker.maxTokensPerChunk);
      && RowsOf(r) == MapRows(RowsOf(subs), CorrectedAll(batches, checker.provider.respond), Decode)
      && checker.provider.prompts == old(checker.provider.prompts) + BatchPrompts(batches)
    ensures Distinct(r) && forall i :: 0 <= i < |r| ==> fresh(r[i])
  {
    var texts := EncodeRows(RowsOf(subs));
    var answers := checker.CorrectSubtitlesIntended(texts, 0);
    var mapped := MapResults(subs, Ok(answers), Decode);
    r := mapped.value;
  }

  /** The repaired spell check with a corrector that sends every prompt back
      unchanged leaves every row with its number and original and with no
      change, provided the originals have no '§' and no surrounding
      whitespace and their encodings survive the separator handling of
      correct_subtitles (EchoSafe; EchoSplitsTaggedSep shows one that does
      not). */
  lemma MapRowsEcho(rows: seq<Row>, maxTokens: int)
    requires forall i :: 0 <= i < |rows| ==> '§' !in rows[i].original && IsStripped(rows[i].original)
    requires forall i :: 0 <= i < |rows| ==> EchoSafe(Encode(rows[i].original))
    ensures MapRows(rows, CorrectedAll(IntendedBatches(EncodeRows(rows), 0, maxTokens), Identity), Decode)
      == RejectRows(rows)
  {
    var texts := EncodeRows(rows);
    IntendedRoundTrip(texts, 0, maxTokens);
    forall i | 0 <= i < |rows|
      ensures Decode(texts[i]) == rows[i].original
    {
      DecodeEncodeAnswer(rows[i].original, [], []);
      assert [] + Encode(rows[i].original) + [] == Encode(rows[i].original);
    }
  }

  /** The placeholders can spell the batch separator: "<*>SEP<*>" has no '§'
      and no surrounding whitespace, yet an echoing corrector's answer to its
      encoding splits into two parts, so the window would show a change for
      the row and a surplus row. */
  lemma EchoSplitsTaggedSep()
    ensures '§' !in "<*>SEP<*>" && IsStripped("<*>SEP<*>")
    ensures Encode("<*>SEP<*>") == "§TAG§SEP§TAG§"
    ensures BatchParts([Encode("<*>SEP<*>")], Identity) == ["§TAG", "TAG§"]
  {
    TaggedSepPlain();
    EncodeTaggedSep();
    TaggedSepParts();
  }

  lemma TaggedSepPlain()
    ensures '§' !in "<*>SEP<*>" && IsStripped("<*>SEP<*>")
  {
  }

  lemma EncodeTaggedSep()
    ensures Encode("<*>SEP<*>") == "§TAG§SEP§TAG§"
  {
    assert "<*>SEP<*>" == "<*>" + "SEP" + "<*>";
    EncodeTagWordTag("SEP");
  }

  /** A word between two tags. */
  lemma EncodeTagWordTag(w: string)
    requires '\\' !in w && '<' !in w
    ensures Encode("<*>" + w + "<*>") == TagMark + w + TagMark
  {
    var t := "<*>" + w + "<*>";
    assert Replace(t, "\\N", LineBreakMark) == t by {
      assert '\\' !in t;
      ReplaceAbsent(t, "\\N", LineBreakMark);
    }
    assert Replace(t, "<*>", TagMark) == TagMark + (w + TagMark) by {
      assert t[..3] == "<*>" && t[3..] == w + "<*>";
      ReplacePrefix(w, "<*>", "<*>", TagMark);
      ReplaceOnce("<*>", TagMark);
    }
  }

  lemma TaggedSepIndex()
    ensures IndexOf("§TAG§SEP§TAG§", BatchSeparator) == Some(4)
  {
    var e, sep := "§TAG§SEP§TAG§", BatchSeparator;
    assert sep[0] == '§' && sep[1] == 'S';
    assert IndexFrom(e, sep, 4) == Some(4) by { assert e[4..9] == sep; }
    assert IndexFrom(e, sep, 3) == Some(4) by { assert e[3..8][0] == 'G'; }
    assert IndexFrom(e, sep, 2) == Some(4) by { assert e[2..7][0] == 'A'; }
    assert IndexFrom(e, sep, 1) == Some(4) by { assert e[1..6][0] == 'T'; }
    assert IndexFrom(e, sep, 0) == Some(4) by { assert e[0..5][1] == 'T'; }
  }

  lemma TaggedSepParts()
    ensures BatchParts(["§TAG§SEP§TAG§"], Identity) == ["§TAG", "TAG§"]
  {
    var e := "§TAG§SEP§TAG§";
    assert Join(["§TAG§SEP§TAG§"], BatchSeparator) == e;
    assert !EndsWith(e, CutSeparator1) && !EndsWith(e, CutSeparator2) by {
      assert e[|e| - 1] == '§';
    }
    assert FixUp(e) == e;
    TaggedSepIndex();
    var rest := e[9..];
    assert rest == "TAG§";
    assert IndexOf(rest, BatchSeparator).None?;
    assert e[..4] == "§TAG";
    assert Split(e, BatchSeparator) == [e[..4]] + Split(rest, BatchSeparator);
    assert Identity(e) == e;
  }

  /* ---------------------------------------------------------------------
     Applying and rejecting changes
     --------------------------------------------------------------------- */

  /** A row whose correction has become its original. */
  function Settle(r: Row): Row {
    r.(original := r.changed)
  }

  /** The rows after applying a selection: when the selection has as many
      indices as there are rows every row is applied, whichever indices
      they are; otherwise exactly the selected rows are. */
  function ApplyRows(rows: seq<Row>, selected: set<nat>): (r: seq<Row>)
    ensures |r| == |rows|
    ensures forall i :: 0 <= i < |rows| ==>
      r[i].lineNum == rows[i].lineNum && r[i].changed == rows[i].changed
    ensures forall i :: 0 <= i < |rows| && (|selected| == |rows| || i in selected) ==> !Changed(r[i])
    ensures forall i :: 0 <= i < |rows| && |selected| != |rows| && i !in selected ==> r[i] == rows[i]
  {
    seq(|rows|, i requires 0 <= i < |rows| =>
      if |selected| == |rows| || i in selected then Settle(rows[i]) else rows[i])
  }

  /** The rows after rejecting every change. */
  function RejectRows(rows: seq<Row>): (r: seq<Row>)
    ensures |r| == |rows|
    ensures forall i :: 0 <= i < |rows| ==>
      r[i].lineNum == rows[i].lineNum && r[i].original == rows[i].original && !Changed(r[i])
  {
    seq(|rows|, i requires 0 <= i < |rows| => rows[i].(changed := rows[i].original))
  }

  method ApplyChanges(subs: seq<Subtitle>, selected: set<nat>)
    requires Distinct(subs)
    modifies subs
    ensures RowsOf(subs) == ApplyRows(old(RowsOf(subs)), selected)
  {
    if |subs| == 0 {
      return;
    }
    if |selected| == |subs| {
      for i := 0 to |subs|
        invariant forall k :: 0 <= k < |subs| ==>
          RowOf(subs[k]) == if k < i then Settle(old(RowOf(subs[k]))) else old(RowOf(subs[k]))
      {
        subs[i].original := subs[i].changed;
      }
      return;
    }
    var left := selected;
    while left != {}
      invariant left <= selected
      invariant forall k :: 0 <= k < |subs| ==>
        RowOf(subs[k]) == if k in selected && k !in left then Settle(old(RowOf(subs[k]))) else old(RowOf(subs[k]))
      decreases left
    {
      var idx :| idx in left;
      if idx < |subs| {
        subs[idx].original := subs[idx].changed;
      }
      left := left - {idx};
    }
  }

  method RejectAllChanges(subs: seq<Subtitle>)
    modifies subs
    ensures RowsOf(subs) == RejectRows(old(RowsOf(subs)))
  {
    for i := 0 to |subs|
      invariant forall k :: 0 <= k < |subs| ==>
        subs[k].lineNum == old(subs[k].lineNum) && subs[k].original == old(subs[k].original)
        && (k < i ==> subs[k].changed == subs[k].original)
    {
      subs[i].changed := subs[i].original;
    }
  }

  /** Applying a selection after rejecting every change changes nothing. */
  lemma ApplyAfterReject(rows: seq<Row>, selected: set<nat>)
    ensures ApplyRows(RejectRows(rows), selected) == RejectRows(rows)
  {
    var r := RejectRows(rows);
    assert forall i :: 0 <= i < |r| ==> Settle(r[i]) == r[i];
  }

  /** After every change has been applied, rejecting changes nothing. */
  lemma RejectAfterApplyAll(rows: seq<Row>, selected: set<nat>)
    requires |selected| == |rows|
    ensures RejectRows(ApplyRows(rows, selected)) == ApplyRows(rows, selected)
  {
  }

  /* ---------------------------------------------------------------------
     Saving
     --------------------------------------------------------------------- */

  /** The parsed entries after writing rows into them, and the exception
      that stopped the writing, if any. */
  datatype Saved = Saved(entries: seq<Entry>, error: Option<PyError>)

  /** One row written into the entries: a line number beyond the entries is
      skipped; otherwise the text goes to position lineNum - 1, read as a
      Python index, so that numbers below 1 count from the end and a number
      below 1 - |es| raises IndexError. */
  function WriteRow(es: seq<Entry>, row: Row): (r: Saved)
    ensures |r.entries| == |es|
    ensures r.error.Some? <==> row.lineNum < 1 - |es|
    ensures r.error.Some? ==> r.entries == es
    ensures row.lineNum > |es| ==> r.entries == es
    ensures 1 <= row.lineNum <= |es| ==>
      r.entries == es[row.lineNum - 1 := es[row.lineNum - 1].(text := row.changed)]
    ensures 1 - |es| <= row.lineNum <= 0 ==>
      r.entries == es[|es| + row.lineNum - 1 := es[|es| + row.lineNum - 1].(text := row.changed)]
  {
    if row.lineNum > |es| then Saved(es, None)
    else
      var k := row.lineNum - 1;
      if k >= 0 then Saved(es[k := es[k].(text := row.changed)], None)
      else if k >= -|es| then Saved(es[|es| + k := es[|es| + k].(text := row.changed)], None)
      else Saved(es, Some(IndexError))
  }

  /** The rows written in order, stopping at the first exception. */
  function WriteRows(es: seq<Entry>, rows: seq<Row>): (r: Saved)
    decreases |rows|
  {
    if rows == [] then Saved(es, None)
    else
      var prev := WriteRows(es, rows[..|rows| - 1]);
      if prev.error.Some? then prev
      else WriteRow(prev.entries, rows[|rows| - 1])
  }

  /** Saving writes each row's correction into the entry its line number
      names; an empty entry list is left alone. */
  method SaveWriteBack(data: array<Entry>, subs: seq<Subtitle>) returns (err: Option<PyError>)
    modifies data
    ensures data.Length == 0 ==> err == None
    ensures data.Length > 0 ==>
      var s := WriteRows(old(data[..]), RowsOf(subs));
      data[..] == s.entries && err == s.error
  {
    if data.Length == 0 {
      return None;
    }
    ghost var es := data[..];
    ghost var rows := RowsOf(subs);
    for i := 0 to |subs|
      invariant WriteRows(es, rows[..i]) == Saved(data[..], None)
    {
      WriteRowsNext(es, rows, i);
      var n := subs[i].lineNum;
      if n <= data.Length {
        var k := n - 1;
        if k >= 0 {
          data[k] := data[k].(text := subs[i].changed);
        } else if k >= -data.Length {
          data[data.Length + k] := data[data.Length + k].(text := subs[i].changed);
        } else {
          WriteRowsStopped(es, rows, i + 1);
          return Some(IndexError);
        }
      }
    }
    assert rows[..|subs|] == rows;
    return None;
  }

  /** Writing one more row. */
  lemma WriteRowsNext(es: seq<Entry>, rows: seq<Row>, i: nat)
    requires i < |rows|
    ensures var prev := WriteRows(es, rows[..i]);
      WriteRows(es, rows[..i + 1]) == if prev.error.Some? then prev else WriteRow(prev.entries, rows[i])
  {
    assert rows[..i + 1][..i] == rows[..i];
  }

  /** Once a row has raised, the rows after it are not written. */
  lemma {:induction false} WriteRowsStopped(es: seq<Entry>, rows: seq<Row>, n: nat)
    requires n <= |rows| && WriteRows(es, rows[..n]).error.Some?
    ensures WriteRows(es, rows) == WriteRows(es, rows[..n])
    decreases |rows| - n
  {
    if n < |rows| {
      assert rows[..n + 1][..n] == rows[..n];
      WriteRowsStopped(es, rows, n + 1);
    } else {
      assert rows[..n] == rows;
    }
  }

  /** Saving changes nothing but the text fields of the entries. */
  lemma {:induction false} WriteRowsKeepsFields(es: seq<Entry>, rows: seq<Row>)
    ensures |WriteRows(es, rows).entries| == |es|
    ensures forall j :: 0 <= j < |es| ==>
      WriteRows(es, rows).entries[j] == es[j].(text := WriteRows(es, rows).entries[j].text)
    decreases |rows|
  {
    if rows != [] {
      WriteRowsKeepsFields(es, rows[..|rows| - 1]);
    }
  }

  /** Rows numbered 1, 2, ... in order write each correction into the entry
      at the same position, without an exception; rows beyond the entries
      are skipped. */
  lemma {:induction false} WriteRowsNumbered(es: seq<Entry>, rows: seq<Row>)
    requires forall i :: 0 <= i < |rows| ==> rows[i].lineNum == i + 1
    ensures WriteRows(es, rows) ==
      Saved(seq(|es|, j requires 0 <= j < |es| =>
        if j < |rows| then es[j].(text := rows[j].changed) else es[j]), None)
    decreases |rows|
  {
    if rows != [] {
      var init := rows[..|rows| - 1];
      WriteRowsNumbered(es, init);
    }
  }

  /** Saving right after loading gives the entries back. */
  lemma SaveAfterLoad(es: seq<Entry>)
    ensures WriteRows(es, LoadRows(es)) == Saved(es, None)
  {
    WriteRowsNumbered(es, LoadRows(es));
  }

  /** Loading, the repaired spell check with a corrector that sends every
      prompt back unchanged, and saving give the entries back, when no text
      holds '§' or surrounding whitespace and every encoding is EchoSafe. */
  lemma SaveAfterEcho(es: seq<Entry>, maxTokens: int)
    requires forall j :: 0 <= j < |es| ==> '§' !in es[j].text && IsStripped(es[j].text)
    requires forall j :: 0 <= j < |es| ==> EchoSafe(Encode(es[j].text))
    ensures var rows := LoadRows(es);
      WriteRows(es, MapRows(rows, CorrectedAll(IntendedBatches(EncodeRows(rows), 0, maxTokens), Identity), Decode))
      == Saved(es, None)
  {
    var rows := LoadRows(es);
    MapRowsEcho(rows, maxTokens);
    assert RejectRows(rows) == rows;
    SaveAfterLoad(es);
  }
}
