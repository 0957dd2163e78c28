/** subtitle.py: SRT timestamps, the SRT reader and writer as string
    functions, the ASS text normalisation and the dispatch on file extensions. */
module Subtitles {
  import opened PyStrings

  /** Where an entry came from: parse_srt tags entries "srt", parse_ass "ass". */
  datatype SubFormat = Srt | Ass

  /** One parsed subtitle: the dictionary both parsers build, without the
      pysubs2 objects that ASS entries also carry. */
  datatype Entry = Entry(index: int, startTime: string, endTime: string, text: string, format: SubFormat)

  // ---------------------------------------------------------------------------
  // format_timestamp_for_srt
  // ---------------------------------------------------------------------------

  /** Hours, minutes, seconds and milliseconds of a time. */
  datatype Clock = Clock(hours: int, minutes: int, seconds: int, millis: int)

  /** The divmod chain: Python's divmod floors, and Dafny's / and % agree with
      it for the positive divisors used here. */
  function Decompose(ms: int): Clock {
    var seconds := ms / 1000;
    var minutes := seconds / 60;
    Clock(minutes / 60, minutes % 60, seconds % 60, ms % 1000)
  }

  /** f"{h:02d}:{m:02d}:{s:02d},{ms:03d}" */
  function Render(c: Clock): string {
    ZeroPad(c.hours, 2) + [':'] + ZeroPad(c.minutes, 2) + [':'] + ZeroPad(c.seconds, 2) + [','] + ZeroPad(c.millis, 3)
  }

  function FormatTimestampForSrt(ms: int): string {
    Render(Decompose(ms))
  }

  /** The decomposition is exact for every integer, negative ones included:
      minutes and seconds below 60, milliseconds below 1000. */
  lemma DecomposeExact(ms: int)
    ensures var c := Decompose(ms);
      && 0 <= c.minutes < 60 && 0 <= c.seconds < 60 && 0 <= c.millis < 1000
      && c.hours * 3600000 + c.minutes * 60000 + c.seconds * 1000 + c.millis == ms
  {
    var seconds := ms / 1000;
    var minutes := seconds / 60;
    assert ms == seconds * 1000 + ms % 1000;
    assert seconds == minutes * 60 + seconds % 60;
    assert minutes == (minutes / 60) * 60 + minutes % 60;
  }

  /** The shape \d{2}:\d{2}:\d{2},\d{3}. */
  predicate IsSrtTimestamp(t: string) {
    && |t| == 12
    && AllDigits(t[0..2]) && t[2] == ':' && AllDigits(t[3..5]) && t[5] == ':'
    && AllDigits(t[6..8]) && t[8] == ',' && AllDigits(t[9..12])
  }

  /** The milliseconds an SRT timestamp stands for. */
  function TimestampValue(t: string): int
    requires IsSrtTimestamp(t)
  {
    DigitsValue(t[0..2]) * 3600000 + DigitsValue(t[3..5]) * 60000 + DigitsValue(t[6..8]) * 1000 + DigitsValue(t[9..12])
  }

  lemma RenderPieces(a: string, b: string, c: string, d: string)
    requires |a| == 2 && |b| == 2 && |c| == 2 && |d| == 3
    ensures var t := a + [':'] + b + [':'] + c + [','] + d;
      && |t| == 12 && t[0..2] == a && t[2] == ':' && t[3..5] == b && t[5] == ':'
      && t[6..8] == c && t[8] == ',' && t[9..12] == d
  {
  }

  /** Below 100 hours the timestamp is exactly the 12-character SRT shape,
      and it reads back as the same number of milliseconds. */
  lemma FormatTimestampRoundTrip(ms: int)
    requires 0 <= ms < 360000000
    ensures IsSrtTimestamp(FormatTimestampForSrt(ms))
    ensures TimestampValue(FormatTimestampForSrt(ms)) == ms
  {
    var c := Decompose(ms);
    DecomposeExact(ms);
    assert 0 <= c.hours < 100;
    assert Pow10(2) == 100 && Pow10(3) == 1000;
    var h, m, s, f := ZeroPad(c.hours, 2), ZeroPad(c.minutes, 2), ZeroPad(c.seconds, 2), ZeroPad(c.millis, 3);
    assert |h| == 2 && |m| == 2 && |s| == 2 && |f| == 3 by {
      ZeroPadNatLength(c.hours, 2);
      ZeroPadNatLength(c.minutes, 2);
      ZeroPadNatLength(c.seconds, 2);
      ZeroPadNatLength(c.millis, 3);
    }
    assert DigitsValue(h) == c.hours && DigitsValue(m) == c.minutes by {
      ZeroPadNatValue(c.hours, 2);
      ZeroPadNatValue(c.minutes, 2);
    }
    assert DigitsValue(s) == c.seconds && DigitsValue(f) == c.millis by {
      ZeroPadNatValue(c.seconds, 2);
      ZeroPadNatValue(c.millis, 3);
    }
    RenderPieces(h, m, s, f);
  }

  /** From 100 hours on, the hour field needs three or more digits and the
      result no longer has the 12-character SRT shape. */
  lemma FormatTimestampTooLong(ms: int)
    requires ms >= 360000000
    ensures |FormatTimestampForSrt(ms)| > 12
  {
    var c := Decompose(ms);
    DecomposeExact(ms);
    assert c.hours >= 100;
    assert Pow10(2) == 100;
    NatToStringLonger(c.hours, 2);
  }

  // ---------------------------------------------------------------------------
  // parse_srt: findall of the entry pattern, a run of digits and a newline,
  // two timestamps around " --> " and a newline, then one or more non-empty
  // lines that each end in a newline
  // ---------------------------------------------------------------------------

  const Arrow := " --> "

  /** The four groups of one match. */
  datatype SrtMatch = SrtMatch(number: string, start: string, end: string, block: string)

  predicate IsNotNewline(c: char) {
    c != '\n'
  }

  /** Length of (?:.+\n)+ matched greedily at the start of u, or 0 when it
      does not match: as many non-empty newline-terminated lines as there are. */
  function LinesLength(u: string): (n: nat)
    ensures n <= |u|
    ensures n > 0 ==> u[n - 1] == '\n'
    decreases |u|
  {
    var k := RunLength(u, IsNotNewline);
    if k == 0 || k == |u| then 0 else k + 1 + LinesLength(u[k + 1..])
  }

  /** The time line: two timestamps around the arrow, and a newline. */
  predicate TimeLineAt(t: string) {
    |t| >= 30 && IsSrtTimestamp(t[..12]) && t[12..17] == Arrow && IsSrtTimestamp(t[17..29]) && t[29] == '\n'
  }

  /** The rest of a match once the number d and its newline are read. */
  function MatchAfterNumber(d: string, t: string): (r: Option<(SrtMatch, nat)>)
    ensures r.Some? ==> r.value.1 <= |d| + 1 + |t|
  {
    if !TimeLineAt(t) then None
    else
      var u := t[30..];
      var l := LinesLength(u);
      if l == 0 then None
      else Some((SrtMatch(d, t[..12], t[17..29], u[..l]), |d| + 31 + l))
  }

  /** The match of the pattern at the start of s and its length, if any.
      \d+ followed by a newline can only be the whole run of digits. */
  function MatchAt(s: string): (r: Option<(SrtMatch, nat)>)
    ensures r.Some? ==> 0 < r.value.1 <= |s|
  {
    var n := RunLength(s, IsDigit);
    if n == 0 || n == |s| || s[n] != '\n' then None
    else MatchAfterNumber(s[..n], s[n + 1..])
  }

  /** re.findall: try at each position, left to right; after a match, go on
      where it ended. */
  function FindAll(s: string): seq<SrtMatch>
    decreases |s|
  {
    match MatchAt(s)
    case Some(ml) => [ml.0] + FindAll(s[ml.1..])
    case None => if s == [] then [] else FindAll(s[1..])
  }

  function ToEntry(m: SrtMatch): Entry
    requires IsDigitString(m.number)
  {
    Entry(DigitsValue(m.number), m.start, m.end, Strip(m.block), Srt)
  }

  lemma MatchDigits(s: string)
    requires MatchAt(s).Some?
    ensures IsDigitString(MatchAt(s).value.0.number)
  {
  }

  /** Every match found has a run of digits for its number. */
  lemma {:induction false} FindAllDigits(s: string)
    ensures forall k :: 0 <= k < |FindAll(s)| ==> IsDigitString(FindAll(s)[k].number)
    decreases |s|
  {
    match MatchAt(s)
    case Some(ml) =>
      MatchDigits(s);
      FindAllDigits(s[ml.1..]);
    case None =>
      if s != [] {
        FindAllDigits(s[1..]);
      }
  }

  /** What parse_srt returns for a file's content. */
  function ParsedSrt(content: string): (entries: seq<Entry>)
    ensures |entries| == |FindAll(content)|
  {
    var ms := FindAll(content);
    FindAllDigits(content);
    seq(|ms|, k requires 0 <= k < |ms| => ToEntry(ms[k]))
  }

  /** parse_srt: one entry per match, in file order. */
  method ParseSrt(content: string) returns (subtitles: seq<Entry>)
    ensures subtitles == ParsedSrt(content)
  {
    var matches := FindAll(content);
    FindAllDigits(content);
    subtitles := [];
    for i := 0 to |matches|
      invariant subtitles == ParsedSrt(content)[..i]
    {
      var m := matches[i];
      subtitles := subtitles + [Entry(DigitsValue(m.number), m.start, m.end, Strip(m.block), Srt)];
    }
  }

  // ---------------------------------------------------------------------------
  // write_srt
  // ---------------------------------------------------------------------------

  /** int(s): surrounding whitespace, an optional sign and ASCII digits;
      ValueError otherwise. */
  function PyInt(s: string): Result<int> {
    match ParseInt(Strip(s))
    case Some(v) => Ok(v)
    case None => Err(ValueError)
  }

  /** The time line write_srt emits for an entry: times that are all digits
      (milliseconds, as parse_ass stores them) are formatted; anything else is
      copied. int(end_time) raises ValueError when only the start is digits. */
  function TimeLine(e: Entry): Result<string> {
    if IsDigitString(e.startTime) then
      match PyInt(e.endTime)
      case Ok(endMs) => Ok(FormatTimestampForSrt(DigitsValue(e.startTime)) + Arrow + FormatTimestampForSrt(endMs) + "\n")
      case Err(err) => Err(err)
    else Ok(e.startTime + Arrow + e.endTime + "\n")
  }

  /** What write_srt writes for the entries, and whether it got to the end:
      on an error, the file keeps what was written before it. */
  datatype Written = Written(text: string, error: Option<PyError>)

  function SrtWrite(entries: seq<Entry>): Written
    decreases |entries|
  {
    if entries == [] then Written("", None)
    else
      var before := SrtWrite(entries[..|entries| - 1]);
      var e := entries[|entries| - 1];
      if before.error.Some? then before
      else
        var head := before.text + IntToString(e.index) + "\n";
        match TimeLine(e)
        case Ok(line) => Written(head + line + e.text + "\n\n", None)
        case Err(err) => Written(head, Some(err))
  }

  /** write_srt, with the file's content as the result. */
  method WriteSrt(subtitles: seq<Entry>) returns (out: Written)
    ensures out == SrtWrite(subtitles)
  {
    out := Written("", None);
    for i := 0 to |subtitles|
      invariant out == SrtWrite(subtitles[..i])
    {
      assert subtitles[..i + 1][..i] == subtitles[..i];
      if out.error.None? {
        var subtitle := subtitles[i];
        var text := out.text + IntToString(subtitle.index) + "\n";
        if IsDigitString(subtitle.startTime) {
          var startTime := FormatTimestampForSrt(DigitsValue(subtitle.startTime));
          var endMs := PyInt(subtitle.endTime);
          if endMs.Err? {
            out := Written(text, Some(endMs.error));
          } else {
            var endTime := FormatTimestampForSrt(endMs.value);
            out := Written(text + (startTime + Arrow + endTime + "\n") + subtitle.text + "\n\n", None);
          }
        } else {
          out := Written(text + (subtitle.startTime + Arrow + subtitle.endTime + "\n") + subtitle.text + "\n\n", None);
        }
      }
    }
    assert subtitles[..|subtitles|] == subtitles;
  }

  // ---------------------------------------------------------------------------
  // Round trip: parse_srt reads back what write_srt wrote
  // ---------------------------------------------------------------------------

  /** An empty line starts after position i: two newlines in a row. */
  predicate BlankAt(text: string, i: int)
    requires 0 <= i < |text| - 1
  {
    text[i] == '\n' && text[i + 1] == '\n'
  }

  /** No empty line inside a text. */
  predicate NoBlankLine(text: string) {
    forall i :: 0 <= i < |text| - 1 ==> !BlankAt(text, i)
  }

  /** An entry write_srt and parse_srt agree on: a non-negative index, SRT
      timestamps, and a non-empty stripped text without empty lines. */
  predicate RoundTrips(e: Entry) {
    && e.index >= 0 && e.format == Srt
    && IsSrtTimestamp(e.startTime) && IsSrtTimestamp(e.endTime)
    && |e.text| > 0 && IsStripped(e.text) && NoBlankLine(e.text)
  }

  /** The text write_srt emits for one entry whose time line is copied. */
  function EntryText(e: Entry): string {
    IntToString(e.index) + "\n" + (e.startTime + Arrow + e.endTime + "\n") + e.text + "\n\n"
  }

  /** The texts of several entries, one after the other. */
  function EntriesText(es: seq<Entry>): string {
    if es == [] then "" else EntryText(es[0]) + EntriesText(es[1..])
  }

  lemma {:induction false} EntriesTextAppend(es: seq<Entry>, e: Entry)
    ensures EntriesText(es + [e]) == EntriesText(es) + EntryText(e)
  {
    if es == [] {
      assert es + [e] == [e];
    } else {
      assert (es + [e])[1..] == es[1..] + [e];
      EntriesTextAppend(es[1..], e);
      ConcatAssoc(EntryText(es[0]), EntriesText(es[1..]), EntryText(e));
    }
  }

  /** The match parse_srt finds for an entry write_srt wrote. */
  function MatchOf(e: Entry): SrtMatch {
    SrtMatch(IntToString(e.index), e.startTime, e.endTime, e.text + "\n")
  }

  /** An SRT timestamp is not all digits, so write_srt copies it. */
  lemma TimestampNotDigits(t: string)
    requires IsSrtTimestamp(t)
    ensures !IsDigitString(t)
  {
    assert !IsDigit(t[2]);
  }

  /** For entries that round-trip, write_srt succeeds and writes their texts. */
  lemma {:induction false} SrtWriteText(es: seq<Entry>)
    requires forall k :: 0 <= k < |es| ==> RoundTrips(es[k])
    ensures SrtWrite(es) == Written(EntriesText(es), None)
    decreases |es|
  {
    if es != [] {
      var init, e := es[..|es| - 1], es[|es| - 1];
      assert es == init + [e];
      SrtWriteText(init);
      TimestampNotDigits(e.startTime);
      EntriesTextAppend(init, e);
      var line := e.startTime + Arrow + e.endTime + "\n";
      assert TimeLine(e) == Ok(line);
      var pre := EntriesText(init);
      var d := IntToString(e.index);
      assert pre + d + "\n" + line + e.text + "\n\n" == pre + EntryText(e) by {
        ConcatAssoc(pre, d + "\n" + line + e.text, "\n\n");
        ConcatAssoc(pre, d + "\n" + line, e.text);
        ConcatAssoc(pre, d + "\n", line);
        ConcatAssoc(pre, d, "\n");
      }
    }
  }

  /** After a run of digits and a newline, matching goes on with the rest. */
  lemma MatchAtNumber(d: string, t: string)
    requires IsDigitString(d)
    ensures MatchAt(d + ("\n" + t)) == MatchAfterNumber(d, t)
  {
    var s := d + ("\n" + t);
    assert RunLength(s, IsDigit) == |d| by {
      RunLengthAll(d, IsDigit);
      RunLengthConcat(d, "\n" + t, IsDigit);
    }
    assert s[|d|] == '\n' && s[..|d|] == d && s[|d| + 1..] == t;
  }

  /** After the time line, the block is the greedy run of lines. */
  lemma MatchAfterTimeLine(d: string, t: string, st: string, en: string, u: string, l: nat, b: string)
    requires TimeLineAt(t) && t[..12] == st && t[17..29] == en && t[30..] == u
    requires l == LinesLength(u) && l > 0 && u[..l] == b
    ensures MatchAfterNumber(d, t) == Some((SrtMatch(d, st, en, b), |d| + 31 + l))
  {
  }

  /** What follows a time line does not change it. */
  lemma TimeLineAppend(h: string, u: string)
    requires |h| == 30 && TimeLineAt(h)
    ensures var t := h + u;
      TimeLineAt(t) && t[..12] == h[..12] && t[17..29] == h[17..29] && t[30..] == u
  {
    var t := h + u;
    assert t[..12] == h[..12] && t[12..17] == h[12..17] && t[17..29] == h[17..29] && t[29] == h[29];
  }

  /** The block of a text followed by an empty line is the text and its
      newline. */
  lemma BlockOfText(text: string, rest: string)
    requires |text| > 0 && IsStripped(text) && NoBlankLine(text)
    ensures var u := text + ("\n" + ("\n" + rest));
      LinesLength(u) == |text| + 1 && u[..|text| + 1] == text + "\n"
  {
    var u := text + ("\n" + ("\n" + rest));
    assert u == text + "\n" + ("\n" + rest);
    LinesOfText(text, "\n" + rest);
  }

  /** Two timestamps around the arrow form a time line, whatever follows. */
  lemma TimeLineOf(st: string, en: string, u: string)
    requires IsSrtTimestamp(st) && IsSrtTimestamp(en)
    ensures var t := (st + Arrow + en + "\n") + u;
      TimeLineAt(t) && t[..12] == st && t[17..29] == en && t[30..] == u
  {
    var h := st + Arrow + en + "\n";
    assert h[..12] == st && h[17..29] == en;
    assert TimeLineAt(h) by {
      assert h[12..17] == Arrow && h[29] == '\n';
    }
    TimeLineAppend(h, u);
  }

  /** After the number, the time line of two timestamps and a text followed
      by an empty line make up the rest of the match. */
  lemma MatchAfterEntry(d: string, st: string, en: string, text: string, rest: string)
    requires IsSrtTimestamp(st) && IsSrtTimestamp(en)
    requires |text| > 0 && IsStripped(text) && NoBlankLine(text)
    ensures MatchAfterNumber(d, (st + Arrow + en + "\n") + (text + ("\n" + ("\n" + rest))))
         == Some((SrtMatch(d, st, en, text + "\n"), |d| + 31 + |text| + 1))
  {
    var u := text + ("\n" + ("\n" + rest));
    TimeLineOf(st, en, u);
    BlockOfText(text, rest);
    MatchAfterTimeLine(d, (st + Arrow + en + "\n") + u, st, en, u, |text| + 1, text + "\n");
  }

  /** The whole match over an entry, in generic pieces. */
  lemma MatchOfPieces(d: string, st: string, en: string, text: string, rest: string)
    requires IsDigitString(d)
    requires IsSrtTimestamp(st) && IsSrtTimestamp(en)
    requires |text| > 0 && IsStripped(text) && NoBlankLine(text)
    ensures MatchAt(d + ("\n" + ((st + Arrow + en + "\n") + (text + ("\n" + ("\n" + rest))))))
         == Some((SrtMatch(d, st, en, text + "\n"), |d| + 31 + |text| + 1))
  {
    MatchAfterEntry(d, st, en, text, rest);
    MatchAtNumber(d, (st + Arrow + en + "\n") + (text + ("\n" + ("\n" + rest))));
  }

  /** What follows an entry's text is its empty line and the rest. */
  lemma SuffixOfEntry(d: string, h: string, text: string, rest: string)
    ensures (d + ("\n" + (h + (text + ("\n" + ("\n" + rest))))))[|d| + 1 + |h| + |text| + 1..] == "\n" + rest
  {
    SuffixOfNest(d, "\n", h, text, "\n", "\n" + rest);
  }

  lemma SuffixOfNest(a: string, b: string, c: string, d: string, e: string, f: string)
    ensures (a + (b + (c + (d + (e + f)))))[|a| + |b| + |c| + |d| + |e|..] == f
  {
    var x := a + (b + (c + (d + (e + f))));
    assert x[|a|..] == b + (c + (d + (e + f)));
    assert x[|a| + |b|..] == c + (d + (e + f));
    assert x[|a| + |b| + |c|..] == d + (e + f);
    assert x[|a| + |b| + |c| + |d|..] == e + f;
  }

  /** Re-bracketing of an entry's text followed by the rest of the file. */
  lemma Nest(d: string, nl: string, h: string, text: string, rest: string)
    requires nl == "\n"
    ensures d + nl + h + text + (nl + nl) + rest == d + (nl + (h + (text + (nl + (nl + rest)))))
  {
    ConcatAssoc(d + nl + h + text, nl + nl, rest);
    ConcatAssoc(nl, nl, rest);
    ConcatAssoc(d + nl + h, text, nl + (nl + rest));
    ConcatAssoc(d + nl, h, text + (nl + (nl + rest)));
    ConcatAssoc(d, nl, h + (text + (nl + (nl + rest))));
  }

  /** findall skips the empty line between two entries. */
  lemma FindAllNewline(rest: string)
    ensures FindAll("\n" + rest) == FindAll(rest)
  {
    var s := "\n" + rest;
    assert RunLength(s, IsDigit) == 0;
    assert s[1..] == rest;
  }

  /** findall over one entry in generic pieces: its match, then the rest
      after the empty line. */
  lemma FindAllPieces(d: string, h: string, text: string, rest: string, m: SrtMatch, n: nat)
    requires |h| == 30 && n == |d| + 31 + |text| + 1
    requires MatchAt(d + ("\n" + (h + (text + ("\n" + ("\n" + rest)))))) == Some((m, n))
    ensures FindAll(d + ("\n" + (h + (text + ("\n" + ("\n" + rest)))))) == [m] + FindAll(rest)
  {
    var p := d + ("\n" + (h + (text + ("\n" + ("\n" + rest)))));
    assert p[n..] == "\n" + rest by {
      SuffixOfEntry(d, h, text, rest);
    }
    FindAllStep(p, m, n, rest);
  }

  /** After a match, findall goes on where it ended; there it skips the
      empty line. */
  lemma FindAllStep(s: string, m: SrtMatch, n: nat, rest: string)
    requires MatchAt(s) == Some((m, n))
    requires n <= |s| && s[n..] == "\n" + rest
    ensures FindAll(s) == [m] + FindAll(rest)
  {
    FindAllNewline(rest);
  }

  /** findall over an entry's pieces: its match, then the rest. */
  lemma FindAllOfEntry(d: string, st: string, en: string, text: string, rest: string)
    requires IsDigitString(d)
    requires IsSrtTimestamp(st) && IsSrtTimestamp(en)
    requires |text| > 0 && IsStripped(text) && NoBlankLine(text)
    ensures FindAll(d + ("\n" + ((st + Arrow + en + "\n") + (text + ("\n" + ("\n" + rest))))))
         == [SrtMatch(d, st, en, text + "\n")] + FindAll(rest)
  {
    var h := st + Arrow + en + "\n";
    var m := SrtMatch(d, st, en, text + "\n");
    var n: nat := |d| + 31 + |text| + 1;
    assert MatchAt(d + ("\n" + (h + (text + ("\n" + ("\n" + rest)))))) == Some((m, n)) by {
      MatchOfPieces(d, st, en, text, rest);
    }
    assert |h| == 30;
    FindAllPieces(d, h, text, rest, m, n);
  }

  /** findall over an entry write_srt wrote yields its match, then goes on
      after the empty line. */
  lemma FindAllEntry(e: Entry, rest: string)
    requires RoundTrips(e)
    ensures FindAll(EntryText(e) + rest) == [MatchOf(e)] + FindAll(rest)
  {
    var d := IntToString(e.index);
    var h := e.startTime + Arrow + e.endTime + "\n";
    assert EntryText(e) + rest == d + ("\n" + (h + (e.text + ("\n" + ("\n" + rest))))) by {
      Nest(d, "\n", h, e.text, rest);
    }
    FindAllOfEntry(d, e.startTime, e.endTime, e.text, rest);
  }

  lemma {:induction false} FindAllEntries(es: seq<Entry>)
    requires forall k :: 0 <= k < |es| ==> RoundTrips(es[k])
    ensures FindAll(EntriesText(es)) == seq(|es|, k requires 0 <= k < |es| => MatchOf(es[k]))
    decreases |es|
  {
    if es == [] {
      assert MatchAt("").None?;
    } else {
      FindAllEntries(es[1..]);
      FindAllEntry(es[0], EntriesText(es[1..]));
    }
  }

  /** The entry parse_srt builds from the match is the entry written. */
  lemma ToEntryOfMatch(e: Entry)
    requires RoundTrips(e)
    ensures IsDigitString(MatchOf(e).number) && ToEntry(MatchOf(e)) == e
  {
    NatToStringValue(e.index);
    StripTrailing(e.text, "\n");
  }

  /** parse_srt reads back, in order, the index, times and text of every entry
      write_srt wrote, when the times are already SRT timestamps and each text
      is non-empty, stripped and free of empty lines. */
  lemma SrtRoundTrip(es: seq<Entry>)
    requires forall k :: 0 <= k < |es| ==> RoundTrips(es[k])
    ensures SrtWrite(es).error.None?
    ensures ParsedSrt(SrtWrite(es).text) == es
  {
    SrtWriteText(es);
    FindAllEntries(es);
    var ps := ParsedSrt(EntriesText(es));
    forall k | 0 <= k < |es|
      ensures ps[k] == es[k]
    {
      ToEntryOfMatch(es[k]);
    }
  }

  lemma {:induction false} LinesOfText(text: string, rest: string)
    requires |text| > 0 && text[0] != '\n' && text[|text| - 1] != '\n' && NoBlankLine(text)
    requires |rest| > 0 && rest[0] == '\n'
    ensures LinesLength(text + "\n" + rest) == |text| + 1
    decreases |text|
  {
    if forall i :: 0 <= i < |text| ==> text[i] != '\n' {
      LinesOfLine(text, rest);
    } else {
      var j :| 0 <= j < |text| && text[j] == '\n';
      var first := FirstNewline(text, j);
      assert 0 < first < |text| - 1;
      assert text[first + 1] != '\n' by {
        assert !BlankAt(text, first);
      }
      LinesAfterLine(text, rest, first);
      NoBlankLineTail(text, first);
      LinesOfText(text[first + 1..], rest);
    }
  }

  /** A text of a single line, then an empty line. */
  lemma LinesOfLine(text: string, rest: string)
    requires forall i :: 0 <= i < |text| ==> text[i] != '\n'
    requires |text| > 0 && |rest| > 0 && rest[0] == '\n'
    ensures LinesLength(text + "\n" + rest) == |text| + 1
  {
    var u := text + "\n" + rest;
    assert LinesLength(u) == |text| + 1 + LinesLength(u[|text| + 1..]) by {
      LinesStep(u, |text|);
    }
    assert u[|text| + 1..] == rest;
    LinesEnd(rest);
  }

  /** The first line of a text is one line of the block. */
  lemma LinesAfterLine(text: string, rest: string, first: nat)
    requires 0 < first < |text| && text[first] == '\n'
    requires forall i :: 0 <= i < first ==> text[i] != '\n'
    ensures LinesLength(text + "\n" + rest) == first + 1 + LinesLength(text[first + 1..] + "\n" + rest)
  {
    var u := text + "\n" + rest;
    assert LinesLength(u) == first + 1 + LinesLength(u[first + 1..]) by {
      LinesStep(u, first);
    }
    assert u[first + 1..] == text[first + 1..] + "\n" + rest;
  }

  /** What follows a line of a text has no empty line either. */
  lemma NoBlankLineTail(text: string, first: nat)
    requires first < |text| && NoBlankLine(text)
    ensures NoBlankLine(text[first + 1..])
  {
    var tail := text[first + 1..];
    forall i | 0 <= i < |tail| - 1
      ensures !BlankAt(tail, i)
    {
      assert !BlankAt(text, first + 1 + i);
      assert tail[i] == text[first + 1 + i] && tail[i + 1] == text[first + 1 + i + 1];
    }
  }

  /** One line of the block: its characters, its newline, then the rest. */
  lemma LinesStep(u: string, k: nat)
    requires 0 < k < |u| && u[k] == '\n'
    requires forall i :: 0 <= i < k ==> u[i] != '\n'
    ensures LinesLength(u) == k + 1 + LinesLength(u[k + 1..])
  {
    assert RunLength(u, IsNotNewline) == k by {
      RunLengthIs(u, k, IsNotNewline);
    }
  }

  /** An empty line ends the block. */
  lemma LinesEnd(u: string)
    requires |u| > 0 && u[0] == '\n'
    ensures LinesLength(u) == 0
  {
    assert RunLength(u, IsNotNewline) == 0;
  }

  ghost function FirstNewline(text: string, j: nat): (f: nat)
    requires j < |text| && text[j] == '\n'
    ensures f <= j && text[f] == '\n'
    ensures forall i :: 0 <= i < f ==> text[i] != '\n'
  {
    if exists i :: 0 <= i < j && text[i] == '\n' then
      var i :| 0 <= i < j && text[i] == '\n';
      FirstNewline(text, i)
    else j
  }

  lemma RunLengthAll(s: string, p: char -> bool)
    requires forall i :: 0 <= i < |s| ==> p(s[i])
    ensures RunLength(s, p) == |s|
  {
  }

  // ---------------------------------------------------------------------------
  // parse_ass: the text normalisation of each event
  // ---------------------------------------------------------------------------

  /** The first substitution parse_ass makes, ignoring case: left to right, a
      backslash followed by 'n' or 'N' becomes a backslash and 'N'. */
  function EscapeLineBreaks(s: string): (r: string)
    ensures |r| == |s|
    decreases |s|
  {
    if |s| < 2 then s
    else if s[0] == '\\' && (s[1] == 'n' || s[1] == 'N') then "\\N" + EscapeLineBreaks(s[2..])
    else [s[0]] + EscapeLineBreaks(s[1..])
  }

  /** Position i holds an 'n' or 'N' right after a backslash. */
  predicate EscapedAt(s: string, i: int)
    requires 0 < i < |s|
  {
    s[i - 1] == '\\' && (s[i] == 'n' || s[i] == 'N')
  }

  /** Character by character: every 'n' or 'N' right after a backslash turns
      into 'N', and nothing else changes. */
  lemma {:induction false} EscapeLineBreaksAt(s: string)
    ensures forall i :: 0 <= i < |s| ==>
      EscapeLineBreaks(s)[i] == if i > 0 && EscapedAt(s, i) then 'N' else s[i]
    decreases |s|
  {
    var r := EscapeLineBreaks(s);
    if |s| >= 2 {
      if s[0] == '\\' && (s[1] == 'n' || s[1] == 'N') {
        EscapeLineBreaksAt(s[2..]);
        forall i | 0 <= i < |s|
          ensures r[i] == if i > 0 && EscapedAt(s, i) then 'N' else s[i]
        {
          if i >= 2 {
            assert r[i] == EscapeLineBreaks(s[2..])[i - 2];
            assert s[2..][i - 2] == s[i];
            if i > 2 {
              assert EscapedAt(s, i) == EscapedAt(s[2..], i - 2);
            } else {
              assert !EscapedAt(s, i);
            }
          }
        }
      } else {
        EscapeLineBreaksAt(s[1..]);
        forall i | 0 <= i < |s|
          ensures r[i] == if i > 0 && EscapedAt(s, i) then 'N' else s[i]
        {
          if i >= 1 {
            assert r[i] == EscapeLineBreaks(s[1..])[i - 1];
            assert s[1..][i - 1] == s[i];
            if i > 1 {
              assert EscapedAt(s, i) == EscapedAt(s[1..], i - 1);
            }
          }
        }
      }
    }
  }

  /** A backslash followed by a lower-case 'n' starts at position i. */
  predicate BackslashNAt(s: string, i: int)
    requires 0 <= i < |s| - 1
  {
    s[i] == '\\' && s[i + 1] == 'n'
  }

  predicate NoBackslashN(s: string) {
    forall i :: 0 <= i < |s| - 1 ==> !BackslashNAt(s, i)
  }

  /** After the first substitution no backslash-n is left. */
  lemma EscapeLeavesNoBackslashN(s: string)
    ensures NoBackslashN(EscapeLineBreaks(s))
  {
    var r := EscapeLineBreaks(s);
    EscapeLineBreaksAt(s);
    forall i | 0 <= i < |r| - 1
      ensures !BackslashNAt(r, i)
    {
      if r[i] == '\\' {
        assert s[i] == '\\';
        assert EscapedAt(s, i + 1) || s[i + 1] != 'n';
      }
    }
  }

  predicate IsNotClose(c: char) {
    c != '}'
  }

  /** The second substitution: left to right, a '{' together with everything
      up to the next '}' becomes "<*>"; a '{' with no '}' after it stays. */
  function CollapseTags(s: string): (r: string)
    decreases |s|
  {
    if s == [] then []
    else
      var k := RunLength(s[1..], IsNotClose);
      if s[0] == '{' && k < |s| - 1 then "<*>" + CollapseTags(s[k + 2..])
      else [s[0]] + CollapseTags(s[1..])
  }

  /** A '}' in the result was already in the text. */
  lemma {:induction false} CollapseTagsClose(s: string)
    ensures '}' in CollapseTags(s) ==> '}' in s
    decreases |s|
  {
    if s != [] {
      var k := RunLength(s[1..], IsNotClose);
      if s[0] == '{' && k < |s| - 1 {
        CollapseTagsClose(s[k + 2..]);
        assert "<*>" == ['<', '*', '>'];
        if '}' in CollapseTags(s[k + 2..]) {
          var j :| 0 <= j < |s[k + 2..]| && s[k + 2..][j] == '}';
          assert s[k + 2 + j] == '}';
        }
      } else {
        CollapseTagsClose(s[1..]);
        if '}' in CollapseTags(s[1..]) {
          var j :| 0 <= j < |s[1..]| && s[1..][j] == '}';
          assert s[1 + j] == '}';
        }
      }
    }
  }

  /** No '{' is followed, anywhere later, by a '}'. */
  predicate NoTagBlock(s: string) {
    forall i, j :: 0 <= i < j < |s| && s[i] == '{' ==> s[j] != '}'
  }

  /** After the second substitution no tag block is left. */
  lemma {:induction false} CollapseTagsNoBlock(s: string)
    ensures NoTagBlock(CollapseTags(s))
    decreases |s|
  {
    if s != [] {
      var k := RunLength(s[1..], IsNotClose);
      var r := CollapseTags(s);
      if s[0] == '{' && k < |s| - 1 {
        var t := CollapseTags(s[k + 2..]);
        CollapseTagsNoBlock(s[k + 2..]);
        assert r == "<*>" + t;
        forall i, j | 0 <= i < j < |r| && r[i] == '{'
          ensures r[j] != '}'
        {
          assert i >= 3 && r[i] == t[i - 3] && r[j] == t[j - 3];
        }
      } else {
        var t := CollapseTags(s[1..]);
        CollapseTagsNoBlock(s[1..]);
        assert r == [s[0]] + t;
        if s[0] == '{' {
          assert '}' !in s[1..];
          CollapseTagsClose(s[1..]);
        }
        forall i, j | 0 <= i < j < |r| && r[i] == '{'
          ensures r[j] != '}'
        {
          assert r[j] == t[j - 1];
          if i > 0 {
            assert r[i] == t[i - 1];
          } else {
            assert t[j - 1] in t;
          }
        }
      }
    }
  }

  /** The first character of the result is '<' or the text's own first one. */
  lemma CollapseTagsFirst(s: string)
    requires s != []
    ensures |CollapseTags(s)| > 0
    ensures CollapseTags(s)[0] == '<' || CollapseTags(s)[0] == s[0]
  {
  }

  /** Collapsing tags never puts a backslash before an 'n'. */
  lemma {:induction false} CollapseTagsKeepsNoBackslashN(s: string)
    requires NoBackslashN(s)
    ensures NoBackslashN(CollapseTags(s))
    decreases |s|
  {
    if s != [] {
      var k := RunLength(s[1..], IsNotClose);
      var r := CollapseTags(s);
      if s[0] == '{' && k < |s| - 1 {
        var u := s[k + 2..];
        assert NoBackslashN(u) by {
          forall i | 0 <= i < |u| - 1
            ensures !BackslashNAt(u, i)
          {
            assert !BackslashNAt(s, k + 2 + i);
          }
        }
        CollapseTagsKeepsNoBackslashN(u);
        var t := CollapseTags(u);
        assert r == "<*>" + t;
        forall i | 0 <= i < |r| - 1
          ensures !BackslashNAt(r, i)
        {
          if i >= 3 {
            assert !BackslashNAt(t, i - 3);
          }
        }
      } else {
        var u := s[1..];
        assert NoBackslashN(u) by {
          forall i | 0 <= i < |u| - 1
            ensures !BackslashNAt(u, i)
          {
            assert !BackslashNAt(s, 1 + i);
          }
        }
        CollapseTagsKeepsNoBackslashN(u);
        var t := CollapseTags(u);
        assert r == [s[0]] + t;
        forall i | 0 <= i < |r| - 1
          ensures !BackslashNAt(r, i)
        {
          if i >= 1 {
            assert !BackslashNAt(t, i - 1);
          } else {
            CollapseTagsFirst(u);
            assert !BackslashNAt(s, 0);
          }
        }
      }
    }
  }

  /** The text parse_ass stores for an event: line breaks escaped, tag blocks
      collapsed; what comes out has neither a backslash-n nor a tag block. */
  function NormalizeAssText(raw: string): (r: string)
    ensures NoBackslashN(r) && NoTagBlock(r)
  {
    EscapeLeavesNoBackslashN(raw);
    CollapseTagsKeepsNoBackslashN(EscapeLineBreaks(raw));
    CollapseTagsNoBlock(EscapeLineBreaks(raw));
    CollapseTags(EscapeLineBreaks(raw))
  }

  /** Text without backslashes and braces is stored as it is. */
  lemma {:induction false} NormalizePlain(s: string)
    requires forall i :: 0 <= i < |s| ==> s[i] != '\\' && s[i] != '{'
    ensures NormalizeAssText(s) == s
  {
    EscapePlain(s);
    CollapsePlain(s);
  }

  lemma {:induction false} EscapePlain(s: string)
    requires forall i :: 0 <= i < |s| ==> s[i] != '\\'
    ensures EscapeLineBreaks(s) == s
  {
    EscapeLineBreaksAt(s);
  }

  lemma {:induction false} CollapsePlain(s: string)
    requires forall i :: 0 <= i < |s| ==> s[i] != '{'
    ensures CollapseTags(s) == s
    decreases |s|
  {
    if s != [] {
      CollapsePlain(s[1..]);
    }
  }

  /** The parts of a pysubs2 event that parse_ass reads: start and end in
      milliseconds, and the raw text. */
  datatype AssEvent = AssEvent(start: int, end: int, text: string)

  /** The entries parse_ass builds from the loaded events: numbered from 1,
      times as decimal milliseconds, text normalised, format "ass". */
  function AssEntries(events: seq<AssEvent>): (entries: seq<Entry>)
    ensures |entries| == |events|
    ensures forall k :: 0 <= k < |entries| ==>
      && entries[k].index == k + 1 && entries[k].format == Ass
      && NoBackslashN(entries[k].text) && NoTagBlock(entries[k].text)
  {
    seq(|events|, k requires 0 <= k < |events| =>
      Entry(k + 1, IntToString(events[k].start), IntToString(events[k].end), NormalizeAssText(events[k].text), Ass))
  }

  /** int() reads back the decimal string of a natural number. */
  lemma PyIntOfNat(n: nat)
    ensures PyInt(NatToString(n)) == Ok(n)
  {
    var d := NatToString(n);
    assert !IsSpace(d[0]) && !IsSpace(d[|d| - 1]);
    StripStripped(d);
    NatToStringValue(n);
  }

  /** write_srt formats the millisecond times of entries parse_ass built, so an
      ASS event written as SRT gets real timestamps. */
  lemma AssTimesFormatted(events: seq<AssEvent>, k: nat)
    requires k < |events| && events[k].start >= 0 && events[k].end >= 0
    ensures TimeLine(AssEntries(events)[k])
         == Ok(FormatTimestampForSrt(events[k].start) + Arrow + FormatTimestampForSrt(events[k].end) + "\n")
  {
    var e := AssEntries(events)[k];
    assert e.startTime == NatToString(events[k].start) && e.endTime == NatToString(events[k].end);
    NatToStringValue(events[k].start);
    PyIntOfNat(events[k].end);
  }

  // ---------------------------------------------------------------------------
  // parse_subtitle_file / write_subtitle_file: dispatch on the extension
  // ---------------------------------------------------------------------------

  datatype SubtitleKind = SrtKind | AssKind

  /** The format an extension selects, once lower-cased. */
  function ExtKind(ext: string): Option<SubtitleKind> {
    if ext == ".srt" then Some(SrtKind)
    else if ext == ".ass" || ext == ".ssa" then Some(AssKind)
    else None
  }

  /** The extension of the lower-cased path decides; None is the ValueError
      for an unsupported format. */
  function KindOf(path: string): Option<SubtitleKind> {
    ExtKind(SplitExt(Lower(path)).1)
  }

  /** A file name's own extension decides its format, whatever its case. */
  lemma KindOfExtension(root: string, ext: string)
    requires IsStem(Lower(root)) && IsExtension(Lower(ext))
    ensures KindOf(root + ext) == ExtKind(Lower(ext))
  {
    LowerConcat(root, ext);
    SplitExtJoin(Lower(root), Lower(ext));
  }

  /** A path with no extension at all is refused. */
  lemma KindOfNoExtension(path: string)
    requires SplitExt(Lower(path)).1 == []
    ensures KindOf(path).None?
  {
  }

  /** parse_subtitle_file on the content read from path. assEvents stands for
      what pysubs2 loads from an ASS/SSA file (None when it fails, which
      parse_ass reports as ValueError). */
  function ParseSubtitleFile(path: string, content: string, assEvents: Option<seq<AssEvent>>): (r: Result<seq<Entry>>)
    ensures r.Err? ==> r.error == ValueError
    ensures KindOf(path) == Some(SrtKind) ==> r == Ok(ParsedSrt(content))
    ensures KindOf(path).None? ==> r.Err?
  {
    match KindOf(path)
    case None => Err(ValueError)
    case Some(SrtKind) => Ok(ParsedSrt(content))
    case Some(AssKind) =>
      match assEvents
      case None => Err(ValueError)
      case Some(events) => Ok(AssEntries(events))
  }

  // ---------------------------------------------------------------------------
  // write_ass without pysubs2 events: the fallback from the original file
  // ---------------------------------------------------------------------------

  const EventsMark := "[Events]"
  const FormatMark := "Format:"

  /** The header the fallback of write_ass copies: re.search with
      "(.*?\[Events\].*?Format:.*?\n)" under DOTALL. The match starts at the
      beginning of the text and ends at the first line break after the first
      "Format:" that follows the first "[Events]". */
  function EventsHeader(content: string): (r: Option<string>)
    ensures r.Some? ==>
      && 0 < |r.value| <= |content|
      && r.value == content[..|r.value|]
      && r.value[|r.value| - 1] == '\n'
  {
    match IndexOf(content, EventsMark)
    case None => None
    case Some(i) =>
      match IndexFrom(content, FormatMark, i + |EventsMark|)
      case None => None
      case Some(j) =>
        match IndexFrom(content, "\n", j + |FormatMark|)
        case None => None
        case Some(k) => Some(content[..k + 1])
  }

  /** "[Events]" at i, then "Format:" at j, then a line break at k, in that
      order and without overlap. */
  predicate MarksInOrder(content: string, i: int, j: int, k: int) {
    && OccursAt(content, EventsMark, i) && i + |EventsMark| <= j
    && OccursAt(content, FormatMark, j) && j + |FormatMark| <= k
    && OccursAt(content, "\n", k)
  }

  /** The header is found exactly when the text holds the three marks in
      order. */
  lemma EventsHeaderFound(content: string)
    ensures EventsHeader(content).Some? <==> exists i, j, k :: MarksInOrder(content, i, j, k)
  {
    if EventsHeader(content).Some? {
      var i := IndexOf(content, EventsMark).value;
      var j := IndexFrom(content, FormatMark, i + |EventsMark|).value;
      var k := IndexFrom(content, "\n", j + |FormatMark|).value;
      assert MarksInOrder(content, i, j, k);
    }
    if i, j, k :| MarksInOrder(content, i, j, k) {
      var i0 := IndexOf(content, EventsMark);
      assert i0.Some? && i0.value <= i;
      var j0 := IndexFrom(content, FormatMark, i0.value + |EventsMark|);
      assert j0.Some? && j0.value <= j;
      var k0 := IndexFrom(content, "\n", j0.value + |FormatMark|);
      assert k0.Some?;
    }
  }

  /** A text without "[Events]" has no header, so the fallback raises. */
  lemma NoEventsNoHeader(content: string)
    requires forall i :: !OccursAt(content, EventsMark, i)
    ensures EventsHeader(content) == None
  {
    EventsHeaderFound(content);
  }

  /** The line the fallback writes for an entry without pysubs2 data: the
      default style, zero margins, and the entry's times and text as they
      are. */
  function DialogueLine(e: Entry): string {
    "Dialogue: 0," + e.startTime + "," + e.endTime + ",Default,,0,0,0,," + e.text + "\n"
  }

  function DialogueLines(subtitles: seq<Entry>): string
    decreases |subtitles|
  {
    if subtitles == [] then ""
    else DialogueLines(subtitles[..|subtitles| - 1]) + DialogueLine(subtitles[|subtitles| - 1])
  }

  /** The fallback of write_ass, with the original file's text as a
      parameter: ValueError for an empty original or one without an events
      header, otherwise the header followed by one Dialogue line per entry. */
  function AssFallback(subtitles: seq<Entry>, originalContent: string): (r: Result<string>)
    ensures r.Err? ==> r.error == ValueError
    ensures r.Ok? <==> originalContent != "" && EventsHeader(originalContent).Some?
  {
    if originalContent == "" then Err(ValueError)
    else
      match EventsHeader(originalContent)
      case None => Err(ValueError)
      case Some(header) => Ok(header + DialogueLines(subtitles))
  }

  /** The fallback branch of write_ass for entries without pysubs2 data,
      with the file's content as the result. */
  method WriteAssFallback(subtitles: seq<Entry>, originalContent: string) returns (r: Result<string>)
    ensures r == AssFallback(subtitles, originalContent)
  {
    if originalContent == "" {
      return Err(ValueError);
    }
    var headerMatch := EventsHeader(originalContent);
    if headerMatch.None? {
      return Err(ValueError);
    }
    var text := headerMatch.value;
    for i := 0 to |subtitles|
      invariant text == headerMatch.value + DialogueLines(subtitles[..i])
    {
      assert subtitles[..i + 1][..i] == subtitles[..i];
      text := text + DialogueLine(subtitles[i]);
    }
    assert subtitles[..|subtitles|] == subtitles;
    r := Ok(text);
  }

  /** What write_subtitle_file does once it has chosen a writer: the SRT text
      (see SrtWrite), the pysubs2 writer (not modelled), or the fallback's
      file content. */
  datatype WriteOutcome = SrtText(written: Written) | AssFromEvents | AssFromOriginal(text: string)

  /** write_subtitle_file. Only entries parse_ass built carry a pysubs2 event,
      so the first entry's format tells which ASS writer is used;
      originalPath is the first entry's original_filepath, "" when absent,
      and originalContent the text of that file. */
  function WriteSubtitleFile(subtitles: seq<Entry>, outputPath: string, originalPath: string, originalContent: string)
    : (r: Result<WriteOutcome>)
    ensures r.Err? ==> r.error == ValueError
    ensures subtitles == [] ==> r.Err?
    ensures r.Ok? ==> KindOf(outputPath).Some?
    ensures subtitles != [] && KindOf(outputPath) == Some(SrtKind) ==> r == Ok(SrtText(SrtWrite(subtitles)))
    ensures subtitles != [] && KindOf(outputPath) == Some(AssKind) && subtitles[0].format == Srt ==>
      (r.Ok? <==> originalPath != "" && originalContent != "" && EventsHeader(originalContent).Some?)
  {
    if subtitles == [] then Err(ValueError)
    else
      match KindOf(outputPath)
      case None => Err(ValueError)
      case Some(SrtKind) => Ok(SrtText(SrtWrite(subtitles)))
      case Some(AssKind) =>
        if subtitles[0].format == Ass then Ok(AssFromEvents)
        else if originalPath == "" then Err(ValueError)
        else
          match AssFallback(subtitles, originalContent)
          case Err(err) => Err(err)
          case Ok(text) => Ok(AssFromOriginal(text))
  }

  /** The exception write_subtitle_file ends in, if any: its own, or the one
      write_srt raised after writing part of the file. */
  function WriteError(r: Result<WriteOutcome>): Option<PyError> {
    match r
    case Err(err) => Some(err)
    case Ok(SrtText(written)) => written.error
    case Ok(_) => None
  }

  /** An entry whose start is all digits but whose end is not makes
      write_srt raise, after it wrote the entry's number. */
  lemma SrtWriteFails()
    ensures SrtWrite([Entry(1, "5", "x", "a", Srt)]) == Written("1\n", Some(ValueError))
  {
    var e := Entry(1, "5", "x", "a", Srt);
    assert [e][..0] == [];
    assert IsDigitString("5");
    assert Strip("x") == "x" by {
      assert !IsSpace('x');
      StripStripped("x");
    }
    assert ParseInt("x") == None;
    assert IntToString(1) == "1";
  }

  /** Saving entries that round-trip under a ".srt" name and parsing that file
      back, under any spelling of the extension, gives the same entries. */
  lemma SrtFileRoundTrip(es: seq<Entry>, root: string, ext: string, originalPath: string, originalContent: string, assEvents: Option<seq<AssEvent>>)
    requires es != [] && forall k :: 0 <= k < |es| ==> RoundTrips(es[k])
    requires IsStem(Lower(root)) && Lower(ext) == ".srt"
    ensures WriteSubtitleFile(es, root + ext, originalPath, originalContent) == Ok(SrtText(Written(SrtWrite(es).text, None)))
    ensures ParseSubtitleFile(root + ext, SrtWrite(es).text, assEvents) == Ok(es)
  {
    KindOfSrt(root, ext);
    SrtRoundTrip(es);
    SrtFileOf(es, root + ext, originalPath, originalContent, assEvents, SrtWrite(es));
  }

  /** Any spelling of ".srt" after a stem selects the SRT writer and parser. */
  lemma KindOfSrt(root: string, ext: string)
    requires IsStem(Lower(root)) && Lower(ext) == ".srt"
    ensures KindOf(root + ext) == Some(SrtKind)
  {
    assert IsExtension(".srt");
    KindOfExtension(root, ext);
  }

  /** The dispatch step of SrtFileRoundTrip, stated for any written text. */
  lemma SrtFileOf(es: seq<Entry>, path: string, originalPath: string, originalContent: string, assEvents: Option<seq<AssEvent>>, w: Written)
    requires es != [] && KindOf(path) == Some(SrtKind)
    requires w == SrtWrite(es) && w.error == None && ParsedSrt(w.text) == es
    ensures WriteSubtitleFile(es, path, originalPath, originalContent) == Ok(SrtText(Written(w.text, None)))
    ensures ParseSubtitleFile(path, w.text, assEvents) == Ok(es)
  {
  }
}
