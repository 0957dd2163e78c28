/** The small part of Python's string and regular-expression behaviour that the
    subtitle corrector relies on: the character classes \s and \w, re.findall of
    a one-class run pattern, str.join, str.split, str.replace, str.strip,
    str.endswith, and the conversions between integers and decimal digits. */
module PyStrings {

  datatype Option<T> = None | Some(value: T)

  /** The Python exceptions the modelled code raises or lets through. */
  datatype PyError = ValueError | TypeError | IndexError

  /** A value, or the exception raised instead of returning it. */
  datatype Result<T> = Ok(value: T) | Err(error: PyError)

  /** The characters for which Python's str.isspace() holds; the regex class \s
      and the argument-less str.split() use this same set. */
  predicate IsSpace(c: char) {
    c == ' ' || ('\t' <= c <= '\r') || ('\U{1C}' <= c <= '\U{1F}')
    || c == '\U{85}' || c == '\U{A0}' || c == '\U{1680}'
    || ('\U{2000}' <= c <= '\U{200A}') || c == '\U{2028}' || c == '\U{2029}'
    || c == '\U{202F}' || c == '\U{205F}' || c == '\U{3000}'
  }

  predicate IsNonSpace(c: char) {
    !IsSpace(c)
  }

  /** The regex class \w: letters, digits and numerics, and the underscore.
      Covered here for ASCII, Latin-1, Latin Extended-A/B and Cyrillic; every
      other character is treated as a non-word character. */
  predicate IsWordChar(c: char) {
    ('0' <= c <= '9') || ('A' <= c <= 'Z') || ('a' <= c <= 'z') || c == '_'
    || c == '\U{AA}' || c == '\U{B2}' || c == '\U{B3}' || c == '\U{B5}'
    || c == '\U{B9}' || c == '\U{BA}' || ('\U{BC}' <= c <= '\U{BE}')
    || ('\U{C0}' <= c <= '\U{D6}') || ('\U{D8}' <= c <= '\U{F6}')
    || ('\U{F8}' <= c <= '\U{24F}')
    || ('\U{400}' <= c <= '\U{481}') || ('\U{48A}' <= c <= '\U{52F}')
  }

  lemma WordCharIsNotSpace(c: char)
    ensures IsWordChar(c) ==> !IsSpace(c)
  {
  }

  predicate IsDigit(c: char) {
    '0' <= c <= '9'
  }

  predicate AllDigits(s: string) {
    forall i :: 0 <= i < |s| ==> IsDigit(s[i])
  }

  /** Python's str.isdigit(), on ASCII digits: non-empty and all digits. */
  predicate IsDigitString(s: string) {
    |s| > 0 && AllDigits(s)
  }

  // ---------------------------------------------------------------------------
  // Runs of one character class (re.findall of "[class]+")
  // ---------------------------------------------------------------------------

  /** Length of the longest prefix of s made of characters satisfying p. */
  function RunLength(s: string, p: char -> bool): (n: nat)
    ensures n <= |s|
    ensures forall i :: 0 <= i < n ==> p(s[i])
    ensures n < |s| ==> !p(s[n])
    decreases |s|
  {
    if s == [] || !p(s[0]) then 0 else 1 + RunLength(s[1..], p)
  }

  /** The run is exactly k long when its first k characters satisfy p and
      the next one does not. */
  lemma {:induction false} RunLengthIs(s: string, k: nat, p: char -> bool)
    requires k <= |s|
    requires forall i :: 0 <= i < k ==> p(s[i])
    requires k < |s| ==> !p(s[k])
    ensures RunLength(s, p) == k
    decreases k
  {
    if k > 0 {
      assert p(s[0]);
      assert forall i :: 0 <= i < k - 1 ==> s[1..][i] == s[i + 1];
      RunLengthIs(s[1..], k - 1, p);
    }
  }

  /** The maximal runs of characters satisfying p, left to right, as re.findall
      returns them for the pattern "[class]+": \w+ when p is IsWordChar, \S+
      when p is IsNonSpace. */
  function Runs(s: string, p: char -> bool): (rs: seq<string>)
    ensures forall k :: 0 <= k < |rs| ==> |rs[k]| > 0
    ensures forall k, i :: 0 <= k < |rs| && 0 <= i < |rs[k]| ==> p(rs[k][i])
    decreases |s|
  {
    if s == [] then []
    else if !p(s[0]) then Runs(s[1..], p)
    else
      var n := RunLength(s, p);
      [s[..n]] + Runs(s[n..], p)
  }

  /** The whitespace-delimited words of s: re.findall(r"\S+", s), which is also
      what the argument-less s.split() returns. */
  function Words(s: string): seq<string> {
    Runs(s, IsNonSpace)
  }

  lemma {:induction false} RunLengthConcat(a: string, b: string, p: char -> bool)
    requires RunLength(a, p) < |a| || b == [] || !p(b[0])
    ensures RunLength(a + b, p) == RunLength(a, p)
    decreases |a|
  {
    if a == [] {
      assert a + b == b;
    } else if p(a[0]) {
      assert (a + b)[1..] == a[1..] + b;
      RunLengthConcat(a[1..], b, p);
    }
  }

  /** Two strings glued at a point where no run can continue contribute their
      runs independently. */
  lemma {:induction false} RunsConcat(a: string, b: string, p: char -> bool)
    requires a == [] || b == [] || !p(a[|a| - 1]) || !p(b[0])
    ensures Runs(a + b, p) == Runs(a, p) + Runs(b, p)
    decreases |a|
  {
    if a == [] {
      assert a + b == b;
    } else if !p(a[0]) {
      assert (a + b)[1..] == a[1..] + b;
      RunsConcat(a[1..], b, p);
    } else {
      var n := RunLength(a, p);
      RunLengthConcat(a, b, p);
      assert (a + b)[..n] == a[..n];
      assert (a + b)[n..] == a[n..] + b;
      RunsConcat(a[n..], b, p);
    }
  }

  /** A string with no character of the class has no runs. */
  lemma {:induction false} RunsOfNone(s: string, p: char -> bool)
    requires forall i :: 0 <= i < |s| ==> !p(s[i])
    ensures Runs(s, p) == []
    decreases |s|
  {
    if s != [] {
      RunsOfNone(s[1..], p);
    }
  }

  /** A non-empty string made only of the class is one run. */
  lemma RunsOfAll(s: string, p: char -> bool)
    requires |s| > 0
    requires forall i :: 0 <= i < |s| ==> p(s[i])
    ensures Runs(s, p) == [s]
  {
    assert RunLength(s, p) == |s|;
    assert s[..|s|] == s;
    assert s[|s|..] == [];
  }

  /** Gluing two strings with a non-empty run of whitespace neither merges nor
      adds words. */
  lemma WordsAroundSpaces(a: string, ws: string, b: string)
    requires |ws| > 0
    requires forall i :: 0 <= i < |ws| ==> IsSpace(ws[i])
    ensures Words(a + ws + b) == Words(a) + Words(b)
  {
    RunsOfNone(ws, IsNonSpace);
    RunsConcat(ws, b, IsNonSpace);
    RunsConcat(a, ws + b, IsNonSpace);
    ConcatAssoc(a, ws, b);
  }

  /** The same, for a whitespace run p[i..j] inside one string. */
  lemma WordsAroundSpaceRun(p: string, i: nat, j: nat)
    requires i < j <= |p|
    requires forall k :: i <= k < j ==> IsSpace(p[k])
    ensures Words(p) == Words(p[..i]) + Words(p[j..])
  {
    assert p == p[..i] + p[i..j] + p[j..];
    WordsAroundSpaces(p[..i], p[i..j], p[j..]);
  }

  // ---------------------------------------------------------------------------
  // Sequences of sequences
  // ---------------------------------------------------------------------------

  lemma ConcatAssoc<T>(a: seq<T>, b: seq<T>, c: seq<T>)
    ensures a + b + c == a + (b + c)
  {
  }

  function Flatten<T>(xss: seq<seq<T>>): seq<T> {
    if xss == [] then [] else xss[0] + Flatten(xss[1..])
  }

  lemma {:induction false} FlattenAppend<T>(xss: seq<seq<T>>, xs: seq<T>)
    ensures Flatten(xss + [xs]) == Flatten(xss) + xs
  {
    if xss == [] {
      assert xss + [xs] == [xs];
    } else {
      assert (xss + [xs])[1..] == xss[1..] + [xs];
      FlattenAppend(xss[1..], xs);
    }
  }

  lemma {:induction false} FlattenConcat<T>(xss: seq<seq<T>>, yss: seq<seq<T>>)
    ensures Flatten(xss + yss) == Flatten(xss) + Flatten(yss)
  {
    if xss == [] {
      assert xss + yss == yss;
    } else {
      assert (xss + yss)[1..] == xss[1..] + yss;
      FlattenConcat(xss[1..], yss);
    }
  }

  /** Words of every string of xs, concatenated in order. */
  function AllWords(xs: seq<string>): seq<string> {
    if xs == [] then [] else Words(xs[0]) + AllWords(xs[1..])
  }

  lemma AllWordsCons(x: string, xs: seq<string>)
    ensures AllWords([x] + xs) == Words(x) + AllWords(xs)
  {
    assert ([x] + xs)[1..] == xs;
  }

  lemma {:induction false} AllWordsAppend(xs: seq<string>, x: string)
    ensures AllWords(xs + [x]) == AllWords(xs) + Words(x)
  {
    if xs == [] {
      assert xs + [x] == [x];
    } else {
      assert (xs + [x])[1..] == xs[1..] + [x];
      AllWordsAppend(xs[1..], x);
    }
  }

  lemma {:induction false} AllWordsConcat(xs: seq<string>, ys: seq<string>)
    ensures AllWords(xs + ys) == AllWords(xs) + AllWords(ys)
  {
    if xs == [] {
      assert xs + ys == ys;
    } else {
      assert (xs + ys)[1..] == xs[1..] + ys;
      AllWordsConcat(xs[1..], ys);
    }
  }

  // ---------------------------------------------------------------------------
  // str.join, str.find, str.split, str.count
  // ---------------------------------------------------------------------------

  /** sep.join(xs) */
  function Join(xs: seq<string>, sep: string): string {
    if |xs| == 0 then "" else if |xs| == 1 then xs[0] else xs[0] + sep + Join(xs[1..], sep)
  }

  lemma {:induction false} JoinAppend(xs: seq<string>, x: string, sep: string)
    requires |xs| > 0
    ensures Join(xs + [x], sep) == Join(xs, sep) + sep + x
  {
    if |xs| == 1 {
      assert (xs + [x])[1..] == [x];
    } else {
      assert (xs + [x])[1..] == xs[1..] + [x];
      JoinAppend(xs[1..], x, sep);
    }
  }

  /** Joining words with single spaces gives back exactly those words. */
  lemma {:induction false} WordsOfSpaceJoin(ws: seq<string>)
    requires forall k :: 0 <= k < |ws| ==> |ws[k]| > 0
    requires forall k, i :: 0 <= k < |ws| && 0 <= i < |ws[k]| ==> IsNonSpace(ws[k][i])
    ensures Words(Join(ws, " ")) == ws
  {
    if |ws| == 0 {
    } else if |ws| == 1 {
      RunsOfAll(ws[0], IsNonSpace);
    } else {
      RunsOfAll(ws[0], IsNonSpace);
      WordsOfSpaceJoin(ws[1..]);
      WordsAroundSpaces(ws[0], " ", Join(ws[1..], " "));
    }
  }

  predicate OccursAt(s: string, w: string, i: int) {
    0 <= i && i + |w| <= |s| && s[i..i + |w|] == w
  }

  /** The first occurrence of w in s at or after position i (str.find). */
  function IndexFrom(s: string, w: string, i: nat): (r: Option<nat>)
    requires |w| > 0
    ensures r.Some? ==> i <= r.value && OccursAt(s, w, r.value)
    ensures r.Some? ==> forall j :: i <= j < r.value ==> !OccursAt(s, w, j)
    ensures r.None? ==> forall j :: i <= j ==> !OccursAt(s, w, j)
    decreases |s| - i
  {
    if i + |w| > |s| then None
    else if s[i..i + |w|] == w then Some(i)
    else IndexFrom(s, w, i + 1)
  }

  function IndexOf(s: string, w: string): (r: Option<nat>)
    requires |w| > 0
  {
    IndexFrom(s, w, 0)
  }

  /** s.split(sep) for a non-empty separator: the pieces between the
      leftmost non-overlapping occurrences of sep. */
  function Split(s: string, sep: string): (parts: seq<string>)
    requires |sep| > 0
    ensures |parts| >= 1
    decreases |s|
  {
    match IndexOf(s, sep)
    case None => [s]
    case Some(i) => [s[..i]] + Split(s[i + |sep|..], sep)
  }

  /** s.count(sep): the number of leftmost non-overlapping occurrences. */
  function Count(s: string, sep: string): nat
    requires |sep| > 0
    decreases |s|
  {
    match IndexOf(s, sep)
    case None => 0
    case Some(i) => 1 + Count(s[i + |sep|..], sep)
  }

  /** Splitting yields one more piece than there are separators. */
  lemma {:induction false} SplitCount(s: string, sep: string)
    requires |sep| > 0
    ensures |Split(s, sep)| == Count(s, sep) + 1
    decreases |s|
  {
    match IndexOf(s, sep)
    case None =>
    case Some(i) => SplitCount(s[i + |sep|..], sep);
  }

  /** sep.join(s.split(sep)) == s */
  lemma {:induction false} JoinSplit(s: string, sep: string)
    requires |sep| > 0
    ensures Join(Split(s, sep), sep) == s
    decreases |s|
  {
    var idx := IndexOf(s, sep);
    if idx.Some? {
      var i := idx.value;
      var rest := s[i + |sep|..];
      var tail := Split(rest, sep);
      JoinSplit(rest, sep);
      assert Split(s, sep) == [s[..i]] + tail;
      assert ([s[..i]] + tail)[1..] == tail;
      assert Join([s[..i]] + tail, sep) == s[..i] + sep + Join(tail, sep);
      assert s[i..i + |sep|] == sep;
      assert s == s[..i] + s[i..i + |sep|] + rest;
    }
  }

  /** No occurrence of sep starts inside x, not even one that runs on into a
      sep written right after x. */
  predicate NoSepInside(x: string, sep: string) {
    forall j :: 0 <= j < |x| ==> !OccursAt(x + sep, sep, j)
  }

  /** A text without the separator's first character has no separator
      starting inside it. */
  lemma NoSepInsideOfAbsent(x: string, sep: string)
    requires |sep| > 0 && sep[0] !in x
    ensures NoSepInside(x, sep)
  {
    forall j | 0 <= j < |x| ensures !OccursAt(x + sep, sep, j) {
      if j + |sep| <= |x + sep| {
        assert (x + sep)[j..j + |sep|][0] == x[j];
      }
    }
  }

  /** When no separator starts inside any of the joined strings, splitting
      the join gives the strings back. */
  lemma {:induction false} SplitJoin(xs: seq<string>, sep: string)
    requires |xs| > 0 && |sep| > 0
    requires forall k :: 0 <= k < |xs| ==> NoSepInside(xs[k], sep)
    ensures Split(Join(xs, sep), sep) == xs
  {
    var x := xs[0];
    assert NoSepInside(x, sep);
    if |xs| == 1 {
      forall j | 0 <= j ensures !OccursAt(x, sep, j) {
        if j + |sep| <= |x| {
          assert (x + sep)[j..j + |sep|] == x[j..j + |sep|];
          assert !OccursAt(x + sep, sep, j);
        }
      }
      assert IndexOf(x, sep).None?;
    } else {
      var rest := Join(xs[1..], sep);
      var s := x + sep + rest;
      assert Join(xs, sep) == s;
      forall j | 0 <= j < |x| ensures !OccursAt(s, sep, j) {
        assert s[j..j + |sep|] == (x + sep)[j..j + |sep|];
        assert !OccursAt(x + sep, sep, j);
      }
      assert s[|x|..|x| + |sep|] == sep;
      assert OccursAt(s, sep, |x|);
      assert IndexOf(s, sep) == Some(|x|);
      assert s[..|x|] == x;
      assert s[|x| + |sep|..] == rest;
      SplitJoin(xs[1..], sep);
    }
  }

  /** Appending a character that cannot end a separator adds no occurrence. */
  lemma {:induction false} CountAppend(s: string, sep: string, c: char)
    requires |sep| > 0 && c != sep[|sep| - 1]
    ensures Count(s + [c], sep) == Count(s, sep)
    decreases |s|
  {
    var t := s + [c];
    OccursAtAppend(s, sep, c);
    IndexOfSame(t, s, sep);
    match IndexOf(s, sep)
    case None =>
    case Some(i) =>
      assert t[i + |sep|..] == s[i + |sep|..] + [c];
      CountAppend(s[i + |sep|..], sep, c);
  }

  /** A character that cannot end the separator creates no occurrence. */
  lemma OccursAtAppend(s: string, sep: string, c: char)
    requires |sep| > 0 && c != sep[|sep| - 1]
    ensures forall j :: OccursAt(s + [c], sep, j) <==> OccursAt(s, sep, j)
  {
    var t := s + [c];
    forall j | 0 <= j ensures OccursAt(t, sep, j) <==> OccursAt(s, sep, j) {
      if OccursAt(t, sep, j) {
        assert t[j + |sep| - 1] == sep[|sep| - 1];
        assert j + |sep| <= |s|;
        assert t[j..j + |sep|] == s[j..j + |sep|];
      }
      if OccursAt(s, sep, j) {
        assert t[j..j + |sep|] == s[j..j + |sep|];
      }
    }
  }

  /** The first occurrence depends only on where the occurrences are. */
  lemma IndexOfSame(s: string, t: string, w: string)
    requires |w| > 0 && forall j :: OccursAt(s, w, j) <==> OccursAt(t, w, j)
    ensures IndexOf(s, w) == IndexOf(t, w)
  {
  }

  // ---------------------------------------------------------------------------
  // str.replace, str.strip, str.endswith
  // ---------------------------------------------------------------------------

  predicate StartsWith(s: string, prefix: string) {
    |prefix| <= |s| && s[..|prefix|] == prefix
  }

  lemma StartsWithAppend(s: string, t: string, prefix: string)
    requires StartsWith(s, prefix)
    ensures StartsWith(s + t, prefix)
  {
    assert (s + t)[..|prefix|] == s[..|prefix|];
  }

  predicate EndsWith(s: string, suffix: string) {
    |suffix| <= |s| && s[|s| - |suffix|..] == suffix
  }

  /** A text ending with w still does after a prefix is added, and once q is
      at least as long as w, p + q ends with w exactly when q does. */
  lemma EndsWithPrefixed(p: string, q: string, w: string)
    ensures EndsWith(q, w) ==> EndsWith(p + q, w)
    ensures |w| <= |q| ==> (EndsWith(p + q, w) <==> EndsWith(q, w))
  {
    if |w| <= |q| {
      assert (p + q)[|p + q| - |w|..] == q[|q| - |w|..];
    }
  }

  /** s.replace(pat, rep): every leftmost non-overlapping occurrence of pat is
      replaced, scanning left to right. */
  function Replace(s: string, pat: string, rep: string): string
    requires |pat| > 0
    decreases |s|
  {
    if StartsWith(s, pat) then rep + Replace(s[|pat|..], pat, rep)
    else if s == [] then []
    else [s[0]] + Replace(s[1..], pat, rep)
  }

  /** Text that cannot start an occurrence passes through a replacement. */
  lemma {:induction false} ReplacePrefix(p: string, x: string, pat: string, rep: string)
    requires |pat| > 0 && pat[0] !in p
    ensures Replace(p + x, pat, rep) == p + Replace(x, pat, rep)
    decreases |p|
  {
    if p != [] {
      assert (p + x)[0] == p[0];
      assert (p + x)[1..] == p[1..] + x;
      ReplacePrefix(p[1..], x, pat, rep);
    } else {
      assert p + x == x;
    }
  }

  lemma ReplaceAbsent(s: string, pat: string, rep: string)
    requires |pat| > 0 && pat[0] !in s
    ensures Replace(s, pat, rep) == s
  {
    ReplacePrefix(s, [], pat, rep);
    assert s + [] == s;
  }

  /** A placeholder whose first character never occurs in the text is undone
      by the reverse replacement. */
  lemma {:induction false} ReplaceInverse(s: string, pat: string, rep: string)
    requires |pat| > 0 && |rep| > 0 && rep[0] !in s
    ensures Replace(Replace(s, pat, rep), rep, pat) == s
    decreases |s|
  {
    if StartsWith(s, pat) {
      var y := Replace(s[|pat|..], pat, rep);
      assert (rep + y)[..|rep|] == rep;
      assert (rep + y)[|rep|..] == y;
      ReplaceInverse(s[|pat|..], pat, rep);
      assert s == pat + s[|pat|..];
    } else if s != [] {
      var y := Replace(s[1..], pat, rep);
      assert ([s[0]] + y)[0] == s[0];
      assert !StartsWith([s[0]] + y, rep);
      assert ([s[0]] + y)[1..] == y;
      ReplaceInverse(s[1..], pat, rep);
      assert s == [s[0]] + s[1..];
    }
  }

  function LStrip(s: string): string
    decreases |s|
  {
    if s != [] && IsSpace(s[0]) then LStrip(s[1..]) else s
  }

  function RStrip(s: string): string
    decreases |s|
  {
    if s != [] && IsSpace(s[|s| - 1]) then RStrip(s[..|s| - 1]) else s
  }

  /** s.strip(): no leading and no trailing whitespace. */
  function Strip(s: string): string {
    RStrip(LStrip(s))
  }

  predicate IsStripped(s: string) {
    s == [] || (!IsSpace(s[0]) && !IsSpace(s[|s| - 1]))
  }

  lemma StripStripped(s: string)
    requires IsStripped(s)
    ensures Strip(s) == s
  {
  }

  /** A stripped text followed by trailing whitespace strips back to itself. */
  lemma {:induction false} StripTrailing(s: string, ws: string)
    requires IsStripped(s)
    requires forall i :: 0 <= i < |ws| ==> IsSpace(ws[i])
    ensures Strip(s + ws) == s
    decreases |ws|
  {
    if ws == [] {
      assert s + ws == s;
    } else {
      var t := s + ws;
      if s == [] {
        assert t == ws;
        LStripSpaces(ws);
      } else {
        assert LStrip(t) == t;
        assert t[..|t| - 1] == s + ws[..|ws| - 1];
        StripTrailing(s, ws[..|ws| - 1]);
        assert LStrip(s + ws[..|ws| - 1]) == s + ws[..|ws| - 1];
      }
    }
  }

  /** Leading whitespace goes, up to a text that does not start with any. */
  lemma {:induction false} LStripLeading(ws: string, t: string)
    requires forall i :: 0 <= i < |ws| ==> IsSpace(ws[i])
    requires t == [] || !IsSpace(t[0])
    ensures LStrip(ws + t) == t
    decreases |ws|
  {
    if ws == [] {
      assert ws + t == t;
    } else {
      assert (ws + t)[0] == ws[0];
      assert (ws + t)[1..] == ws[1..] + t;
      LStripLeading(ws[1..], t);
    }
  }

  /** A stripped text with whitespace added on either side strips back to
      itself. */
  lemma StripAround(lead: string, s: string, trail: string)
    requires IsStripped(s)
    requires forall i :: 0 <= i < |lead| ==> IsSpace(lead[i])
    requires forall i :: 0 <= i < |trail| ==> IsSpace(trail[i])
    ensures Strip(lead + s + trail) == s
  {
    assert lead + s + trail == lead + (s + trail);
    if s == [] {
      assert lead + s + trail == lead + trail;
      LStripSpaces(lead + trail);
    } else {
      assert (s + trail)[0] == s[0];
      LStripLeading(lead, s + trail);
      StripTrailing(s, trail);
      LStripLeading([], s + trail);
      assert [] + (s + trail) == s + trail;
    }
  }

  lemma {:induction false} LStripSpaces(ws: string)
    requires forall i :: 0 <= i < |ws| ==> IsSpace(ws[i])
    ensures LStrip(ws) == []
    decreases |ws|
  {
    if ws != [] {
      LStripSpaces(ws[1..]);
    }
  }

  // ---------------------------------------------------------------------------
  // int(s) and str(n)
  // ---------------------------------------------------------------------------

  function DigitValue(c: char): nat
    requires IsDigit(c)
  {
    (c as int - '0' as int) as nat
  }

  function DigitChar(d: nat): (c: char)
    requires d < 10
    ensures IsDigit(c) && DigitValue(c) == d
  {
    ('0' as int + d) as char
  }

  /** int(s) for a string of ASCII digits (leading zeros allowed). */
  function DigitsValue(s: string): nat
    requires AllDigits(s)
    decreases |s|
  {
    if s == [] then 0 else DigitsValue(s[..|s| - 1]) * 10 + DigitValue(s[|s| - 1])
  }

  /** str(n) for a natural number. */
  function NatToString(n: nat): (s: string)
    ensures IsDigitString(s)
  {
    if n < 10 then [DigitChar(n)] else NatToString(n / 10) + [DigitChar(n % 10)]
  }

  lemma {:induction false} NatToStringValue(n: nat)
    ensures DigitsValue(NatToString(n)) == n
  {
    if n >= 10 {
      var s := NatToString(n);
      assert s[..|s| - 1] == NatToString(n / 10);
      NatToStringValue(n / 10);
    }
  }

  /** str(n) for any integer. */
  function IntToString(n: int): string {
    if n < 0 then "-" + NatToString(-n) else NatToString(n)
  }

  /** int(s) on an optionally signed run of ASCII digits; None stands for the
      ValueError Python raises on anything else. */
  function ParseInt(s: string): Option<int> {
    if IsDigitString(s) then Some(DigitsValue(s))
    else if |s| > 0 && (s[0] == '-' || s[0] == '+') && IsDigitString(s[1..]) then
      Some(if s[0] == '-' then -(DigitsValue(s[1..]) as int) else DigitsValue(s[1..]))
    else None
  }

  function Repeat(c: char, n: nat): (s: string)
    ensures |s| == n && forall i :: 0 <= i < n ==> s[i] == c
  {
    if n == 0 then [] else [c] + Repeat(c, n - 1)
  }

  /** The digits of n, padded on the left with zeros to at least width. */
  function ZeroPadNat(n: nat, width: int): (s: string)
    ensures IsDigitString(s)
  {
    var d := NatToString(n);
    if |d| < width then Repeat('0', width - |d|) + d else d
  }

  /** f"{n:0{width}d}": the sign counts toward the width. */
  function ZeroPad(n: int, width: nat): string {
    if n < 0 then "-" + ZeroPadNat(-n, width - 1) else ZeroPadNat(n, width)
  }

  lemma {:induction false} RepeatZerosValue(z: nat, d: string)
    requires AllDigits(d)
    ensures AllDigits(Repeat('0', z) + d)
    ensures DigitsValue(Repeat('0', z) + d) == DigitsValue(d)
    decreases |d|
  {
    var t := Repeat('0', z) + d;
    if d == [] {
      assert t == Repeat('0', z);
      ZerosValue(z);
    } else {
      assert t[..|t| - 1] == Repeat('0', z) + d[..|d| - 1];
      RepeatZerosValue(z, d[..|d| - 1]);
    }
  }

  lemma {:induction false} ZerosValue(z: nat)
    ensures DigitsValue(Repeat('0', z)) == 0
  {
    if z > 0 {
      var t := Repeat('0', z);
      assert t[..|t| - 1] == Repeat('0', z - 1);
      ZerosValue(z - 1);
    }
  }

  lemma ZeroPadNatValue(n: nat, width: int)
    ensures DigitsValue(ZeroPadNat(n, width)) == n
  {
    NatToStringValue(n);
    var d := NatToString(n);
    if |d| < width {
      RepeatZerosValue(width - |d|, d);
    }
  }

  lemma {:induction false} NatToStringLength(n: nat, k: nat)
    requires n < Pow10(k) && k > 0
    ensures |NatToString(n)| <= k
  {
    if n >= 10 {
      NatToStringLength(n / 10, k - 1);
    }
  }

  function Pow10(k: nat): nat {
    if k == 0 then 1 else 10 * Pow10(k - 1)
  }

  lemma ZeroPadNatLength(n: nat, width: nat)
    requires width > 0 && n < Pow10(width)
    ensures |ZeroPadNat(n, width)| == width
  {
    NatToStringLength(n, width);
  }

  /** A number of at least k+1 digits is at least 10^k. */
  lemma {:induction false} NatToStringLonger(n: nat, k: nat)
    requires n >= Pow10(k)
    ensures |NatToString(n)| > k
  {
    if k > 0 {
      NatToStringLonger(n / 10, k - 1);
    }
  }

  // ---------------------------------------------------------------------------
  // os.path.splitext (POSIX)
  // ---------------------------------------------------------------------------

  /** Number of trailing characters of s satisfying p. */
  function TrailLength(s: string, p: char -> bool): (n: nat)
    ensures n <= |s|
    ensures forall i :: |s| - n <= i < |s| ==> p(s[i])
    ensures n < |s| ==> !p(s[|s| - n - 1])
    decreases |s|
  {
    if s == [] || !p(s[|s| - 1]) then 0 else 1 + TrailLength(s[..|s| - 1], p)
  }

  lemma {:induction false} TrailLengthAppend(s: string, t: string, p: char -> bool)
    requires forall i :: 0 <= i < |t| ==> p(t[i])
    ensures TrailLength(s + t, p) == TrailLength(s, p) + |t|
    decreases |t|
  {
    if t == [] {
      assert s + t == s;
    } else {
      assert (s + t)[..|s + t| - 1] == s + t[..|t| - 1];
      TrailLengthAppend(s, t[..|t| - 1], p);
    }
  }

  /** Characters that can follow the dot of an extension. */
  predicate IsExtChar(c: char) {
    c != '.' && c != '/'
  }

  predicate IsDot(c: char) {
    c == '.'
  }

  /** os.path.splitext(p) with '/' as the only separator: the extension starts
      at the last '.' of the last path component, unless only dots precede it
      in that component; otherwise it is empty. */
  function SplitExt(p: string): (r: (string, string))
    ensures r.0 + r.1 == p
  {
    var c := ExtStart(p);
    (p[..c], p[c..])
  }

  /** Where os.path.splitext cuts: at the extension's dot, or at the end. */
  function ExtStart(p: string): (c: nat)
    ensures c <= |p|
  {
    var k := TrailLength(p, IsExtChar);
    var d := |p| - k - 1;
    if d < 0 || p[d] != '.' then |p|
    else
      var e := d - TrailLength(p[..d], IsDot) - 1;
      if e < 0 || p[e] == '/' then |p| else d
  }

  /** An extension: a dot followed by characters that are neither '.' nor '/'. */
  predicate IsExtension(ext: string) {
    |ext| > 0 && ext[0] == '.' && forall i :: 1 <= i < |ext| ==> IsExtChar(ext[i])
  }

  /** A root that an extension can follow: it ends inside a file name, on a
      character other than a dot. */
  predicate IsStem(root: string) {
    |root| > 0 && IsExtChar(root[|root| - 1])
  }

  /** Every split is a root followed by an extension or by nothing. */
  lemma SplitExtShape(p: string)
    ensures SplitExt(p).1 == [] || IsExtension(SplitExt(p).1)
  {
    var k := TrailLength(p, IsExtChar);
    var d := |p| - k - 1;
    if d >= 0 && p[d] == '.' {
      forall i | 1 <= i < |p[d..]|
        ensures IsExtChar(p[d..][i])
      {
        assert p[d..][i] == p[d + i];
      }
    }
  }

  /** Gluing a stem and an extension splits back into the two. */
  lemma SplitExtJoin(root: string, ext: string)
    requires IsStem(root) && IsExtension(ext)
    ensures SplitExt(root + ext) == (root, ext)
  {
    var p := root + ext;
    var x := ext[1..];
    assert TrailLength(p, IsExtChar) == |x| by {
      assert p == root + ['.'] + x;
      assert forall i :: 0 <= i < |x| ==> IsExtChar(x[i]);
      TrailLengthAppend(root + ['.'], x, IsExtChar);
    }
    var d := |root|;
    assert p[d] == '.' && p[..d] == root;
    assert TrailLength(root, IsDot) == 0;
    assert ExtStart(p) == d;
    assert p[d..] == ext;
  }

  /** A root with no extension keeps having none when characters that are
      neither '.' nor '/' are appended to it. */
  lemma SplitExtAppendNone(p: string, t: string)
    requires SplitExt(p).1 == []
    requires forall i :: 0 <= i < |t| ==> IsExtChar(t[i])
    ensures SplitExt(p + t).1 == []
  {
    var q := p + t;
    TrailLengthAppend(p, t, IsExtChar);
    var k := TrailLength(p, IsExtChar);
    var d := |p| - k - 1;
    assert |q| - TrailLength(q, IsExtChar) - 1 == d;
    if d >= 0 {
      assert q[d] == p[d];
      assert q[..d] == p[..d];
    }
  }

  // ---------------------------------------------------------------------------
  // str.lower() on ASCII letters
  // ---------------------------------------------------------------------------

  function LowerChar(c: char): char {
    if 'A' <= c <= 'Z' then (c as int + 32) as char else c
  }

  function Lower(s: string): (r: string)
    ensures |r| == |s| && forall i :: 0 <= i < |s| ==> r[i] == LowerChar(s[i])
  {
    seq(|s|, i requires 0 <= i < |s| => LowerChar(s[i]))
  }

  lemma LowerConcat(a: string, b: string)
    ensures Lower(a + b) == Lower(a) + Lower(b)
  {
    var l, r := Lower(a + b), Lower(a) + Lower(b);
    forall i | 0 <= i < |l|
      ensures l[i] == r[i]
    {
      if i < |a| {
        assert (a + b)[i] == a[i];
      } else {
        assert (a + b)[i] == b[i - |a|];
      }
    }
  }

  /** Splitting off the extension and lower-casing can be done in either
      order. */
  lemma SplitExtLower(p: string)
    ensures SplitExt(Lower(p)) == (Lower(SplitExt(p).0), Lower(SplitExt(p).1))
  {
    var c := ExtStart(p);
    assert ExtStart(Lower(p)) == c by {
      ExtStartLower(p);
    }
    assert Lower(p)[..c] == Lower(p[..c]);
    assert Lower(p)[c..] == Lower(p[c..]);
  }

  lemma ExtStartLower(p: string)
    ensures ExtStart(Lower(p)) == ExtStart(p)
  {
    var q := Lower(p);
    forall i | 0 <= i < |p|
      ensures IsDot(q[i]) == IsDot(p[i]) && IsExtChar(q[i]) == IsExtChar(p[i])
    {
      LowerCharClass(p[i]);
    }
    ExtStartSameClasses(p, q);
  }

  /** Two strings whose characters agree, position by position, on being a
      dot and on being a file-name character. */
  predicate SameClasses(p: string, q: string) {
    |p| == |q| && forall i :: 0 <= i < |p| ==> IsDot(p[i]) == IsDot(q[i]) && IsExtChar(p[i]) == IsExtChar(q[i])
  }

  /** os.path.splitext only looks at dots, separators and the rest. */
  lemma ExtStartSameClasses(p: string, q: string)
    requires SameClasses(p, q)
    ensures ExtStart(p) == ExtStart(q)
  {
    assert TrailLength(p, IsExtChar) == TrailLength(q, IsExtChar) by {
      TrailLengthSame(p, q, IsExtChar);
    }
    var d := |p| - TrailLength(p, IsExtChar) - 1;
    if d >= 0 && p[d] == '.' {
      assert q[d] == '.' by {
        assert IsDot(p[d]) == IsDot(q[d]);
      }
      assert TrailLength(p[..d], IsDot) == TrailLength(q[..d], IsDot) by {
        assert SameClasses(p[..d], q[..d]);
        TrailLengthSame(p[..d], q[..d], IsDot);
      }
      var e := d - TrailLength(p[..d], IsDot) - 1;
      if e >= 0 {
        assert (p[e] == '/') == (q[e] == '/') by {
          assert IsDot(p[..d][e]) == IsDot(q[..d][e]);
          assert IsExtChar(p[e]) == IsExtChar(q[e]);
        }
      }
    }
  }

  /** The trailing run depends only on which characters the class holds for. */
  lemma {:induction false} TrailLengthSame(s: string, t: string, f: char -> bool)
    requires |s| == |t| && forall i :: 0 <= i < |s| ==> f(s[i]) == f(t[i])
    ensures TrailLength(s, f) == TrailLength(t, f)
    decreases |s|
  {
    if s != [] {
      TrailLengthSame(s[..|s| - 1], t[..|t| - 1], f);
    }
  }

  /** Lower-casing moves only letters, so it keeps '.' and '/' apart from
      everything else. */
  lemma LowerCharClass(c: char)
    ensures IsExtChar(LowerChar(c)) == IsExtChar(c) && IsDot(LowerChar(c)) == IsDot(c)
  {
    if 'A' <= c <= 'Z' {
      assert LowerChar(c) as int == c as int + 32;
    }
  }
}
