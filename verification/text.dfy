/** String primitives of Python's `str` that the helpers rely on:
    whitespace, `strip`, `index`, `split()`, `splitlines()`, `join`,
    `lower()` and the ordering `<=` on strings. */
module Text {
  import opened Wrappers
  import Seqs

  /** `str.isspace()` for one character: the characters Python's `strip()`
      and `split()` treat as whitespace. */
  predicate IsSpace(c: char) {
    var n := c as int;
    || 0x09 <= n <= 0x0D || 0x1C <= n <= 0x20 || n == 0x85 || n == 0xA0 || n == 0x1680
    || 0x2000 <= n <= 0x200A || n == 0x2028 || n == 0x2029 || n == 0x202F || n == 0x205F
    || n == 0x3000
  }

  predicate NotSpace(c: char) { !IsSpace(c) }

  /** A word of `split()`: non-empty, with no whitespace. */
  predicate IsWord(t: string) { t != [] && forall k :: 0 <= k < |t| ==> NotSpace(t[k]) }

  /** The characters at which `str.splitlines()` ends a line (`"\r\n"` ends one line too). */
  predicate IsLineBreak(c: char) {
    var n := c as int;
    0x0A <= n <= 0x0D || 0x1C <= n <= 0x1E || n == 0x85 || n == 0x2028 || n == 0x2029
  }

  predicate NotLineBreak(c: char) { !IsLineBreak(c) }

  /** A line holds no line break. */
  predicate BreakFree(l: string) { forall k :: 0 <= k < |l| ==> NotLineBreak(l[k]) }

  /** The end of the longest run of characters satisfying `p` that starts at `from`. */
  function RunEnd(s: string, from: nat, p: char -> bool): (r: nat)
    requires from <= |s|
    ensures from <= r <= |s|
    ensures forall k :: from <= k < r ==> p(s[k])
    ensures r == |s| || !p(s[r])
    decreases |s| - from
  {
    if from == |s| || !p(s[from]) then from else RunEnd(s, from + 1, p)
  }

  /** `s` with its leading whitespace removed (`str.lstrip()`). */
  function LStrip(s: string): (r: string)
    ensures |r| <= |s| && r == s[|s| - |r|..]
    ensures forall k :: 0 <= k < |s| - |r| ==> IsSpace(s[k])
    ensures r == [] || !IsSpace(r[0])
  {
    if s != [] && IsSpace(s[0]) then
      var r := LStrip(s[1..]);
      assert s[1..][|s| - 1 - |r|..] == s[|s| - |r|..];
      r
    else s
  }

  /** `s` with its trailing whitespace removed (`str.rstrip()`). */
  function RStrip(s: string): (r: string)
    ensures |r| <= |s| && r == s[..|r|]
    ensures forall k :: |r| <= k < |s| ==> IsSpace(s[k])
    ensures r == [] || !IsSpace(r[|r| - 1])
  {
    if s != [] && IsSpace(s[|s| - 1]) then RStrip(s[..|s| - 1]) else s
  }

  /** `r` sits in `s` at `i` with only whitespace around it. */
  ghost predicate IsStrippedAt(s: string, r: string, i: int) {
    && 0 <= i && i + |r| <= |s| && s[i..i + |r|] == r
    && (forall k :: 0 <= k < i ==> IsSpace(s[k]))
    && (forall k :: i + |r| <= k < |s| ==> IsSpace(s[k]))
  }

  /** `str.strip()`: the middle of `s` once the whitespace at both ends is gone. */
  function Strip(s: string): (r: string)
    ensures r == [] || (!IsSpace(r[0]) && !IsSpace(r[|r| - 1]))
    ensures exists i :: IsStrippedAt(s, r, i)
  {
    StripParts(s);
    RStrip(LStrip(s))
  }

  /** Stripping the left end and then the right end leaves a middle with only
      whitespace around it, whose ends are not whitespace. */
  lemma StripParts(s: string)
    ensures RStrip(LStrip(s)) == [] || (!IsSpace(RStrip(LStrip(s))[0]) && !IsSpace(RStrip(LStrip(s))[|RStrip(LStrip(s))| - 1]))
    ensures IsStrippedAt(s, RStrip(LStrip(s)), |s| - |LStrip(s)|)
  {
    StripAt(s, LStrip(s), RStrip(LStrip(s)));
  }

  /** The facts of `StripParts`, from what left and right stripping promise. */
  lemma StripAt(s: string, l: string, r: string)
    requires |l| <= |s| && l == s[|s| - |l|..] && (l == [] || !IsSpace(l[0]))
    requires forall k :: 0 <= k < |s| - |l| ==> IsSpace(s[k])
    requires |r| <= |l| && r == l[..|r|] && (r == [] || !IsSpace(r[|r| - 1]))
    requires forall k :: |r| <= k < |l| ==> IsSpace(l[k])
    ensures r == [] || (!IsSpace(r[0]) && !IsSpace(r[|r| - 1]))
    ensures IsStrippedAt(s, r, |s| - |l|)
  {
    StripEnds(l, r);
    StripMiddle(s, l, r);
    StripRight(s, l, r);
  }

  /** A right-stripped prefix of a left-stripped text has no whitespace at either end. */
  lemma StripEnds(l: string, r: string)
    requires |r| <= |l| && r == l[..|r|]
    requires l == [] || !IsSpace(l[0])
    requires r == [] || !IsSpace(r[|r| - 1])
    ensures r == [] || (!IsSpace(r[0]) && !IsSpace(r[|r| - 1]))
  {
    if r != [] {
      assert r[0] == l[0];
    }
  }

  /** The middle sits in `s` where the leading whitespace ends. */
  lemma StripMiddle(s: string, l: string, r: string)
    requires |l| <= |s| && l == s[|s| - |l|..] && |r| <= |l| && r == l[..|r|]
    ensures s[|s| - |l|..|s| - |l| + |r|] == r
  {
  }

  /** Only whitespace follows the middle in `s`. */
  lemma StripRight(s: string, l: string, r: string)
    requires |l| <= |s| && l == s[|s| - |l|..] && |r| <= |l|
    requires forall k :: |r| <= k < |l| ==> IsSpace(l[k])
    ensures forall k :: |s| - |l| + |r| <= k < |s| ==> IsSpace(s[k])
  {
    var i := |s| - |l|;
    forall k | i + |r| <= k < |s| ensures IsSpace(s[k]) {
      assert s[k] == l[k - i];
    }
  }

  /** `pat` occurs in `text` starting at index `i`. */
  predicate IsAt(text: string, pat: string, i: int) {
    0 <= i && i + |pat| <= |text| && text[i..i + |pat|] == pat
  }

  /** An occurrence of `pat` at `i`, character by character. */
  lemma IsAtChars(text: string, pat: string, i: int)
    requires IsAt(text, pat, i)
    ensures forall k :: i <= k < i + |pat| ==> text[k] == pat[k - i]
  {
    forall k | i <= k < i + |pat| ensures text[k] == pat[k - i] {
      assert text[i..i + |pat|][k - i] == text[k];
    }
  }

  /** `a + b` occurs at `i` exactly when `a` does and `b` follows it. */
  lemma IsAtConcat(text: string, a: string, b: string, i: int)
    ensures IsAt(text, a + b, i) <==> IsAt(text, a, i) && IsAt(text, b, i + |a|)
  {
    if IsAt(text, a + b, i) {
      assert text[i..i + |a|] == (a + b)[..|a|];
      assert text[i + |a|..i + |a| + |b|] == (a + b)[|a|..];
    }
    if IsAt(text, a, i) && IsAt(text, b, i + |a|) {
      assert text[i..i + |a| + |b|] == text[i..i + |a|] + text[i + |a|..i + |a| + |b|];
    }
  }

  /** `text.index(pat, from)`, with `None` where Python raises `ValueError`. */
  function IndexOf(text: string, pat: string, from: nat): (r: Option<nat>)
    requires from <= |text|
    ensures r.Some? ==> from <= r.value && IsAt(text, pat, r.value)
    ensures r.Some? ==> forall j :: from <= j < r.value ==> !IsAt(text, pat, j)
    ensures r.None? ==> forall j :: from <= j ==> !IsAt(text, pat, j)
    decreases |text| - from
  {
    if IsAt(text, pat, from) then Some(from)
    else if from == |text| then None
    else IndexOf(text, pat, from + 1)
  }

  /** `str.split()` with no separator: the maximal runs of non-whitespace. */
  function Split(s: string): (r: seq<string>)
    ensures forall t :: t in r ==> IsWord(t)
    decreases |s|
  {
    if s == [] then []
    else if IsSpace(s[0]) then Split(s[1..])
    else
      var n := RunEnd(s, 0, NotSpace);
      [s[..n]] + Split(s[n..])
  }

  /** `sep.join(xs)`. */
  function Join(sep: string, xs: seq<string>): string {
    if xs == [] then ""
    else if |xs| == 1 then xs[0]
    else xs[0] + sep + Join(sep, xs[1..])
  }

  function Concat(xs: seq<string>): string {
    if xs == [] then "" else xs[0] + Concat(xs[1..])
  }

  /** A run that a different character ends is exactly as long as it looks. */
  lemma RunEndOf(t: string, rest: string, p: char -> bool)
    requires forall k :: 0 <= k < |t| ==> p(t[k])
    requires rest == [] || !p(rest[0])
    ensures RunEnd(t + rest, 0, p) == |t|
  {
    assert forall k :: 0 <= k < |t| ==> (t + rest)[k] == t[k];
    assert rest != [] ==> (t + rest)[|t|] == rest[0];
  }

  /** The tokens of `split()` are exactly the non-whitespace characters of the input, in order. */
  lemma {:induction false} SplitKeepsNonSpace(s: string)
    ensures Concat(Split(s)) == Seqs.Filter(s, NotSpace)
    decreases |s|
  {
    if s == [] {
    } else if IsSpace(s[0]) {
      SplitKeepsNonSpace(s[1..]);
    } else {
      var n := RunEnd(s, 0, NotSpace);
      assert s == s[..n] + s[n..];
      Seqs.FilterAppend(s[..n], s[n..], NotSpace);
      Seqs.FilterAll(s[..n], NotSpace);
      SplitKeepsNonSpace(s[n..]);
    }
  }

  /** A word followed by whitespace, or by nothing, splits off as the first word. */
  lemma SplitCons(t: string, rest: string)
    requires IsWord(t) && (rest == [] || IsSpace(rest[0]))
    ensures Split(t + rest) == [t] + Split(rest)
  {
    var s := t + rest;
    RunEndOf(t, rest, NotSpace);
    assert s[..|t|] == t;
    assert s[|t|..] == rest;
  }

  /** A word splits to itself. */
  lemma SplitOne(t: string)
    requires IsWord(t)
    ensures Split(t) == [t]
  {
    RunEndOf(t, "", NotSpace);
    assert t + "" == t;
    assert t[|t|..] == [];
  }

  /** Splitting the single-space join of words gives the words back. */
  lemma {:induction false} SplitJoinRoundTrip(ts: seq<string>)
    requires forall t :: t in ts ==> IsWord(t)
    ensures Split(Join(" ", ts)) == ts
  {
    if ts == [] {
    } else if |ts| == 1 {
      assert ts[0] in ts;
      SplitOne(ts[0]);
    } else {
      var rest := ts[1..];
      assert ts[0] in ts;
      assert forall t :: t in rest ==> t in ts;
      SplitJoinRoundTrip(rest);
      var j := Join(" ", rest);
      assert Join(" ", ts) == ts[0] + (" " + j);
      SplitCons(ts[0], " " + j);
      assert (" " + j)[1..] == j;
      assert ts == [ts[0]] + rest;
    }
  }

  /** Every character of `w` is whitespace. */
  predicate AllSpace(w: string) { forall k :: 0 <= k < |w| ==> IsSpace(w[k]) }

  /** The layout of a decomposition into words: one more gap than words,
      every gap whitespace, the gaps between two words not empty, and the
      words words. */
  ghost predicate WordLayout(words: seq<string>, gaps: seq<string>) {
    && |gaps| == |words| + 1
    && (forall i :: 0 <= i < |gaps| ==> AllSpace(gaps[i]))
    && (forall i :: 0 < i < |words| ==> gaps[i] != [])
    && (forall i :: 0 <= i < |words| ==> IsWord(words[i]))
  }

  /** `gaps[0] + words[0] + gaps[1] + ... + words[n - 1] + gaps[n]`. */
  function Interleave(words: seq<string>, gaps: seq<string>): string
    requires |gaps| == |words| + 1
    decreases |words|
  {
    if words == [] then gaps[0] else gaps[0] + (words[0] + Interleave(words[1..], gaps[1..]))
  }

  /** The whitespace runs around the words of `Split(s)`. */
  function Gaps(s: string): (r: seq<string>)
    ensures |r| == |Split(s)| + 1
    decreases |s|
  {
    if s == [] then [""]
    else if IsSpace(s[0]) then
      var g := Gaps(s[1..]);
      [[s[0]] + g[0]] + g[1..]
    else
      var n := RunEnd(s, 0, NotSpace);
      [""] + Gaps(s[n..])
  }

  /** The text after the first gap. */
  function AfterFirstGap(words: seq<string>, gaps: seq<string>): string
    requires |gaps| == |words| + 1
  {
    if words == [] then [] else words[0] + Interleave(words[1..], gaps[1..])
  }

  /** The interleaving is the first gap, then the rest; the rest does not
      depend on the first gap. */
  lemma InterleaveSplit(words: seq<string>, gaps: seq<string>, first: string)
    requires |gaps| == |words| + 1
    ensures Interleave(words, gaps) == gaps[0] + AfterFirstGap(words, gaps)
    ensures AfterFirstGap(words, [first] + gaps[1..]) == AfterFirstGap(words, gaps)
  {
    assert ([first] + gaps[1..])[1..] == gaps[1..];
    if words == [] {
      assert gaps[0] + [] == gaps[0];
    }
  }

  /** A character in front of the first gap comes out in front of the text. */
  lemma InterleaveConsGap(c: char, words: seq<string>, gaps: seq<string>)
    requires |gaps| == |words| + 1
    ensures Interleave(words, [[c] + gaps[0]] + gaps[1..]) == [c] + Interleave(words, gaps)
  {
    var g := [[c] + gaps[0]] + gaps[1..];
    InterleaveSplit(words, gaps, [c] + gaps[0]);
    InterleaveSplit(words, g, [c] + gaps[0]);
    var t := AfterFirstGap(words, gaps);
    assert g[0] == [c] + gaps[0];
    assert ([c] + gaps[0]) + t == [c] + (gaps[0] + t);
  }

  /** The gaps of a whitespace-led text begin with that whitespace. */
  lemma GapsOfSpace(s: string)
    requires s != [] && IsSpace(s[0])
    ensures Gaps(s)[0] != [] && Gaps(s)[0][0] == s[0]
  {
  }

  /** Widening the first gap with whitespace keeps the layout. */
  lemma LayoutConsGap(c: char, words: seq<string>, gaps: seq<string>)
    requires IsSpace(c) && WordLayout(words, gaps)
    ensures WordLayout(words, [[c] + gaps[0]] + gaps[1..])
  {
    var g := [[c] + gaps[0]] + gaps[1..];
    assert forall i :: 0 < i < |g| ==> g[i] == gaps[i];
  }

  /** A word in front, after an empty gap, keeps the layout when what follows
      starts with a non-empty gap. */
  lemma LayoutConsWord(w: string, words: seq<string>, gaps: seq<string>)
    requires IsWord(w) && WordLayout(words, gaps) && (words != [] ==> gaps[0] != [])
    ensures WordLayout([w] + words, [""] + gaps)
    ensures Interleave([w] + words, [""] + gaps) == w + Interleave(words, gaps)
  {
    var ws, gs := [w] + words, [""] + gaps;
    assert forall i :: 0 < i < |gs| ==> gs[i] == gaps[i - 1];
    assert forall i :: 0 < i < |ws| ==> ws[i] == words[i - 1];
    assert ws[1..] == words && gs[1..] == gaps;
    assert "" + (w + Interleave(words, gaps)) == w + Interleave(words, gaps);
  }

  /** `SplitShape` for a text that starts with whitespace, given the rest's. */
  lemma SplitShapeSpace(s: string)
    requires s != [] && IsSpace(s[0])
    requires WordLayout(Split(s[1..]), Gaps(s[1..])) && Interleave(Split(s[1..]), Gaps(s[1..])) == s[1..]
    ensures WordLayout(Split(s), Gaps(s)) && Interleave(Split(s), Gaps(s)) == s
  {
    var g := Gaps(s[1..]);
    assert Gaps(s) == [[s[0]] + g[0]] + g[1..] && Split(s) == Split(s[1..]);
    InterleaveConsGap(s[0], Split(s[1..]), g);
    LayoutConsGap(s[0], Split(s[1..]), g);
    assert [s[0]] + s[1..] == s;
  }

  /** A text that starts with a word: the word, then the words and gaps of
      what follows it, which starts with a non-empty gap if it has a word. */
  lemma SplitWordStep(s: string, n: nat)
    requires s != [] && !IsSpace(s[0]) && n == RunEnd(s, 0, NotSpace)
    ensures IsWord(s[..n]) && s == s[..n] + s[n..]
    ensures Split(s) == [s[..n]] + Split(s[n..]) && Gaps(s) == [""] + Gaps(s[n..])
    ensures s[n..] != [] ==> Gaps(s[n..])[0] != []
  {
    SplitWordSplit(s, n);
    GapsWordSplit(s, n);
    RunIsWord(s, n);
    WordThenGap(s, n);
  }

  /** `Split` of a text that starts with a word of length `n`. */
  lemma SplitWordSplit(s: string, n: nat)
    requires s != [] && !IsSpace(s[0]) && n == RunEnd(s, 0, NotSpace)
    ensures Split(s) == [s[..n]] + Split(s[n..])
  {
  }

  /** `Gaps` of a text that starts with a word of length `n`: an empty first gap. */
  lemma GapsWordSplit(s: string, n: nat)
    requires s != [] && !IsSpace(s[0]) && n == RunEnd(s, 0, NotSpace)
    ensures Gaps(s) == [""] + Gaps(s[n..])
  {
  }

  /** The leading run of non-whitespace is a word. */
  lemma RunIsWord(s: string, n: nat)
    requires s != [] && NotSpace(s[0]) && n == RunEnd(s, 0, NotSpace)
    ensures IsWord(s[..n])
  {
    var w := s[..n];
    forall k | 0 <= k < |w| ensures NotSpace(w[k]) {
      assert w[k] == s[k];
    }
  }

  /** The text is the word and what follows it, which starts with a non-empty gap if anything. */
  lemma WordThenGap(s: string, n: nat)
    requires s != [] && !IsSpace(s[0]) && n == RunEnd(s, 0, NotSpace)
    ensures s == s[..n] + s[n..]
    ensures s[n..] != [] ==> Gaps(s[n..])[0] != []
  {
    var rest := s[n..];
    if rest != [] {
      assert rest[0] == s[n] && IsSpace(rest[0]);
      GapsOfSpace(rest);
    }
    assert s == s[..n] + rest;
  }

  /** `SplitShape` for a text that starts with a word, given the text after it. */
  lemma SplitShapeWord(s: string, n: nat)
    requires s != [] && !IsSpace(s[0]) && n == RunEnd(s, 0, NotSpace)
    requires WordLayout(Split(s[n..]), Gaps(s[n..])) && Interleave(Split(s[n..]), Gaps(s[n..])) == s[n..]
    ensures WordLayout(Split(s), Gaps(s)) && Interleave(Split(s), Gaps(s)) == s
  {
    SplitWordStep(s, n);
    LayoutConsWord(s[..n], Split(s[n..]), Gaps(s[n..]));
  }

  /** Every input is whitespace, then the words of `split()` separated by
      non-empty whitespace, then whitespace. */
  lemma {:induction false} SplitShape(s: string)
    ensures WordLayout(Split(s), Gaps(s)) && Interleave(Split(s), Gaps(s)) == s
    decreases |s|
  {
    if s == [] {
    } else if IsSpace(s[0]) {
      SplitShape(s[1..]);
      SplitShapeSpace(s);
    } else {
      var n := RunEnd(s, 0, NotSpace);
      SplitShape(s[n..]);
      SplitShapeWord(s, n);
    }
  }

  /** Leading whitespace does not change the words. */
  lemma {:induction false} SplitSkipsSpace(w: string, rest: string)
    requires AllSpace(w)
    ensures Split(w + rest) == Split(rest)
    decreases |w|
  {
    if w == [] {
      assert w + rest == rest;
    } else {
      assert (w + rest)[0] == w[0] && (w + rest)[1..] == w[1..] + rest;
      SplitSkipsSpace(w[1..], rest);
    }
  }

  /** The first word of a decomposition is the first word of `split()`. */
  lemma WordSplitFirst(s: string, g: string, w: string, rest: string)
    requires s == g + (w + rest) && AllSpace(g) && IsWord(w)
    requires rest == [] || IsSpace(rest[0])
    ensures Split(s) == [w] + Split(rest)
  {
    SplitSkipsSpace(g, w + rest);
    SplitCons(w, rest);
  }

  /** Any decomposition with this layout has exactly the words of `split()`,
      so with `SplitShape` the two characterise `Split` completely. */
  lemma {:induction false} SplitOfLayout(words: seq<string>, gaps: seq<string>)
    requires WordLayout(words, gaps)
    ensures Split(Interleave(words, gaps)) == words
    decreases |words|
  {
    if words == [] {
      SplitSkipsSpace(gaps[0], []);
      assert gaps[0] + [] == gaps[0];
    } else {
      var ws, gs := words[1..], gaps[1..];
      assert forall i :: 0 <= i < |gs| ==> gs[i] == gaps[i + 1];
      assert forall i :: 0 <= i < |ws| ==> ws[i] == words[i + 1];
      assert WordLayout(ws, gs);
      var rest := Interleave(ws, gs);
      if ws == [] {
        assert rest == gs[0];
      } else {
        assert rest == gs[0] + (ws[0] + Interleave(ws[1..], gs[1..]));
        assert gs[0] != [] && rest[0] == gs[0][0];
      }
      WordSplitFirst(Interleave(words, gaps), gaps[0], words[0], rest);
      SplitOfLayout(ws, gs);
      assert words == [words[0]] + ws;
    }
  }

  /** `str.splitlines()`: the lines of `s` without their line endings, where
      `"\r\n"` is one ending and an unterminated last line is kept. */
  function SplitLines(s: string): seq<string>
    decreases |s|
  {
    if s == [] then []
    else
      var n := RunEnd(s, 0, NotLineBreak);
      if n == |s| then [s]
      else [s[..n]] + SplitLines(s[n + EndLength(s, n)..])
  }

  /** The length of the line ending at `n`: 2 for `"\r\n"`, else 1. */
  function EndLength(s: string, n: nat): (k: nat)
    requires n < |s|
    ensures 1 <= k <= 2 && n + k <= |s|
  {
    if s[n] == '\r' && n + 1 < |s| && s[n + 1] == '\n' then 2 else 1
  }

  /** One line ending of `splitlines()`: `"\r\n"` or a single break character. */
  predicate IsLineEnd(e: string) {
    e == "\r\n" || (|e| == 1 && IsLineBreak(e[0]))
  }

  /** `lines[0] + ends[0] + lines[1] + ends[1] + ...`. */
  function LinesText(lines: seq<string>, ends: seq<string>): string
    requires |ends| == |lines|
    decreases |lines|
  {
    if lines == [] then [] else lines[0] + (ends[0] + LinesText(lines[1..], ends[1..]))
  }

  /** The layout of a decomposition into lines: no line holds a break, every
      line but the last ends in a line ending, the last one ends in one or is
      non-empty and unterminated, and an empty line after a lone `"\r"` does
      not end in `"\n"` (that pair would be a single `"\r\n"`). */
  ghost predicate LineLayout(lines: seq<string>, ends: seq<string>) {
    && |ends| == |lines|
    && (forall i :: 0 <= i < |lines| ==> BreakFree(lines[i]))
    && (forall i :: 0 <= i < |lines| - 1 ==> IsLineEnd(ends[i]))
    && (lines != [] ==> IsLineEnd(ends[|lines| - 1]) || (ends[|lines| - 1] == [] && lines[|lines| - 1] != []))
    && (forall i :: 0 <= i < |lines| - 1 && ends[i] == "\r" && lines[i + 1] == [] ==> ends[i + 1] != "\n")
  }

  /** The line endings that `SplitLines(s)` drops, `""` after an unterminated last line. */
  function LineEnds(s: string): (r: seq<string>)
    ensures |r| == |SplitLines(s)|
    decreases |s|
  {
    if s == [] then []
    else
      var n := RunEnd(s, 0, NotLineBreak);
      if n == |s| then [""]
      else [s[n..n + EndLength(s, n)]] + LineEnds(s[n + EndLength(s, n)..])
  }

  /** The leading run of characters other than breaks holds no break. */
  lemma RunIsBreakFree(s: string, n: nat)
    requires n == RunEnd(s, 0, NotLineBreak)
    ensures BreakFree(s[..n])
  {
    var l := s[..n];
    forall k | 0 <= k < |l| ensures NotLineBreak(l[k]) {
      assert l[k] == s[k];
    }
  }

  /** The ending cut at the first break is a line ending, and a lone `"\r"`
      is not followed by `"\n"`. */
  lemma EndAtBreak(s: string, n: nat)
    requires n == RunEnd(s, 0, NotLineBreak) && n < |s|
    ensures IsLineEnd(s[n..n + EndLength(s, n)])
    ensures s[n..n + EndLength(s, n)] == "\r" ==> n + 1 == |s| || s[n + 1] != '\n'
  {
    if EndLength(s, n) == 1 {
      assert s[n..n + 1] == [s[n]];
    }
  }

  /** The text is its first line, the ending after it, and the rest. */
  lemma EndSplits(s: string, n: nat, k: nat)
    requires n + k <= |s|
    ensures s == s[..n] + (s[n..n + k] + s[n + k..])
  {
  }

  /** The layout of a text whose first line ends in a break, from that of the rest. */
  lemma LayoutConsLine(l: string, e: string, lines: seq<string>, ends: seq<string>)
    requires BreakFree(l) && IsLineEnd(e) && LineLayout(lines, ends)
    requires var rest := LinesText(lines, ends); e == "\r" ==> rest == [] || rest[0] != '\n'
    ensures LineLayout([l] + lines, [e] + ends)
    ensures LinesText([l] + lines, [e] + ends) == l + (e + LinesText(lines, ends))
  {
    var ls, es := [l] + lines, [e] + ends;
    assert ls[1..] == lines && es[1..] == ends;
    assert forall i :: 0 < i < |ls| ==> ls[i] == lines[i - 1] && es[i] == ends[i - 1];
    if lines != [] && lines[0] == [] {
      var t := LinesText(lines, ends);
      assert t == ends[0] + LinesText(lines[1..], ends[1..]);
      assert ends[0] != [] ==> t[0] == ends[0][0];
    }
  }

  /** `SplitLines` of a text whose first line ends in a break. */
  lemma SplitLinesBreakStep(s: string, n: nat)
    requires s != [] && n == RunEnd(s, 0, NotLineBreak) && n < |s|
    ensures var rest := s[n + EndLength(s, n)..];
      && SplitLines(s) == [s[..n]] + SplitLines(rest)
      && LineEnds(s) == [s[n..n + EndLength(s, n)]] + LineEnds(rest)
  {
  }

  /** The first line, its ending and the rest of a text whose first line ends in a break. */
  lemma BreakParts(s: string, n: nat)
    requires n == RunEnd(s, 0, NotLineBreak) && n < |s|
    ensures var k := EndLength(s, n); var l, e, rest := s[..n], s[n..n + k], s[n + k..];
      && BreakFree(l) && IsLineEnd(e) && (e == "\r" ==> rest == [] || rest[0] != '\n')
      && s == l + (e + rest)
  {
    var k := EndLength(s, n);
    var rest := s[n + k..];
    RunIsBreakFree(s, n);
    EndAtBreak(s, n);
    EndSplits(s, n, k);
    assert k == 1 && rest != [] ==> rest[0] == s[n + 1];
  }

  /** The step of `SplitLinesShape` past a first line that ends in a break. */
  lemma SplitLinesShapeBreak(s: string, n: nat)
    requires n == RunEnd(s, 0, NotLineBreak) && n < |s|
    requires var rest := s[n + EndLength(s, n)..];
      LineLayout(SplitLines(rest), LineEnds(rest)) && LinesText(SplitLines(rest), LineEnds(rest)) == rest
    ensures LineLayout(SplitLines(s), LineEnds(s)) && LinesText(SplitLines(s), LineEnds(s)) == s
  {
    var k := EndLength(s, n);
    BreakParts(s, n);
    SplitLinesBreakStep(s, n);
    ShapeCons(s, s[..n], s[n..n + k], s[n + k..]);
  }

  /** The layout of `l + (e + rest)` from that of `rest`, once the split is known to peel off `l` and `e`. */
  lemma ShapeCons(s: string, l: string, e: string, rest: string)
    requires BreakFree(l) && IsLineEnd(e) && (e == "\r" ==> rest == [] || rest[0] != '\n')
    requires s == l + (e + rest)
    requires SplitLines(s) == [l] + SplitLines(rest) && LineEnds(s) == [e] + LineEnds(rest)
    requires LineLayout(SplitLines(rest), LineEnds(rest)) && LinesText(SplitLines(rest), LineEnds(rest)) == rest
    ensures LineLayout(SplitLines(s), LineEnds(s)) && LinesText(SplitLines(s), LineEnds(s)) == s
  {
    LayoutConsLine(l, e, SplitLines(rest), LineEnds(rest));
  }

  /** Every text is its lines of `splitlines()` with the line endings between
      them, laid out as `LineLayout` says. */
  lemma {:induction false} SplitLinesShape(s: string)
    ensures LineLayout(SplitLines(s), LineEnds(s)) && LinesText(SplitLines(s), LineEnds(s)) == s
    decreases |s|
  {
    if s != [] {
      var n := RunEnd(s, 0, NotLineBreak);
      if n == |s| {
        RunIsBreakFree(s, n);
        assert SplitLines(s) == [s] && LineEnds(s) == [""];
        assert s[..n] == s && s + ("" + []) == s;
      } else {
        SplitLinesShape(s[n + EndLength(s, n)..]);
        SplitLinesShapeBreak(s, n);
      }
    }
  }

  /** No line of `splitlines()` holds a line break. */
  lemma SplitLinesBreakFree(s: string)
    ensures forall l :: l in SplitLines(s) ==> BreakFree(l)
  {
    SplitLinesShape(s);
  }

  /** A break-free line, a line ending, and a rest that does not start a
      `"\r\n"` with it: the line splits off first. */
  lemma SplitLinesCons(l: string, e: string, rest: string)
    requires BreakFree(l) && IsLineEnd(e)
    requires e == "\r" ==> rest == [] || rest[0] != '\n'
    ensures SplitLines(l + (e + rest)) == [l] + SplitLines(rest)
  {
    var s := l + (e + rest);
    ConsParts(l, e, rest);
    RunEndOf(l, e + rest, NotLineBreak);
    EndLengthOf(l, e, rest);
    SplitLinesStepOf(s, |l|, l, rest);
  }

  /** The pieces of `l + (e + rest)`. */
  lemma ConsParts(l: string, e: string, rest: string)
    requires e != []
    ensures (e + rest)[0] == e[0]
    ensures (l + (e + rest))[..|l|] == l && (l + (e + rest))[|l| + |e|..] == rest
  {
  }

  /** The ending found after the line is `e` itself. */
  lemma EndLengthOf(l: string, e: string, rest: string)
    requires IsLineEnd(e)
    requires e == "\r" ==> rest == [] || rest[0] != '\n'
    ensures |l| < |l + (e + rest)| && EndLength(l + (e + rest), |l|) == |e|
  {
    var s := l + (e + rest);
    assert s[|l|] == e[0];
    if e == "\r\n" {
      assert s[|l| + 1] == '\n';
    } else if rest != [] {
      assert s[|l| + 1] == rest[0];
    }
  }

  /** `SplitLines` of a text whose first line ends in a break, lines only. */
  lemma SplitLinesStep(s: string, n: nat)
    requires n == RunEnd(s, 0, NotLineBreak) && n < |s|
    ensures SplitLines(s) == [s[..n]] + SplitLines(s[n + EndLength(s, n)..])
  {
  }

  /** `SplitLinesStep` with the first line and the rest named. */
  lemma SplitLinesStepOf(s: string, n: nat, l: string, rest: string)
    requires n == RunEnd(s, 0, NotLineBreak) && n < |s|
    requires l == s[..n] && rest == s[n + EndLength(s, n)..]
    ensures SplitLines(s) == [l] + SplitLines(rest)
  {
    SplitLinesStep(s, n);
  }

  /** A non-empty break-free line splits to itself. */
  lemma SplitLinesOne(l: string)
    requires l != [] && BreakFree(l)
    ensures SplitLines(l) == [l]
  {
    RunEndOf(l, "", NotLineBreak);
    assert l + "" == l;
  }

  /** The text of a decomposition starts with `"\n"` only when its first line
      is empty and ends in `"\n"`. */
  lemma LinesTextHead(lines: seq<string>, ends: seq<string>)
    requires LineLayout(lines, ends) && lines != []
    requires !(lines[0] == [] && ends[0] == "\n")
    ensures LinesText(lines, ends) != [] && LinesText(lines, ends)[0] != '\n'
  {
    var t := LinesText(lines, ends);
    assert t == lines[0] + (ends[0] + LinesText(lines[1..], ends[1..]));
    if lines[0] != [] {
      assert t[0] == lines[0][0] && NotLineBreak(lines[0][0]);
    } else {
      assert IsLineEnd(ends[0]);
      assert t[0] == ends[0][0];
    }
  }

  /** The layout of a decomposition carries over to all its lines but the first. */
  lemma LayoutTail(lines: seq<string>, ends: seq<string>)
    requires LineLayout(lines, ends) && lines != []
    ensures LineLayout(lines[1..], ends[1..])
  {
    var ls, es := lines[1..], ends[1..];
    assert forall i :: 0 <= i < |ls| ==> ls[i] == lines[i + 1] && es[i] == ends[i + 1];
  }

  /** The first line of a decomposition splits off the text first. */
  lemma LayoutHeadSplits(lines: seq<string>, ends: seq<string>)
    requires LineLayout(lines, ends) && lines != [] && ends[0] != []
    ensures var rest := LinesText(lines[1..], ends[1..]);
      SplitLines(LinesText(lines, ends)) == [lines[0]] + SplitLines(rest)
  {
    var rest := LinesText(lines[1..], ends[1..]);
    if ends[0] == "\r" && |lines| > 1 {
      LayoutTail(lines, ends);
      LinesTextHead(lines[1..], ends[1..]);
    }
    SplitLinesCons(lines[0], ends[0], rest);
  }

  /** Any decomposition with this layout has exactly the lines of
      `splitlines()`, so with `SplitLinesShape` the two characterise
      `SplitLines` completely. */
  lemma {:induction false} SplitLinesOfLayout(lines: seq<string>, ends: seq<string>)
    requires LineLayout(lines, ends)
    ensures SplitLines(LinesText(lines, ends)) == lines
    decreases |lines|
  {
    if lines != [] {
      if ends[0] == [] {
        assert LinesText(lines, ends) == lines[0];
        SplitLinesOne(lines[0]);
      } else {
        LayoutTail(lines, ends);
        LayoutHeadSplits(lines, ends);
        SplitLinesOfLayout(lines[1..], ends[1..]);
        assert lines == [lines[0]] + lines[1..];
      }
    }
  }

  /** Joining break-free lines with `"\n"` and splitting again gives the lines
      back, as long as the last line is not empty. */
  lemma {:induction false} SplitLinesJoinRoundTrip(lines: seq<string>)
    requires forall l :: l in lines ==> BreakFree(l)
    requires lines != [] ==> lines[|lines| - 1] != ""
    ensures SplitLines(Join("\n", lines)) == lines
  {
    if lines == [] {
    } else if |lines| == 1 {
      assert lines[0] in lines;
      SplitLinesOne(lines[0]);
    } else {
      var rest := lines[1..];
      assert lines[0] in lines;
      assert forall l :: l in rest ==> l in lines;
      assert rest[|rest| - 1] == lines[|lines| - 1];
      SplitLinesJoinRoundTrip(rest);
      SplitLinesJoinStep(lines);
      assert lines == [lines[0]] + rest;
    }
  }

  /** The first of several strings joined with `sep`, then `sep`, then the rest joined. */
  lemma JoinHead(sep: string, xs: seq<string>)
    requires |xs| >= 2
    ensures Join(sep, xs) == xs[0] + (sep + Join(sep, xs[1..]))
  {
  }

  /** The first of several lines joined with `"\n"` splits off first. */
  lemma SplitLinesJoinStep(lines: seq<string>)
    requires |lines| >= 2 && BreakFree(lines[0])
    ensures SplitLines(Join("\n", lines)) == [lines[0]] + SplitLines(Join("\n", lines[1..]))
  {
    JoinHead("\n", lines);
    assert IsLineEnd("\n");
    SplitLinesCons(lines[0], "\n", Join("\n", lines[1..]));
  }

  /** ASCII case folding of one character. */
  function LowerChar(c: char): char {
    if 'A' <= c <= 'Z' then (c as int + 32) as char else c
  }

  /** `str.lower()`, restricted to ASCII letters. */
  function Lower(s: string): (r: string)
    ensures |r| == |s|
    ensures forall k :: 0 <= k < |s| ==> r[k] == LowerChar(s[k])
  {
    if s == [] then [] else [LowerChar(s[0])] + Lower(s[1..])
  }

  /** Python's `a <= b` on strings: lexicographic by code point, a prefix first. */
  predicate LexLe(a: string, b: string) {
    a == [] || (b != [] && (a[0] < b[0] || (a[0] == b[0] && LexLe(a[1..], b[1..]))))
  }

  lemma {:induction false} LexLeTotal(a: string, b: string)
    ensures LexLe(a, b) || LexLe(b, a)
  {
    if a != [] && b != [] && a[0] == b[0] {
      LexLeTotal(a[1..], b[1..]);
    }
  }

  lemma {:induction false} LexLeTransitive(a: string, b: string, c: string)
    requires LexLe(a, b) && LexLe(b, c)
    ensures LexLe(a, c)
  {
    if a != [] && b != [] && c != [] && a[0] == b[0] == c[0] {
      LexLeTransitive(a[1..], b[1..], c[1..]);
    }
  }

  /** Two strings each at most the other are equal: `<=` on strings is an order, not only a preorder. */
  lemma {:induction false} LexLeAntisymmetric(a: string, b: string)
    requires LexLe(a, b) && LexLe(b, a)
    ensures a == b
  {
    if a != [] && b != [] {
      LexLeAntisymmetric(a[1..], b[1..]);
      assert a == [a[0]] + a[1..] && b == [b[0]] + b[1..];
    }
  }

  lemma {:induction false} LexLeReflexive(a: string)
    ensures LexLe(a, a)
  {
    if a != [] {
      LexLeReflexive(a[1..]);
    }
  }

  lemma LexLeIsTotalPreorder()
    ensures Seqs.TotalPreorder(LexLe)
  {
    forall a, b ensures LexLe(a, b) || LexLe(b, a) {
      LexLeTotal(a, b);
    }
    forall a, b, c | LexLe(a, b) && LexLe(b, c) ensures LexLe(a, c) {
      LexLeTransitive(a, b, c);
    }
  }
}
