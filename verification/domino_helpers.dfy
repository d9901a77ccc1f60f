/** The string helpers of the Domino MCP server (`domino_mcp_server.py.py`):
    URL-parameter validation, cutting a job's stdout down to the part between
    two markers, recognising a local MLflow run link and rewriting it to the
    Domino URL, and dropping the local MLflow lines from the results. */
module DominoHelpers {
  import opened Wrappers
  import Text
  import Seqs
  import UrlQuote

  // ---------------------------------------------------------------------------
  // `_validate_url_parameter`

  /** The characters that could break the structure of a URL. */
  const UnsafeChars := "/\\?#&=%"

  predicate HasUnsafe(value: string) {
    exists k :: 0 <= k < |value| && value[k] in UnsafeChars
  }

  /** The parameter, percent-encoded; a missing value or one with an unsafe
      character is an error carrying the source's message. */
  function ValidateUrlParameter(value: Option<string>, name: string): (r: Result<string, string>)
    ensures value.None? ==> r == Err(name + " is required")
    ensures value.Some? && HasUnsafe(value.value) ==>
      r == Err("Invalid " + name + ": '" + value.value + "' contains unsafe URL characters")
    ensures r.Ok? <==> value.Some? && !HasUnsafe(value.value)
    ensures r.Ok? ==> UrlQuote.IsPercentEncoded(r.value) && UrlQuote.Unquote(r.value) == Some(value.value)
  {
    match value
    case None => Err(name + " is required")
    case Some(v) =>
      if exists k :: 0 <= k < |v| && v[k] in UnsafeChars then
        Err("Invalid " + name + ": '" + v + "' contains unsafe URL characters")
      else
        UrlQuote.QuoteRoundTrip(v);
        Ok(UrlQuote.Quote(v))
  }

  /** An accepted parameter cannot open a new path segment, query, fragment or parameter. */
  lemma ValidatedHasNoDelimiters(value: Option<string>, name: string)
    requires ValidateUrlParameter(value, name).Ok?
    ensures forall k :: 0 <= k < |ValidateUrlParameter(value, name).value| ==>
      ValidateUrlParameter(value, name).value[k] !in "/\\?#&= "
  {
    UrlQuote.PercentEncodedHasNoDelimiters(ValidateUrlParameter(value, name).value);
  }

  /** Names made of unreserved characters pass through unchanged. */
  lemma ValidateKeepsPlainNames(v: string, name: string)
    requires forall k :: 0 <= k < |v| ==> UrlQuote.IsUnreserved(v[k])
    ensures ValidateUrlParameter(Some(v), name) == Ok(v)
  {
    UrlQuote.QuoteKeepsUnreserved(v);
    assert !HasUnsafe(v) by {
      forall k | 0 <= k < |v| ensures v[k] !in UnsafeChars {
        assert UrlQuote.IsUnreserved(v[k]);
      }
    }
  }

  // ---------------------------------------------------------------------------
  // `_filter_domino_stdout`

  const StartMarker := "### Completed /mnt/artifacts/.domino/configure-spark-defaults.sh ###"
  const EndMarker := "Evaluating cleanup command on EXIT"
  const MarkersMissing := "Could not find start or end markers in stdout."

  /** `i` is the first start marker and `j` the first end marker after it. */
  ghost predicate Brackets(s: string, i: int, j: int) {
    && Text.IsAt(s, StartMarker, i)
    && (forall k :: 0 <= k < i ==> !Text.IsAt(s, StartMarker, k))
    && i + |StartMarker| <= j
    && Text.IsAt(s, EndMarker, j)
    && (forall k :: i + |StartMarker| <= k < j ==> !Text.IsAt(s, EndMarker, k))
  }

  lemma MarkersMissingStripped()
    ensures !Text.IsSpace(MarkersMissing[0]) && !Text.IsSpace(MarkersMissing[|MarkersMissing| - 1])
  {
    MarkersMissingFirst();
    MarkersMissingLast();
  }

  /** The message starts with `C`. */
  lemma MarkersMissingFirst()
    ensures MarkersMissing[0] == 'C'
  {
    var words, tail := "Could not find start or end markers in", " stdout.";
    assert MarkersMissing == words + tail;
    assert MarkersMissing[0] == words[0];
  }

  /** The message ends with a full stop. */
  lemma MarkersMissingLast()
    ensures MarkersMissing[|MarkersMissing| - 1] == '.'
  {
    assert MarkersMissing[44..] == "t.";
  }

  lemma BracketsUnique(s: string, i: int, j: int, i': int, j': int)
    requires Brackets(s, i, j) && Brackets(s, i', j')
    ensures i == i' && j == j'
  {
  }

  /** `stdout.index(start_marker)` and `stdout.index(end_marker, start_index)`. */
  function MarkerPositions(stdout: string): (r: Option<(nat, nat)>)
    ensures r.None? ==> forall i, j :: !Brackets(stdout, i, j)
    ensures r.Some? ==> Brackets(stdout, r.value.0, r.value.1)
  {
    match Text.IndexOf(stdout, StartMarker, 0)
    case None => None
    case Some(i) =>
      match Text.IndexOf(stdout, EndMarker, i + |StartMarker|)
      case None =>
        assert forall i', j :: Brackets(stdout, i', j) ==> i' == i;
        None
      case Some(j) => Some((i, j))
  }

  /** The stripped text between the markers, or the fixed message when either is missing. */
  function FilterDominoStdout(stdout: string): (r: string)
    ensures r == [] || (!Text.IsSpace(r[0]) && !Text.IsSpace(r[|r| - 1]))
  {
    match MarkerPositions(stdout)
    case None => MarkersMissingStripped(); MarkersMissing
    case Some((i, j)) => Text.Strip(stdout[i + |StartMarker|..j])
  }

  /** The fixed message exactly when the markers are not both there; otherwise
      the stripped text from the end of the first start marker to the first
      end marker after it. */
  lemma FilterDominoStdoutSpec(stdout: string)
    ensures (forall i, j :: !Brackets(stdout, i, j)) ==> FilterDominoStdout(stdout) == MarkersMissing
    ensures forall i, j :: Brackets(stdout, i, j) ==> FilterDominoStdout(stdout) == Text.Strip(stdout[i + |StartMarker|..j])
  {
    match MarkerPositions(stdout)
    case None =>
    case Some((i, j)) =>
      forall i', j' | Brackets(stdout, i', j') ensures i' == i && j' == j {
        BracketsUnique(stdout, i, j, i', j');
      }
  }

  // ---------------------------------------------------------------------------
  // `_extract_and_format_mlflow_url`: a scanner for
  // `http://127.0.0.1:8768/#/experiments/<digits>/runs/<lower-case hex>`

  const LocalPrefix := "http://127.0.0.1:8768/#/experiments/"
  const RunsPart := "/runs/"

  predicate IsDigit(c: char) { '0' <= c <= '9' }

  predicate IsLowerHex(c: char) { '0' <= c <= '9' || 'a' <= c <= 'f' }

  /** The experiment id and run id of a run link that starts at `i`, both runs taken greedily. */
  function MatchAt(text: string, i: nat): (r: Option<(string, string)>)
    requires i <= |text|
    ensures r.Some? ==> Text.IsAt(text, LocalPrefix, i)
    ensures r.Some? ==> r.value.0 != [] && forall k :: 0 <= k < |r.value.0| ==> IsDigit(r.value.0[k])
    ensures r.Some? ==> r.value.1 != [] && forall k :: 0 <= k < |r.value.1| ==> IsLowerHex(r.value.1[k])
  {
    if !Text.IsAt(text, LocalPrefix, i) then None
    else
      var d0 := i + |LocalPrefix|;
      var d1 := Text.RunEnd(text, d0, IsDigit);
      if d1 == d0 || !Text.IsAt(text, RunsPart, d1) then None
      else
        var h0 := d1 + |RunsPart|;
        var h1 := Text.RunEnd(text, h0, IsLowerHex);
        if h1 == h0 then None else Some((text[d0..d1], text[h0..h1]))
  }

  /** The run link with experiment id `e` and run id `r` starts at `i`, and the
      run id is not followed by a further hex digit. */
  ghost predicate IsRunLink(text: string, i: int, e: string, r: string) {
    var link := LocalPrefix + e + RunsPart + r;
    && e != [] && (forall k :: 0 <= k < |e| ==> IsDigit(e[k]))
    && r != [] && (forall k :: 0 <= k < |r| ==> IsLowerHex(r[k]))
    && Text.IsAt(text, link, i)
    && (i + |link| == |text| || !IsLowerHex(text[i + |link|]))
  }

  /** A run link assembled from its pieces. */
  lemma RunLinkOfParts(text: string, i: nat, e: string, r: string)
    requires Text.IsAt(text, LocalPrefix, i) && Text.IsAt(text, e, i + |LocalPrefix|)
    requires Text.IsAt(text, RunsPart, i + |LocalPrefix| + |e|) && Text.IsAt(text, r, i + |LocalPrefix| + |e| + |RunsPart|)
    requires e != [] && (forall k :: 0 <= k < |e| ==> IsDigit(e[k]))
    requires r != [] && (forall k :: 0 <= k < |r| ==> IsLowerHex(r[k]))
    requires var h1 := i + |LocalPrefix| + |e| + |RunsPart| + |r|; h1 == |text| || !IsLowerHex(text[h1])
    ensures IsRunLink(text, i, e, r)
  {
    Text.IsAtConcat(text, LocalPrefix, e, i);
    Text.IsAtConcat(text, LocalPrefix + e, RunsPart, i);
    Text.IsAtConcat(text, LocalPrefix + e + RunsPart, r, i);
  }

  /** What `MatchAt` returns is a run link with those ids. */
  lemma MatchAtSound(text: string, i: nat)
    requires i <= |text| && MatchAt(text, i).Some?
    ensures IsRunLink(text, i, MatchAt(text, i).value.0, MatchAt(text, i).value.1)
  {
    var d0 := i + |LocalPrefix|;
    var d1 := Text.RunEnd(text, d0, IsDigit);
    var h0 := d1 + |RunsPart|;
    var h1 := Text.RunEnd(text, h0, IsLowerHex);
    var e, r := text[d0..d1], text[h0..h1];
    assert MatchAt(text, i) == Some((e, r));
    RunLinkOfParts(text, i, e, r);
  }

  /** The four pieces of a run link, one after the other. */
  lemma RunLinkPieces(text: string, i: nat, e: string, r: string)
    requires IsRunLink(text, i, e, r)
    ensures Text.IsAt(text, LocalPrefix, i) && Text.IsAt(text, e, i + |LocalPrefix|)
    ensures Text.IsAt(text, RunsPart, i + |LocalPrefix| + |e|)
    ensures Text.IsAt(text, r, i + |LocalPrefix| + |e| + |RunsPart|)
  {
    Text.IsAtConcat(text, LocalPrefix + e + RunsPart, r, i);
    Text.IsAtConcat(text, LocalPrefix + e, RunsPart, i);
    Text.IsAtConcat(text, LocalPrefix, e, i);
  }

  /** The pieces of a run link, position by position. */
  lemma RunLinkParts(text: string, i: nat, e: string, r: string)
    requires IsRunLink(text, i, e, r)
    ensures var d0 := i + |LocalPrefix|; var d1 := d0 + |e|; var h0 := d1 + |RunsPart|;
      && Text.IsAt(text, LocalPrefix, i)
      && (forall k :: d0 <= k < d1 ==> IsDigit(text[k]))
      && Text.IsAt(text, RunsPart, d1)
      && (forall k :: h0 <= k < h0 + |r| ==> IsLowerHex(text[k]))
      && text[d0..d1] == e && text[h0..h0 + |r|] == r
  {
    var d0 := i + |LocalPrefix|;
    var h0 := d0 + |e| + |RunsPart|;
    RunLinkPieces(text, i, e, r);
    Text.IsAtChars(text, e, d0);
    Text.IsAtChars(text, r, h0);
  }

  /** A run link is recognised by `MatchAt`, with the ids it spells. */
  lemma MatchAtComplete(text: string, i: nat, e: string, r: string)
    requires i <= |text| && IsRunLink(text, i, e, r)
    ensures MatchAt(text, i) == Some((e, r))
  {
    RunLinkParts(text, i, e, r);
    var d0 := i + |LocalPrefix|;
    var d1 := d0 + |e|;
    var h0 := d1 + |RunsPart|;
    assert text[d1] == RunsPart[0];
    RunEndAt(text, d0, d1, IsDigit);
    RunEndAt(text, h0, h0 + |r|, IsLowerHex);
  }

  /** A run of `p` that something else ends is found by `RunEnd`. */
  lemma {:induction false} RunEndAt(s: string, from: nat, to: nat, p: char -> bool)
    requires from <= to <= |s|
    requires forall k :: from <= k < to ==> p(s[k])
    requires to == |s| || !p(s[to])
    ensures Text.RunEnd(s, from, p) == to
    decreases |s| - from
  {
    if from < to {
      assert p(s[from]);
      RunEndAt(s, from + 1, to, p);
    }
  }

  /** `MatchAt` recognises exactly the run links, with the ids they spell. */
  lemma MatchAtIff(text: string, i: nat, e: string, r: string)
    requires i <= |text|
    ensures MatchAt(text, i) == Some((e, r)) <==> IsRunLink(text, i, e, r)
  {
    if IsRunLink(text, i, e, r) {
      MatchAtComplete(text, i, e, r);
    }
    if MatchAt(text, i) == Some((e, r)) {
      MatchAtSound(text, i);
    }
  }

  /** `k` is the leftmost position at or after `from` where a run link starts. */
  ghost predicate IsFirstMatch(text: string, from: int, k: int) {
    0 <= from <= k <= |text| && MatchAt(text, k).Some? && forall j :: from <= j < k ==> MatchAt(text, j).None?
  }

  /** `re.search`: the leftmost run link at or after `from`. */
  function SearchFrom(text: string, from: nat): (r: Option<(string, string)>)
    requires from <= |text|
    ensures r.None? <==> forall j :: from <= j <= |text| ==> MatchAt(text, j).None?
    ensures forall k :: IsFirstMatch(text, from, k) ==> r == MatchAt(text, k)
    decreases |text| - from
  {
    if MatchAt(text, from).Some? then MatchAt(text, from)
    else if from == |text| then None
    else SearchFrom(text, from + 1)
  }

  /** `_extract_and_format_mlflow_url`, with `host` standing for `DOMINO_HOST`. */
  function ExtractMlflowUrl(text: string, host: string, user: string, project: string): (r: Option<string>)
    ensures r.None? <==> forall j :: 0 <= j <= |text| ==> MatchAt(text, j).None?
    ensures forall k, e, run :: IsFirstMatch(text, 0, k) && IsRunLink(text, k, e, run) ==>
      r == Some(host + "/experiments/" + user + "/" + project + "/" + e + "/" + run)
  {
    match SearchFrom(text, 0)
    case None => None
    case Some((e, run)) =>
      assert forall k, e', run' :: IsFirstMatch(text, 0, k) && IsRunLink(text, k, e', run') ==> e' == e && run' == run by {
        forall k, e', run' | IsFirstMatch(text, 0, k) && IsRunLink(text, k, e', run') ensures e' == e && run' == run {
          MatchAtIff(text, k, e', run');
        }
      }
      Some(host + "/experiments/" + user + "/" + project + "/" + e + "/" + run)
  }

  /** A text that is exactly one run link is rewritten to the Domino experiment URL with its ids. */
  lemma ExtractMlflowUrlOfLink(e: string, run: string, host: string, user: string, project: string)
    requires e != [] && forall k :: 0 <= k < |e| ==> IsDigit(e[k])
    requires run != [] && forall k :: 0 <= k < |run| ==> IsLowerHex(run[k])
    ensures ExtractMlflowUrl(LocalPrefix + e + RunsPart + run, host, user, project)
      == Some(host + "/experiments/" + user + "/" + project + "/" + e + "/" + run)
  {
    var text := LocalPrefix + e + RunsPart + run;
    assert text[0..|text|] == text;
    assert IsRunLink(text, 0, e, run);
    MatchAtComplete(text, 0, e, run);
    assert IsFirstMatch(text, 0, 0);
  }

  // ---------------------------------------------------------------------------
  // The line filter of `check_domino_job_run_results`

  const ExperimentPrefix := "View experiment at: http://127.0.0.1:8768/#/experiments/"

  /** The experiment-link pattern matches at `i`: the prefix and then a digit. */
  predicate ExperimentLinkAt(line: string, i: nat) {
    Text.IsAt(line, ExperimentPrefix, i) && i + |ExperimentPrefix| < |line| && IsDigit(line[i + |ExperimentPrefix|])
  }

  /** `re.search(experiment_pattern, line)` from `from` on. */
  function HasExperimentLinkFrom(line: string, from: nat): (b: bool)
    requires from <= |line|
    ensures b <==> exists i :: from <= i <= |line| && ExperimentLinkAt(line, i)
    decreases |line| - from
  {
    if ExperimentLinkAt(line, from) then true
    else if from == |line| then false
    else
      assert forall i :: from <= i <= |line| && ExperimentLinkAt(line, i) ==> i == from || from + 1 <= i;
      HasExperimentLinkFrom(line, from + 1)
  }

  /** A line survives when it holds neither a run link nor an experiment
      link: exactly when neither starts anywhere in it. */
  predicate KeepLine(line: string)
    ensures KeepLine(line) <==>
      (forall j :: 0 <= j <= |line| ==> MatchAt(line, j).None?) &&
      (forall j :: 0 <= j <= |line| ==> !ExperimentLinkAt(line, j))
  {
    SearchFrom(line, 0).None? && !HasExperimentLinkFrom(line, 0)
  }

  /** `"\n".join(lines that hold no local MLflow link)`. */
  function KeptText(text: string): (r: string)
    ensures text != [] && Text.BreakFree(text) ==> r == (if KeepLine(text) then text else "")
  {
    var lines := Text.SplitLines(text);
    if text != [] && Text.BreakFree(text) then
      Text.SplitLinesOne(text);
      Text.Join("\n", Seqs.Filter(lines, KeepLine))
    else
      Text.Join("\n", Seqs.Filter(lines, KeepLine))
  }

  /** For text laid out as lines and their endings, exactly the lines
      without a local MLflow link survive, in order, joined by `"\n"`. */
  lemma KeptTextOfLayout(lines: seq<string>, ends: seq<string>)
    requires Text.LineLayout(lines, ends)
    ensures KeptText(Text.LinesText(lines, ends)) == Text.Join("\n", Seqs.Filter(lines, KeepLine))
  {
    Text.SplitLinesOfLayout(lines, ends);
  }

  /** `KeptText(text).strip()`: the kept lines without surrounding whitespace. */
  function StripLocalMlflowLines(text: string): (r: string)
    ensures r == [] || (!Text.IsSpace(r[0]) && !Text.IsSpace(r[|r| - 1]))
    ensures exists i :: Text.IsStrippedAt(KeptText(text), r, i)
  {
    Text.Strip(KeptText(text))
  }

  /** Dropping lines keeps the order of the rest: the lines of two pieces of text are filtered piece by piece. */
  lemma KeptLinesAppend(a: seq<string>, b: seq<string>)
    ensures Seqs.Filter(a + b, KeepLine) == Seqs.Filter(a, KeepLine) + Seqs.Filter(b, KeepLine)
  {
    Seqs.FilterAppend(a, b, KeepLine);
  }

  /** The results of `check_domino_job_run_results`: the filtered stdout and the Domino MLflow URL, if any. */
  datatype JobResults = JobResults(results: string, mlflowUrl: Option<string>)

  function CheckJobRunResults(stdout: string, host: string, user: string, project: string): (r: JobResults)
    ensures r.mlflowUrl == ExtractMlflowUrl(FilterDominoStdout(stdout), host, user, project)
    ensures r.mlflowUrl.None? ==> r.results == FilterDominoStdout(stdout)
    ensures r.mlflowUrl.Some? ==> r.results == StripLocalMlflowLines(FilterDominoStdout(stdout))
    ensures r.mlflowUrl.Some? ==> r.results == [] || (!Text.IsSpace(r.results[0]) && !Text.IsSpace(r.results[|r.results| - 1]))
  {
    var filtered := FilterDominoStdout(stdout);
    var url := ExtractMlflowUrl(filtered, host, user, project);
    if url.Some? then JobResults(StripLocalMlflowLines(filtered), url) else JobResults(filtered, url)
  }
}
