/** The derivations shared by the three report views (`transforms.py`). */
module Transforms {
  import opened Wrappers
  import opened Records
  import Seqs

  const Unassigned := "Unassigned"

  /** The position of the first occurrence of `x` in `s`. */
  function FirstIndex<T(==)>(s: seq<T>, x: T): (i: nat)
    requires x in s
    ensures i < |s| && s[i] == x
    ensures forall j :: 0 <= j < i ==> s[j] != x
  {
    if s[0] == x then 0 else 1 + FirstIndex(s[1..], x)
  }

  lemma FirstIndexOfPrefix<T>(p: seq<T>, n: T, x: T)
    requires x in p
    ensures x in p + [n] && FirstIndex(p + [n], x) == FirstIndex(p, x)
  {
    assert forall j :: 0 <= j < |p| ==> (p + [n])[j] == p[j];
  }

  lemma FirstIndexOfNew<T>(p: seq<T>, n: T)
    requires n !in p
    ensures FirstIndex(p + [n], n) == |p|
  {
    assert forall j :: 0 <= j < |p| ==> (p + [n])[j] == p[j];
  }

  /** Filtering keeps the order of the first occurrences of what it keeps. */
  lemma {:induction false} FirstIndexThroughFilter<T>(s: seq<T>, p: T -> bool, x: T, y: T)
    requires x in Seqs.Filter(s, p) && y in Seqs.Filter(s, p)
    requires FirstIndex(Seqs.Filter(s, p), x) < FirstIndex(Seqs.Filter(s, p), y)
    ensures x in s && y in s && FirstIndex(s, x) < FirstIndex(s, y)
  {
    var f, t := Seqs.Filter(s, p), Seqs.Filter(s[1..], p);
    assert f == (if p(s[0]) then [s[0]] else []) + t;
    if s[0] == x {
    } else if s[0] == y {
      assert false;
    } else {
      if p(s[0]) {
        assert f == [s[0]] + t && f[1..] == t;
        assert FirstIndex(f, x) == 1 + FirstIndex(t, x);
        assert FirstIndex(f, y) == 1 + FirstIndex(t, y);
      } else {
        assert f == t;
      }
      FirstIndexThroughFilter(s[1..], p, x, y);
    }
  }

  /** The names `order_stages_like_humans` keeps: each non-empty name once, at its first occurrence. */
  function UniqueNonEmpty(names: seq<string>): (r: seq<string>)
    ensures forall x :: x in r <==> x != "" && x in names
    ensures Seqs.NoDuplicates(r)
  {
    if names == [] then []
    else
      var p, n := names[..|names| - 1], names[|names| - 1];
      assert names == p + [n];
      var d := UniqueNonEmpty(p);
      if n != "" && n !in d then d + [n] else d
  }

  /** `order_stages_like_humans`: grows `out` and `seen` in one pass over the names. */
  method OrderStagesLikeHumans(names: seq<string>) returns (out: seq<string>)
    ensures out == UniqueNonEmpty(names)
  {
    var seen: set<string> := {};
    out := [];
    for i := 0 to |names|
      invariant out == UniqueNonEmpty(names[..i])
      invariant seen == set x | x in out
    {
      var n := names[i];
      assert names[..i + 1][..i] == names[..i];
      if n != "" && n !in seen {
        out := out + [n];
        seen := seen + {n};
      }
    }
    assert names[..|names|] == names;
  }

  /** The kept names appear in the order of their first occurrences in the input. */
  ghost predicate InFirstOccurrenceOrder(names: seq<string>, r: seq<string>) {
    forall i, j :: 0 <= i < j < |r| && r[i] in names && r[j] in names ==>
      FirstIndex(names, r[i]) < FirstIndex(names, r[j])
  }

  lemma {:induction false} UniqueNonEmptyKeepsFirstOccurrenceOrder(names: seq<string>)
    ensures InFirstOccurrenceOrder(names, UniqueNonEmpty(names))
  {
    if names != [] {
      var p, n := names[..|names| - 1], names[|names| - 1];
      assert names == p + [n];
      var d := UniqueNonEmpty(p);
      UniqueNonEmptyKeepsFirstOccurrenceOrder(p);
      forall x | x in d ensures FirstIndex(names, x) == FirstIndex(p, x) < |p| {
        assert x in p;
        FirstIndexOfPrefix(p, n, x);
      }
      var r := UniqueNonEmpty(names);
      if n != "" && n !in d {
        assert r == d + [n];
        assert n !in p;
        FirstIndexOfNew(p, n);
      } else {
        assert r == d;
      }
      forall i, j | 0 <= i < j < |r| && r[i] in names && r[j] in names
        ensures FirstIndex(names, r[i]) < FirstIndex(names, r[j])
      {
        assert r[i] == d[i];
        if j < |d| {
          assert r[j] == d[j];
          assert d[i] in p && d[j] in p;
        }
      }
    }
  }

  /** A list of distinct non-empty names is left as it is. */
  lemma {:induction false} UniqueNonEmptyFixesDistinct(s: seq<string>)
    requires Seqs.NoDuplicates(s) && "" !in s
    ensures UniqueNonEmpty(s) == s
  {
    if s != [] {
      var p, n := s[..|s| - 1], s[|s| - 1];
      assert s == p + [n];
      UniqueNonEmptyFixesDistinct(p);
      assert n !in p by {
        forall k | 0 <= k < |p| ensures p[k] != n {
          assert s[k] == p[k];
        }
      }
    }
  }

  /** `order_stages_like_humans` is idempotent. */
  lemma UniqueNonEmptyIdempotent(names: seq<string>)
    ensures UniqueNonEmpty(UniqueNonEmpty(names)) == UniqueNonEmpty(names)
  {
    UniqueNonEmptyFixesDistinct(UniqueNonEmpty(names));
  }

  /** The display name of an entry's assignee: `assignee.name or "Unassigned"`. */
  function AssigneeDisplay(e: StageEntry): string {
    if Truthy(e.assigneeName) then e.assigneeName.value else Unassigned
  }

  /** `i` is the first entry whose stage name is `key`. */
  ghost predicate IsFirstStageMatch(stages: seq<StageEntry>, key: Option<string>, i: int) {
    && 0 <= i < |stages|
    && stages[i].stageName == key
    && forall j :: 0 <= j < i ==> stages[j].stageName != key
  }

  /** `stage_assignee_for_name`: the assignee of the first entry whose stage
      name equals `stageName` (a missing name matches only a missing key). */
  function StageAssigneeForName(stages: seq<StageEntry>, stageName: Option<string>): (r: string)
    ensures r != ""
    ensures (forall i :: 0 <= i < |stages| ==> stages[i].stageName != stageName) ==> r == Unassigned
    ensures forall i :: IsFirstStageMatch(stages, stageName, i) ==> r == AssigneeDisplay(stages[i])
  {
    if stages == [] then Unassigned
    else if stages[0].stageName == stageName then AssigneeDisplay(stages[0])
    else
      assert forall i :: 1 <= i < |stages| ==> stages[i] == stages[1..][i - 1];
      StageAssigneeForName(stages[1..], stageName)
  }

  /** `current_stage_assignee`: the same lookup keyed by the bundle's own `stage`. */
  function CurrentStageAssignee(b: Bundle): (r: string)
    ensures r == StageAssigneeForName(b.stages, b.stage)
    ensures (forall i :: 0 <= i < |b.stages| ==> b.stages[i].stageName != b.stage) ==> r == Unassigned
  {
    StageAssigneeForName(b.stages, b.stage)
  }

  function AttachmentTimes(atts: seq<Attachment>): (r: seq<Option<Instant>>)
    ensures |r| == |atts| && forall k :: 0 <= k < |atts| ==> r[k] == atts[k].createdAt
  {
    seq(|atts|, k requires 0 <= k < |atts| => atts[k].createdAt)
  }

  /** The timestamps `compute_last_updated` collects: the bundle's, then each attachment's. */
  function Candidates(b: Bundle): seq<Option<Instant>> {
    [b.createdAt] + AttachmentTimes(b.attachments)
  }

  /** The candidates that parsed. */
  function Parsed(cands: seq<Option<Instant>>): (r: seq<Instant>)
    ensures forall t :: t in r <==> Some(t) in cands
  {
    if cands == [] then []
    else
      assert cands == [cands[0]] + cands[1..];
      (if cands[0].Some? then [cands[0].value] else []) + Parsed(cands[1..])
  }

  function MaxOf(xs: seq<Instant>): (m: Instant)
    requires xs != []
    ensures m in xs && forall x :: x in xs ==> x <= m
  {
    if |xs| == 1 then xs[0]
    else
      assert xs == [xs[0]] + xs[1..];
      var m := MaxOf(xs[1..]);
      if xs[0] >= m then xs[0] else m
  }

  /** The latest parsed candidate, or `None` when none parsed. */
  function LastUpdated(b: Bundle): (r: Option<Instant>)
    ensures r.None? <==> forall c :: c in Candidates(b) ==> c.None?
    ensures r.Some? ==> r in Candidates(b) && forall t :: Some(t) in Candidates(b) ==> t <= r.value
  {
    var ps := Parsed(Candidates(b));
    if ps == [] then None
    else
      var m := MaxOf(ps);
      assert m in ps;
      Some(m)
  }

  /** `compute_last_updated`: appends each attachment's timestamp to `cands`, then takes the maximum. */
  method ComputeLastUpdated(b: Bundle) returns (r: Option<Instant>)
    ensures r == LastUpdated(b)
  {
    var cands := [b.createdAt];
    for i := 0 to |b.attachments|
      invariant cands == [b.createdAt] + AttachmentTimes(b.attachments[..i])
    {
      assert AttachmentTimes(b.attachments[..i + 1]) == AttachmentTimes(b.attachments[..i]) + [b.attachments[i].createdAt];
      cands := cands + [b.attachments[i].createdAt];
    }
    assert b.attachments[..|b.attachments|] == b.attachments;
    var parsed := Parsed(cands);
    r := if parsed == [] then None else Some(MaxOf(parsed));
  }

  /** `days_in_current_stage`: whole days (rounded down) from the last update
      to `now`, or the sentinel -1 when there is no last update. */
  function DaysInCurrentStage(b: Bundle, now: Instant): (r: int)
    ensures LastUpdated(b).None? ==> r == -1
  {
    match LastUpdated(b)
    case None => -1
    case Some(t) => (now - t) / NanosPerDay
  }

  /** With a last update the count is the floor of the elapsed days; it is
      non-negative exactly when that update is not in the future. */
  lemma DaysInCurrentStageSpec(b: Bundle, now: Instant)
    ensures LastUpdated(b).Some? ==>
      var d := DaysInCurrentStage(b, now);
      d * NanosPerDay <= now - LastUpdated(b).value < (d + 1) * NanosPerDay
    ensures DaysInCurrentStage(b, now) >= 0 <==> LastUpdated(b).Some? && LastUpdated(b).value <= now
  {
  }

  /** A last update less than a day ahead of `now` also gives -1, the same value as the sentinel. */
  lemma DaysSentinelCollision(b: Bundle, now: Instant)
    requires LastUpdated(b).Some?
    requires now < LastUpdated(b).value <= now + NanosPerDay
    ensures DaysInCurrentStage(b, now) == -1
  {
  }

  /** `days_in_current_stage` as written. `pd.Timestamp.utcnow()` already
      carries the UTC zone, and pandas refuses to localize a zone-aware
      timestamp (`TypeError`), so only the no-update path returns a value. */
  function DaysInCurrentStageAsWritten(b: Bundle): (r: Result<int, string>)
    ensures r.Ok? <==> LastUpdated(b).None?
    ensures r.Ok? ==> r.value == -1
  {
    if LastUpdated(b).None? then Ok(-1)
    else Err("TypeError: Cannot localize tz-aware Timestamp")
  }

  /** Any bundle with a creation time shows the fault: the code as written
      raises, while the intended count is a number of days, non-negative
      unless the last update lies ahead of `now`. */
  lemma DaysAsWrittenRaises(b: Bundle, now: Instant)
    requires b.createdAt.Some?
    ensures DaysInCurrentStageAsWritten(b).Err?
    ensures LastUpdated(b).Some? && (DaysInCurrentStage(b, now) >= 0 <==> LastUpdated(b).value <= now)
  {
    assert b.createdAt in Candidates(b);
    DaysInCurrentStageSpec(b, now);
  }

  /** The sort key of `safe_branch_from_attachments`: an unparsed timestamp ranks as `pd.Timestamp.min`. */
  function AttachmentKey(a: Attachment): (k: int)
    ensures MinInstant <= k <= MaxInstant
    ensures a.createdAt.Some? ==> k == a.createdAt.value
    ensures a.createdAt.None? ==> k == MinInstant
  {
    if a.createdAt.Some? then a.createdAt.value else MinInstant
  }

  predicate HasBranch(a: Attachment) {
    Truthy(a.branch)
  }

  /** `i` is the attachment with a branch and the latest key, the earliest in the input on ties. */
  ghost predicate IsLatestWithBranch(atts: seq<Attachment>, i: int) {
    && 0 <= i < |atts|
    && HasBranch(atts[i])
    && (forall j :: 0 <= j < |atts| && HasBranch(atts[j]) ==> AttachmentKey(atts[j]) <= AttachmentKey(atts[i]))
    && (forall j :: 0 <= j < i && HasBranch(atts[j]) ==> AttachmentKey(atts[j]) < AttachmentKey(atts[i]))
  }

  /** `safe_branch_from_attachments`: sorts newest first (stably) and returns
      the first non-empty branch, or `""`. */
  function SafeBranchFromAttachments(atts: seq<Attachment>): (r: string)
    ensures r != "" <==> exists j :: 0 <= j < |atts| && HasBranch(atts[j])
    ensures r != "" ==> exists i :: IsLatestWithBranch(atts, i) && r == atts[i].branch.value
  {
    if atts == [] then ""
    else
      Seqs.AtLeastIsTotalPreorder();
      var f := Seqs.FindFirst(Seqs.Sort(atts, AttachmentKey, Seqs.AtLeast), HasBranch);
      Seqs.FindFirstOfSorted(atts, AttachmentKey, Seqs.AtLeast, HasBranch);
      assert f.Some? ==> exists i :: IsLatestWithBranch(atts, i) && atts[i] == f.value by {
        if f.Some? {
          var i :| Seqs.IsFirstBest(atts, AttachmentKey, Seqs.AtLeast, HasBranch, i) && atts[i] == f.value;
          assert IsLatestWithBranch(atts, i);
        }
      }
      if f.Some? then f.value.branch.value else ""
  }

  /** At most one attachment is the latest with a branch: the choice is determined. */
  lemma LatestWithBranchUnique(atts: seq<Attachment>, i: int, k: int)
    requires IsLatestWithBranch(atts, i) && IsLatestWithBranch(atts, k)
    ensures i == k
  {
  }

  /** Two attachments with branches: the later one is chosen wherever it stands in the input. */
  lemma SafeBranchPrefersLater(older: Attachment, newer: Attachment, atts: seq<Attachment>)
    requires HasBranch(older) && HasBranch(newer)
    requires AttachmentKey(older) < AttachmentKey(newer)
    requires atts == [older, newer] || atts == [newer, older]
    ensures SafeBranchFromAttachments(atts) == newer.branch.value
  {
    var n := if atts == [older, newer] then 1 else 0;
    assert atts[n] == newer && atts[1 - n] == older;
    assert IsLatestWithBranch(atts, n);
    var i :| IsLatestWithBranch(atts, i) && SafeBranchFromAttachments(atts) == atts[i].branch.value;
    LatestWithBranchUnique(atts, i, n);
  }
}
