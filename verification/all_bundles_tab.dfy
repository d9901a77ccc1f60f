/** Report logic of the all-bundles view (`ui/tabs_all_bundles.py`): one row
    per bundle, ordered case-insensitively by name, with the first four stage
    names and their assignees. */
module AllBundlesTab {
  import opened Wrappers
  import opened Records
  import Text
  import Seqs
  import Transforms

  /** The number of stage columns. */
  const SlotCount := 4

  /** `projectOwner`, else `createdBy.userName`, else `""`. */
  function Owner(b: Bundle): (r: string)
    ensures r == "" <==> !Truthy(b.projectOwner) && !Truthy(b.createdByUserName)
    ensures Truthy(b.projectOwner) ==> r == b.projectOwner.value
    ensures !Truthy(b.projectOwner) ==> r == OrEmpty(b.createdByUserName)
  {
    if Truthy(b.projectOwner) then b.projectOwner.value
    else if Truthy(b.createdByUserName) then b.createdByUserName.value
    else ""
  }

  /** `stage_names_present`: the non-empty stage names of the entries, in entry order. */
  function PresentStageNames(stages: seq<StageEntry>): (r: seq<string>)
    ensures |r| <= |stages|
    ensures forall x :: x in r <==> x != "" && exists i :: 0 <= i < |stages| && stages[i].stageName == Some(x)
  {
    if stages == [] then []
    else
      var rest := PresentStageNames(stages[1..]);
      assert forall i :: 1 <= i < |stages| ==> stages[i] == stages[1..][i - 1];
      assert forall x :: (exists i :: 0 <= i < |stages[1..]| && stages[1..][i].stageName == Some(x)) ==>
        exists i :: 0 <= i < |stages| && stages[i].stageName == Some(x) by {
        forall x | exists i :: 0 <= i < |stages[1..]| && stages[1..][i].stageName == Some(x)
          ensures exists i :: 0 <= i < |stages| && stages[i].stageName == Some(x)
        {
          var i :| 0 <= i < |stages[1..]| && stages[1..][i].stageName == Some(x);
          assert stages[i + 1].stageName == Some(x);
        }
      }
      if Truthy(stages[0].stageName) then [stages[0].stageName.value] + rest else rest
  }

  /** The stage name of every entry, `""` where it has none. */
  function EntryNames(stages: seq<StageEntry>): seq<string> {
    seq(|stages|, i requires 0 <= i < |stages| => OrEmpty(stages[i].stageName))
  }

  predicate NonEmptyName(x: string) { x != "" }

  /** The present names are the entries' names in entry order, repeats
      included, with the empty and missing ones dropped. */
  lemma {:induction false} PresentStageNamesInOrder(stages: seq<StageEntry>)
    ensures PresentStageNames(stages) == Seqs.Filter(EntryNames(stages), NonEmptyName)
  {
    if stages != [] {
      PresentStageNamesInOrder(stages[1..]);
      var names := EntryNames(stages);
      assert names[1..] == EntryNames(stages[1..]);
      assert names[0] != "" <==> Truthy(stages[0].stageName);
    }
  }

  /** `(order_stages_like_humans(present)[:4] + ["", "", "", ""])[:4]`. */
  function StageSlots(stages: seq<StageEntry>): (r: seq<string>)
    ensures |r| == SlotCount
  {
    var ordered := Transforms.UniqueNonEmpty(PresentStageNames(stages));
    var head := if |ordered| <= SlotCount then ordered else ordered[..SlotCount];
    (head + ["", "", "", ""])[..SlotCount]
  }

  /** Exactly four slots: the first four distinct stage names in order of
      first appearance, then empty slots. */
  lemma StageSlotsSpec(stages: seq<StageEntry>)
    ensures var r := StageSlots(stages);
      var ordered := Transforms.UniqueNonEmpty(PresentStageNames(stages));
      && |r| == SlotCount
      && (forall k :: 0 <= k < SlotCount ==> (r[k] != "" <==> k < |ordered|))
      && (forall k :: 0 <= k < SlotCount && k < |ordered| ==> r[k] == ordered[k])
      && (forall i, j :: 0 <= i < j < SlotCount && r[i] != "" ==> r[i] != r[j])
      && (forall k :: 0 <= k < SlotCount && r[k] != "" ==> exists i :: 0 <= i < |stages| && stages[i].stageName == Some(r[k]))
  {
    var ordered := Transforms.UniqueNonEmpty(PresentStageNames(stages));
    var r := StageSlots(stages);
    forall k | 0 <= k < SlotCount && k < |ordered| ensures r[k] == ordered[k] && r[k] != "" {
      assert ordered[k] in ordered;
    }
  }

  /** The slots follow the entries: the first entry naming an earlier slot
      comes before the first entry naming a later, non-empty one. */
  lemma StageSlotsFollowEntries(stages: seq<StageEntry>, k: int, l: int)
    requires 0 <= k < l < SlotCount && StageSlots(stages)[l] != ""
    ensures var names, slots := EntryNames(stages), StageSlots(stages);
      && slots[k] != "" && slots[k] in names && slots[l] in names
      && Transforms.FirstIndex(names, slots[k]) < Transforms.FirstIndex(names, slots[l])
  {
    var present := PresentStageNames(stages);
    var ordered := Transforms.UniqueNonEmpty(present);
    StageSlotsSpec(stages);
    assert ordered[k] in ordered && ordered[l] in ordered;
    Transforms.UniqueNonEmptyKeepsFirstOccurrenceOrder(present);
    PresentStageNamesInOrder(stages);
    Transforms.FirstIndexThroughFilter(EntryNames(stages), NonEmptyName, ordered[k], ordered[l]);
  }

  /** The assignee column of one slot: `"Unassigned"` for an empty slot. */
  function SlotAssignee(stages: seq<StageEntry>, slot: string): (r: string)
    ensures r != ""
    ensures slot == "" ==> r == Transforms.Unassigned
    ensures slot != "" ==> r == Transforms.StageAssigneeForName(stages, Some(slot))
  {
    if slot != "" then Transforms.StageAssigneeForName(stages, Some(slot)) else Transforms.Unassigned
  }

  /** The assignee columns of the four slots. */
  function SlotAssignees(stages: seq<StageEntry>, slots: seq<string>): (r: seq<string>)
    requires |slots| == SlotCount
    ensures |r| == SlotCount && forall k :: 0 <= k < SlotCount ==> r[k] == SlotAssignee(stages, slots[k])
  {
    [SlotAssignee(stages, slots[0]), SlotAssignee(stages, slots[1]),
     SlotAssignee(stages, slots[2]), SlotAssignee(stages, slots[3])]
  }

  /** One displayed row; times are the parsed instants (their ISO text is not modelled). */
  datatype Row = Row(
    bundleName: string,
    state: string,
    currentStage: string,
    currentStageAssignee: string,
    lastUpdated: Option<Instant>,
    projectName: string,
    policyName: string,
    created: Option<Instant>,
    owner: string,
    stageNames: seq<string>,
    stageAssignees: seq<string>,
    repoBranch: string,
    bundleId: string,
    daysInStage: int)

  /** The row of one bundle at the instant `now`. It has four stage columns,
      each with a non-empty assignee (`"Unassigned"` under an empty slot), and
      a negative day count exactly when there is no update time or it lies
      after `now`. */
  function BundleRow(b: Bundle, now: Instant): (r: Row)
    ensures r.stageNames == StageSlots(b.stages)
    ensures |r.stageNames| == SlotCount && |r.stageAssignees| == SlotCount
    ensures forall k :: 0 <= k < SlotCount ==> r.stageAssignees[k] != ""
    ensures forall k :: 0 <= k < SlotCount && r.stageNames[k] == "" ==> r.stageAssignees[k] == Transforms.Unassigned
    ensures r.daysInStage >= 0 <==> Transforms.LastUpdated(b).Some? && Transforms.LastUpdated(b).value <= now
  {
    var slots := StageSlots(b.stages);
    StageSlotsSpec(b.stages);
    Transforms.DaysInCurrentStageSpec(b, now);
    Row(OrEmpty(b.name), OrEmpty(b.state), OrEmpty(b.stage), Transforms.CurrentStageAssignee(b),
        Transforms.LastUpdated(b), OrEmpty(b.projectName), OrEmpty(b.policyName), b.createdAt, Owner(b),
        slots, SlotAssignees(b.stages, slots),
        Transforms.SafeBranchFromAttachments(b.attachments), OrEmpty(b.id),
        Transforms.DaysInCurrentStage(b, now))
  }

  /** The sort key: the lower-cased name, a missing name as `""`. */
  function NameKey(b: Bundle): string {
    Text.Lower(OrEmpty(b.name))
  }

  /** `sorted(bundles, key=...)`: a stable sort by lower-cased name. */
  function SortedBundles(bundles: seq<Bundle>): (r: seq<Bundle>)
    ensures multiset(r) == multiset(bundles)
    ensures forall i, j :: 0 <= i < j < |r| ==> Text.LexLe(NameKey(r[i]), NameKey(r[j]))
  {
    Text.LexLeIsTotalPreorder();
    Seqs.Sort(bundles, NameKey, Text.LexLe)
  }

  /** `sorted` is stable: bundles whose lower-cased names are equal (two
      bundles named "B", or "Alpha" and "alpha") keep their input order. */
  lemma SortedBundlesStable(bundles: seq<Bundle>, sameName: Bundle -> bool, name: string)
    requires forall b :: sameName(b) == (NameKey(b) == name)
    ensures Seqs.Filter(SortedBundles(bundles), sameName) == Seqs.Filter(bundles, sameName)
  {
    Text.LexLeIsTotalPreorder();
    forall b ensures sameName(b) == (Text.LexLe(NameKey(b), name) && Text.LexLe(name, NameKey(b))) {
      Text.LexLeReflexive(name);
      if Text.LexLe(NameKey(b), name) && Text.LexLe(name, NameKey(b)) {
        Text.LexLeAntisymmetric(NameKey(b), name);
      }
    }
    Seqs.SortStable(bundles, NameKey, Text.LexLe, sameName, name);
  }

  /** Rows built from bundles in name order are in name order too. */
  lemma RowsFollowSortedBundles(sorted: seq<Bundle>, rows: seq<Row>, now: Instant)
    requires forall i, j :: 0 <= i < j < |sorted| ==> Text.LexLe(NameKey(sorted[i]), NameKey(sorted[j]))
    requires |rows| == |sorted| && forall k :: 0 <= k < |rows| ==> rows[k] == BundleRow(sorted[k], now)
    ensures forall i, j :: 0 <= i < j < |rows| ==> Text.LexLe(Text.Lower(rows[i].bundleName), Text.Lower(rows[j].bundleName))
  {
    forall k | 0 <= k < |rows| ensures Text.Lower(rows[k].bundleName) == NameKey(sorted[k]) {
      assert rows[k].bundleName == OrEmpty(sorted[k].name);
    }
  }

  /** The rows of `Render` are in order of lower-cased bundle name. */
  lemma RowsInNameOrder(bundles: seq<Bundle>, now: Instant)
    ensures var sorted := SortedBundles(bundles);
      forall i, j :: 0 <= i < j < |sorted| ==>
        Text.LexLe(Text.Lower(BundleRow(sorted[i], now).bundleName), Text.Lower(BundleRow(sorted[j], now).bundleName))
  {
    var sorted := SortedBundles(bundles);
    RowsFollowSortedBundles(sorted, seq(|sorted|, k requires 0 <= k < |sorted| => BundleRow(sorted[k], now)), now);
  }

  datatype View = NoBundles | Table(rows: seq<Row>)

  /** The rows of the first `n` bundles, one per bundle, in the same order. */
  function RowsOf(bundles: seq<Bundle>, n: nat, now: Instant): (r: seq<Row>)
    requires n <= |bundles|
  {
    Seqs.MapPrefix(bundles, n, (b: Bundle) => BundleRow(b, now))
  }

  /** The body of the row-building loop: the columns of one bundle, the four
      stage slots unpacked and each slot's assignee looked up in turn. */
  method BuildRow(b: Bundle, now: Instant) returns (row: Row)
    ensures row == BundleRow(b, now)
  {
    var slots := StageSlots(b.stages);
    StageSlotsSpec(b.stages);
    var s1, s2, s3, s4 := slots[0], slots[1], slots[2], slots[3];
    var a1 := if s1 != "" then Transforms.StageAssigneeForName(b.stages, Some(s1)) else Transforms.Unassigned;
    var a2 := if s2 != "" then Transforms.StageAssigneeForName(b.stages, Some(s2)) else Transforms.Unassigned;
    var a3 := if s3 != "" then Transforms.StageAssigneeForName(b.stages, Some(s3)) else Transforms.Unassigned;
    var a4 := if s4 != "" then Transforms.StageAssigneeForName(b.stages, Some(s4)) else Transforms.Unassigned;
    assert [s1, s2, s3, s4] == slots;
    row := Row(OrEmpty(b.name), OrEmpty(b.state), OrEmpty(b.stage), Transforms.CurrentStageAssignee(b),
               Transforms.LastUpdated(b), OrEmpty(b.projectName), OrEmpty(b.policyName), b.createdAt, Owner(b),
               [s1, s2, s3, s4], [a1, a2, a3, a4],
               Transforms.SafeBranchFromAttachments(b.attachments), OrEmpty(b.id),
               Transforms.DaysInCurrentStage(b, now));
  }

  /** The row-building loop of `render`: one row per bundle, in the given order. */
  method Rows(sorted: seq<Bundle>, now: Instant) returns (rows: seq<Row>)
    ensures rows == RowsOf(sorted, |sorted|, now)
  {
    rows := [];
    for i := 0 to |sorted|
      invariant rows == RowsOf(sorted, i, now)
    {
      var row := BuildRow(sorted[i], now);
      rows := rows + [row];
    }
  }

  /** `render` after the bundles are fetched; `now` stands for the wall clock. */
  method Render(bundles: seq<Bundle>, now: Instant) returns (v: View)
    ensures bundles == [] <==> v == NoBundles
    ensures v.Table? ==> |v.rows| == |bundles|
    ensures v.Table? ==> forall k :: 0 <= k < |v.rows| ==> v.rows[k] == BundleRow(SortedBundles(bundles)[k], now)
  {
    if bundles == [] {
      return NoBundles;
    }
    var sorted := SortedBundles(bundles);
    assert |sorted| == |multiset(sorted)| == |bundles|;
    var rows := Rows(sorted, now);
    forall k | 0 <= k < |rows| ensures rows[k] == BundleRow(sorted[k], now) {
      Seqs.MapPrefixAt(sorted, |sorted|, (b: Bundle) => BundleRow(b, now), k);
    }
    v := Table(rows);
  }
}
