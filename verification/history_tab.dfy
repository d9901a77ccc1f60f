/** Report logic of the audit-history view (`ui/tabs_history.py`): the
    bundle-name and project pick lists, resolving a name to the newest bundle,
    the audit query's parameters, the event filter and one row per event. */
module HistoryTab {
  import opened Wrappers
  import opened Records
  import Text
  import Seqs
  import Transforms

  const StageEntityType := "governancePolicyStage"
  const BundleEntityType := "governanceBundle"
  const Unassigned := Transforms.Unassigned

  // ---------------------------------------------------------------------------
  // `_pull_stage_name` and `_before_after`

  /** Every field change of an event, in target-then-change order. */
  function FieldChangesOf(targets: seq<Target>): seq<FieldChange> {
    if targets == [] then [] else targets[0].fieldChanges + FieldChangesOf(targets[1..])
  }

  /** The nested `for t in targets: for fc in t["fieldChanges"]` search,
      returning the first change satisfying `p`. */
  function ScanFieldChanges(targets: seq<Target>, p: FieldChange -> bool): (r: Option<FieldChange>)
    ensures r == Seqs.FindFirst(FieldChangesOf(targets), p)
  {
    if targets == [] then None
    else
      Seqs.FindFirstAppend(targets[0].fieldChanges, FieldChangesOf(targets[1..]), p);
      match Seqs.FindFirst(targets[0].fieldChanges, p)
      case Some(fc) => Some(fc)
      case None => ScanFieldChanges(targets[1..], p)
  }

  predicate IsNamedStageEntity(a: Entity) {
    a.entityType == Some(StageEntityType) && Truthy(a.name)
  }

  predicate IsStageChange(fc: FieldChange) {
    fc.fieldName == Some("stage")
  }

  /** `before or ""`, an arrow, `after or ""`. */
  function StageTransition(fc: FieldChange): (r: string)
    ensures r != ""
    ensures |r| == |OrEmpty(fc.before)| + 3 + |OrEmpty(fc.after)|
    ensures r[..|OrEmpty(fc.before)|] == OrEmpty(fc.before) && r[|r| - |OrEmpty(fc.after)|..] == OrEmpty(fc.after)
    ensures Text.IsAt(r, " \U{2192} ", |OrEmpty(fc.before)|)
  {
    OrEmpty(fc.before) + " \U{2192} " + OrEmpty(fc.after)
  }

  /** `_pull_stage_name`: the first named stage entity among `affecting`,
      else the first stage change written as a transition, else `""`. */
  function PullStageName(e: AuditEvent): (r: string)
    ensures r == "" <==>
      (forall k :: 0 <= k < |e.affecting| ==> !IsNamedStageEntity(e.affecting[k])) &&
      (forall k :: 0 <= k < |FieldChangesOf(e.targets)| ==> !IsStageChange(FieldChangesOf(e.targets)[k]))
    ensures forall k :: Seqs.IsFirstWhere(e.affecting, IsNamedStageEntity, k) ==> r == e.affecting[k].name.value
    ensures (forall k :: 0 <= k < |e.affecting| ==> !IsNamedStageEntity(e.affecting[k])) ==>
      forall k :: Seqs.IsFirstWhere(FieldChangesOf(e.targets), IsStageChange, k) ==>
        r == StageTransition(FieldChangesOf(e.targets)[k])
  {
    match Seqs.FindFirst(e.affecting, IsNamedStageEntity)
    case Some(a) => a.name.value
    case None =>
      match ScanFieldChanges(e.targets, IsStageChange)
      case Some(fc) => StageTransition(fc)
      case None => ""
  }

  /** The result of `_before_after`: before, after and the changed field. */
  datatype Diff = Diff(before: string, after: string, field: string)

  predicate IsRecognisedChange(fc: FieldChange) {
    fc.fieldName == Some("stage") || fc.fieldName == Some("state") || fc.fieldName == Some("assignee")
  }

  /** The name of the first listed assignee, or `"Unassigned"` when the list is empty or that name is. */
  function FirstAssignee(names: seq<Option<string>>): (r: string)
    ensures r != ""
    ensures |names| > 0 && Truthy(names[0]) ==> r == names[0].value
    ensures !(|names| > 0 && Truthy(names[0])) ==> r == Unassigned
  {
    if |names| > 0 && Truthy(names[0]) then names[0].value else Unassigned
  }

  /** What one recognised change reports. */
  function ChangeDiff(fc: FieldChange): (r: Diff)
    requires IsRecognisedChange(fc)
  {
    if fc.fieldName == Some("assignee") then Diff(FirstAssignee(fc.removed), FirstAssignee(fc.added), "assignee")
    else Diff(OrEmpty(fc.before), OrEmpty(fc.after), fc.fieldName.value)
  }

  /** `_before_after`: decided by the first recognised change in target-then-change order. */
  function BeforeAfter(e: AuditEvent): (r: Diff)
    ensures r.field in {"", "stage", "state", "assignee"}
    ensures r.field == "" <==> forall k :: 0 <= k < |FieldChangesOf(e.targets)| ==> !IsRecognisedChange(FieldChangesOf(e.targets)[k])
    ensures r.field == "" ==> r == Diff("", "", "")
    ensures forall k :: Seqs.IsFirstWhere(FieldChangesOf(e.targets), IsRecognisedChange, k) ==>
      r == ChangeDiff(FieldChangesOf(e.targets)[k])
  {
    match ScanFieldChanges(e.targets, IsRecognisedChange)
    case Some(fc) => ChangeDiff(fc)
    case None => Diff("", "", "")
  }

  /** For a stage or state change the raw values are reported, missing ones as `""`. */
  lemma BeforeAfterOfStateChange(e: AuditEvent, k: nat)
    requires Seqs.IsFirstWhere(FieldChangesOf(e.targets), IsRecognisedChange, k)
    requires FieldChangesOf(e.targets)[k].fieldName in {Some("stage"), Some("state")}
    ensures var fc := FieldChangesOf(e.targets)[k];
      BeforeAfter(e) == Diff(OrEmpty(fc.before), OrEmpty(fc.after), fc.fieldName.value)
  {
  }

  /** An assignee change with nobody removed and Alice added reads `("Unassigned", "Alice", "assignee")`. */
  lemma BeforeAfterAssigneeExample(e: AuditEvent)
    requires e.targets == [Target(Entity(None, None), [FieldChange(Some("assignee"), None, None, [Some("Alice")], [])])]
    ensures BeforeAfter(e) == Diff("Unassigned", "Alice", "assignee")
  {
    assert FieldChangesOf(e.targets) == e.targets[0].fieldChanges;
    assert Seqs.IsFirstWhere(FieldChangesOf(e.targets), IsRecognisedChange, 0);
  }

  // ---------------------------------------------------------------------------
  // Pick lists and bundle resolution

  function NameOrEmpty(b: Bundle): string { OrEmpty(b.name) }

  function ProjectOrEmpty(b: Bundle): string { OrEmpty(b.projectName) }

  function LowerKey(s: string): string { Text.Lower(s) }

  function Same(s: string): string { s }

  /** `field` of every bundle, in input order. */
  function Values(bundles: seq<Bundle>, field: Bundle -> string): (vs: seq<string>)
    ensures |vs| == |bundles|
    ensures forall k :: 0 <= k < |bundles| ==> vs[k] == field(bundles[k])
  {
    if bundles == [] then [] else [field(bundles[0])] + Values(bundles[1..], field)
  }

  lemma InValues(bundles: seq<Bundle>, field: Bundle -> string, x: string)
    ensures x in Values(bundles, field) <==> exists b :: b in bundles && field(b) == x
  {
    var vs := Values(bundles, field);
    if exists b :: b in bundles && field(b) == x {
      var b :| b in bundles && field(b) == x;
      var k :| 0 <= k < |bundles| && bundles[k] == b;
      assert vs[k] == x;
    }
  }

  /** The pick list sorted under `key`: `{b.get(field) for b in bundles if
      b.get(field)}` (a set has no order of its own; it is taken here in
      first-occurrence order before the stable sort) in `sorted(..., key=key)`. */
  function SortedDistinct(bundles: seq<Bundle>, field: Bundle -> string, key: string -> string): (r: seq<string>)
    ensures forall x :: x in r <==> x != "" && x in Values(bundles, field)
    ensures Seqs.NoDuplicates(r)
    ensures Seqs.SortedBy(r, key, Text.LexLe)
  {
    Text.LexLeIsTotalPreorder();
    var d := Transforms.UniqueNonEmpty(Values(bundles, field));
    var r := Seqs.Sort(d, key, Text.LexLe);
    Seqs.NoDuplicatesPermutation(d, r);
    Seqs.SameElements(d, r);
    r
  }

  /** The bundle pick list: the distinct non-empty names, ordered case-insensitively. */
  function BundleNames(bundles: seq<Bundle>): (r: seq<string>)
    ensures Seqs.NoDuplicates(r) && forall x :: x in r ==> x != ""
  {
    SortedDistinct(bundles, NameOrEmpty, LowerKey)
  }

  lemma BundleNamesSpec(bundles: seq<Bundle>)
    ensures var r := BundleNames(bundles);
      && (forall x :: x in r <==> x != "" && exists b :: b in bundles && b.name == Some(x))
      && Seqs.NoDuplicates(r)
      && (forall i, j :: 0 <= i < j < |r| ==> Text.LexLe(Text.Lower(r[i]), Text.Lower(r[j])))
  {
    forall x ensures x in BundleNames(bundles) <==> x != "" && exists b :: b in bundles && b.name == Some(x) {
      InValues(bundles, NameOrEmpty, x);
    }
  }

  /** The project pick list: the distinct non-empty project names in string order. */
  function ProjectNames(bundles: seq<Bundle>): (r: seq<string>)
    ensures Seqs.NoDuplicates(r) && forall x :: x in r ==> x != ""
  {
    SortedDistinct(bundles, ProjectOrEmpty, Same)
  }

  lemma ProjectNamesSpec(bundles: seq<Bundle>)
    ensures var r := ProjectNames(bundles);
      && (forall x :: x in r <==> x != "" && exists b :: b in bundles && b.projectName == Some(x))
      && Seqs.NoDuplicates(r)
      && (forall i, j :: 0 <= i < j < |r| ==> Text.LexLe(r[i], r[j]))
  {
    forall x ensures x in ProjectNames(bundles) <==> x != "" && exists b :: b in bundles && b.projectName == Some(x) {
      InValues(bundles, ProjectOrEmpty, x);
    }
  }

  /** The sort key of the candidates: an unparsed `createdAt` ranks as `pd.Timestamp.min`. */
  function CreatedKey(b: Bundle): int {
    if b.createdAt.Some? then b.createdAt.value else MinInstant
  }

  predicate AnyBundle(b: Bundle) { true }

  /** The bundles carrying the selected name, in input order. */
  function NameCandidates(bundles: seq<Bundle>, selected: string): (r: seq<Bundle>)
    ensures forall b :: b in r <==> b in bundles && b.name == Some(selected)
  {
    Seqs.Filter(bundles, (b: Bundle) => b.name == Some(selected))
  }

  /** `i` is the newest candidate, the earliest in the input on ties. */
  ghost predicate IsNewest(cand: seq<Bundle>, i: int) {
    && 0 <= i < |cand|
    && (forall j :: 0 <= j < |cand| ==> CreatedKey(cand[j]) <= CreatedKey(cand[i]))
    && (forall j :: 0 <= j < i ==> CreatedKey(cand[j]) < CreatedKey(cand[i]))
  }

  lemma NewestUnique(cand: seq<Bundle>, i: int, k: int)
    requires IsNewest(cand, i) && IsNewest(cand, k)
    ensures i == k
  {
    assert CreatedKey(cand[i]) == CreatedKey(cand[k]);
  }

  /** `id or None`, with Python's truthiness. */
  function TruthyId(b: Bundle): Option<string> {
    if Truthy(b.id) then b.id else None
  }

  /** Sorting the candidates newest first (stably) and taking the first one's
      id, or no id when there is no candidate. */
  function ResolveBundleId(bundles: seq<Bundle>, selected: string): (r: Option<string>)
    ensures r.Some? ==> r.value != ""
  {
    Seqs.AtLeastIsTotalPreorder();
    var sorted := Seqs.Sort(NameCandidates(bundles, selected), CreatedKey, Seqs.AtLeast);
    if sorted == [] then None else TruthyId(sorted[0])
  }

  /** The head of the newest-first sort is the newest candidate. */
  lemma NewestHeadsSort(cand: seq<Bundle>) returns (i: int)
    requires cand != []
    ensures IsNewest(cand, i)
    ensures Seqs.TotalPreorder(Seqs.AtLeast) && cand[i] == Seqs.Sort(cand, CreatedKey, Seqs.AtLeast)[0]
  {
    Seqs.AtLeastIsTotalPreorder();
    var sorted := Seqs.Sort(cand, CreatedKey, Seqs.AtLeast);
    Seqs.FindFirstOfSorted(cand, CreatedKey, Seqs.AtLeast, AnyBundle);
    assert Seqs.IsFirstWhere(sorted, AnyBundle, 0);
    i :| Seqs.IsFirstBest(cand, CreatedKey, Seqs.AtLeast, AnyBundle, i) && cand[i] == sorted[0];
  }

  /** The resolved id is the newest candidate's (the earliest listed on ties). */
  lemma ResolveBundleIdSpec(bundles: seq<Bundle>, selected: string)
    ensures NameCandidates(bundles, selected) == [] <==>
      (ResolveBundleId(bundles, selected) == None && forall i :: !IsNewest(NameCandidates(bundles, selected), i))
    ensures forall i :: IsNewest(NameCandidates(bundles, selected), i) ==>
      ResolveBundleId(bundles, selected) == TruthyId(NameCandidates(bundles, selected)[i])
  {
    var cand := NameCandidates(bundles, selected);
    if cand != [] {
      var i := NewestHeadsSort(cand);
      forall k | IsNewest(cand, k) ensures cand[k] == cand[i] {
        NewestUnique(cand, i, k);
      }
    }
  }

  /** Two bundles sharing a name: the later-created one is resolved. */
  lemma ResolvePrefersLaterBundle(early: Bundle, late: Bundle, name: string)
    requires early.name == Some(name) && late.name == Some(name) && name != ""
    requires CreatedKey(early) < CreatedKey(late)
    ensures ResolveBundleId([early, late], name) == TruthyId(late)
  {
    var cand := NameCandidates([early, late], name);
    assert cand == [early, late];
    assert IsNewest(cand, 1);
    ResolveBundleIdSpec([early, late], name);
  }

  // ---------------------------------------------------------------------------
  // The audit query

  datatype Param = Text(text: string) | Number(n: int)

  /** A date bound as sent: kept when it already has a time part (`"T"`), else given `suffix`. */
  function CompleteBound(value: string, suffix: string): (r: string)
    ensures |value| <= |r| && r[..|value|] == value
    ensures 'T' in suffix ==> 'T' in r
    ensures r == value || r == value + suffix
    ensures 'T' in value ==> r == value
  {
    if 'T' in value then value else value + suffix
  }

  /** Completing a bound twice changes nothing more. */
  lemma CompleteBoundIdempotent(value: string, suffix: string)
    requires 'T' in suffix
    ensures CompleteBound(CompleteBound(value, suffix), suffix) == CompleteBound(value, suffix)
  {
  }

  const SinceSuffix := "T00:00:00Z"
  const UntilSuffix := "T23:59:59Z"

  /** The `params` dict of the audit query: the fixed entries, then `since` and
      `until` when the text was given and `pd.to_datetime` accepted it
      (`startParses`, `endParses`). */
  function AuditQueryParams(bundleId: string, startIso: string, startParses: bool, endIso: string, endParses: bool)
    : (params: map<string, Param>)
    ensures forall k :: k in params ==> k in ["targetType", "targetId", "limit", "sort", "since", "until"]
    ensures "targetType" in params && "targetId" in params && "limit" in params && "sort" in params
    ensures "since" in params <==> startIso != "" && startParses
    ensures "until" in params <==> endIso != "" && endParses
    ensures params["targetType"] == Text(BundleEntityType) && params["targetId"] == Text(bundleId)
    ensures params["limit"] == Number(500) && params["sort"] == Text("-timestamp")
    ensures "since" in params ==> params["since"] == Text(CompleteBound(startIso, SinceSuffix))
    ensures "until" in params ==> params["until"] == Text(CompleteBound(endIso, UntilSuffix))
  {
    var fixed := map["targetType" := Text(BundleEntityType), "targetId" := Text(bundleId),
                     "limit" := Number(500), "sort" := Text("-timestamp")];
    var withSince := if startIso != "" && startParses then fixed["since" := Text(CompleteBound(startIso, SinceSuffix))] else fixed;
    if endIso != "" && endParses then withSince["until" := Text(CompleteBound(endIso, UntilSuffix))] else withSince
  }

  // ---------------------------------------------------------------------------
  // The event filter

  /** `keep(e)`: an empty choice list imposes nothing; otherwise the value must be listed. */
  predicate Keep(e: AuditEvent, evChoices: seq<string>, projFilter: seq<string>)
    ensures evChoices == [] && projFilter == [] ==> Keep(e, evChoices, projFilter)
    ensures Keep(e, evChoices, projFilter) && evChoices != [] ==> e.eventName.Some?
    ensures Keep(e, evChoices, projFilter) && projFilter != [] ==> e.projectName.Some?
  {
    && (evChoices != [] ==> e.eventName.Some? && e.eventName.value in evChoices)
    && (projFilter != [] ==> e.projectName.Some? && e.projectName.value in projFilter)
  }

  /** `[e for e in events if keep(e)]`. */
  function FilterEvents(events: seq<AuditEvent>, evChoices: seq<string>, projFilter: seq<string>): (r: seq<AuditEvent>)
    ensures forall e :: e in r <==> e in events && Keep(e, evChoices, projFilter)
    ensures evChoices == [] && projFilter == [] ==> r == events
  {
    if evChoices == [] && projFilter == [] then
      Seqs.FilterAll(events, e => Keep(e, evChoices, projFilter));
      Seqs.Filter(events, e => Keep(e, evChoices, projFilter))
    else Seqs.Filter(events, e => Keep(e, evChoices, projFilter))
  }

  /** The filter keeps the order of the events it keeps. */
  lemma FilterEventsKeepsOrder(a: seq<AuditEvent>, b: seq<AuditEvent>, evChoices: seq<string>, projFilter: seq<string>)
    ensures FilterEvents(a + b, evChoices, projFilter)
      == FilterEvents(a, evChoices, projFilter) + FilterEvents(b, evChoices, projFilter)
  {
    Seqs.FilterAppend(a, b, e => Keep(e, evChoices, projFilter));
  }

  // ---------------------------------------------------------------------------
  // Rows

  predicate NamesBundle(t: Target) {
    t.entity.entityType == Some(BundleEntityType) && Truthy(t.entity.name)
  }

  /** `k` is the last target that names a bundle. */
  ghost predicate IsLastBundleTarget(targets: seq<Target>, k: int) {
    0 <= k < |targets| && NamesBundle(targets[k]) && forall j :: k < j < |targets| ==> !NamesBundle(targets[j])
  }

  /** The bundle name a row shows: the last non-empty name among the
      `governanceBundle` targets, or `""`. */
  function LastBundleName(targets: seq<Target>): (r: string)
    ensures r == "" <==> forall k :: 0 <= k < |targets| ==> !NamesBundle(targets[k])
    ensures forall k :: IsLastBundleTarget(targets, k) ==> r == targets[k].entity.name.value
  {
    if targets == [] then ""
    else
      var p, t := targets[..|targets| - 1], targets[|targets| - 1];
      assert forall k :: 0 <= k < |p| ==> targets[k] == p[k];
      if NamesBundle(t) then t.entity.name.value
      else
        assert forall k :: IsLastBundleTarget(targets, k) ==> IsLastBundleTarget(p, k);
        LastBundleName(p)
  }

  /** The loop that updates `bundle_nm` for each target (`ent.get("name") or bundle_nm`). */
  method EventBundleName(targets: seq<Target>) returns (bundleNm: string)
    ensures bundleNm == LastBundleName(targets)
  {
    bundleNm := "";
    for i := 0 to |targets|
      invariant bundleNm == LastBundleName(targets[..i])
    {
      assert targets[..i + 1][..i] == targets[..i];
      var ent := targets[i].entity;
      if ent.entityType == Some(BundleEntityType) {
        bundleNm := if Truthy(ent.name) then ent.name.value else bundleNm;
      }
    }
    assert targets[..|targets|] == targets;
  }

  /** One displayed row; the time is the parsed instant (its ISO text is not modelled). */
  datatype Row = Row(
    time: Option<Instant>,
    action: string,
    stage: string,
    user: string,
    project: string,
    bundle: string,
    before: string,
    after: string,
    change: string,
    notes: string)

  /** The row of an event whose bundle column reads `bundleNm`. */
  function EventRowNamed(e: AuditEvent, bundleNm: string): Row {
    var d := BeforeAfter(e);
    Row(e.timestamp, OrEmpty(e.eventName), PullStageName(e), OrEmpty(e.actorName), OrEmpty(e.projectName),
        bundleNm, d.before, d.after, d.field, "")
  }

  /** The row of an event: its bundle column names the last bundle target. */
  function EventRow(e: AuditEvent): (r: Row)
    ensures r.change in {"", "stage", "state", "assignee"}
    ensures r.change == "" ==> r.before == "" && r.after == ""
    ensures r.notes == ""
  {
    EventRowNamed(e, LastBundleName(e.targets))
  }

  /** The body of the loop over the filtered events: one row, with the bundle name found by the inner loop. */
  method BuildEventRow(e: AuditEvent) returns (row: Row)
    ensures row == EventRow(e)
  {
    var bundleNm := EventBundleName(e.targets);
    row := EventRowNamed(e, bundleNm);
  }

  /** The rows of `events`, one per event, in the same order. */
  function EventRowsOf(events: seq<AuditEvent>): (r: seq<Row>)
    ensures |r| == |events|
  {
    if events == [] then [] else EventRowsOf(events[..|events| - 1]) + [EventRow(events[|events| - 1])]
  }

  /** Row `k` is the row of event `k`. */
  lemma {:induction false} EventRowsOfAt(events: seq<AuditEvent>, k: int)
    requires 0 <= k < |events|
    ensures EventRowsOf(events)[k] == EventRow(events[k])
    decreases |events|
  {
    if k < |events| - 1 {
      EventRowsOfAt(events[..|events| - 1], k);
    }
  }

  /** The `rows.append(...)` loop over the filtered events. */
  method EventRows(filtered: seq<AuditEvent>) returns (rows: seq<Row>)
    ensures rows == EventRowsOf(filtered)
  {
    rows := [];
    for i := 0 to |filtered|
      invariant rows == EventRowsOf(filtered[..i])
    {
      var row := BuildEventRow(filtered[i]);
      assert filtered[..i + 1][..i] == filtered[..i];
      rows := rows + [row];
    }
    assert filtered[..|filtered|] == filtered;
  }

  /** What the view shows. */
  datatype View = PickBundle | BundleNotFound | NoEvents | Table(rows: seq<Row>)

  /** `render` after the inputs are read: `fetch` stands for the audit endpoint. */
  method Render(bundles: seq<Bundle>, selected: string, evChoices: seq<string>, projFilter: seq<string>,
                startIso: string, startParses: bool, endIso: string, endParses: bool,
                fetch: map<string, Param> -> seq<AuditEvent>)
    returns (v: View)
    ensures selected == "" ==> v == PickBundle
    ensures selected != "" && ResolveBundleId(bundles, selected).None? ==> v == BundleNotFound
    ensures v.Table? ==> |v.rows| > 0 && selected != "" && ResolveBundleId(bundles, selected).Some?
    ensures selected != "" && ResolveBundleId(bundles, selected).Some? ==>
      var q := AuditQueryParams(ResolveBundleId(bundles, selected).value, startIso, startParses, endIso, endParses);
      var kept := FilterEvents(fetch(q), evChoices, projFilter);
      && (kept == [] ==> v == NoEvents)
      && (kept != [] ==> v == Table(EventRowsOf(kept)))
  {
    if selected == "" {
      return PickBundle;
    }
    var bundleId := ResolveBundleId(bundles, selected);
    if bundleId.None? {
      return BundleNotFound;
    }
    var params := AuditQueryParams(bundleId.value, startIso, startParses, endIso, endParses);
    var filtered := FilterEvents(fetch(params), evChoices, projFilter);
    var rows := EventRows(filtered);
    if rows == [] {
      v := NoEvents;
    } else {
      v := Table(rows);
    }
  }
}
