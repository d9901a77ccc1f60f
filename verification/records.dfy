/** The records the governance explorer reads from the bundle and audit-event
    endpoints. Every scalar field of the JSON objects is optional; a missing
    key and an explicit null are both `None`. A list field is a plain
    sequence, empty when the key is missing (an explicit null, on which the
    code raises, is not represented). A nested object read as
    `(x.get("k") or {}).get("name")` is flattened to the one optional field
    that is read from it. Timestamps hold what `parse_dt` made of the raw
    value: `None` when it was absent or did not parse. */
module Records {
  import opened Wrappers

  /** `pd.Timestamp.min` and `pd.Timestamp.max`, in nanoseconds since the Unix epoch. */
  const MinInstant: int := -9223372036854775807
  const MaxInstant: int := 9223372036854775807

  /** A parsed, UTC instant: the range a pandas Timestamp can hold. */
  type Instant = t: int | MinInstant <= t <= MaxInstant

  const NanosPerDay: int := 86_400_000_000_000

  /** An entry of `bundle["stages"]`: `stage.name` and `assignee.name`. */
  datatype StageEntry = StageEntry(stageName: Option<string>, assigneeName: Option<string>)

  /** An entry of `bundle["attachments"]`: `createdAt` and `identifier.branch`. */
  datatype Attachment = Attachment(createdAt: Option<Instant>, branch: Option<string>)

  /** A governance bundle; `createdByUserName` is `createdBy.userName`. */
  datatype Bundle = Bundle(
    id: Option<string>,
    name: Option<string>,
    state: Option<string>,
    stage: Option<string>,
    projectName: Option<string>,
    policyName: Option<string>,
    createdAt: Option<Instant>,
    projectOwner: Option<string>,
    createdByUserName: Option<string>,
    stages: seq<StageEntry>,
    attachments: seq<Attachment>)

  /** An entity an audit event refers to (an `affecting` entry or a target's `entity`). */
  datatype Entity = Entity(entityType: Option<string>, name: Option<string>)

  /** One field-level change; `added` and `removed` hold the `name` of each listed assignee. */
  datatype FieldChange = FieldChange(
    fieldName: Option<string>,
    before: Option<string>,
    after: Option<string>,
    added: seq<Option<string>>,
    removed: seq<Option<string>>)

  datatype Target = Target(entity: Entity, fieldChanges: seq<FieldChange>)

  /** An audit event: `action.eventName`, `actor.name` and `in.name` are flattened. */
  datatype AuditEvent = AuditEvent(
    timestamp: Option<Instant>,
    eventName: Option<string>,
    actorName: Option<string>,
    projectName: Option<string>,
    affecting: seq<Entity>,
    targets: seq<Target>)

  /** `x or ""` for an optional string. */
  function OrEmpty(o: Option<string>): string {
    o.GetOr("")
  }

  /** Python truthiness of an optional string: present and non-empty. */
  predicate Truthy(o: Option<string>) {
    o.Some? && o.value != ""
  }
}
