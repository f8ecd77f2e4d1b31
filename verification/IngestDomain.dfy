/** Vocabulary of measurement ingest: events, documents, error codes, and the envelope check. */
module IngestDomain {
  import opened Collections

  /** The four codes of the contract with the Edge. */
  datatype Code = Duplicate | InvalidSchema | ValidationFailed | StorageUnavailable

  /** Contents are copied, never looked at. */
  type Payload = string

  datatype DeviceContext = DeviceContext(tenantId: string, deviceId: string, machineId: string)

  /** A raw event after JSON decoding. Every field may be absent. `ts`, `seqNo` and `schemaVersion` may be
      present and unreadable: Some(None). */
  datatype RawEvent =
    | Undecodable
    | Envelope(eventId: Option<string>, machineId: Option<string>, ts: Option<Option<int>>,
               seqNo: Option<Option<int>>, kind: Option<string>, schemaVersion: Option<Option<int>>,
               payload: Option<Payload>)

  datatype Measurement = Measurement(
    eventId: string, tenantId: string, deviceId: string, machineId: string, ts: int,
    seqNo: Option<int>, kind: string, schemaVersion: int, payload: Payload, receivedAt: int)

  /** The message of an error, by name: the wording is for people, only a storage message carries text. */
  datatype Message =
    | NotJson | Missing(field: Field) | BadTimestamp | BadSchemaVersion | BadSeq | WrongMachine
    | AlreadyIngested | NotSerializable | Storage(text: string)

  datatype Field = EventIdField | MachineIdField | TsField | KindField | SchemaVersionField | PayloadField

  datatype EventError = EventError(index: nat, code: Code, message: Message)

  datatype IngestResult = IngestResult(accepted: int, rejected: int, errors: seq<EventError>)

  const MAX_SCHEMA_VERSION := 1

  datatype Skew = NoSkew | UnknownKind | SchemaVersionAhead

  datatype Verdict = Rejected(code: Code, message: Message) | Admitted(doc: Measurement, skew: Skew)

  predicate KnownKind(kind: string) {
    kind == "metric" || kind == "alarm" || kind == "heartbeat"
  }

  function Invalid(message: Message): Verdict { Rejected(InvalidSchema, message) }

  /** The envelope check: required fields, then types, then the machine. */
  function ValidateEvent(e: RawEvent, dev: DeviceContext, now: int): Verdict {
    if e.Undecodable? then Invalid(NotJson)
    else if e.eventId.None? || e.eventId.value == "" then Invalid(Missing(EventIdField))
    else if e.machineId.None? || e.machineId.value == "" then Invalid(Missing(MachineIdField))
    else if e.ts.None? then Invalid(Missing(TsField))
    else if e.kind.None? then Invalid(Missing(KindField))
    else if e.schemaVersion.None? then Invalid(Missing(SchemaVersionField))
    else if e.payload.None? then Invalid(Missing(PayloadField))
    else if e.ts.value.None? then Invalid(BadTimestamp)
    else
      var skew := if KnownKind(e.kind.value) then NoSkew else UnknownKind;
      if e.schemaVersion.value.None? || e.schemaVersion.value.value < 1 then
        Invalid(BadSchemaVersion)
      else if e.seqNo.Some? && (e.seqNo.value.None? || e.seqNo.value.value < 0) then
        Invalid(BadSeq)
      else if e.machineId.value != dev.machineId then
        Rejected(ValidationFailed, WrongMachine)
      else
        var version := e.schemaVersion.value.value;
        var doc := Measurement(
          e.eventId.value, dev.tenantId, dev.deviceId, e.machineId.value, e.ts.value.value,
          if e.seqNo.Some? then e.seqNo.value else None,
          e.kind.value, version, e.payload.value, now);
        Admitted(doc, if version > MAX_SCHEMA_VERSION && skew == NoSkew then SchemaVersionAhead else skew)
  }

  /** What the contract asks of an envelope, with no order of checks. */
  ghost predicate WellFormed(e: RawEvent) {
    && e.Envelope?
    && e.eventId.Some? && e.eventId.value != ""
    && e.machineId.Some? && e.machineId.value != ""
    && e.ts.Some? && e.ts.value.Some?
    && e.kind.Some? && e.payload.Some?
    && e.schemaVersion.Some? && e.schemaVersion.value.Some? && e.schemaVersion.value.value >= 1
    && (e.seqNo.Some? ==> e.seqNo.value.Some? && e.seqNo.value.value >= 0)
  }

  /** An event is admitted exactly when its envelope is well formed and it names the machine of the key; the two
      ways to fail have different codes. Kind and schema version never reject. */
  lemma EnvelopeVerdict(e: RawEvent, dev: DeviceContext, now: int)
    ensures ValidateEvent(e, dev, now).Admitted? <==> WellFormed(e) && e.machineId == Some(dev.machineId)
    ensures ValidateEvent(e, dev, now).Rejected? ==>
              ValidateEvent(e, dev, now).code == if WellFormed(e) then ValidationFailed else InvalidSchema
  {
  }

  /** A document has the fields of its event, the identity of the key, and the time of arrival. */
  ghost predicate HasFieldsOf(doc: Measurement, e: RawEvent, dev: DeviceContext, now: int) {
    && e.Envelope?
    && Some(doc.eventId) == e.eventId && Some(Some(doc.ts)) == e.ts && Some(doc.kind) == e.kind
    && Some(Some(doc.schemaVersion)) == e.schemaVersion && Some(doc.payload) == e.payload
    && (if e.seqNo.None? then doc.seqNo == None else Some(doc.seqNo) == e.seqNo && doc.seqNo.Some?)
    && doc.tenantId == dev.tenantId && doc.deviceId == dev.deviceId && doc.machineId == dev.machineId
    && doc.receivedAt == now
  }

  /** The document of an admitted event carries every field of it; skew names an unknown kind first, then a version
      this build does not know. */
  lemma AdmittedDocument(e: RawEvent, dev: DeviceContext, now: int)
    requires ValidateEvent(e, dev, now).Admitted?
    ensures var Admitted(doc, skew) := ValidateEvent(e, dev, now);
      && HasFieldsOf(doc, e, dev, now)
      && (skew == UnknownKind <==> doc.kind !in {"metric", "alarm", "heartbeat"})
      && (skew == SchemaVersionAhead <==> doc.kind in {"metric", "alarm", "heartbeat"} && doc.schemaVersion > 1)
  {
  }

  predicate LacksField(e: RawEvent, field: Field)
    requires e.Envelope?
  {
    match field
    case EventIdField => e.eventId.None? || e.eventId == Some("")
    case MachineIdField => e.machineId.None? || e.machineId == Some("")
    case TsField => e.ts.None?
    case KindField => e.kind.None?
    case SchemaVersionField => e.schemaVersion.None?
    case PayloadField => e.payload.None?
  }

  /** The message of a rejection tells the truth about the event. */
  lemma RejectionIsTrue(e: RawEvent, dev: DeviceContext, now: int)
    requires ValidateEvent(e, dev, now).Rejected?
    ensures match ValidateEvent(e, dev, now).message
            case NotJson => e.Undecodable?
            case Missing(field) => e.Envelope? && LacksField(e, field)
            case BadTimestamp => e.Envelope? && e.ts == Some(None)
            case BadSchemaVersion =>
              e.Envelope? && e.schemaVersion.Some? && (e.schemaVersion.value.Some? ==> e.schemaVersion.value.value < 1)
            case BadSeq => e.Envelope? && e.seqNo.Some? && (e.seqNo.value.Some? ==> e.seqNo.value.value < 0)
            case WrongMachine => e.Envelope? && e.machineId.Some? && e.machineId.value != dev.machineId
            case _ => false
  {
  }

  /** A rejection is always terminal for the Edge. */
  lemma RejectionIsTerminal(e: RawEvent, dev: DeviceContext, now: int)
    ensures var v := ValidateEvent(e, dev, now); v.Rejected? ==> v.code in {InvalidSchema, ValidationFailed}
  {
  }

  // ------------------------------------------------------------- the unique index

  /** Key of the index uq_tenant_eventId. */
  function Key(m: Measurement): (string, string) { (m.tenantId, m.eventId) }

  predicate HasKey(docs: seq<Measurement>, key: (string, string)) {
    exists i :: 0 <= i < |docs| && Key(docs[i]) == key
  }

  ghost predicate UniqueKeys(docs: seq<Measurement>) {
    forall i, j :: 0 <= i < j < |docs| ==> Key(docs[i]) != Key(docs[j])
  }
}
