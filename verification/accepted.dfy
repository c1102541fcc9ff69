/** What the validation pipe lets through, seen from the schema the service
    saves it with. */
module AcceptedReadings {
  import opened Json
  import opened Validation
  import opened ValidatorPipe
  import opened SensorSchema

  /** Every message the pipe accepts is a string, or an object the schema
      admits, stored with the values sent and the schema's invariant. */
  lemma AcceptedIsStorable(raw: RawMessage, now: int)
    requires Transform(raw).Ok?
    ensures Transform(raw).value.JString? || Transform(raw).value.JObject?
    ensures var v := Transform(raw).value;
      v.JObject? ==>
        && Admit(v.members, now).Ok?
        && Stored(Admit(v.members, now).value)
        && Admit(v.members, now).value.createdAt == now
  {
    TransformAccepts(raw);
    var v := Transform(raw).value;
    if v.JObject? {
      AdmitAccepts(v.members, now);
      AdmitStores(v.members, now);
    }
  }

  /** Every message the intended pipe accepts is an object the schema admits. */
  lemma IntendedIsStorable(raw: RawMessage, now: int)
    requires TransformIntended(raw).Ok?
    ensures TransformIntended(raw).value.JObject?
    ensures var ms := TransformIntended(raw).value.members;
      && Admit(ms, now).Ok?
      && Stored(Admit(ms, now).value)
      && Admit(ms, now).value.createdAt == now
  {
    TransformIntendedAccepts(raw);
    var ms := TransformIntended(raw).value.members;
    AdmitAccepts(ms, now);
    AdmitStores(ms, now);
  }

  /** For an object without undeclared keys the pipe and the schema draw the
      same line: one accepts exactly what the other admits. */
  lemma GateMatchesSchema(ms: Members, now: int)
    requires OnlyDeclaredKeys(ms)
    ensures Transform(Parsed(JObject(ms))).Ok? <==> Admit(ms, now).Ok?
  {
    TransformAccepts(Parsed(JObject(ms)));
    AdmitAccepts(ms, now);
  }
}
