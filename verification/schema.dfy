/** The `SensorData` Mongoose schema: the paths it declares with their
    `required`, `enum`, `min` and `max` options, the `createdAt` default and
    the timestamps it adds, and the stored record they admit. */
module SensorSchema {
  import opened Wrappers
  import opened Json
  import opened SensorDataDto

  /** The Mongoose type of a path with its options: a `String` path with an
      optional `enum`, or a `Number` path with optional `min` and `max`. */
  datatype SchemaType =
    | SString(enumValues: Option<seq<string>>)
    | SNumber(min: Option<real>, max: Option<real>)

  /** A declared path of the schema. */
  datatype PathSpec = PathSpec(name: string, required: bool, kind: SchemaType)

  const UnitValues: seq<string> := ["C", "F"]
  const HumidityMin: real := 0.0
  const HumidityMax: real := 100.0

  const SensorIdPath: PathSpec := PathSpec(SensorIdName, true, SString(None))
  const UnitPath: PathSpec := PathSpec(TemperatureUnitName, true, SString(Some(UnitValues)))
  const TemperaturePath: PathSpec := PathSpec(TemperatureName, true, SNumber(None, None))
  const HumidityPath: PathSpec := PathSpec(HumidityName, true, SNumber(Some(HumidityMin), Some(HumidityMax)))

  /** The validated paths of `SensorData`, in declaration order. `createdAt`
      has only a default and is filled in rather than validated. */
  const SensorDataPaths: seq<PathSpec> := [SensorIdPath, UnitPath, TemperaturePath, HumidityPath]

  /** A stored document. Times are milliseconds since the epoch. */
  datatype SensorData = SensorData(
    sensorId: string,
    temperatureUnit: string,
    temperature: real,
    humidity: real,
    createdAt: int,
    updatedAt: int)

  /** The invariant every stored record keeps. */
  predicate Stored(d: SensorData) {
    && d.temperatureUnit in UnitValues
    && HumidityMin <= d.humidity <= HumidityMax
    && d.createdAt <= d.updatedAt
  }

  /** Why a path is refused. */
  datatype Violation =
    | Required(path: string)
    | CastError(path: string)
    | NotInEnum(path: string)
    | BelowMin(path: string)
    | AboveMax(path: string)

  /** Mongoose's verdict on one path: a missing or null value fails
      `required`; a value of the wrong JSON type fails to cast; otherwise the
      `enum`, `min` and `max` options are checked. */
  function PathViolation(p: PathSpec, v: Option<Json>): (r: Option<Violation>)
    ensures r.Some? ==> r.value.path == p.name
  {
    if v.None? || v.value.JNull? then
      if p.required then Some(Required(p.name)) else None
    else
      match p.kind
      case SString(values) =>
        if !v.value.JString? then Some(CastError(p.name))
        else if values.Some? && v.value.s !in values.value then Some(NotInEnum(p.name))
        else None
      case SNumber(min, max) =>
        if !v.value.JNumber? then Some(CastError(p.name))
        else if min.Some? && v.value.n < min.value then Some(BelowMin(p.name))
        else if max.Some? && v.value.n > max.value then Some(AboveMax(p.name))
        else None
  }

  /** The violations of the given paths, in path order, at most one per path. */
  function Violations(ms: Members, paths: seq<PathSpec>): seq<Violation> {
    if paths == [] then []
    else
      var rest := Violations(ms, paths[1..]);
      match PathViolation(paths[0], Get(ms, paths[0].name))
      case Some(x) => [x] + rest
      case None => rest
  }

  /** Path `i` of `paths` refuses its value in `ms` with violation `x`. */
  predicate Refuses(ms: Members, paths: seq<PathSpec>, i: int, x: Violation) {
    0 <= i < |paths| && PathViolation(paths[i], Get(ms, paths[i].name)) == Some(x)
  }

  /** The violations are exactly those of the paths that refuse their values. */
  lemma {:induction false} ViolationsAre(ms: Members, paths: seq<PathSpec>)
    ensures forall x :: x in Violations(ms, paths) <==> exists i :: Refuses(ms, paths, i, x)
  {
    if paths != [] {
      var tail := paths[1..];
      ViolationsAre(ms, tail);
      forall x
        ensures (exists i :: Refuses(ms, paths, i, x)) <==>
          PathViolation(paths[0], Get(ms, paths[0].name)) == Some(x) || exists j :: Refuses(ms, tail, j, x)
      {
        if exists i :: Refuses(ms, paths, i, x) {
          var i :| Refuses(ms, paths, i, x);
          if i > 0 {
            assert Refuses(ms, tail, i - 1, x);
          }
        }
        if exists j :: Refuses(ms, tail, j, x) {
          var j :| Refuses(ms, tail, j, x);
          assert Refuses(ms, paths, j + 1, x);
        }
        if PathViolation(paths[0], Get(ms, paths[0].name)) == Some(x) {
          assert Refuses(ms, paths, 0, x);
        }
      }
    }
  }

  /** No violation at all exactly when every path accepts its value. */
  lemma {:induction false} ViolationsEmpty(ms: Members, paths: seq<PathSpec>)
    ensures Violations(ms, paths) == [] <==>
      forall i :: 0 <= i < |paths| ==> PathViolation(paths[i], Get(ms, paths[i].name)).None?
  {
    if paths != [] {
      var tail := paths[1..];
      ViolationsEmpty(ms, tail);
      assert forall j :: 0 <= j < |tail| ==> tail[j] == paths[j + 1];
      if forall j :: 0 <= j < |tail| ==> PathViolation(tail[j], Get(ms, tail[j].name)).None? {
        forall i | 0 < i < |paths|
          ensures PathViolation(paths[i], Get(ms, paths[i].name)).None?
        {
          assert paths[i] == tail[i - 1];
        }
      }
    }
  }

  /** The four verdicts `Violations` collects over the schema's paths. */
  lemma SchemaViolations(ms: Members)
    ensures Violations(ms, SensorDataPaths) == [] <==>
      && PathViolation(SensorIdPath, Get(ms, SensorIdName)).None?
      && PathViolation(UnitPath, Get(ms, TemperatureUnitName)).None?
      && PathViolation(TemperaturePath, Get(ms, TemperatureName)).None?
      && PathViolation(HumidityPath, Get(ms, HumidityName)).None?
  {
    ViolationsEmpty(ms, SensorDataPaths);
    var ps := SensorDataPaths;
    assert |ps| == 4 && ps[0] == SensorIdPath && ps[1] == UnitPath && ps[2] == TemperaturePath && ps[3] == HumidityPath;
    assert ps[0].name == SensorIdName && ps[1].name == TemperatureUnitName;
    assert ps[2].name == TemperatureName && ps[3].name == HumidityName;
  }

  /** What each path accepts, stated directly. */
  lemma PathsAccept(v: Option<Json>)
    ensures PathViolation(SensorIdPath, v).None? <==> IsStringValue(v)
    ensures PathViolation(UnitPath, v).None? <==> v == Some(JString("C")) || v == Some(JString("F"))
    ensures PathViolation(TemperaturePath, v).None? <==> IsNumberValue(v)
    ensures PathViolation(HumidityPath, v).None? <==> IsNumberValue(v) && HumidityMin <= v.value.n <= HumidityMax
  {
    if PathViolation(UnitPath, v).None? {
      assert v.value.s in UnitValues;
    }
  }

  /** `new SensorData(payload).save()` at time `now`: validate the declared
      paths; on success the document takes the four values, `createdAt` takes
      its `Date.now` default and the timestamps set `updatedAt`. Keys the
      schema does not declare are dropped, as strict mode does. */
  function Admit(ms: Members, now: int): Result<SensorData, seq<Violation>> {
    var vs := Violations(ms, SensorDataPaths);
    match (Get(ms, SensorIdName), Get(ms, TemperatureUnitName), Get(ms, TemperatureName), Get(ms, HumidityName))
    case (Some(JString(id)), Some(JString(unit)), Some(JNumber(t)), Some(JNumber(h))) =>
      if vs == [] then Ok(SensorData(id, unit, t, h, now, now)) else Err(vs)
    case _ => Err(vs)
  }

  /** Each path's verdict agrees with the DTO rule for the same property: the
      schema refuses a value exactly when the DTO reports a message for it. */
  lemma PathAgreesWithDto(v: Option<Json>)
    ensures PathViolation(SensorIdPath, v).None? <==> MessagesFor(SensorIdName, v) == []
    ensures PathViolation(UnitPath, v).None? <==> MessagesFor(TemperatureUnitName, v) == []
    ensures PathViolation(TemperaturePath, v).None? <==> MessagesFor(TemperatureName, v) == []
    ensures PathViolation(HumidityPath, v).None? <==> MessagesFor(HumidityName, v) == []
  {
    PathsAccept(v);
    SensorIdRule(v);
    TemperatureUnitRule(v);
    TemperatureRule(v);
    HumidityRule(v);
  }

  /** `Admit` succeeds exactly when no path is violated, and otherwise fails
      with the violations. */
  lemma AdmitIffNoViolations(ms: Members, now: int)
    ensures Admit(ms, now).Ok? <==> Violations(ms, SensorDataPaths) == []
    ensures Admit(ms, now).Err? ==> Admit(ms, now).error == Violations(ms, SensorDataPaths)
  {
    SchemaViolations(ms);
    PathsAccept(Get(ms, SensorIdName));
    PathsAccept(Get(ms, TemperatureUnitName));
    PathsAccept(Get(ms, TemperatureName));
    PathsAccept(Get(ms, HumidityName));
  }

  /** The schema admits exactly the readings the DTO accepts. */
  lemma AdmitAccepts(ms: Members, now: int)
    ensures Admit(ms, now).Ok? <==> ValidReading(ms)
  {
    AdmitIffNoViolations(ms, now);
    SchemaViolations(ms);
    PathsAccept(Get(ms, SensorIdName));
    PathsAccept(Get(ms, TemperatureUnitName));
    PathsAccept(Get(ms, TemperatureName));
    PathsAccept(Get(ms, HumidityName));
  }

  /** A refused payload is refused with at least one violation, each naming a
      declared path that refuses its value. */
  lemma AdmitRefuses(ms: Members, now: int)
    requires Admit(ms, now).Err?
    ensures Admit(ms, now).error != []
    ensures forall x :: x in Admit(ms, now).error <==> exists i :: Refuses(ms, SensorDataPaths, i, x)
  {
    AdmitIffNoViolations(ms, now);
    ViolationsAre(ms, SensorDataPaths);
  }

  /** An admitted document keeps the invariant, holds the four values it was
      given, and has both times set to the moment of creation. */
  lemma AdmitStores(ms: Members, now: int)
    requires Admit(ms, now).Ok?
    ensures var d := Admit(ms, now).value;
      && Stored(d)
      && Get(ms, SensorIdName) == Some(JString(d.sensorId))
      && Get(ms, TemperatureUnitName) == Some(JString(d.temperatureUnit))
      && Get(ms, TemperatureName) == Some(JNumber(d.temperature))
      && Get(ms, HumidityName) == Some(JNumber(d.humidity))
      && d.createdAt == now && d.updatedAt == now
  {
    AdmitAccepts(ms, now);
  }

  /** The temperature path has no bound: any number is admitted with the other
      three paths valid. */
  lemma TemperatureUnbounded(ms: Members, t: real, now: int)
    requires ValidReading(ms)
    ensures Admit(ms + [(TemperatureName, JNumber(t))], now).Ok?
    ensures Admit(ms + [(TemperatureName, JNumber(t))], now).value.temperature == t
  {
    var ms' := ms + [(TemperatureName, JNumber(t))];
    NamesDiffer();
    GetAppend(ms, TemperatureName, JNumber(t), SensorIdName);
    GetAppend(ms, TemperatureName, JNumber(t), TemperatureUnitName);
    GetAppend(ms, TemperatureName, JNumber(t), TemperatureName);
    GetAppend(ms, TemperatureName, JNumber(t), HumidityName);
    assert ValidReading(ms');
    AdmitAccepts(ms', now);
    AdmitStores(ms', now);
  }

  /** The document as the four declared paths of a JSON object. */
  function Document(d: SensorData): Members {
    [(SensorIdName, JString(d.sensorId)), (TemperatureUnitName, JString(d.temperatureUnit)),
     (TemperatureName, JNumber(d.temperature)), (HumidityName, JNumber(d.humidity))]
  }

  /** A record created in one instant is exactly what admitting its own fields
      at that instant yields, if and only if it keeps the invariant. */
  lemma AdmitDocument(d: SensorData)
    requires d.createdAt == d.updatedAt
    ensures Admit(Document(d), d.createdAt) == Ok(d) <==> Stored(d)
  {
    var ms := Document(d);
    NamesDiffer();
    assert BindsLast(ms, SensorIdName, 0);
    ReadLast(ms, SensorIdName, 0);
    assert BindsLast(ms, TemperatureUnitName, 1);
    ReadLast(ms, TemperatureUnitName, 1);
    assert BindsLast(ms, TemperatureName, 2);
    ReadLast(ms, TemperatureName, 2);
    assert BindsLast(ms, HumidityName, 3);
    ReadLast(ms, HumidityName, 3);
    AdmitAccepts(ms, d.createdAt);
    assert d.temperatureUnit in UnitValues <==> Get(ms, TemperatureUnitName) in {Some(JString("C")), Some(JString("F"))};
  }
}
