/** The rule set of `CreateSensorDataDTO`: for each property the class-validator
    decorators written above it, each with the message its failure reports, and
    the semantics class-validator gives those decorators. */
module SensorDataDto {
  import opened Wrappers
  import opened Json

  /** The class-validator decorators the DTO uses. `IsEnum` carries the values of
      the enum object it is given. */
  datatype Rule =
    | IsString
    | IsEnum(entity: seq<Json>)
    | IsNumber
    | Min(bound: real)
    | Max(bound: real)

  datatype Decorator = Decorator(rule: Rule, message: string)

  /** A declared property with its decorators in source order, top to bottom. */
  datatype Property = Property(name: string, decorators: seq<Decorator>)

  const SensorIdName: string := "sensor_id"
  const TemperatureUnitName: string := "temperatureUnit"
  const TemperatureName: string := "temperature"
  const HumidityName: string := "humidity"

  const SensorIdMessage: string := "Provide valid sensor_id (string)"
  const TemperatureUnitMessage: string := "Provide valid temperatureUnit (C or F)"
  const TemperatureMessage: string := "Provide valid temperature (number)"
  const HumidityMessage: string := "Provide valid humidity (number betwen 0 and 100 )"
  const HumidityMinMessage: string := "Humidity cannot be less than 0"
  const HumidityMaxMessage: string := "Humidity cannot be more than 100"

  /** `enum TemperatureUnit { "C", "F" }` is a numeric enum: its object is
      `{0: "C", 1: "F", C: 0, F: 1}`, so the values `IsEnum` accepts are these. */
  const TemperatureUnitEnum: seq<Json> := [JString("C"), JString("F"), JNumber(0.0), JNumber(1.0)]

  const SensorIdProperty: Property :=
    Property(SensorIdName, [Decorator(IsString, SensorIdMessage)])

  const TemperatureUnitProperty: Property :=
    Property(TemperatureUnitName, [
      Decorator(IsString, TemperatureUnitMessage),
      Decorator(IsEnum(TemperatureUnitEnum), TemperatureUnitMessage)
    ])

  const TemperatureProperty: Property :=
    Property(TemperatureName, [Decorator(IsNumber, TemperatureMessage)])

  const HumidityProperty: Property :=
    Property(HumidityName, [
      Decorator(IsNumber, HumidityMessage),
      Decorator(Min(0.0), HumidityMinMessage),
      Decorator(Max(100.0), HumidityMaxMessage)
    ])

  /** The properties of the DTO, in declaration order. */
  const CreateSensorDataDto: seq<Property> :=
    [SensorIdProperty, TemperatureUnitProperty, TemperatureProperty, HumidityProperty]

  /** The key under which class-validator records a failed rule. */
  function ConstraintName(r: Rule): string {
    match r
    case IsString => "isString"
    case IsEnum(_) => "isEnum"
    case IsNumber => "isNumber"
    case Min(_) => "min"
    case Max(_) => "max"
  }

  /** Whether a rule accepts a property value (`None` is `undefined`).  Min and
      Max first require a number, so they fail on anything else. */
  predicate Holds(r: Rule, v: Option<Json>) {
    match r
    case IsString => v.Some? && v.value.JString?
    case IsEnum(entity) => v.Some? && v.value in entity
    case IsNumber => v.Some? && v.value.JNumber?
    case Min(b) => v.Some? && v.value.JNumber? && v.value.n >= b
    case Max(b) => v.Some? && v.value.JNumber? && v.value.n <= b
  }

  function Reverse<T>(s: seq<T>): (r: seq<T>)
    ensures |r| == |s|
    ensures forall i :: 0 <= i < |s| ==> r[i] == s[|s| - 1 - i]
  {
    if s == [] then [] else Reverse(s[1..]) + [s[0]]
  }

  /** Property decorators are applied bottom-up, so class-validator records a
      property's rules, and reports their failures, in reverse source order. */
  function Applied(p: Property): seq<Decorator> {
    Reverse(p.decorators)
  }

  /** The outcome of one rule: nothing, or the (constraint name, message) pair
      class-validator records when it fails. */
  function Check(d: Decorator, v: Option<Json>): seq<(string, string)> {
    if Holds(d.rule, v) then [] else [(ConstraintName(d.rule), d.message)]
  }

  /** Every rule runs; the failed ones become (constraint name, message) pairs in
      the order the rules run. */
  function Failed(ds: seq<Decorator>, v: Option<Json>): (cs: seq<(string, string)>)
    ensures |cs| <= |ds|
  {
    if ds == [] then [] else Check(ds[0], v) + Failed(ds[1..], v)
  }

  /** A value fails no constraint exactly when every rule holds of it. */
  lemma {:induction false} FailedEmpty(ds: seq<Decorator>, v: Option<Json>)
    ensures Failed(ds, v) == [] <==> forall i :: 0 <= i < |ds| ==> Holds(ds[i].rule, v)
  {
    if ds != [] {
      FailedEmpty(ds[1..], v);
      assert forall i :: 1 <= i < |ds| ==> ds[i] == ds[1..][i - 1];
    }
  }

  lemma FailedOne(a: Decorator, v: Option<Json>)
    ensures Failed([a], v) == Check(a, v)
  {
    assert [a][1..] == [];
  }

  lemma FailedTwo(a: Decorator, b: Decorator, v: Option<Json>)
    ensures Failed([a, b], v) == Check(a, v) + Check(b, v)
  {
    assert [a, b][1..] == [b];
    FailedOne(b, v);
  }

  lemma FailedThree(a: Decorator, b: Decorator, c: Decorator, v: Option<Json>)
    ensures Failed([a, b, c], v) == Check(a, v) + Check(b, v) + Check(c, v)
  {
    assert [a, b, c][1..] == [b, c];
    FailedTwo(b, c, v);
  }

  lemma NamesDiffer()
    ensures SensorIdName != TemperatureUnitName && SensorIdName != TemperatureName && SensorIdName != HumidityName
    ensures TemperatureUnitName != TemperatureName && TemperatureUnitName != HumidityName
    ensures TemperatureName != HumidityName
  {
    assert |SensorIdName| == 9 && |TemperatureUnitName| == 15 && |TemperatureName| == 11 && |HumidityName| == 8;
  }

  /** The DTO's properties, found by name. */
  lemma FindDeclared()
    ensures Find(CreateSensorDataDto, SensorIdName) == Some(SensorIdProperty)
    ensures Find(CreateSensorDataDto, TemperatureUnitName) == Some(TemperatureUnitProperty)
    ensures Find(CreateSensorDataDto, TemperatureName) == Some(TemperatureProperty)
    ensures Find(CreateSensorDataDto, HumidityName) == Some(HumidityProperty)
  {
    NamesDiffer();
    var d0 := CreateSensorDataDto;
    var d1 := [TemperatureUnitProperty, TemperatureProperty, HumidityProperty];
    var d2 := [TemperatureProperty, HumidityProperty];
    var d3 := [HumidityProperty];
    assert d0[1..] == d1 && d1[1..] == d2 && d2[1..] == d3;
    assert Find(d3, HumidityName) == Some(HumidityProperty);
    assert Find(d2, HumidityName) == Some(HumidityProperty);
    assert Find(d2, TemperatureName) == Some(TemperatureProperty);
    assert Find(d1, HumidityName) == Some(HumidityProperty);
    assert Find(d1, TemperatureName) == Some(TemperatureProperty);
  }

  /** `Object.values(constraints)`: the messages, in recorded order. */
  function Messages(cs: seq<(string, string)>): (ms: seq<string>)
    ensures |ms| == |cs|
    ensures forall i :: 0 <= i < |cs| ==> ms[i] == cs[i].1
  {
    seq(|cs|, i requires 0 <= i < |cs| => cs[i].1)
  }

  /** The messages a property value draws from the property's rules. */
  function FieldMessages(p: Property, v: Option<Json>): seq<string> {
    Messages(Failed(Applied(p), v))
  }

  lemma MessagesAppend(a: seq<(string, string)>, b: seq<(string, string)>)
    ensures Messages(a + b) == Messages(a) + Messages(b)
  {
  }

  /** The message list of one rule's outcome. */
  function Outcome(d: Decorator, v: Option<Json>): seq<string> {
    if Holds(d.rule, v) then [] else [d.message]
  }

  lemma MessagesCheck(d: Decorator, v: Option<Json>)
    ensures Messages(Check(d, v)) == Outcome(d, v)
  {
  }


  function Names(props: seq<Property>): (ns: seq<string>)
    ensures |ns| == |props|
    ensures forall i :: 0 <= i < |props| ==> ns[i] == props[i].name
  {
    seq(|props|, i requires 0 <= i < |props| => props[i].name)
  }

  /** The names the DTO declares: the whitelist. */
  const DeclaredNames: seq<string> := Names(CreateSensorDataDto)

  /** The first property with the given name. */
  function Find(props: seq<Property>, name: string): (r: Option<Property>)
    ensures r.Some? <==> name in Names(props)
    ensures r.Some? ==> r.value in props && r.value.name == name
  {
    if props == [] then None
    else if props[0].name == name then Some(props[0])
    else
      assert Names(props) == [props[0].name] + Names(props[1..]);
      Find(props[1..], name)
  }

  /** The messages the named property of `props` gives a value; none for a name
      `props` does not declare. */
  function MessagesIn(props: seq<Property>, name: string, v: Option<Json>): seq<string> {
    match Find(props, name)
    case Some(p) => FieldMessages(p, v)
    case None => []
  }

  /** The messages the DTO gives a value of the named property; none for a name
      the DTO does not declare. */
  function MessagesFor(name: string, v: Option<Json>): seq<string> {
    if name == SensorIdName then FieldMessages(SensorIdProperty, v)
    else if name == TemperatureUnitName then FieldMessages(TemperatureUnitProperty, v)
    else if name == TemperatureName then FieldMessages(TemperatureProperty, v)
    else if name == HumidityName then FieldMessages(HumidityProperty, v)
    else []
  }

  // ---- What each property accepts, stated directly ----

  predicate IsStringValue(v: Option<Json>) { v.Some? && v.value.JString? }
  predicate IsNumberValue(v: Option<Json>) { v.Some? && v.value.JNumber? }

  /** What the DTO is meant to accept for each declared property. */
  predicate ValidField(name: string, v: Option<Json>) {
    if name == SensorIdName then IsStringValue(v)
    else if name == TemperatureUnitName then v == Some(JString("C")) || v == Some(JString("F"))
    else if name == TemperatureName then IsNumberValue(v)
    else if name == HumidityName then IsNumberValue(v) && 0.0 <= v.value.n <= 100.0
    else true
  }

  /** A reading all four of whose declared properties are acceptable. */
  predicate ValidReading(ms: Members) {
    && IsStringValue(Get(ms, SensorIdName))
    && Get(ms, TemperatureUnitName) in {Some(JString("C")), Some(JString("F"))}
    && IsNumberValue(Get(ms, TemperatureName))
    && IsNumberValue(Get(ms, HumidityName))
    && 0.0 <= Get(ms, HumidityName).value.n <= 100.0
  }

  lemma DeclaredNamesAre()
    ensures DeclaredNames == [SensorIdName, TemperatureUnitName, TemperatureName, HumidityName]
    ensures Distinct(DeclaredNames)
  {
    NamesDiffer();
  }

  /** The messages of each DTO property, one rule outcome at a time, in the
      order the rules run. */
  lemma SensorIdOutcomes(v: Option<Json>)
    ensures FieldMessages(SensorIdProperty, v) == Outcome(SensorIdProperty.decorators[0], v)
  {
    var d := SensorIdProperty.decorators[0];
    assert Applied(SensorIdProperty) == [d];
    FailedOne(d, v);
    MessagesCheck(d, v);
  }

  lemma TemperatureUnitOutcomes(v: Option<Json>)
    ensures FieldMessages(TemperatureUnitProperty, v) ==
      Outcome(TemperatureUnitProperty.decorators[1], v) + Outcome(TemperatureUnitProperty.decorators[0], v)
  {
    var ds := TemperatureUnitProperty.decorators;
    assert Applied(TemperatureUnitProperty) == [ds[1], ds[0]];
    FailedTwo(ds[1], ds[0], v);
    MessagesAppend(Check(ds[1], v), Check(ds[0], v));
    MessagesCheck(ds[0], v);
    MessagesCheck(ds[1], v);
  }

  lemma TemperatureOutcomes(v: Option<Json>)
    ensures FieldMessages(TemperatureProperty, v) == Outcome(TemperatureProperty.decorators[0], v)
  {
    var d := TemperatureProperty.decorators[0];
    assert Applied(TemperatureProperty) == [d];
    FailedOne(d, v);
    MessagesCheck(d, v);
  }

  lemma HumidityOutcomes(v: Option<Json>)
    ensures FieldMessages(HumidityProperty, v) ==
      Outcome(HumidityProperty.decorators[2], v) + Outcome(HumidityProperty.decorators[1], v)
        + Outcome(HumidityProperty.decorators[0], v)
  {
    var ds := HumidityProperty.decorators;
    assert Applied(HumidityProperty) == [ds[2], ds[1], ds[0]];
    FailedThree(ds[2], ds[1], ds[0], v);
    MessagesAppend(Check(ds[2], v) + Check(ds[1], v), Check(ds[0], v));
    MessagesAppend(Check(ds[2], v), Check(ds[1], v));
    MessagesCheck(ds[0], v);
    MessagesCheck(ds[1], v);
    MessagesCheck(ds[2], v);
  }

  /** What the DTO reports for a declared name is what that property's rules
      report. */
  lemma MessagesForDeclared(v: Option<Json>)
    ensures MessagesFor(SensorIdName, v) == FieldMessages(SensorIdProperty, v)
    ensures MessagesFor(TemperatureUnitName, v) == FieldMessages(TemperatureUnitProperty, v)
    ensures MessagesFor(TemperatureName, v) == FieldMessages(TemperatureProperty, v)
    ensures MessagesFor(HumidityName, v) == FieldMessages(HumidityProperty, v)
  {
    NamesDiffer();
  }

  /** The declared names, as a membership test. */
  lemma DeclaredNameCases(name: string)
    ensures name in DeclaredNames <==>
      name == SensorIdName || name == TemperatureUnitName || name == TemperatureName || name == HumidityName
  {
    DeclaredNamesAre();
  }

  /** A name the DTO does not declare draws no message from its rules. */
  lemma MessagesForUndeclared(name: string, v: Option<Json>)
    requires name !in DeclaredNames
    ensures MessagesFor(name, v) == []
  {
    DeclaredNamesAre();
  }

  /** Looking a name up in the DTO's property list agrees with `MessagesFor`. */
  lemma MessagesInDto(name: string, v: Option<Json>)
    ensures MessagesIn(CreateSensorDataDto, name, v) == MessagesFor(name, v)
  {
    DeclaredNamesAre();
    NamesDiffer();
    if name in DeclaredNames {
      FindDeclared();
    } else {
      assert Find(CreateSensorDataDto, name).None?;
    }
  }

  /** `sensor_id` passes exactly when it is a string, and otherwise reports its
      one message. */
  lemma SensorIdRule(v: Option<Json>)
    ensures MessagesFor(SensorIdName, v) == if IsStringValue(v) then [] else [SensorIdMessage]
  {
    MessagesForDeclared(v);
    SensorIdOutcomes(v);
  }

  lemma TemperatureUnitFieldMessages(v: Option<Json>)
    ensures FieldMessages(TemperatureUnitProperty, v) ==
      (if v.Some? && v.value in TemperatureUnitEnum then [] else [TemperatureUnitMessage])
      + (if IsStringValue(v) then [] else [TemperatureUnitMessage])
  {
    TemperatureUnitOutcomes(v);
  }

  /** `temperatureUnit` passes only as the string "C" or "F".  Missing, it fails
      both rules and reports the same message twice; a string outside the enum
      fails only the enum rule.  Because the enum is numeric, 0 and 1 satisfy the
      enum rule and fail only the string rule. */
  lemma TemperatureUnitRule(v: Option<Json>)
    ensures MessagesFor(TemperatureUnitName, v) == [] <==> v == Some(JString("C")) || v == Some(JString("F"))
    ensures v.None? ==> MessagesFor(TemperatureUnitName, v) == [TemperatureUnitMessage, TemperatureUnitMessage]
    ensures IsStringValue(v) && v.value.s != "C" && v.value.s != "F" ==>
      MessagesFor(TemperatureUnitName, v) == [TemperatureUnitMessage]
    ensures v == Some(JNumber(0.0)) || v == Some(JNumber(1.0)) ==>
      MessagesFor(TemperatureUnitName, v) == [TemperatureUnitMessage]
    ensures v.Some? && !v.value.JString? && v.value !in TemperatureUnitEnum ==>
      MessagesFor(TemperatureUnitName, v) == [TemperatureUnitMessage, TemperatureUnitMessage]
  {
    MessagesForDeclared(v);
    TemperatureUnitFieldMessages(v);
    var m := TemperatureUnitMessage;
    if v.None? {
      assert MessagesFor(TemperatureUnitName, v) == [m, m];
    } else if v.value.JString? {
      if v.value.s == "C" || v.value.s == "F" {
        assert v.value in TemperatureUnitEnum;
        assert MessagesFor(TemperatureUnitName, v) == [];
      } else {
        assert v.value !in TemperatureUnitEnum;
        assert MessagesFor(TemperatureUnitName, v) == [m];
      }
    } else if v.value in TemperatureUnitEnum {
      assert MessagesFor(TemperatureUnitName, v) == [m];
    } else {
      assert MessagesFor(TemperatureUnitName, v) == [m, m];
    }
  }

  /** `temperature` only has to be a number; no bound applies. */
  lemma TemperatureRule(v: Option<Json>)
    ensures MessagesFor(TemperatureName, v) == if IsNumberValue(v) then [] else [TemperatureMessage]
  {
    MessagesForDeclared(v);
    TemperatureOutcomes(v);
  }

  lemma HumidityFieldMessages(v: Option<Json>)
    ensures FieldMessages(HumidityProperty, v) == [] <==> IsNumberValue(v) && 0.0 <= v.value.n <= 100.0
    ensures IsNumberValue(v) && v.value.n < 0.0 ==> FieldMessages(HumidityProperty, v) == [HumidityMinMessage]
    ensures IsNumberValue(v) && v.value.n > 100.0 ==> FieldMessages(HumidityProperty, v) == [HumidityMaxMessage]
    ensures !IsNumberValue(v) ==>
      FieldMessages(HumidityProperty, v) == [HumidityMaxMessage, HumidityMinMessage, HumidityMessage]
  {
    HumidityOutcomes(v);
  }

  /** `humidity` passes exactly for numbers in [0, 100].  A number below 0 or
      above 100 reports only that bound; anything that is not a number, missing
      included, reports all three messages, max first. */
  lemma HumidityRule(v: Option<Json>)
    ensures MessagesFor(HumidityName, v) == [] <==> IsNumberValue(v) && 0.0 <= v.value.n <= 100.0
    ensures IsNumberValue(v) && v.value.n < 0.0 ==> MessagesFor(HumidityName, v) == [HumidityMinMessage]
    ensures IsNumberValue(v) && v.value.n > 100.0 ==> MessagesFor(HumidityName, v) == [HumidityMaxMessage]
    ensures !IsNumberValue(v) ==>
      MessagesFor(HumidityName, v) == [HumidityMaxMessage, HumidityMinMessage, HumidityMessage]
  {
    MessagesForDeclared(v);
    HumidityFieldMessages(v);
  }

  /** The rule engine accepts exactly what `ValidField` describes. */
  lemma FieldPassesIffValid(name: string, v: Option<Json>)
    requires name in DeclaredNames
    ensures MessagesFor(name, v) == [] <==> ValidField(name, v)
  {
    DeclaredNamesAre();
    NamesDiffer();
    if name == SensorIdName { SensorIdRule(v); }
    else if name == TemperatureUnitName { TemperatureUnitRule(v); }
    else if name == TemperatureName { TemperatureRule(v); }
    else { HumidityRule(v); }
  }

  lemma ValidReadingByField(ms: Members)
    ensures ValidReading(ms) <==>
      && ValidField(SensorIdName, Get(ms, SensorIdName))
      && ValidField(TemperatureUnitName, Get(ms, TemperatureUnitName))
      && ValidField(TemperatureName, Get(ms, TemperatureName))
      && ValidField(HumidityName, Get(ms, HumidityName))
  {
    NamesDiffer();
  }

  /** A reading is valid exactly when no declared property draws a message. */
  lemma ValidReadingIffNoMessages(ms: Members)
    ensures ValidReading(ms) <==>
      forall name :: name in DeclaredNames ==> MessagesFor(name, Get(ms, name)) == []
  {
    DeclaredNamesAre();
    ValidReadingByField(ms);
    forall name | name in DeclaredNames
      ensures MessagesFor(name, Get(ms, name)) == [] <==> ValidField(name, Get(ms, name))
    {
      FieldPassesIffValid(name, Get(ms, name));
    }
  }
}
