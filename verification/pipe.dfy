/** `WeatherSensorDataValidatorPipe`: parse the raw socket message, validate it
    against `CreateSensorDataDTO` with unknown keys forbidden, and either hand
    the parsed value on or throw a `WsException`. */
module ValidatorPipe {
  import opened Wrappers
  import opened Json
  import opened SensorDataDto
  import opened Validation

  /** The raw message as `JSON.parse` sees it: text it rejects, or the value it
      produces. The parser itself is not modelled. */
  datatype RawMessage = Unparseable | Parsed(value: Json)

  /** What the `try` block can throw: the parser's `SyntaxError`, an error from
      inside the validation library that is not a list of validation errors,
      or the array `validateOrReject` rejects with. */
  datatype Thrown =
    | ParseError
    | LibraryError
    | Rejected(errors: seq<ValidationError>)

  /** The `Record<string, string[]>` built by `formatErrors`. */
  type ErrorMap = map<string, seq<string>>

  /** The payload of the `WsException` the pipe throws. */
  datatype WsError =
    | Unexpected(message: string)
    | ValidationFailed(status: string, message: string, errors: ErrorMap)

  const UnexpectedMessage: string := "An unexpected error occurred"
  const ErrorStatus: string := "error"
  const FailedMessage: string := "Validation failed"

  /** `formatErrors`: walk the errors in order; each one that carries
      constraints sets its property's entry to the constraint messages, in
      the order they were recorded, replacing any earlier entry. */
  function FormatErrors(es: seq<ValidationError>): ErrorMap
  {
    if es == [] then map[]
    else
      var m := FormatErrors(es[..|es| - 1]);
      var e := es[|es| - 1];
      if e.constraints.Some? then m[e.property := Messages(e.constraints.value)] else m
  }

  /** Some error in `es` for property `k` carries constraints. */
  predicate ConstrainedFor(es: seq<ValidationError>, k: string) {
    exists i :: 0 <= i < |es| && es[i].property == k && es[i].constraints.Some?
  }

  /** The map has an entry for exactly the properties some error with
      constraints names; errors without constraints leave no trace. */
  lemma {:induction false} FormatErrorsKeys(es: seq<ValidationError>)
    ensures forall k :: k in FormatErrors(es) <==> ConstrainedFor(es, k)
  {
    if es != [] {
      var init := es[..|es| - 1];
      FormatErrorsKeys(init);
      forall k
        ensures ConstrainedFor(es, k) <==> ConstrainedFor(init, k) || (es[|es| - 1].property == k && es[|es| - 1].constraints.Some?)
      {
        if ConstrainedFor(init, k) {
          var i :| 0 <= i < |init| && init[i].property == k && init[i].constraints.Some?;
          assert es[i] == init[i];
        }
        if ConstrainedFor(es, k) {
          var i :| 0 <= i < |es| && es[i].property == k && es[i].constraints.Some?;
          if i < |init| {
            assert init[i] == es[i];
          }
        }
      }
    }
  }

  /** An error with constraints that no later error with constraints overrides
      decides its property's entry: the last one wins. */
  lemma {:induction false} FormatErrorsLast(es: seq<ValidationError>, i: nat)
    requires i < |es| && es[i].constraints.Some?
    requires forall j :: i < j < |es| && es[j].property == es[i].property ==> es[j].constraints.None?
    ensures es[i].property in FormatErrors(es)
    ensures FormatErrors(es)[es[i].property] == Messages(es[i].constraints.value)
  {
    var init := es[..|es| - 1];
    if i < |es| - 1 {
      forall j | i < j < |init| && init[j].property == init[i].property
        ensures init[j].constraints.None?
      {
        assert init[j] == es[j];
      }
      FormatErrorsLast(init, i);
      assert init[i] == es[i];
    }
  }

  /** On errors with distinct properties that all carry constraints, the map
      sends each reported property to its own messages and has no other key. */
  lemma FormatErrorsDistinct(es: seq<ValidationError>)
    requires Distinct(PropertiesOf(es)) && Constrained(es)
    ensures forall k :: k in FormatErrors(es) <==> k in PropertiesOf(es)
    ensures forall e :: e in es ==>
      e.property in FormatErrors(es) && FormatErrors(es)[e.property] == Messages(e.constraints.value)
  {
    FormatErrorsKeys(es);
    forall k
      ensures ConstrainedFor(es, k) <==> k in PropertiesOf(es)
    {
      if k in PropertiesOf(es) {
        var i :| 0 <= i < |es| && PropertiesOf(es)[i] == k;
        assert es[i].property == k;
      }
    }
    forall e | e in es
      ensures e.property in FormatErrors(es) && FormatErrors(es)[e.property] == Messages(e.constraints.value)
    {
      var i :| 0 <= i < |es| && es[i] == e;
      forall j | i < j < |es|
        ensures es[j].property != es[i].property
      {
        assert PropertiesOf(es)[i] != PropertiesOf(es)[j];
      }
      FormatErrorsLast(es, i);
    }
  }

  /** `formatErrors` as written, with `forEach`: the loop keeps the map built
      from the errors already visited. */
  method FormatErrorsLoop(es: seq<ValidationError>) returns (result: ErrorMap)
    ensures result == FormatErrors(es)
  {
    result := map[];
    var i := 0;
    while i < |es|
      invariant 0 <= i <= |es|
      invariant result == FormatErrors(es[..i])
    {
      var error := es[i];
      if error.constraints.Some? {
        result := result[error.property := Messages(error.constraints.value)];
      }
      assert es[..i + 1][..i] == es[..i];
      i := i + 1;
    }
    assert es[..i] == es;
  }

  /** The `catch` block: a thrown array whose first element is a validation
      error becomes the "Validation failed" payload with the formatted map;
      anything else becomes the generic message. */
  function Classify(t: Thrown): (w: WsError)
    ensures w.ValidationFailed? <==> t.Rejected? && t.errors != []
    ensures w.ValidationFailed? ==> w.status == ErrorStatus && w.message == FailedMessage
    ensures w.Unexpected? ==> w.message == UnexpectedMessage
  {
    match t
    case Rejected(es) =>
      if |es| > 0 then ValidationFailed(ErrorStatus, FailedMessage, FormatErrors(es))
      else Unexpected(UnexpectedMessage)
    case _ => Unexpected(UnexpectedMessage)
  }

  /** Keys `plainToInstance` does not copy onto the DTO instance: `__proto__`
      and `constructor`, which class-transformer skips by name, and the
      methods a fresh instance inherits from `Object.prototype`, skipped
      because their value on the instance is a function. */
  predicate Uncopied(k: string) {
    k in {
      "__proto__", "constructor", "toString", "toLocaleString", "valueOf",
      "hasOwnProperty", "isPrototypeOf", "propertyIsEnumerable",
      "__defineGetter__", "__defineSetter__", "__lookupGetter__", "__lookupSetter__"
    }
  }

  /** The members `plainToInstance` copies onto the DTO instance, in order. */
  function Instance(ms: Members): (r: Members)
    ensures forall i :: 0 <= i < |r| ==> !Uncopied(r[i].0)
  {
    if ms == [] then []
    else
      var rest := Instance(ms[..|ms| - 1]);
      if Uncopied(ms[|ms| - 1].0) then rest else rest + [ms[|ms| - 1]]
  }

  /** An object none of whose keys is left uncopied is copied whole. */
  lemma {:induction false} InstanceWhole(ms: Members)
    requires forall i :: 0 <= i < |ms| ==> !Uncopied(ms[i].0)
    ensures Instance(ms) == ms
  {
    if ms != [] {
      var init := ms[..|ms| - 1];
      forall i | 0 <= i < |init|
        ensures !Uncopied(init[i].0)
      {
        assert init[i] == ms[i];
      }
      InstanceWhole(init);
      assert init + [ms[|ms| - 1]] == ms;
    }
  }

  /** A member with an uncopied key adds nothing to the instance. */
  lemma InstanceDropsUncopied(ms: Members, k: string, v: Json)
    requires Uncopied(k)
    ensures Instance(ms + [(k, v)]) == Instance(ms)
  {
    assert (ms + [(k, v)])[..|ms|] == ms;
  }

  /** A key the instance does get reads the same on the instance as on the
      parsed object. */
  lemma {:induction false} InstanceGet(ms: Members, k: string)
    requires !Uncopied(k)
    ensures Get(Instance(ms), k) == Get(ms, k)
  {
    if ms != [] {
      var init := ms[..|ms| - 1];
      var last := ms[|ms| - 1];
      InstanceGet(init, k);
      if !Uncopied(last.0) {
        var rest := Instance(init);
        assert (rest + [last])[..|rest|] == rest;
      }
    }
  }

  /** The instance has a key exactly when the parsed object has it and it is
      copied, and every key draws the same messages from either. */
  lemma InstanceReads(ms: Members, k: string)
    ensures HasKey(Instance(ms), k) <==> HasKey(ms, k) && !Uncopied(k)
    ensures MessagesFor(k, Get(Instance(ms), k)) == MessagesFor(k, Get(ms, k))
  {
    var inst := Instance(ms);
    if Uncopied(k) {
      assert forall j :: 0 <= j < |inst| ==> inst[j].0 != k;
      if k in DeclaredNames {
        DeclaredAreCopied(k);
      }
      MessagesForUndeclared(k, Get(inst, k));
      MessagesForUndeclared(k, Get(ms, k));
    } else {
      InstanceGet(ms, k);
    }
  }

  /** No declared property is among the keys left uncopied. */
  lemma DeclaredAreCopied(k: string)
    requires k in DeclaredNames
    ensures !Uncopied(k)
  {
    DeclaredNameCases(k);
  }

  /** An object whose keys are all declared reaches validation whole. */
  lemma InstanceOfDeclared(ms: Members)
    requires OnlyDeclaredKeys(ms)
    ensures Instance(ms) == ms
  {
    forall i | 0 <= i < |ms|
      ensures !Uncopied(ms[i].0)
    {
      DeclaredAreCopied(ms[i].0);
    }
    InstanceWhole(ms);
  }

  /** Every key is declared or one the instance never gets. */
  predicate OnlyDeclaredOrUncopied(ms: Members) {
    forall i :: 0 <= i < |ms| ==> ms[i].0 in DeclaredNames || Uncopied(ms[i].0)
  }

  /** Parsed values class-validator finds no rules for and rejects with one
      `unknownValue` error: numbers, booleans and arrays. */
  predicate UnknownValue(v: Json) {
    v.JBool? || v.JNumber? || v.JArray?
  }

  /** The outcome of `validateOrReject`: it resolves, and the parsed value goes
      on, or it rejects with its errors. */
  function Settle(json: Json, es: seq<ValidationError>): Result<Json, Thrown> {
    if es == [] then Ok(json) else Err(Rejected(es))
  }

  /** The `try` block as written: parse, build the DTO instance from the
      members it copies, validate the instance with `whitelist` and
      `forbidNonWhitelisted`, and return the parsed value itself, keys the
      instance never had included. Of the other parsed values,
      - null makes the library read `constructor` of null, a `TypeError`;
      - a string is passed through `plainToInstance` unchanged, and
        `validateOrReject` takes a string first argument for a schema name:
        no rules are registered under it, and it resolves;
      - a number, a boolean or an array has no rules, so `forbidUnknownValues`
        rejects it. */
  function Attempt(raw: RawMessage): Result<Json, Thrown> {
    match raw
    case Unparseable => Err(ParseError)
    case Parsed(json) =>
      match json
      case JNull => Err(LibraryError)
      case JString(_) => Ok(json)
      case JObject(ms) => Settle(json, Validate(Instance(ms)))
      case _ => Err(Rejected([UnknownValueError]))
  }

  /** The `try` block as evidently intended: the whitelist sees every key of
      the parsed object, and a value that is not an object never passes. */
  function AttemptIntended(raw: RawMessage): Result<Json, Thrown> {
    match raw
    case Unparseable => Err(ParseError)
    case Parsed(json) =>
      match json
      case JNull => Err(LibraryError)
      case JObject(ms) => Settle(json, Validate(ms))
      case _ => Err(Rejected([UnknownValueError]))
  }

  /** The `catch` block applied to what the `try` block gave. */
  function Respond(a: Result<Json, Thrown>): Result<Json, WsError> {
    match a
    case Ok(json) => Ok(json)
    case Err(t) => Err(Classify(t))
  }

  /** `transform`: the parsed value on success, the `WsException` payload on
      failure. */
  function Transform(raw: RawMessage): (r: Result<Json, WsError>)
    ensures raw.Unparseable? ==> r == Err(Unexpected(UnexpectedMessage))
    ensures r.Ok? ==> raw.Parsed? && r.value == raw.value
  {
    Respond(Attempt(raw))
  }

  /** `transform` with the `try` block as evidently intended. */
  function TransformIntended(raw: RawMessage): (r: Result<Json, WsError>)
    ensures raw.Unparseable? ==> r == Err(Unexpected(UnexpectedMessage))
    ensures r.Ok? ==> raw.Parsed? && r.value == raw.value && r.value.JObject?
  {
    Respond(AttemptIntended(raw))
  }

  /** Validation of the instance resolves exactly when every key is declared
      or uncopied and the reading is valid. */
  lemma InstanceAccepts(ms: Members)
    ensures Validate(Instance(ms)) == [] <==> OnlyDeclaredOrUncopied(ms) && ValidReading(ms)
  {
    var inst := Instance(ms);
    ValidateAccepts(inst);
    DeclaredNameCases(SensorIdName);
    DeclaredNameCases(TemperatureUnitName);
    DeclaredNameCases(TemperatureName);
    DeclaredNameCases(HumidityName);
    DeclaredAreCopied(SensorIdName);
    DeclaredAreCopied(TemperatureUnitName);
    DeclaredAreCopied(TemperatureName);
    DeclaredAreCopied(HumidityName);
    InstanceGet(ms, SensorIdName);
    InstanceGet(ms, TemperatureUnitName);
    InstanceGet(ms, TemperatureName);
    InstanceGet(ms, HumidityName);
    assert ValidReading(inst) <==> ValidReading(ms);
    if OnlyDeclaredOrUncopied(ms) {
      forall i | 0 <= i < |inst|
        ensures inst[i].0 in DeclaredNames
      {
        var k := inst[i].0;
        InstanceReads(ms, k);
        assert HasKey(inst, k);
        var j :| 0 <= j < |ms| && ms[j].0 == k;
      }
    }
    if OnlyDeclaredKeys(inst) {
      forall i | 0 <= i < |ms| && !Uncopied(ms[i].0)
        ensures ms[i].0 in DeclaredNames
      {
        var k := ms[i].0;
        InstanceGet(ms, k);
        assert HasKey(ms, k);
        var j :| 0 <= j < |inst| && inst[j].0 == k;
      }
    }
  }

  /** The message is accepted exactly when it parses to a string, or to an
      object whose every key is declared or uncopied and whose declared
      properties pass every rule. */
  lemma TransformAccepts(raw: RawMessage)
    ensures Transform(raw).Ok? <==>
      && raw.Parsed?
      && (|| raw.value.JString?
          || (raw.value.JObject? && OnlyDeclaredOrUncopied(raw.value.members) && ValidReading(raw.value.members)))
  {
    if raw.Parsed? && raw.value.JObject? {
      var ms := raw.value.members;
      assert Attempt(raw) == Settle(raw.value, Validate(Instance(ms)));
      InstanceAccepts(ms);
    }
  }

  /** On success the value returned is a string, or an object each of whose
      keys is declared or one the instance never had. */
  lemma TransformKeys(raw: RawMessage)
    requires Transform(raw).Ok?
    ensures Transform(raw).value.JString? || Transform(raw).value.JObject?
    ensures Transform(raw).value.JObject? ==>
      forall k :: HasKey(Transform(raw).value.members, k) ==> k in DeclaredNames || Uncopied(k)
  {
    TransformAccepts(raw);
  }

  /** A failure carries a field map exactly when the message parsed to a
      number, boolean or array, or to an object whose instance validation
      rejected; the generic message is given exactly for text that does not
      parse and for null. */
  lemma TransformFailures(raw: RawMessage)
    ensures Transform(raw).Err? && Transform(raw).error.ValidationFailed? <==>
      raw.Parsed? && (UnknownValue(raw.value) || (raw.value.JObject? && Validate(Instance(raw.value.members)) != []))
    ensures Transform(raw).Err? && Transform(raw).error.Unexpected? <==>
      raw.Unparseable? || raw.value.JNull?
    ensures Transform(raw).Err? && Transform(raw).error.Unexpected? ==>
      Transform(raw).error.message == UnexpectedMessage
  {
  }

  /** The unknown-value error formats to the one key "undefined". */
  lemma FormatUnknownValue()
    ensures FormatErrors([UnknownValueError]) == map[UndefinedKey := [UnknownValueMessage]]
  {
    assert [UnknownValueError][..0] == [];
    assert Messages(UnknownValueError.constraints.value) == [UnknownValueMessage];
  }

  /** A number, boolean or array gets a field map with the one key
      "undefined", holding the unknown-value message. */
  lemma UnknownValueReported(v: Json)
    requires UnknownValue(v)
    ensures Transform(Parsed(v)) ==
      Err(ValidationFailed(ErrorStatus, FailedMessage, map[UndefinedKey := [UnknownValueMessage]]))
  {
    FormatUnknownValue();
  }

  /** The intended pipe accepts exactly an object whose keys are all declared
      and whose fields pass every rule. */
  lemma TransformIntendedAccepts(raw: RawMessage)
    ensures TransformIntended(raw).Ok? <==>
      && raw.Parsed? && raw.value.JObject?
      && OnlyDeclaredKeys(raw.value.members) && ValidReading(raw.value.members)
  {
    if raw.Parsed? && raw.value.JObject? {
      var ms := raw.value.members;
      assert AttemptIntended(raw) == Settle(raw.value, Validate(ms));
      ValidateAccepts(ms);
    }
  }

  /** The two pipes give the same answer on every object none of whose keys
      is left uncopied. */
  lemma TransformAgrees(ms: Members)
    requires forall i :: 0 <= i < |ms| ==> !Uncopied(ms[i].0)
    ensures Transform(Parsed(JObject(ms))) == TransformIntended(Parsed(JObject(ms)))
  {
    InstanceWhole(ms);
  }

  /** On an object whose keys are all declared, the two pipes agree. */
  lemma TransformOfDeclared(ms: Members)
    requires OnlyDeclaredKeys(ms)
    ensures Transform(Parsed(JObject(ms))) == TransformIntended(Parsed(JObject(ms)))
  {
    InstanceOfDeclared(ms);
  }

  /** The field map of an object the intended pipe rejects: an entry for
      every undeclared key, holding the whitelist message, and for every
      declared property that fails a rule, holding the messages of all the
      rules it fails. */
  lemma TransformIntendedErrors(ms: Members)
    requires Validate(ms) != []
    ensures TransformIntended(Parsed(JObject(ms))).Err?
    ensures var w := TransformIntended(Parsed(JObject(ms))).error;
      && w == ValidationFailed(ErrorStatus, FailedMessage, w.errors)
      && (forall k :: k in w.errors <==>
            (HasKey(ms, k) && k !in DeclaredNames) || MessagesFor(k, Get(ms, k)) != [])
      && (forall k :: k in w.errors ==>
            w.errors[k] == if k in DeclaredNames then MessagesFor(k, Get(ms, k)) else [WhitelistMessage(k)])
  {
    var es := Validate(ms);
    var m := FormatErrors(es);
    assert TransformIntended(Parsed(JObject(ms))) == Err(ValidationFailed(ErrorStatus, FailedMessage, m));
    ValidateDistinct(ms);
    ValidateKeys(ms);
    ValidateMessages(ms);
    FormatErrorsDistinct(es);
    forall k | k in m
      ensures m[k] == if k in DeclaredNames then MessagesFor(k, Get(ms, k)) else [WhitelistMessage(k)]
    {
      var i :| 0 <= i < |es| && PropertiesOf(es)[i] == k;
      assert es[i] in es && Reports(ms, es[i]);
    }
  }

  /** The field map of an object the pipe rejects: the same as the intended
      pipe's, except that keys the instance never had are not reported. */
  lemma TransformErrors(ms: Members)
    requires Validate(Instance(ms)) != []
    ensures Transform(Parsed(JObject(ms))).Err?
    ensures var w := Transform(Parsed(JObject(ms))).error;
      && w == ValidationFailed(ErrorStatus, FailedMessage, w.errors)
      && (forall k :: k in w.errors <==>
            (HasKey(ms, k) && k !in DeclaredNames && !Uncopied(k)) || MessagesFor(k, Get(ms, k)) != [])
      && (forall k :: k in w.errors ==>
            w.errors[k] == if k in DeclaredNames then MessagesFor(k, Get(ms, k)) else [WhitelistMessage(k)])
  {
    InstanceErrors(ms);
    assert Transform(Parsed(JObject(ms))) ==
      Err(ValidationFailed(ErrorStatus, FailedMessage, FormatErrors(Validate(Instance(ms)))));
  }

  /** Validating the instance reports exactly the copied undeclared keys and
      the declared properties of the parsed object that fail a rule. */
  lemma InstanceValidateKeys(ms: Members)
    ensures forall k :: k in PropertiesOf(Validate(Instance(ms))) <==>
      (HasKey(ms, k) && k !in DeclaredNames && !Uncopied(k)) || MessagesFor(k, Get(ms, k)) != []
  {
    ValidateKeys(Instance(ms));
    forall k
      ensures k in PropertiesOf(Validate(Instance(ms))) <==>
        (HasKey(ms, k) && k !in DeclaredNames && !Uncopied(k)) || MessagesFor(k, Get(ms, k)) != []
    {
      InstanceReads(ms, k);
    }
  }

  /** Each error from validating the instance reports the parsed object. */
  lemma InstanceValidateMessages(ms: Members)
    ensures forall e :: e in Validate(Instance(ms)) ==> Reports(ms, e)
  {
    ValidateMessages(Instance(ms));
    forall e | e in Validate(Instance(ms))
      ensures Reports(ms, e)
    {
      InstanceReads(ms, e.property);
    }
  }

  /** The field map built from the instance's errors, read against the parsed
      object. */
  lemma InstanceErrors(ms: Members)
    ensures var m := FormatErrors(Validate(Instance(ms)));
      && (forall k :: k in m <==>
            (HasKey(ms, k) && k !in DeclaredNames && !Uncopied(k)) || MessagesFor(k, Get(ms, k)) != [])
      && (forall k :: k in m ==>
            m[k] == if k in DeclaredNames then MessagesFor(k, Get(ms, k)) else [WhitelistMessage(k)])
  {
    var es := Validate(Instance(ms));
    var m := FormatErrors(es);
    ValidateDistinct(Instance(ms));
    InstanceValidateKeys(ms);
    InstanceValidateMessages(ms);
    FormatErrorsDistinct(es);
    forall k | k in m
      ensures m[k] == if k in DeclaredNames then MessagesFor(k, Get(ms, k)) else [WhitelistMessage(k)]
    {
      var i :| 0 <= i < |es| && PropertiesOf(es)[i] == k;
      assert es[i] in es && Reports(ms, es[i]);
    }
  }

  /** A key the map of a rejected object holds: undeclared, or failing a rule. */
  predicate Faulty(ms: Members, k: string) {
    (HasKey(ms, k) && k !in DeclaredNames) || MessagesFor(k, Get(ms, k)) != []
  }

  /** With every key declared and one declared property alone failing, that
      property is the only faulty key. */
  lemma SoleFaulty(ms: Members, f: string)
    requires OnlyDeclaredKeys(ms) && f in DeclaredNames
    requires MessagesFor(f, Get(ms, f)) != []
    requires forall g :: g in DeclaredNames && g != f ==> MessagesFor(g, Get(ms, g)) == []
    ensures forall k :: Faulty(ms, k) <==> k == f
  {
    forall k | k != f
      ensures !Faulty(ms, k)
    {
      if HasKey(ms, k) {
        var i :| 0 <= i < |ms| && ms[i].0 == k;
      }
      if k !in DeclaredNames {
        MessagesForUndeclared(k, Get(ms, k));
      }
    }
  }

  /** When every key is declared and exactly one declared property fails its
      rules, the field map has that property alone, with all its messages. */
  lemma OnlyFieldFails(ms: Members, f: string)
    requires OnlyDeclaredKeys(ms) && f in DeclaredNames
    requires MessagesFor(f, Get(ms, f)) != []
    requires forall g :: g in DeclaredNames && g != f ==> MessagesFor(g, Get(ms, g)) == []
    ensures Transform(Parsed(JObject(ms))) ==
      Err(ValidationFailed(ErrorStatus, FailedMessage, map[f := MessagesFor(f, Get(ms, f))]))
  {
    assert Validate(ms) != [] by {
      ValidateAccepts(ms);
      ValidReadingIffNoMessages(ms);
    }
    SoleFaulty(ms, f);
    TransformOfDeclared(ms);
    TransformIntendedErrors(ms);
    var m := Transform(Parsed(JObject(ms))).error.errors;
    assert forall k :: k in m <==> Faulty(ms, k);
    assert m == map[f := MessagesFor(f, Get(ms, f))];
  }

  /** The member for `key`, when there is a value. */
  function Bind(key: string, v: Option<Json>): Members {
    if v.Some? then [(key, v.value)] else []
  }

  /** Members binding each key to its value, in order, a key left out when
      its value is `None`. */
  function Binds(keys: seq<string>, vals: seq<Option<Json>>): Members
    requires |keys| == |vals|
  {
    if keys == [] then []
    else Binds(keys[..|keys| - 1], vals[..|vals| - 1]) + Bind(keys[|keys| - 1], vals[|vals| - 1])
  }

  lemma GetBind(ms: Members, key: string, v: Option<Json>, other: string)
    ensures Get(ms + Bind(key, v), other) == if other == key && v.Some? then v else Get(ms, other)
  {
    if v.Some? {
      GetAppend(ms, key, v.value, other);
    } else {
      assert ms + Bind(key, v) == ms;
    }
  }

  /** With distinct keys, each key reads back as its own value. */
  lemma {:induction false} GetBinds(keys: seq<string>, vals: seq<Option<Json>>, i: nat)
    requires |keys| == |vals| && Distinct(keys) && i < |keys|
    ensures Get(Binds(keys, vals), keys[i]) == vals[i]
  {
    var n := |keys| - 1;
    var init := Binds(keys[..n], vals[..n]);
    assert Binds(keys, vals) == init + Bind(keys[n], vals[n]);
    GetBind(init, keys[n], vals[n], keys[i]);
    if i < n {
      assert keys[i] != keys[n];
      assert Distinct(keys[..n]) by {
        forall a, b | 0 <= a < b < n
          ensures keys[..n][a] != keys[..n][b]
        {
          assert keys[..n][a] == keys[a] && keys[..n][b] == keys[b];
        }
      }
      assert keys[..n][i] == keys[i] && vals[..n][i] == vals[i];
      GetBinds(keys[..n], vals[..n], i);
    } else if vals[n].None? {
      BindsKeys(keys[..n], vals[..n]);
      assert keys[n] !in keys[..n];
      assert !HasKey(init, keys[n]);
    }
  }

  /** Every key of the bindings is one of the keys given. */
  lemma {:induction false} BindsKeys(keys: seq<string>, vals: seq<Option<Json>>)
    requires |keys| == |vals|
    ensures forall i :: 0 <= i < |Binds(keys, vals)| ==> Binds(keys, vals)[i].0 in keys
  {
    if keys != [] {
      var n := |keys| - 1;
      BindsKeys(keys[..n], vals[..n]);
      var init := Binds(keys[..n], vals[..n]);
      forall i | 0 <= i < |Binds(keys, vals)|
        ensures Binds(keys, vals)[i].0 in keys
      {
        if i < |init| {
          assert Binds(keys, vals)[i] == init[i];
          assert init[i].0 in keys[..n];
        }
      }
    }
  }

  /** An object with the four declared properties in declaration order, each
      left out when its value is `None`, as the gateway tests write them. */
  function Reading(sensorId: Option<Json>, unit: Option<Json>, temperature: Option<Json>,
                   humidity: Option<Json>): Members
  {
    Binds(DeclaredNames, [sensorId, unit, temperature, humidity])
  }

  /** Each declared property of a `Reading` reads back as given. */
  lemma ReadingFields(sensorId: Option<Json>, unit: Option<Json>, temperature: Option<Json>, humidity: Option<Json>)
    ensures var ms := Reading(sensorId, unit, temperature, humidity);
      && Get(ms, SensorIdName) == sensorId
      && Get(ms, TemperatureUnitName) == unit
      && Get(ms, TemperatureName) == temperature
      && Get(ms, HumidityName) == humidity
  {
    DeclaredNamesAre();
    var vals := [sensorId, unit, temperature, humidity];
    GetBinds(DeclaredNames, vals, 0);
    GetBinds(DeclaredNames, vals, 1);
    GetBinds(DeclaredNames, vals, 2);
    GetBinds(DeclaredNames, vals, 3);
  }

  /** A `Reading` has no key the DTO does not declare. */
  lemma ReadingKeys(sensorId: Option<Json>, unit: Option<Json>, temperature: Option<Json>,
                    humidity: Option<Json>)
    ensures OnlyDeclaredKeys(Reading(sensorId, unit, temperature, humidity))
  {
    DeclaredNamesAre();
    BindsKeys(DeclaredNames, [sensorId, unit, temperature, humidity]);
  }

  /** A reading without `sensor_id`, the rest valid, as in the gateway test:
      the map holds `sensor_id` alone, with its one message. */
  lemma MissingSensorIdReported(unit: string, t: real, h: real)
    requires unit == "C" || unit == "F"
    requires 0.0 <= h <= 100.0
    ensures Transform(Parsed(JObject(Reading(None, Some(JString(unit)), Some(JNumber(t)), Some(JNumber(h))))))
      == Err(ValidationFailed(ErrorStatus, FailedMessage, map[SensorIdName := [SensorIdMessage]]))
  {
    var ms := Reading(None, Some(JString(unit)), Some(JNumber(t)), Some(JNumber(h)));
    ReadingFields(None, Some(JString(unit)), Some(JNumber(t)), Some(JNumber(h)));
    ReadingKeys(None, Some(JString(unit)), Some(JNumber(t)), Some(JNumber(h)));
    SensorIdRule(None);
    TemperatureUnitRule(Some(JString(unit)));
    TemperatureRule(Some(JNumber(t)));
    HumidityRule(Some(JNumber(h)));
    DeclaredNameCases(SensorIdName);
    forall g | g in DeclaredNames && g != SensorIdName
      ensures MessagesFor(g, Get(ms, g)) == []
    {
      DeclaredNameCases(g);
    }
    OnlyFieldFails(ms, SensorIdName);
  }

  /** A reading without `temperatureUnit`: the unit fails both of its rules
      and reports the same message twice. */
  lemma MissingUnitReported(id: string, t: real, h: real)
    requires 0.0 <= h <= 100.0
    ensures Transform(Parsed(JObject(Reading(Some(JString(id)), None, Some(JNumber(t)), Some(JNumber(h))))))
      == Err(ValidationFailed(ErrorStatus, FailedMessage, map[TemperatureUnitName := [TemperatureUnitMessage, TemperatureUnitMessage]]))
  {
    var ms := Reading(Some(JString(id)), None, Some(JNumber(t)), Some(JNumber(h)));
    ReadingFields(Some(JString(id)), None, Some(JNumber(t)), Some(JNumber(h)));
    ReadingKeys(Some(JString(id)), None, Some(JNumber(t)), Some(JNumber(h)));
    SensorIdRule(Some(JString(id)));
    TemperatureUnitRule(None);
    TemperatureRule(Some(JNumber(t)));
    HumidityRule(Some(JNumber(h)));
    DeclaredNameCases(TemperatureUnitName);
    forall g | g in DeclaredNames && g != TemperatureUnitName
      ensures MessagesFor(g, Get(ms, g)) == []
    {
      DeclaredNameCases(g);
    }
    OnlyFieldFails(ms, TemperatureUnitName);
  }

  /** A reading whose unit is a string other than "C" and "F", such as the
      test's "Wrong Unit": only the enum rule fails, so the message comes once. */
  lemma WrongUnitReported(id: string, unit: string, t: real, h: real)
    requires unit != "C" && unit != "F"
    requires 0.0 <= h <= 100.0
    ensures Transform(Parsed(JObject(Reading(Some(JString(id)), Some(JString(unit)), Some(JNumber(t)), Some(JNumber(h))))))
      == Err(ValidationFailed(ErrorStatus, FailedMessage, map[TemperatureUnitName := [TemperatureUnitMessage]]))
  {
    var ms := Reading(Some(JString(id)), Some(JString(unit)), Some(JNumber(t)), Some(JNumber(h)));
    ReadingFields(Some(JString(id)), Some(JString(unit)), Some(JNumber(t)), Some(JNumber(h)));
    ReadingKeys(Some(JString(id)), Some(JString(unit)), Some(JNumber(t)), Some(JNumber(h)));
    SensorIdRule(Some(JString(id)));
    TemperatureUnitRule(Some(JString(unit)));
    TemperatureRule(Some(JNumber(t)));
    HumidityRule(Some(JNumber(h)));
    DeclaredNameCases(TemperatureUnitName);
    forall g | g in DeclaredNames && g != TemperatureUnitName
      ensures MessagesFor(g, Get(ms, g)) == []
    {
      DeclaredNameCases(g);
    }
    OnlyFieldFails(ms, TemperatureUnitName);
  }

  /** A reading without `temperature`. */
  lemma MissingTemperatureReported(id: string, unit: string, h: real)
    requires unit == "C" || unit == "F"
    requires 0.0 <= h <= 100.0
    ensures Transform(Parsed(JObject(Reading(Some(JString(id)), Some(JString(unit)), None, Some(JNumber(h))))))
      == Err(ValidationFailed(ErrorStatus, FailedMessage, map[TemperatureName := [TemperatureMessage]]))
  {
    var ms := Reading(Some(JString(id)), Some(JString(unit)), None, Some(JNumber(h)));
    ReadingFields(Some(JString(id)), Some(JString(unit)), None, Some(JNumber(h)));
    ReadingKeys(Some(JString(id)), Some(JString(unit)), None, Some(JNumber(h)));
    SensorIdRule(Some(JString(id)));
    TemperatureUnitRule(Some(JString(unit)));
    TemperatureRule(None);
    HumidityRule(Some(JNumber(h)));
    DeclaredNameCases(TemperatureName);
    forall g | g in DeclaredNames && g != TemperatureName
      ensures MessagesFor(g, Get(ms, g)) == []
    {
      DeclaredNameCases(g);
    }
    OnlyFieldFails(ms, TemperatureName);
  }

  /** A reading without `humidity`: all three messages, max first. */
  lemma MissingHumidityReported(id: string, unit: string, t: real)
    requires unit == "C" || unit == "F"
    ensures Transform(Parsed(JObject(Reading(Some(JString(id)), Some(JString(unit)), Some(JNumber(t)), None))))
      == Err(ValidationFailed(ErrorStatus, FailedMessage, map[HumidityName := [HumidityMaxMessage, HumidityMinMessage, HumidityMessage]]))
  {
    var ms := Reading(Some(JString(id)), Some(JString(unit)), Some(JNumber(t)), None);
    ReadingFields(Some(JString(id)), Some(JString(unit)), Some(JNumber(t)), None);
    ReadingKeys(Some(JString(id)), Some(JString(unit)), Some(JNumber(t)), None);
    SensorIdRule(Some(JString(id)));
    TemperatureUnitRule(Some(JString(unit)));
    TemperatureRule(Some(JNumber(t)));
    HumidityRule(None);
    DeclaredNameCases(HumidityName);
    forall g | g in DeclaredNames && g != HumidityName
      ensures MessagesFor(g, Get(ms, g)) == []
    {
      DeclaredNameCases(g);
    }
    OnlyFieldFails(ms, HumidityName);
  }

  /** A humidity below 0, such as the test's -10: only the lower bound is
      reported. */
  lemma HumidityBelowReported(id: string, unit: string, t: real, h: real)
    requires unit == "C" || unit == "F"
    requires h < 0.0
    ensures Transform(Parsed(JObject(Reading(Some(JString(id)), Some(JString(unit)), Some(JNumber(t)), Some(JNumber(h))))))
      == Err(ValidationFailed(ErrorStatus, FailedMessage, map[HumidityName := [HumidityMinMessage]]))
  {
    var ms := Reading(Some(JString(id)), Some(JString(unit)), Some(JNumber(t)), Some(JNumber(h)));
    ReadingFields(Some(JString(id)), Some(JString(unit)), Some(JNumber(t)), Some(JNumber(h)));
    ReadingKeys(Some(JString(id)), Some(JString(unit)), Some(JNumber(t)), Some(JNumber(h)));
    SensorIdRule(Some(JString(id)));
    TemperatureUnitRule(Some(JString(unit)));
    TemperatureRule(Some(JNumber(t)));
    HumidityRule(Some(JNumber(h)));
    DeclaredNameCases(HumidityName);
    forall g | g in DeclaredNames && g != HumidityName
      ensures MessagesFor(g, Get(ms, g)) == []
    {
      DeclaredNameCases(g);
    }
    OnlyFieldFails(ms, HumidityName);
  }

  /** A humidity above 100, such as the test's 101: only the upper bound is
      reported. */
  lemma HumidityAboveReported(id: string, unit: string, t: real, h: real)
    requires unit == "C" || unit == "F"
    requires h > 100.0
    ensures Transform(Parsed(JObject(Reading(Some(JString(id)), Some(JString(unit)), Some(JNumber(t)), Some(JNumber(h))))))
      == Err(ValidationFailed(ErrorStatus, FailedMessage, map[HumidityName := [HumidityMaxMessage]]))
  {
    var ms := Reading(Some(JString(id)), Some(JString(unit)), Some(JNumber(t)), Some(JNumber(h)));
    ReadingFields(Some(JString(id)), Some(JString(unit)), Some(JNumber(t)), Some(JNumber(h)));
    ReadingKeys(Some(JString(id)), Some(JString(unit)), Some(JNumber(t)), Some(JNumber(h)));
    SensorIdRule(Some(JString(id)));
    TemperatureUnitRule(Some(JString(unit)));
    TemperatureRule(Some(JNumber(t)));
    HumidityRule(Some(JNumber(h)));
    DeclaredNameCases(HumidityName);
    forall g | g in DeclaredNames && g != HumidityName
      ensures MessagesFor(g, Get(ms, g)) == []
    {
      DeclaredNameCases(g);
    }
    OnlyFieldFails(ms, HumidityName);
  }

  /** A reading like the gateway test's valid one passes and comes back
      unchanged. */
  lemma ValidReadingAccepted(id: string, unit: string, t: real, h: real)
    requires unit == "C" || unit == "F"
    requires 0.0 <= h <= 100.0
    ensures var ms := Reading(Some(JString(id)), Some(JString(unit)), Some(JNumber(t)), Some(JNumber(h)));
      Transform(Parsed(JObject(ms))) == Ok(JObject(ms))
  {
    var ms := Reading(Some(JString(id)), Some(JString(unit)), Some(JNumber(t)), Some(JNumber(h)));
    ReadingFields(Some(JString(id)), Some(JString(unit)), Some(JNumber(t)), Some(JNumber(h)));
    ReadingKeys(Some(JString(id)), Some(JString(unit)), Some(JNumber(t)), Some(JNumber(h)));
    TransformAccepts(Parsed(JObject(ms)));
  }

  const CreatedAtName: string := "createdAt"

  /** `createdAt` is filled in by the schema and is not a DTO property, so a
      client that sends it is refused by the whitelist. */
  lemma CreatedAtRejected(ms: Members)
    requires HasKey(ms, CreatedAtName)
    ensures Transform(Parsed(JObject(ms))).Err?
    ensures var w := Transform(Parsed(JObject(ms))).error;
      w.ValidationFailed? && CreatedAtName in w.errors && w.errors[CreatedAtName] == [WhitelistMessage(CreatedAtName)]
  {
    DeclaredNamesAre();
    assert CreatedAtName !in DeclaredNames by {
      assert CreatedAtName[0] != SensorIdName[0];
    }
    assert !Uncopied(CreatedAtName);
    InstanceGet(ms, CreatedAtName);
    ValidateKeys(Instance(ms));
    assert CreatedAtName in PropertiesOf(Validate(Instance(ms)));
    TransformErrors(ms);
  }

  // ---- Findings: the pipe as written against the pipe as intended ----

  /** A valid reading with one more key that the instance never gets, such as
      `"constructor": 1`, passes the whitelist and comes back with that
      undeclared key; the intended pipe refuses it. */
  lemma UncopiedKeyAccepted(id: string, unit: string, t: real, h: real, k: string, v: Json)
    requires unit == "C" || unit == "F"
    requires 0.0 <= h <= 100.0
    requires Uncopied(k)
    ensures var ms := Reading(Some(JString(id)), Some(JString(unit)), Some(JNumber(t)), Some(JNumber(h))) + [(k, v)];
      && Transform(Parsed(JObject(ms))) == Ok(JObject(ms))
      && HasKey(ms, k) && k !in DeclaredNames
      && TransformIntended(Parsed(JObject(ms))).Err?
  {
    var reading := Reading(Some(JString(id)), Some(JString(unit)), Some(JNumber(t)), Some(JNumber(h)));
    var ms := reading + [(k, v)];
    ValidReadingAccepted(id, unit, t, h);
    ReadingKeys(Some(JString(id)), Some(JString(unit)), Some(JNumber(t)), Some(JNumber(h)));
    InstanceDropsUncopied(reading, k, v);
    InstanceOfDeclared(reading);
    assert Transform(Parsed(JObject(ms))) == Ok(JObject(ms));
    assert ms[|ms| - 1].0 == k;
    if k in DeclaredNames {
      DeclaredAreCopied(k);
    }
    TransformIntendedAccepts(Parsed(JObject(ms)));
  }

  /** Text that parses to a string passes and is handed on as the string; the
      intended pipe refuses it with the unknown-value error. */
  lemma StringAccepted(s: string)
    ensures Transform(Parsed(JString(s))) == Ok(JString(s))
    ensures TransformIntended(Parsed(JString(s))) ==
      Err(ValidationFailed(ErrorStatus, FailedMessage, map[UndefinedKey := [UnknownValueMessage]]))
  {
    FormatUnknownValue();
  }

  /** What socket.io hands the pipe as `data`: the text a client emitted, or
      an object it emitted, which arrives already decoded. */
  datatype Payload = Text(raw: RawMessage) | Emitted(members: Members)

  /** `JSON.parse(data)`: text parses as `RawMessage` says; an object is first
      converted to the string "[object Object]", which is not JSON. */
  function ParseData(p: Payload): RawMessage {
    match p
    case Text(raw) => raw
    case Emitted(_) => Unparseable
  }

  /** The pipe on the socket payload, as written. */
  function TransformData(p: Payload): Result<Json, WsError> {
    Transform(ParseData(p))
  }

  /** An emitted object, the way the gateway tests send every reading, is
      refused with the generic message whatever it holds. */
  lemma EmittedObjectUnexpected(ms: Members)
    ensures TransformData(Emitted(ms)) == Err(Unexpected(UnexpectedMessage))
  {
  }

  /** The payload as evidently intended: text is parsed, and an object that
      arrives decoded is taken as it is. */
  function Receive(p: Payload): RawMessage {
    match p
    case Text(raw) => raw
    case Emitted(ms) => Parsed(JObject(ms))
  }

  /** The pipe on the socket payload, as evidently intended. */
  function TransformDataIntended(p: Payload): Result<Json, WsError> {
    TransformIntended(Receive(p))
  }

  /** With the payload taken as intended, a reading emitted as an object gets
      the answer its JSON text gets from the pipe: a valid reading passes and
      comes back unchanged, and an object whose keys are all declared is
      judged by the same rules. */
  lemma EmittedReadingAccepted(id: string, unit: string, t: real, h: real)
    requires unit == "C" || unit == "F"
    requires 0.0 <= h <= 100.0
    ensures var ms := Reading(Some(JString(id)), Some(JString(unit)), Some(JNumber(t)), Some(JNumber(h)));
      TransformDataIntended(Emitted(ms)) == Ok(JObject(ms))
  {
    var ms := Reading(Some(JString(id)), Some(JString(unit)), Some(JNumber(t)), Some(JNumber(h)));
    ValidReadingAccepted(id, unit, t, h);
    ReadingKeys(Some(JString(id)), Some(JString(unit)), Some(JNumber(t)), Some(JNumber(h)));
    TransformOfDeclared(ms);
  }

  /** With the payload taken as intended, emitting an object whose keys are
      all declared gets the answer the pipe as written gives its JSON text. */
  lemma EmittedAsText(ms: Members)
    requires OnlyDeclaredKeys(ms)
    ensures TransformDataIntended(Emitted(ms)) == TransformData(Text(Parsed(JObject(ms))))
  {
    TransformOfDeclared(ms);
  }
}
