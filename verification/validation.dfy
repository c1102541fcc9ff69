/** class-validator's `validateOrReject` applied to a `CreateSensorDataDTO`
    instance with `whitelist` and `forbidNonWhitelisted` set: first one error per
    key the DTO does not declare, then one error per declared property that fails
    any of its rules, carrying every failed constraint.  Properties whose rules
    all pass are stripped from the result. */
module Validation {
  import opened Wrappers
  import opened Json
  import opened SensorDataDto

  /** `constraints` maps a constraint name to its message, in the order recorded;
      an error may carry none (class-validator leaves it unset for errors that
      only have nested children). */
  datatype ValidationError = ValidationError(property: string, constraints: Option<seq<(string, string)>>)

  const WhitelistConstraint: string := "whitelistValidation"

  /** class-validator's message for a key the whitelist forbids. */
  function WhitelistMessage(key: string): string {
    "property " + key + " should not exist"
  }

  /** The constraint `forbidUnknownValues` (on by default since class-validator
      0.14) records for a value whose class has no rules registered. */
  const UnknownValueConstraint: string := "unknownValue"
  const UnknownValueMessage: string := "an unknown value was passed to the validate function"

  /** An error for an unknown value names no property; used as an object key,
      that `undefined` becomes the string "undefined". */
  const UndefinedKey: string := "undefined"

  /** The single error `validateOrReject` rejects an unknown value with. */
  const UnknownValueError: ValidationError :=
    ValidationError(UndefinedKey, Some([(UnknownValueConstraint, UnknownValueMessage)]))

  function PropertiesOf(es: seq<ValidationError>): (ps: seq<string>)
    ensures |ps| == |es|
    ensures forall i :: 0 <= i < |es| ==> ps[i] == es[i].property
  {
    seq(|es|, i requires 0 <= i < |es| => es[i].property)
  }

  /** Every error carries at least one constraint. */
  predicate Constrained(es: seq<ValidationError>) {
    forall i :: 0 <= i < |es| ==> es[i].constraints.Some? && es[i].constraints.value != []
  }

  /** One error per key outside the whitelist `declared`, in key order. */
  function WhitelistErrors(ks: seq<string>, declared: seq<string>): (es: seq<ValidationError>)
    ensures Constrained(es)
    ensures forall i :: 0 <= i < |es| ==>
      es[i].constraints.value == [(WhitelistConstraint, WhitelistMessage(es[i].property))]
    ensures forall k :: k in PropertiesOf(es) <==> k in ks && k !in declared
    ensures Distinct(ks) ==> Distinct(PropertiesOf(es))
  {
    if ks == [] then []
    else
      var rest := WhitelistErrors(ks[1..], declared);
      assert ks == [ks[0]] + ks[1..];
      if ks[0] in declared then rest
      else
        var e := ValidationError(ks[0], Some([(WhitelistConstraint, WhitelistMessage(ks[0]))]));
        var es := [e] + rest;
        assert PropertiesOf(es) == [ks[0]] + PropertiesOf(rest);
        assert forall i :: 1 <= i < |es| ==> es[i] == rest[i - 1];
        assert Distinct(ks) ==> Distinct(PropertiesOf(es)) by {
          if Distinct(ks) {
            assert ks[0] !in ks[1..];
            assert Distinct([ks[0]]);
            DistinctConcat([ks[0]], PropertiesOf(rest));
          }
        }
        es
  }

  /** The error a declared property contributes: none when every rule passes. */
  function PropertyError(ms: Members, p: Property): seq<ValidationError> {
    var cs := Failed(Applied(p), Get(ms, p.name));
    if cs == [] then [] else [ValidationError(p.name, Some(cs))]
  }

  /** The errors of the declared properties, in declaration order. */
  function PropertyErrors(ms: Members, props: seq<Property>): (es: seq<ValidationError>)
    ensures Constrained(es)
  {
    if props == [] then [] else PropertyError(ms, props[0]) + PropertyErrors(ms, props[1..])
  }

  lemma NamesTail(props: seq<Property>)
    requires props != [] && Distinct(Names(props))
    ensures Names(props) == [props[0].name] + Names(props[1..])
    ensures Distinct(Names(props[1..]))
    ensures props[0].name !in Names(props[1..])
  {
    assert Names(props) == [props[0].name] + Names(props[1..]);
  }

  lemma MessagesInCons(props: seq<Property>, k: string, v: Option<Json>)
    requires props != []
    ensures MessagesIn(props, k, v) ==
      if k == props[0].name then FieldMessages(props[0], v) else MessagesIn(props[1..], k, v)
  {
  }

  lemma MessagesInDeclared(props: seq<Property>, k: string, v: Option<Json>)
    requires MessagesIn(props, k, v) != []
    ensures k in Names(props)
  {
  }

  lemma PropertyErrorShape(ms: Members, p: Property)
    ensures PropertiesOf(PropertyError(ms, p)) == if FieldMessages(p, Get(ms, p.name)) == [] then [] else [p.name]
    ensures forall i :: 0 <= i < |PropertyError(ms, p)| ==>
      Messages(PropertyError(ms, p)[i].constraints.value) == FieldMessages(p, Get(ms, p.name))
  {
  }

  /** Every error of `PropertyErrors` names a property that draws messages. */
  lemma {:induction false} PropertyErrorsNamed(ms: Members, props: seq<Property>)
    requires Distinct(Names(props))
    ensures forall k :: k in PropertiesOf(PropertyErrors(ms, props)) ==> MessagesIn(props, k, Get(ms, k)) != []
  {
    if props != [] {
      var p := props[0];
      NamesTail(props);
      PropertyErrorsNamed(ms, props[1..]);
      var head := PropertyError(ms, p);
      var rest := PropertyErrors(ms, props[1..]);
      PropertyErrorShape(ms, p);
      assert PropertyErrors(ms, props) == head + rest;
      assert PropertiesOf(head + rest) == PropertiesOf(head) + PropertiesOf(rest);
      forall k | k in PropertiesOf(PropertyErrors(ms, props))
        ensures MessagesIn(props, k, Get(ms, k)) != []
      {
        MessagesInCons(props, k, Get(ms, k));
        if k in PropertiesOf(rest) {
          MessagesInDeclared(props[1..], k, Get(ms, k));
          assert k != p.name;
        } else {
          assert k in PropertiesOf(head);
        }
      }
    }
  }

  /** `PropertyErrors` has an error for exactly the properties that draw
      messages. */
  lemma PropertyErrorsComplete(ms: Members, props: seq<Property>)
    requires Distinct(Names(props))
    ensures forall k :: MessagesIn(props, k, Get(ms, k)) != [] <==> k in PropertiesOf(PropertyErrors(ms, props))
  {
    PropertyErrorsNamed(ms, props);
    PropertyErrorsCover(ms, props);
  }

  /** Every property that draws messages has an error in `PropertyErrors`. */
  lemma {:induction false} PropertyErrorsCover(ms: Members, props: seq<Property>)
    requires Distinct(Names(props))
    ensures forall k :: MessagesIn(props, k, Get(ms, k)) != [] ==> k in PropertiesOf(PropertyErrors(ms, props))
  {
    if props != [] {
      var p := props[0];
      NamesTail(props);
      PropertyErrorsCover(ms, props[1..]);
      var head := PropertyError(ms, p);
      var rest := PropertyErrors(ms, props[1..]);
      PropertyErrorShape(ms, p);
      assert PropertiesOf(head + rest) == PropertiesOf(head) + PropertiesOf(rest);
      forall k | MessagesIn(props, k, Get(ms, k)) != []
        ensures k in PropertiesOf(PropertyErrors(ms, props))
      {
        MessagesInCons(props, k, Get(ms, k));
      }
    }
  }

  /** `PropertyErrors` reports each property at most once. */
  lemma {:induction false} PropertyErrorsDistinct(ms: Members, props: seq<Property>)
    requires Distinct(Names(props))
    ensures Distinct(PropertiesOf(PropertyErrors(ms, props)))
  {
    if props != [] {
      var p := props[0];
      var tail := props[1..];
      NamesTail(props);
      PropertyErrorsDistinct(ms, tail);
      PropertyErrorsNamed(ms, tail);
      var head := PropertyError(ms, p);
      var rest := PropertyErrors(ms, tail);
      PropertyErrorShape(ms, p);
      assert PropertyErrors(ms, props) == head + rest;
      assert PropertiesOf(head + rest) == PropertiesOf(head) + PropertiesOf(rest);
      assert p.name !in PropertiesOf(rest) by {
        if p.name in PropertiesOf(rest) {
          MessagesInDeclared(tail, p.name, Get(ms, p.name));
        }
      }
      DistinctConcat(PropertiesOf(head), PropertiesOf(rest));
    }
  }

  /** The error carries exactly the messages its property draws under `props`. */
  predicate CarriesMessages(ms: Members, props: seq<Property>, e: ValidationError) {
    e.constraints.Some? && Messages(e.constraints.value) == MessagesIn(props, e.property, Get(ms, e.property))
  }

  /** Each error of `PropertyErrors` carries exactly the messages its property
      draws. */
  lemma {:induction false} PropertyErrorsMessages(ms: Members, props: seq<Property>)
    requires Distinct(Names(props))
    ensures forall e :: e in PropertyErrors(ms, props) ==> CarriesMessages(ms, props, e)
  {
    if props != [] {
      var p := props[0];
      var tail := props[1..];
      NamesTail(props);
      PropertyErrorsMessages(ms, tail);
      PropertyErrorsNamed(ms, tail);
      var head := PropertyError(ms, p);
      var rest := PropertyErrors(ms, tail);
      PropertyErrorShape(ms, p);
      assert PropertyErrors(ms, props) == head + rest;
      forall e | e in head + rest
        ensures CarriesMessages(ms, props, e)
      {
        var k := e.property;
        MessagesInCons(props, k, Get(ms, k));
        if e in rest {
          assert CarriesMessages(ms, tail, e);
          var j :| 0 <= j < |rest| && rest[j] == e;
          assert k in PropertiesOf(rest);
          MessagesInDeclared(tail, k, Get(ms, k));
        } else {
          assert e == head[0];
        }
      }
    }
  }

  /** `validateOrReject` against the property list `props`, whose names form the
      whitelist. */
  function ValidateWith(ms: Members, props: seq<Property>): (es: seq<ValidationError>)
    ensures Constrained(es)
  {
    WhitelistErrors(Keys(ms), Names(props)) + PropertyErrors(ms, props)
  }

  /** `ValidateWith` reports every property at most once. */
  lemma ValidateWithDistinct(ms: Members, props: seq<Property>)
    requires Distinct(Names(props))
    ensures Distinct(PropertiesOf(ValidateWith(ms, props)))
  {
    var whitelist := WhitelistErrors(Keys(ms), Names(props));
    var fields := PropertyErrors(ms, props);
    PropertyErrorsNamed(ms, props);
    PropertyErrorsDistinct(ms, props);
    assert ValidateWith(ms, props) == whitelist + fields;
    assert PropertiesOf(whitelist + fields) == PropertiesOf(whitelist) + PropertiesOf(fields);
    forall k | k in PropertiesOf(whitelist)
      ensures k !in PropertiesOf(fields)
    {
      if k in PropertiesOf(fields) {
        MessagesInDeclared(props, k, Get(ms, k));
      }
    }
    DistinctConcat(PropertiesOf(whitelist), PropertiesOf(fields));
  }

  /** `ValidateWith` reports exactly the undeclared keys and the declared
      properties that draw messages. */
  lemma ValidateWithKeys(ms: Members, props: seq<Property>)
    requires Distinct(Names(props))
    ensures forall k :: k in PropertiesOf(ValidateWith(ms, props)) <==>
      (HasKey(ms, k) && k !in Names(props)) || MessagesIn(props, k, Get(ms, k)) != []
  {
    var whitelist := WhitelistErrors(Keys(ms), Names(props));
    var fields := PropertyErrors(ms, props);
    PropertyErrorsNamed(ms, props);
    PropertyErrorsComplete(ms, props);
    assert ValidateWith(ms, props) == whitelist + fields;
    assert PropertiesOf(whitelist + fields) == PropertiesOf(whitelist) + PropertiesOf(fields);
  }

  /** The error carries the messages its property draws under `props`, or the
      whitelist message when `props` does not declare it. */
  predicate ReportsWith(ms: Members, props: seq<Property>, e: ValidationError) {
    && e.constraints.Some?
    && Messages(e.constraints.value) ==
         if e.property in Names(props) then MessagesIn(props, e.property, Get(ms, e.property))
         else [WhitelistMessage(e.property)]
  }

  /** Each error of `ValidateWith` carries the messages of its property, or the
      whitelist message for an undeclared key. */
  lemma ValidateWithMessages(ms: Members, props: seq<Property>)
    requires Distinct(Names(props))
    ensures forall e :: e in ValidateWith(ms, props) ==> ReportsWith(ms, props, e)
  {
    var whitelist := WhitelistErrors(Keys(ms), Names(props));
    var fields := PropertyErrors(ms, props);
    PropertyErrorsNamed(ms, props);
    PropertyErrorsMessages(ms, props);
    assert ValidateWith(ms, props) == whitelist + fields;
    forall e | e in whitelist + fields
      ensures ReportsWith(ms, props, e)
    {
      if e in fields {
        assert CarriesMessages(ms, props, e);
        var j :| 0 <= j < |fields| && fields[j] == e;
        assert e.property in PropertiesOf(fields);
        MessagesInDeclared(props, e.property, Get(ms, e.property));
      } else {
        var j :| 0 <= j < |whitelist| && whitelist[j] == e;
        assert e.property in PropertiesOf(whitelist);
        var c := (WhitelistConstraint, WhitelistMessage(e.property));
        assert e.constraints.value == [c];
        assert Messages([c]) == [c.1];
      }
    }
  }

  /** `ValidateWith` resolves exactly when every key is declared and no declared
      property draws a message. */
  lemma ValidateWithAccepts(ms: Members, props: seq<Property>)
    requires Distinct(Names(props))
    ensures ValidateWith(ms, props) == [] <==>
      && (forall i :: 0 <= i < |ms| ==> ms[i].0 in Names(props))
      && (forall name :: name in Names(props) ==> MessagesIn(props, name, Get(ms, name)) == [])
  {
    ValidateWithKeys(ms, props);
    var es := ValidateWith(ms, props);
    if es == [] {
      forall i | 0 <= i < |ms|
        ensures ms[i].0 in Names(props)
      {
        assert HasKey(ms, ms[i].0);
        assert ms[i].0 !in PropertiesOf(es);
      }
      forall name | name in Names(props)
        ensures MessagesIn(props, name, Get(ms, name)) == []
      {
        assert name !in PropertiesOf(es);
      }
    } else {
      var k := es[0].property;
      assert k in PropertiesOf(es);
      if HasKey(ms, k) && k !in Names(props) {
        var i :| 0 <= i < |ms| && ms[i].0 == k;
      } else {
        MessagesInDeclared(props, k, Get(ms, k));
      }
    }
  }

  /** Every key of the object is one the DTO declares. */
  predicate OnlyDeclaredKeys(ms: Members) {
    forall i :: 0 <= i < |ms| ==> ms[i].0 in DeclaredNames
  }

  /** `validateOrReject` on the `CreateSensorDataDTO` instance built from an
      object's members: the errors it rejects with, none when it resolves. */
  function Validate(ms: Members): (es: seq<ValidationError>)
    ensures Constrained(es)
  {
    ValidateWith(ms, CreateSensorDataDto)
  }

  /** The error carries the messages of the DTO's rules its property fails, or
      the whitelist message for a key the DTO does not declare. */
  predicate Reports(ms: Members, e: ValidationError) {
    && e.constraints.Some?
    && Messages(e.constraints.value) ==
         if e.property in DeclaredNames then MessagesFor(e.property, Get(ms, e.property))
         else [WhitelistMessage(e.property)]
  }

  /** `Validate` reports each property at most once. */
  lemma ValidateDistinct(ms: Members)
    ensures Distinct(PropertiesOf(Validate(ms)))
  {
    DeclaredNamesAre();
    ValidateWithDistinct(ms, CreateSensorDataDto);
  }

  /** `Validate` reports every key the DTO does not declare and every declared
      property that fails a rule, and nothing else. */
  lemma ValidateKeys(ms: Members)
    ensures forall k :: k in PropertiesOf(Validate(ms)) <==>
      (HasKey(ms, k) && k !in DeclaredNames) || MessagesFor(k, Get(ms, k)) != []
  {
    DeclaredNamesAre();
    ValidateWithKeys(ms, CreateSensorDataDto);
    forall k
      ensures MessagesIn(CreateSensorDataDto, k, Get(ms, k)) == MessagesFor(k, Get(ms, k))
    {
      MessagesInDto(k, Get(ms, k));
    }
  }

  /** Each error of `Validate` carries the whitelist message for an undeclared
      key, or the messages of all the rules a declared property fails. */
  lemma ValidateMessages(ms: Members)
    ensures forall e :: e in Validate(ms) ==> Reports(ms, e)
  {
    DeclaredNamesAre();
    ValidateWithMessages(ms, CreateSensorDataDto);
    forall e | e in Validate(ms)
      ensures Reports(ms, e)
    {
      assert ReportsWith(ms, CreateSensorDataDto, e);
      MessagesInDto(e.property, Get(ms, e.property));
    }
  }

  /** `Validate` resolves exactly for a valid reading with no undeclared key. */
  lemma ValidateAccepts(ms: Members)
    ensures Validate(ms) == [] <==> OnlyDeclaredKeys(ms) && ValidReading(ms)
  {
    DeclaredNamesAre();
    ValidateWithAccepts(ms, CreateSensorDataDto);
    ValidReadingIffNoMessages(ms);
    forall name
      ensures MessagesIn(CreateSensorDataDto, name, Get(ms, name)) == MessagesFor(name, Get(ms, name))
    {
      MessagesInDto(name, Get(ms, name));
    }
  }
}
