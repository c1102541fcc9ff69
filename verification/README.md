# Weather-sensor input gate, modelled in Dafny

This project models the input-validation gate of the NestJS weather-sensor socket server. It has three parts.

- **The rule set.** `CreateSensorDataDTO` declares four properties with class-validator decorators:
  - `sensor_id` must be a string;
  - `temperatureUnit` must be a string and a member of the `TemperatureUnit` enum;
  - `temperature` must be a number;
  - `humidity` must be a number between 0 and 100.
- **The pipe.** `WeatherSensorDataValidatorPipe` parses the raw message and builds a DTO instance with `plainToInstance`. It then validates the instance with `whitelist` and `forbidNonWhitelisted` set, so any key the instance has and the DTO does not declare is an error. On success it returns the parsed value itself, not the instance. On failure it throws a `WsException` carrying one of two payloads:
  - the generic message `"An unexpected error occurred"`;
  - `{status: "error", message: "Validation failed", errors}`, where `errors` maps each failing property to the messages of all the rules it fails.
- **The schema.** `SensorData` is the Mongoose schema a reading is stored under. It declares required paths, the `C`/`F` enum, the humidity range, a `createdAt` default and timestamps.

## Files and modules

| file | module | contents |
|---|---|---|
| `wrappers.dfy` | `Wrappers` | `Option`, `Result` |
| `json.dfy` | `Json` | parsed JSON values; property reads (`Get`, last binding wins) and `Object.keys` (`Keys`, first occurrence order) |
| `dto.dfy` | `SensorDataDto` | the decorators, their messages, how class-validator runs them, and what each property accepts |
| `validation.dfy` | `Validation` | `validateOrReject` with whitelist errors first, then one error per failing property |
| `pipe.dfy` | `ValidatorPipe` | `transform` as written and as intended, `formatErrors`, the error classification, the socket payload, and the gateway test scenarios |
| `schema.dfy` | `SensorSchema` | schema paths, their violations, admission of a payload, and the stored-record invariant |
| `accepted.dfy` | `AcceptedReadings` | what the pipe accepts, seen from the schema |

## Modelling decisions

- **Parsing.** `JSON.parse` is abstract. A message is either `Unparseable` or `Parsed(v)`, meaning its text parses to `v`.
  - Objects are member lists, so a duplicated key reads as its last binding.
  - Numbers are reals.
- **Rule order.** Property decorators are applied bottom-up, so class-validator records a property's rules in reverse source order (`Applied`). This is why a missing `humidity` reports max, then min, then isNumber.
- **Every rule runs.** A property's rules do not stop at the first failure. `Min` and `Max` fail on anything that is not a number.
- **The enum is numeric.** `enum TemperatureUnit { "C", "F" }` is a numeric TypeScript enum, whose object holds `"C"`, `"F"`, `0` and `1`. So `IsEnum` accepts the numbers 0 and 1, which then fail only `IsString`: a numeric 0 or 1 gets one message, any other non-string gets two (`TemperatureUnitRule`).
- **Error order.** Whitelist errors come first, one per undeclared key, with constraint `whitelistValidation`. Then comes one error per declared property that fails, carrying all its failed constraints. Properties that pass produce no error.
- **The error map.** `formatErrors` keeps, for each property, the messages of the last error for it that carries constraints.
- **The DTO instance.** `plainToInstance` (class-transformer 0.5) copies every key of the parsed object onto the instance except `__proto__` and `constructor`, which it skips by name, and the names of methods the instance inherits from `Object.prototype`, such as `toString`, which it skips because their value there is a function (`Uncopied`, `Instance`). Validation sees only the instance; the pipe returns the parsed object.
- **Values that are not objects** (class-validator 0.14):
  - null makes the library read a property of null, a `TypeError`, so the generic message follows;
  - a string is passed on unchanged by `plainToInstance`, and `validateOrReject` reads a string first argument as a schema name. No rules are registered under it, so validation resolves and the string is accepted;
  - a number, a boolean or an array has no rules registered for its class, and `forbidUnknownValues`, on by default, rejects it with one `unknownValue` error. That error has no property, which `formatErrors` writes as the key `"undefined"`.
- **The socket payload.** socket.io hands the pipe whatever the client emitted. Text is parsed as above. An emitted object arrives already decoded, and `JSON.parse` first turns it into the string `"[object Object]"`, which does not parse (`Payload`, `ParseData`).
- **As written and as intended.** Three behaviours look unintended; they are listed under Findings. `Transform` and `TransformData` model the pipe as written. `TransformIntended` and `TransformDataIntended` model it as evidently intended: every key is whitelisted, only an object passes, and an emitted object is validated as it is. The two agree on every object whose keys are all declared (`TransformAgrees`, `TransformOfDeclared`), which covers the gateway scenarios and the schema comparison.
- **Code over tests.** Where the tests and the code disagree, the model follows the code:
  - an unparseable message gets `"An unexpected error occurred"` (pipe line 25), not the tests' `"Input must be a JSON object"`;
  - the humidity type message keeps the code's text, `"Provide valid humidity (number betwen 0 and 100 )"`.
- **Schema admission.** `Admit(ms, now)` models constructing and saving a document. Each declared path gets at most one verdict:
  - missing or null fails `required`;
  - a value of the wrong JSON type is a cast error;
  - otherwise `enum`, `min` and `max` are checked.
  - On success `createdAt` (its `Date.now` default) and `updatedAt` (timestamps) are both the save time `now`, which is a parameter. Keys the schema does not declare are dropped.

## Model

| member | source | states |
|---|---|---|
| SensorDataDto.SensorIdRule | src/weather-sensor/dto/weather-sensor-data.dto.ts:8-9 | `sensor_id` draws no message exactly when it is a string, and otherwise exactly "Provide valid sensor_id (string)" |
| SensorDataDto.TemperatureUnitRule | src/weather-sensor/dto/weather-sensor-data.dto.ts:3-12 | `temperatureUnit` passes iff it is the string "C" or "F"; missing gives the unit message twice; a string outside the enum gives it once; numeric 0 or 1 gives it once; any other non-string gives it twice |
| SensorDataDto.TemperatureRule | src/weather-sensor/dto/weather-sensor-data.dto.ts:13-14 | `temperature` passes iff it is a number, with no bound; otherwise its one message |
| SensorDataDto.HumidityRule | src/weather-sensor/dto/weather-sensor-data.dto.ts:15-18 | `humidity` passes iff it is a number in [0, 100], both bounds inclusive; below 0 gives only the min message; above 100 gives only the max message; a non-number (missing included) gives max, min and isNumber messages in that order |
| SensorDataDto.FailedEmpty | src/weather-sensor/dto/weather-sensor-data.dto.ts:7-18 | a property fails no constraint exactly when every one of its rules holds of the value |
| SensorDataDto.FieldPassesIffValid | src/weather-sensor/dto/weather-sensor-data.dto.ts:7-18 | for each declared property, the rule engine's verdict agrees with a direct statement of what the property accepts |
| SensorDataDto.ValidReadingIffNoMessages | src/weather-sensor/dto/weather-sensor-data.dto.ts:7-18 | a reading is valid exactly when no declared property draws a message |
| SensorDataDto.MessagesForUndeclared | src/weather-sensor/dto/weather-sensor-data.dto.ts:7-18 | a name the DTO does not declare has no rules and draws no message |
| SensorDataDto.MessagesInDto | src/weather-sensor/dto/weather-sensor-data.dto.ts:7-18 | looking a property up by name in the DTO's property list gives that property's messages, and none for other names |
| Validation.WhitelistErrors | src/weather-sensor/pipes/weather-sensor-data-validatior.pipe.ts:12 | `forbidNonWhitelisted` yields one error per undeclared key and no other; each carries only the whitelist constraint; the errors name distinct keys |
| Validation.PropertyErrorsComplete | src/weather-sensor/pipes/weather-sensor-data-validatior.pipe.ts:12 | a declared property gets an error exactly when it fails some rule |
| Validation.PropertyErrorsMessages | src/weather-sensor/pipes/weather-sensor-data-validatior.pipe.ts:12 | each property error carries the messages of every rule its property fails, in the order the rules run |
| Validation.ValidateDistinct | src/weather-sensor/pipes/weather-sensor-data-validatior.pipe.ts:12 | validation reports each property at most once |
| Validation.ValidateKeys | src/weather-sensor/pipes/weather-sensor-data-validatior.pipe.ts:12 | validation reports exactly the undeclared keys and the declared properties that fail a rule |
| Validation.ValidateMessages | src/weather-sensor/pipes/weather-sensor-data-validatior.pipe.ts:12 | each reported error carries the whitelist message for an undeclared key, or every failed-rule message of a declared property |
| Validation.ValidateAccepts | src/weather-sensor/pipes/weather-sensor-data-validatior.pipe.ts:12-13 | validation resolves iff every key is declared and the reading is valid |
| ValidatorPipe.FormatErrorsKeys | src/weather-sensor/pipes/weather-sensor-data-validatior.pipe.ts:33-37 | the map's keys are exactly the properties of errors that carry constraints; errors without constraints are omitted |
| ValidatorPipe.FormatErrorsLast | src/weather-sensor/pipes/weather-sensor-data-validatior.pipe.ts:36 | a property's entry holds the constraint messages of the last error for it that carries constraints |
| ValidatorPipe.FormatErrorsDistinct | src/weather-sensor/pipes/weather-sensor-data-validatior.pipe.ts:31-39 | for errors with distinct properties, all constrained, the map sends each property to its own messages and has no other key |
| ValidatorPipe.FormatErrorsLoop | src/weather-sensor/pipes/weather-sensor-data-validatior.pipe.ts:31-40 | the `forEach` loop builds the same map as the recursive definition |
| ValidatorPipe.Classify | src/weather-sensor/pipes/weather-sensor-data-validatior.pipe.ts:14-26 | only a non-empty thrown array of validation errors gives the "error" / "Validation failed" payload; everything else gives the generic message |
| ValidatorPipe.Transform | src/weather-sensor/pipes/weather-sensor-data-validatior.pipe.ts:8-28 | an unparseable message is rejected with exactly the generic message; on success the parsed value is returned unchanged |
| ValidatorPipe.InstanceGet | src/weather-sensor/pipes/weather-sensor-data-validatior.pipe.ts:11 | every key the instance gets reads the same on the instance as on the parsed object |
| ValidatorPipe.InstanceWhole | src/weather-sensor/pipes/weather-sensor-data-validatior.pipe.ts:11 | an object with no uncopied key is copied whole, in order |
| ValidatorPipe.InstanceAccepts | src/weather-sensor/pipes/weather-sensor-data-validatior.pipe.ts:11-12 | validating the instance resolves iff every key of the parsed object is declared or uncopied and the reading is valid |
| ValidatorPipe.TransformAccepts | src/weather-sensor/pipes/weather-sensor-data-validatior.pipe.ts:10-13 | a message is accepted iff it parses to a string, or to an object whose every key is declared or uncopied and whose declared properties pass every rule |
| ValidatorPipe.TransformKeys | src/weather-sensor/pipes/weather-sensor-data-validatior.pipe.ts:11-13 | an accepted value is a string or an object; an accepted object has no key outside sensor_id, temperatureUnit, temperature, humidity and the uncopied keys |
| ValidatorPipe.TransformFailures | src/weather-sensor/pipes/weather-sensor-data-validatior.pipe.ts:10-25 | a failure has a field map iff the message parsed to a number, boolean or array, or to an object whose instance validation rejected; the generic message is given iff the text does not parse or parses to null |
| ValidatorPipe.UnknownValueReported | src/weather-sensor/pipes/weather-sensor-data-validatior.pipe.ts:12-23 | a number, boolean or array gets "Validation failed" with the one key "undefined" holding the unknown-value message |
| ValidatorPipe.InstanceErrors | src/weather-sensor/pipes/weather-sensor-data-validatior.pipe.ts:31-39 | the map built from the instance's errors has exactly the copied undeclared keys (whitelist message) and the failing declared properties (all their messages) |
| ValidatorPipe.TransformErrors | src/weather-sensor/pipes/weather-sensor-data-validatior.pipe.ts:19-23 | a rejected object gets `{status: "error", message: "Validation failed"}`. Its map has exactly the undeclared keys that are copied (whitelist message) and the failing properties (all their messages) |
| ValidatorPipe.TransformIntendedAccepts | src/weather-sensor/pipes/weather-sensor-data-validatior.pipe.ts:10-13 | the intended pipe accepts a message iff it parses to an object whose keys are all declared and whose fields pass every rule |
| ValidatorPipe.TransformIntendedErrors | src/weather-sensor/pipes/weather-sensor-data-validatior.pipe.ts:19-23 | an object the intended pipe rejects gets a map with exactly its undeclared keys (whitelist message) and its failing properties (all their messages) |
| ValidatorPipe.TransformAgrees | src/weather-sensor/pipes/weather-sensor-data-validatior.pipe.ts:11-13 | on an object with no uncopied key, the pipe as written and as intended give the same answer |
| ValidatorPipe.OnlyFieldFails | src/weather-sensor/pipes/weather-sensor-data-validatior.pipe.ts:36 | when one declared property alone fails and every key is declared, the map holds that property alone, with all its messages |
| ValidatorPipe.MissingSensorIdReported | src/weather-sensor/weather-sensor.gateway.spec.ts:153-187 | the test's reading, sent as JSON text: a reading without `sensor_id`, the other fields valid as in the test, gets `{sensor_id: ["Provide valid sensor_id (string)"]}` |
| ValidatorPipe.MissingUnitReported | src/weather-sensor/weather-sensor.gateway.spec.ts:189-224 | the test's reading, sent as JSON text: a reading without `temperatureUnit`, the other fields valid, gets the unit message twice |
| ValidatorPipe.WrongUnitReported | src/weather-sensor/weather-sensor.gateway.spec.ts:226-261 | the test's reading, sent as JSON text: a unit string other than "C" and "F" (the test uses "Wrong Unit"), the other fields valid, gets the unit message once |
| ValidatorPipe.MissingTemperatureReported | src/weather-sensor/weather-sensor.gateway.spec.ts:263-297 | the test's reading, sent as JSON text: a reading without `temperature`, the other fields valid, gets `{temperature: ["Provide valid temperature (number)"]}` |
| ValidatorPipe.MissingHumidityReported | src/weather-sensor/weather-sensor.gateway.spec.ts:299-335 | the test's reading, sent as JSON text: a reading without `humidity`, the other fields valid, gets the max, min and isNumber messages in that order |
| ValidatorPipe.HumidityBelowReported | src/weather-sensor/weather-sensor.gateway.spec.ts:337-372 | the test's reading, sent as JSON text: any humidity below 0 (the test uses -10), the other fields valid, gets only "Humidity cannot be less than 0" |
| ValidatorPipe.HumidityAboveReported | src/weather-sensor/weather-sensor.gateway.spec.ts:374-409 | the test's reading, sent as JSON text: any humidity above 100 (the test uses 101), the other fields valid, gets only "Humidity cannot be more than 100" |
| ValidatorPipe.ValidReadingAccepted | src/weather-sensor/weather-sensor.gateway.spec.ts:95-100 | the test's reading, sent as JSON text: a reading like the tests' valid one, with unit "C" or "F" and humidity in [0, 100], is accepted and returned unchanged |
| ValidatorPipe.CreatedAtRejected | src/weather-sensor/pipes/weather-sensor-data-validatior.pipe.ts:12 | a client-supplied `createdAt` is not a DTO property, so the message is rejected with the whitelist message for it |
| ValidatorPipe.UncopiedKeyAccepted | src/weather-sensor/pipes/weather-sensor-data-validatior.pipe.ts:11-13 | a valid reading plus an uncopied key such as `constructor` is accepted and handed on with that undeclared key; the intended pipe refuses it |
| ValidatorPipe.StringAccepted | src/weather-sensor/pipes/weather-sensor-data-validatior.pipe.ts:10-13 | text that parses to a string is accepted and handed on; the intended pipe refuses it with the unknown-value map |
| ValidatorPipe.EmittedObjectUnexpected | src/weather-sensor/pipes/weather-sensor-data-validatior.pipe.ts:8-25 | an object emitted on the socket, whatever it holds, gets the generic message |
| ValidatorPipe.EmittedReadingAccepted | src/weather-sensor/pipes/weather-sensor-data-validatior.pipe.ts:8-13 | with the payload taken as intended, a valid reading emitted as an object is accepted and returned unchanged |
| ValidatorPipe.EmittedAsText | src/weather-sensor/pipes/weather-sensor-data-validatior.pipe.ts:8-13 | with the payload taken as intended, an emitted object whose keys are all declared gets the answer the pipe as written gives its JSON text |
| SensorSchema.ViolationsAre | src/weather-sensor/schema/sensor-data.shema.ts:8-18 | the violations of a payload are exactly those of the declared paths that refuse their values |
| SensorSchema.PathsAccept | src/weather-sensor/schema/sensor-data.shema.ts:8-18 | sensor_id needs a string; temperatureUnit needs "C" or "F"; temperature needs a number; humidity needs a number in [0, 100] |
| SensorSchema.PathAgreesWithDto | src/weather-sensor/schema/sensor-data.shema.ts:8-18 | for each declared path, the schema refuses a value exactly when the DTO reports a message for the same property |
| SensorSchema.AdmitIffNoViolations | src/weather-sensor/schema/sensor-data.shema.ts:8-18 | a payload is admitted iff no path is violated, and otherwise refused with the violations |
| SensorSchema.AdmitAccepts | src/weather-sensor/schema/sensor-data.shema.ts:8-18 | the schema admits exactly the readings the DTO rules accept |
| SensorSchema.AdmitRefuses | src/weather-sensor/schema/sensor-data.shema.ts:8-18 | a refused payload has at least one violation, and its violations are exactly those of the refusing paths |
| SensorSchema.AdmitStores | src/weather-sensor/schema/sensor-data.shema.ts:6-21 | an admitted document keeps the stored-record invariant, holds the four values sent, and has `createdAt` and `updatedAt` equal to the save time |
| SensorSchema.TemperatureUnbounded | src/weather-sensor/schema/sensor-data.shema.ts:14-15 | any number is an admissible temperature, and is stored as given |
| SensorSchema.AdmitDocument | src/weather-sensor/schema/sensor-data.shema.ts:8-21 | re-admitting a record's own four fields at its creation time yields the record iff it keeps the invariant |
| AcceptedReadings.AcceptedIsStorable | src/weather-sensor/schema/sensor-data.shema.ts:11-17 | every value the pipe accepts is a string or an object; an accepted object is admitted by the schema, and the stored record keeps the unit enum and humidity range |
| AcceptedReadings.IntendedIsStorable | src/weather-sensor/schema/sensor-data.shema.ts:11-17 | every value the intended pipe accepts is an object the schema admits, stored with the unit enum and humidity range |
| AcceptedReadings.GateMatchesSchema | src/weather-sensor/schema/sensor-data.shema.ts:8-18 | for an object without undeclared keys, the pipe accepts exactly what the schema admits, with the schema taken without casting |

## Left out

- The gateway (`src/weather-sensor/weather-sensor.gateway.ts`) is socket.io plumbing: logging, the connect broadcast, and the echo of the validated payload.
- `WeatherSensorService` is left out. It wraps a Mongoose `save`. The database assigns `_id` and performs the write; neither is modelled.
- The modules and `src/app.module.ts` are dependency-injection and connection wiring.
- The "show all sensor data" handler used by the gateway tests does not exist in the gateway.
- `JSON.parse` is abstract: text either does not parse or parses to a value. Of the payloads that are not text, only an emitted object is modelled (`Payload.Emitted`); a number, boolean, null or array emitted as such is converted to text by `JSON.parse` and may parse, which is not modelled.
- Numbers are unbounded reals. `IsNumber`'s rejection of NaN and Infinity is not modelled. JSON text can overflow to Infinity, as in `1e999`.
- `Keys` keeps keys in first-occurrence order. `Object.keys` lists integer-like keys first. This changes only the order of whitelist errors, and for distinct keys that order does not affect the error map.
- `WhitelistMessage`: the wording is class-validator's own. No property depends on it beyond its being the message recorded for the key.
- `ValidatorPipe.Attempt`: the handling of values that are not objects, and the keys left uncopied, follow class-validator 0.14 and class-transformer 0.5, whose code is not part of this model. Before class-validator 0.14 `forbidUnknownValues` was off, and a number, boolean or array was accepted.
- `ValidatorPipe.Uncopied`: lists the keys `Object.prototype` gives every instance; a getter-only or method property declared on the DTO class would also be skipped, and the DTO declares none.
- `SensorSchema.Admit`: Mongoose's casting is not modelled. Every value of the wrong JSON type is a cast error, although Mongoose would cast a number to a String path, for example. This makes `PathAgreesWithDto` and `AdmitAccepts` hold in a stricter model than Mongoose's.
- `AcceptedReadings.GateMatchesSchema`: holds only for the schema without casting. Mongoose casts `"temperature": "10"` to 10 and saves it, while the pipe refuses it; and Mongoose's `required` refuses `sensor_id: ""`, which the pipe accepts.
- `SensorSchema.Admit`: Mongoose's `required` check rejects the empty string on a String path; this is not modelled.
- `SensorSchema.Admit`: a client-supplied `createdAt` is not honoured; the default is always used. The pipe refuses such messages (`CreatedAtRejected`).
- `SensorSchema.Admit`: the `Date.now` default and the save timestamp are taken to be the same instant, `now`.
- `SensorSchema.Admit`: dates are integers, so a `Date`'s own range and validity are not modelled.

## Findings

| source | as written | input that shows it | evidently intended | confidence | as-written member | corrected member |
|---|---|---|---|---|---|---|
| src/weather-sensor/pipes/weather-sensor-data-validatior.pipe.ts:11-13 | the whitelist checks the DTO instance, which never gets `__proto__`, `constructor` or inherited method names, and line 13 returns the parsed object with them | `{"sensor_id":"s","temperatureUnit":"C","temperature":1,"humidity":1,"constructor":1}` is accepted and handed on with five keys | every key of the message is checked against the whitelist | medium: rests on class-transformer's copying rules; not executed | ValidatorPipe.UncopiedKeyAccepted | ValidatorPipe.TransformIntendedAccepts |
| src/weather-sensor/pipes/weather-sensor-data-validatior.pipe.ts:10-13 | a parsed string reaches `validateOrReject`, which reads a string first argument as a schema name and resolves | the message `"hello"`, a JSON string, is accepted and handed on | only an object can pass | medium: rests on class-validator's argument handling; not executed | ValidatorPipe.StringAccepted | ValidatorPipe.TransformIntendedAccepts |
| src/weather-sensor/pipes/weather-sensor-data-validatior.pipe.ts:10 | `JSON.parse(data)` runs on the payload whatever its type; an object emitted on the socket arrives decoded and becomes `"[object Object]"` | the gateway tests emit readings as objects (weather-sensor.gateway.spec.ts:103, `ws.emit("create sensor data", inputData)`); each, valid or not, gets "An unexpected error occurred" | an emitted object is validated as it is | high: `JSON.parse` converts its argument to a string; not executed | ValidatorPipe.EmittedObjectUnexpected | ValidatorPipe.EmittedReadingAccepted |

The gateway scenarios (`MissingSensorIdReported` and the rest) describe each test's reading sent as JSON text. The intended pipe gives an emitted object the same answer as its text (`EmittedAsText`), so they are also what the tests would see once the payload is taken as intended.
