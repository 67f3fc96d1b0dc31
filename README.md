# Health platform: telemetry ingestion and event list, modelled in Dafny

This project models two parts of a remote patient monitoring platform.

**The telemetry ingestion handler** (`webapp/backend/src/event-handler.ts`).
A sensor event arrives as a JSON object. The handler:

- looks up the sensor's owning patient in the sensor table;
- stops if the sensor is unknown;
- builds one metric record for each modality of the fixed allow-list `ecg`, `heartrate`, `temp` that is a key of the event;
- gives every record the same ISO-8601 timestamp and the same expiry (`ttl`), one UTC calendar day later;
- saves the batch with one `saveMetrics` call;
- then writes the event, with `patientId` added, to the delivery stream.

The model has these parts:

- `EventHandler.Handler` is a class whose `calls` field logs the two outbound writes in order.
- `Handler.Handle` is proved equal to the functional specification `EventHandler.Ingest`.
- The `Date` arithmetic the handler relies on is modelled exactly, with integers, in `JsDate`:
  - `setUTCSeconds`, `getUTCDate` and `setDate` under a UTC local zone;
  - `toISOString`, including its RangeError on an invalid date;
  - `(ms / 1000) | 0`.
- `JsDate` rests on a proleptic Gregorian calendar (`Calendar`) and a zero-padded formatter (`IsoFormat`).

**The clinician's event view** (`webapp/frontend/src/components/events/Events.tsx`). Four list algorithms:

- the create-subscription merge, a method with a loop;
- `getPatientName`, a method with a loop;
- the choice of patient ids to query, a function (`SelectPatientIds`) whose loaded result `LoadedForFilter` states;
- the concatenation of the per-patient query results, a method with nested loops.

Each method is proved against a functional specification. The merge is modelled as written, although the view never starts the subscription: its call is commented out (Events.tsx:168).

Modules: `Wrappers` (Option), `Calendar`, `IsoFormat`, `JsDate`, `EventHandler`, `EventsView`.

Where the code and the design document differ, the model follows the code:

- **Modalities.** The design treats any key as a candidate modality. The code reads only `ecg`, `heartrate` and `temp`.
- **Failure handling.** The design asks for partial-failure reporting, transient-error propagation and an overall result. The code awaits three calls (`getSensor`, `saveMetrics` and `firehose.send`, event-handler.ts:26, 64, 74) and returns nothing. A rejection of any of them propagates, since the handler's promise then rejects; there is no partial-failure report and no overall result. The model has only the three outcomes it can distinguish, and leaves rejected promises out (see "## Left out").
- **Expiry.** The design says the expiry is "24h ± ε" depending on the time of day. In the code `setDate` keeps the time of day, so under a UTC zone the expiry is always exactly 86400 seconds later (`EventHandler.TtlIsNextDay`).

## Model

| member | source | states |
|---|---|---|
| EventHandler.Ingest | webapp/backend/src/event-handler.ts:20-77 | an invocation ends as "sensor not found" iff the lookup fails; nothing is written unless it is delivered; a delivered invocation writes exactly twice, a `saveMetrics` and then the envelope to the configured stream |
| EventHandler.Handler.Handle | webapp/backend/src/event-handler.ts:20-77 | one invocation returns the outcome of `Ingest` and appends exactly its outbound calls, in order, to the log |
| EventHandler.Handler.constructor | webapp/backend/src/event-handler.ts:7-9 | a handler starts with the given sensor table and stream name and an empty call log |
| EventHandler.FindSensor | webapp/backend/src/event-handler.ts:25-31 | a patient is found iff the event has a `sensorId` that the sensor table maps, and it is that entry's patient id |
| EventHandler.UnknownSensorWritesNothing | webapp/backend/src/event-handler.ts:26-31 | the invocation ends as "sensor not found" iff the sensor id is absent or unknown, and then nothing is saved or forwarded |
| EventHandler.KnownSensorSavesThenForwards | webapp/backend/src/event-handler.ts:37-74 | for a known sensor: a RangeError with no write iff a modality is present and the date is invalid; otherwise exactly two calls, `saveMetrics` of the batch (empty when no modality is present) and then the envelope write |
| EventHandler.CollectDatapoints | webapp/backend/src/event-handler.ts:42-61 | the `forEach` loop yields exactly the records of the specification `Datapoints`, or the RangeError |
| EventHandler.Present | webapp/backend/src/event-handler.ts:44-45 | the modalities kept are keys of the event and members of the list, never more than the list |
| EventHandler.PresentMembers | webapp/backend/src/event-handler.ts:44-45 | a modality is kept iff it is in the list and a key of the event |
| EventHandler.PresentModalities | webapp/backend/src/event-handler.ts:42-45 | over the allow-list, the kept modalities are `ecg`, `heartrate`, `temp` in that order, each iff it is a key |
| EventHandler.DatapointsShape | webapp/backend/src/event-handler.ts:44-54 | the loop throws iff a modality is present and the date is invalid; otherwise record i has the resolved patient, the sensor id, the shared timestamp and ttl, the i-th present modality and the event's value for it |
| EventHandler.DatapointsFailureSticks | webapp/backend/src/event-handler.ts:44-49 | once `toISOString` has thrown, the remaining modalities cannot change the result |
| EventHandler.SavedBatch | webapp/backend/src/event-handler.ts:42-54 | the saved batch has one record per allow-listed key present, in allow-list order, with the resolved patient, the event's sensor id, the modality name and its value |
| EventHandler.SharedTimestampAndTtl | webapp/backend/src/event-handler.ts:37-40 | every record of one event carries the same ISO timestamp and the same ttl |
| EventHandler.StampOfEvent | webapp/backend/src/event-handler.ts:37-38 | the timestamp instant is `timestamp` seconds after the epoch; printing it fails iff the timestamp is not an integer or is beyond the Date range |
| EventHandler.TtlIsNextDay | webapp/backend/src/event-handler.ts:36-40 | the ttl instant is the timestamp plus one day of milliseconds on the next calendar date; the stored ttl is timestamp + 86400 wrapped to 32 bits, or 0 beyond the Date range |
| EventHandler.Envelope | webapp/backend/src/event-handler.ts:67 | the envelope has every key of the event plus `patientId`; `patientId` is the resolved patient and every other field is unchanged |
| EventHandler.ForwardedEnvelope | webapp/backend/src/event-handler.ts:66-74 | the second call of a delivered invocation writes to the configured stream an envelope with every event field unchanged and `patientId` overwritten |
| EventHandler.ExampleEventIsDelivered | webapp/backend/src/event-handler.ts:11-19 | the documented event with sensor 777 owned by `patientX` saves three records stamped 2022-01-24T07:22:56.000Z with ttl 1643095376, then forwards the event with `patientId` |
| EventHandler.ExampleDatapoints | webapp/backend/src/event-handler.ts:44-54 | the three records built from the documented event |
| EventHandler.ExampleTimestampText | webapp/backend/src/event-handler.ts:49 | 1643008976 seconds after the epoch prints as 2022-01-24T07:22:56.000Z |
| EventHandler.ExampleEventUnknownSensor | webapp/backend/src/event-handler.ts:28-31 | the documented event with an empty sensor table makes no call |
| EventHandler.NoModalityStillForwards | webapp/backend/src/event-handler.ts:63-74 | an event with no modality still saves an empty batch and forwards its envelope |
| JsDate.Date.constructor | webapp/backend/src/event-handler.ts:37-39 | `new Date(v)` holds the time-clipped value of `v`, or NaN |
| JsDate.Date.SetUTCSeconds | webapp/backend/src/event-handler.ts:38 | the seconds field is replaced as `setUTCSeconds` specifies |
| JsDate.Date.SetDate | webapp/backend/src/event-handler.ts:40 | the day of the month is replaced, with MakeDay normalisation, as `setDate` specifies under UTC |
| JsDate.SetUTCSecondsFromEpoch | webapp/backend/src/event-handler.ts:37-38 | from the epoch, `setUTCSeconds(n)` gives the instant n seconds later, clipped to the Date range |
| JsDate.SetDateNextDay | webapp/backend/src/event-handler.ts:39-40 | `setDate(getUTCDate() + 1)` adds exactly one day of milliseconds, across month and year ends |
| JsDate.NextDayDate | webapp/backend/src/event-handler.ts:40 | one day of milliseconds later falls on the next calendar date |
| JsDate.IsoStringOf | webapp/backend/src/event-handler.ts:49 | `toISOString` throws exactly on an invalid date; otherwise the text has 24 characters for years 0..9999 and 27 otherwise |
| JsDate.IsoStringOfValid | webapp/backend/src/event-handler.ts:49 | a valid time value prints without a RangeError and has a year within ±999999 |
| JsDate.TimeOfIsoStringOfIsoString | webapp/backend/src/event-handler.ts:49 | for years 0..9999 the ISO text read back gives the instant it was printed from |
| JsDate.TimeOfDayFields | webapp/backend/src/event-handler.ts:49 | hour, minute, second and millisecond are within range and add up to the time of day |
| JsDate.ToInt32 | webapp/backend/src/event-handler.ts:50 | `| 0` lands in the signed 32-bit range, agrees with its input modulo 2^32 and keeps values already in range |
| JsDate.Seconds | webapp/backend/src/event-handler.ts:50 | the quotient by 1000 truncated toward zero: the remainder has the sign of the dividend and is below 1000 in magnitude, and it is 0 on multiples of 1000 |
| Calendar.DaysFromCivil | webapp/backend/src/event-handler.ts:40 | MakeDay's day number; its properties are stated by `DaysFromCivilOverflow`, the two round trips and `DaysFromCivilNext` |
| Calendar.DaysFromCivilOverflow | webapp/backend/src/event-handler.ts:40 | a day of the month beyond the month's end counts on from its first day, as MakeDay normalises it |
| Calendar.CivilFromDays | webapp/backend/src/event-handler.ts:40 | every day number has a valid civil date |
| Calendar.DaysFromCivilOfCivilFromDays | webapp/backend/src/event-handler.ts:40 | the day number of a day's civil date is that day |
| Calendar.CivilFromDaysOfDaysFromCivil | webapp/backend/src/event-handler.ts:40 | every valid civil date is the civil date of its day number |
| Calendar.CivilFromDaysNext | webapp/backend/src/event-handler.ts:40 | the day after a day number is the next calendar date, month and year rollover included |
| Calendar.DaysFromCivilNext | webapp/backend/src/event-handler.ts:40 | consecutive calendar dates have consecutive day numbers |
| Calendar.NextDate | webapp/backend/src/event-handler.ts:40 | the next date is valid, and the year changes only from 31 December to 1 January |
| Calendar.DaysInMonth | webapp/backend/src/event-handler.ts:40 | months have 28 to 31 days, and 29 exactly for February of a leap year |
| Calendar.EpochIsNewYear1970 | webapp/backend/src/event-handler.ts:37 | day 0 is 1970-01-01 |
| IsoFormat.Pad | webapp/backend/src/event-handler.ts:49 | a padded field has exactly the requested width and only digits |
| IsoFormat.ParsePad | webapp/backend/src/event-handler.ts:49 | a number that fits its width is recovered from its padded digits |
| IsoFormat.YearText | webapp/backend/src/event-handler.ts:49 | the year takes 4 characters for 0..9999 and 7 otherwise |
| IsoFormat.IsoText | webapp/backend/src/event-handler.ts:49 | the ISO text is 20 characters longer than its year field |
| IsoFormat.IsoFieldsOfIsoText | webapp/backend/src/event-handler.ts:49 | with a four-digit year the text is 24 characters long and each field can be read back from its fixed position |
| EventsView.MergeCreated | webapp/frontend/src/components/events/Events.tsx:117-133 | the merge loop with its `found` flag yields exactly the specification `Merged` |
| EventsView.Replaced | webapp/frontend/src/components/events/Events.tsx:120-129 | same length; item i becomes the new event iff its `user_id` is strictly equal (`===`, so `null` differs from a missing field) to the event's `userId`, and otherwise stays as it was |
| EventsView.MergeWithoutData | webapp/frontend/src/components/events/Events.tsx:119-134 | a notification without data leaves the list unchanged |
| EventsView.MergeShape | webapp/frontend/src/components/events/Events.tsx:117-133 | matching items are replaced in place and the others are kept at their index; the length grows by one, with the new event last, exactly when nothing matched |
| EventsView.MergeKeepsOthers | webapp/frontend/src/components/events/Events.tsx:125-128 | two non-matching items keep their values and their relative order |
| EventsView.CreatedIsShown | webapp/frontend/src/components/events/Events.tsx:121-132 | the new event is in the list after the merge |
| EventsView.MergeIdempotent | webapp/frontend/src/components/events/Events.tsx:117-133 | when an event's `userId` equals its own `user_id`, merging it twice gives the same list as merging it once |
| EventsView.MissingUserIdAppends | webapp/frontend/src/components/events/Events.tsx:121 | an event without a `userId` key is appended, never replacing an item whose `user_id` is present, `null` included |
| EventsView.MissingUserIdAgainstNull | webapp/frontend/src/components/events/Events.tsx:120-132 | an item with `user_id: null` and a new event without `userId` do not match, so the list grows to two items |
| EventsView.PatientName | webapp/frontend/src/components/events/Events.tsx:177-185 | the scan returns the name of the last patient with the id, or `""` when `LastIndex` finds none |
| EventsView.LastIndex | webapp/frontend/src/components/events/Events.tsx:179-183 | the index found is -1 or holds a patient with the id, and no later patient has the id |
| EventsView.LastIndexAbsent | webapp/frontend/src/components/events/Events.tsx:178-184 | no index is found (`LastIndex` is -1) exactly when no patient has the id, in both directions; a matching patient whose name is `""` still yields `""` |
| EventsView.SelectPatientIds | webapp/frontend/src/components/events/Events.tsx:81 | the user's `patient_ids` for the "all" filter, otherwise the one selected id; nothing to query only for "all" without `patient_ids` |
| EventsView.LoadEvents | webapp/frontend/src/components/events/Events.tsx:84-103 | the nested loops yield the per-patient results concatenated in id order, or nothing when there are no ids |
| EventsView.LoadedForFilter | webapp/frontend/src/components/events/Events.tsx:81-103 | a single selected patient loads exactly that patient's results; "all" loads the user's patients' results in order, or nothing without `patient_ids` |
| EventsView.ConcatenatedAppend | webapp/frontend/src/components/events/Events.tsx:86-102 | loading two id lists in sequence gives the two loads concatenated |
| EventsView.ConcatenatedMembers | webapp/frontend/src/components/events/Events.tsx:86-102 | an item is loaded iff some queried patient's results contain it |
| EventsView.ConcatenatedLength | webapp/frontend/src/components/events/Events.tsx:86-102 | the number of loaded items is the sum of the per-patient result sizes |

## Left out

- `SensorDao` and `MetricsDataDao` are not part of this model. The sensor lookup is a map from sensor id to patient id, and `saveMetrics` is one logged call. Their internals, any partial failure, upsert idempotency and retries are not modelled.
- The AWS SDK clients and the GraphQL calls are not modelled: no DynamoDB, no Firehose `PutRecordCommand`, no `API.graphql`. The envelope is a map, not the `JSON.stringify`/`Buffer` bytes. `DELIVERY_STREAM_NAME` is a constructor parameter.
- Async/await, rejected promises and the subscription as a concurrency mechanism are not modelled. The merge works on the list as it is when a notification arrives.
- Console logging, JSX rendering, React state hooks, the `createData`/`rows` sample data and the relative-time helpers in `utils/time` are left out.
- `webapp/backend/lib/iot-stack.ts` is declarative infrastructure wiring and is not part of this model.
- Only the UTC local zone is modelled: `setDate` counts days in UTC. Other zones, and daylight saving, are not modelled.
- Numbers that are not integers (a `temp` of 36.7) are opaque values copied verbatim. The documented example's `36.7` is `Opaque(367)`.
- The timestamp is read only as `Int(n)`, meaning n seconds. Any other `timestamp` value (a numeric string, a fraction, `null`, a boolean, a missing field) makes the date NaN. JavaScript's ToNumber coercion is not modelled: in the source `null` and `false` read as 0 and `true` as 1, giving a valid date near 1970-01-01 where the model throws a RangeError. Fractional seconds are not modelled either.
- An event without `sensorId` is treated as an unknown sensor. What the DAO would do with `undefined` is not modelled.
- JsDate.Seconds divides by 1000 exactly, while JavaScript divides in floating point. The two agree for the handler's ttl, which is always a whole number of seconds.
- EventsView.MergeCreated models only notifications whose `data` also carries `onCreateEventDetail`. A null `onCreateEventDetail` is not modelled.
- EventsView.PatientName models only patients with a non-null `name`. The `p.name!` assertion on a null name is not modelled.
- EventsView.LoadEvents: `query` stands for one patient's GraphQL query. Its time window and limit of 100 are inside `query`. The query reads `searchProperties.start`/`end` before the refreshed window takes effect, and this timing is not modelled.
- The merge's comparison of the new event's `userId` with each item's `user_id` is modelled as written, with a missing field and `null` kept apart as `===` keeps them (`EventsView.MissingUserIdAppends` shows one consequence).
