/**
 * The telemetry ingestion handler: one sensor event is resolved to its
 * patient through the sensor directory, split into one metric record per
 * recognised modality, saved as one batch, and then forwarded, with the
 * patient id added, to the delivery stream.
 *
 * The two external writes (the metric store and the delivery stream) are
 * recorded, in the order they happen, in the handler's `calls` log.
 */
module EventHandler {
  import opened Wrappers
  import opened JsDate
  import Calendar

  /** A JSON value of an event: strings and integers are told apart, every other value (a fraction, an object) is opaque. */
  datatype Value = Str(s: string) | Int(n: int) | Opaque(token: nat)

  /** An incoming event: its JSON object, field name to value. */
  type Event = map<string, Value>

  /** The sensor table: sensor id to the `patient_id` of the sensor's owner. */
  type SensorDirectory = map<Value, string>

  /** One item of the metrics table (`MetricsData`). */
  datatype MetricRecord = MetricRecord(
    patientId: string,
    sensorId: Value,
    timestamp: string,
    ttl: int,
    measureType: string,
    measureValue: Value)

  /** An outbound call: `saveMetrics(datapoints)` or a `PutRecordCommand` to the delivery stream. */
  datatype Call = SaveMetrics(batch: seq<MetricRecord>) | PutRecord(deliveryStream: string, data: Event)

  /**
   * How an invocation ends: the early return for an unknown sensor, a
   * RangeError thrown by `toISOString` on an invalid date, or completion
   * after the delivery-stream write.
   */
  datatype Outcome = SensorNotFound | RangeError | Delivered

  datatype Invocation = Invocation(outcome: Outcome, calls: seq<Call>)

  /** The recognised modalities, in the order the records are built. */
  const Modalities: seq<string> := ["ecg", "heartrate", "temp"]

  /** `sensorDao.getSensor(event.sensorId)`, reduced to the owner's patient id. */
  function FindSensor(sensors: SensorDirectory, event: Event): (r: Option<string>)
    ensures r.Some? <==> "sensorId" in event && event["sensorId"] in sensors
    ensures r.Some? ==> r.value == sensors[event["sensorId"]]
  {
    if "sensorId" in event && event["sensorId"] in sensors then Some(sensors[event["sensorId"]]) else None
  }

  /** `event.timestamp` as a number of seconds; anything but an integer reads as NaN. */
  function EpochSeconds(event: Event): Option<int> {
    if "timestamp" in event && event["timestamp"].Int? then Some(event["timestamp"].n) else None
  }

  /** `x + 1`, where NaN stays NaN. */
  function Increment(x: Option<int>): Option<int> {
    match x
    case None => None
    case Some(v) => Some(v + 1)
  }

  /** The time value of `timestamp` after `new Date(0)` and `setUTCSeconds(event.timestamp)`. */
  function StampTime(event: Event): TimeValue {
    SetUTCSecondsOf(TimeClip(0), EpochSeconds(event))
  }

  /** The time value of `ttl` after copying `timestamp` and `setDate(timestamp.getUTCDate() + 1)`. */
  function TtlTime(stamp: TimeValue): TimeValue {
    SetDateOf(stamp, Increment(UTCDateOf(stamp)))
  }

  /** `(ttl.getTime() / 1000) | 0`; NaN becomes 0. */
  function TtlField(t: TimeValue): int {
    match t
    case None => 0
    case Some(x) => ToInt32(Seconds(x))
  }

  /** The modalities of `mods` that are keys of the event (`modality in event`), in the order of `mods`. */
  function Present(mods: seq<string>, event: Event): (p: seq<string>)
    ensures |p| <= |mods|
    ensures forall i | 0 <= i < |p| :: p[i] in event && p[i] in mods
  {
    if mods == [] then []
    else
      var last := mods[|mods| - 1];
      Present(mods[..|mods| - 1], event) + (if last in event then [last] else [])
  }

  /**
   * The records that the `forEach` over `mods` pushes, or `None` when
   * `toISOString` throws on the first modality present.
   */
  function Datapoints(mods: seq<string>, event: Event, patientId: string, sensorId: Value,
                      stamp: TimeValue, ttl: int): Option<seq<MetricRecord>>
  {
    if mods == [] then Some([])
    else
      var last := mods[|mods| - 1];
      match Datapoints(mods[..|mods| - 1], event, patientId, sensorId, stamp, ttl)
      case None => None
      case Some(rs) =>
        if last !in event then Some(rs)
        else
          match IsoStringOf(stamp)
          case None => None
          case Some(iso) => Some(rs + [MetricRecord(patientId, sensorId, iso, ttl, last, event[last])])
  }

  /** `{ ...event, patientId }`: every field of the event, with `patientId` set (or overwritten). */
  function Envelope(event: Event, patientId: string): (env: Event)
    ensures env.Keys == event.Keys + {"patientId"}
    ensures env["patientId"] == Str(patientId)
    ensures forall k | k in event && k != "patientId" :: env[k] == event[k]
  {
    event["patientId" := Str(patientId)]
  }

  /** What one invocation of the handler does, for a given sensor table and stream name. */
  function Ingest(sensors: SensorDirectory, deliveryStream: string, event: Event): (r: Invocation)
    ensures r.outcome == SensorNotFound <==> FindSensor(sensors, event).None?
    ensures r.outcome != Delivered ==> r.calls == []
    ensures r.outcome == Delivered ==>
              && |r.calls| == 2 && r.calls[0].SaveMetrics?
              && r.calls[1] == PutRecord(deliveryStream, Envelope(event, FindSensor(sensors, event).value))
  {
    match FindSensor(sensors, event)
    case None => Invocation(SensorNotFound, [])
    case Some(patientId) =>
      var stamp := StampTime(event);
      var ttl := TtlField(TtlTime(stamp));
      match Datapoints(Modalities, event, patientId, event["sensorId"], stamp, ttl)
      case None => Invocation(RangeError, [])
      case Some(batch) =>
        Invocation(Delivered, [SaveMetrics(batch), PutRecord(deliveryStream, Envelope(event, patientId))])
  }

  /** The `forEach` over the modalities: one record per modality present, all with the same timestamp and ttl. */
  method CollectDatapoints(event: Event, patientId: string, sensorId: Value, timestamp: Date, ttl: int)
    returns (datapoints: Option<seq<MetricRecord>>)
    ensures datapoints == Datapoints(Modalities, event, patientId, sensorId, timestamp.time, ttl)
  {
    var acc: seq<MetricRecord> := [];
    for k := 0 to |Modalities|
      invariant Datapoints(Modalities[..k], event, patientId, sensorId, timestamp.time, ttl) == Some(acc)
    {
      var modality := Modalities[k];
      assert Modalities[..k + 1][..k] == Modalities[..k];
      if modality in event {
        var iso := timestamp.ToISOString();
        if iso.None? {
          DatapointsFailureSticks(Modalities, k + 1, event, patientId, sensorId, timestamp.time, ttl);
          return None;
        }
        acc := acc + [MetricRecord(patientId, sensorId, iso.value, ttl, modality, event[modality])];
      }
    }
    assert Modalities[..|Modalities|] == Modalities;
    return Some(acc);
  }

  /** Once `toISOString` has thrown, later modalities do not matter. */
  lemma {:induction false} DatapointsFailureSticks(mods: seq<string>, k: nat, event: Event, patientId: string,
                                                   sensorId: Value, stamp: TimeValue, ttl: int)
    requires k <= |mods|
    requires Datapoints(mods[..k], event, patientId, sensorId, stamp, ttl).None?
    ensures Datapoints(mods, event, patientId, sensorId, stamp, ttl).None?
  {
    if k < |mods| {
      assert mods[..|mods| - 1][..k] == mods[..k];
      DatapointsFailureSticks(mods[..|mods| - 1], k, event, patientId, sensorId, stamp, ttl);
    } else {
      assert mods[..k] == mods;
    }
  }

  /** `Present` keeps exactly the modalities of `mods` that are keys of the event. */
  lemma {:induction false} PresentMembers(mods: seq<string>, event: Event, x: string)
    ensures x in Present(mods, event) <==> x in mods && x in event
  {
    if mods != [] {
      var init := mods[..|mods| - 1];
      PresentMembers(init, event, x);
      assert mods == init + [mods[|mods| - 1]];
    }
  }

  /** Over the allow-list, the modalities present are `ecg`, `heartrate`, `temp` in that order, each only if it is a key. */
  lemma PresentModalities(event: Event)
    ensures Present(Modalities, event) ==
            (if "ecg" in event then ["ecg"] else []) +
            (if "heartrate" in event then ["heartrate"] else []) +
            (if "temp" in event then ["temp"] else [])
  {
    var e: seq<string> := if "ecg" in event then ["ecg"] else [];
    var h: seq<string> := if "heartrate" in event then ["heartrate"] else [];
    var t: seq<string> := if "temp" in event then ["temp"] else [];
    assert ["ecg"][..0] == [];
    assert Present(["ecg"], event) == e;
    assert ["ecg", "heartrate"][..1] == ["ecg"];
    assert Present(["ecg", "heartrate"], event) == e + h;
    assert Modalities[..2] == ["ecg", "heartrate"];
  }

  /** What the `forEach` produces: a record per modality present, or a throw if one is present and the date is invalid. */
  lemma {:induction false} DatapointsShape(mods: seq<string>, event: Event, patientId: string, sensorId: Value,
                                           stamp: TimeValue, ttl: int)
    ensures Datapoints(mods, event, patientId, sensorId, stamp, ttl).None?
            <==> Present(mods, event) != [] && IsoStringOf(stamp).None?
    ensures Datapoints(mods, event, patientId, sensorId, stamp, ttl).Some? ==>
            var rs := Datapoints(mods, event, patientId, sensorId, stamp, ttl).value;
            var p := Present(mods, event);
            |rs| == |p| &&
            forall i | 0 <= i < |rs| ::
              && rs[i].patientId == patientId
              && rs[i].sensorId == sensorId
              && Some(rs[i].timestamp) == IsoStringOf(stamp)
              && rs[i].ttl == ttl
              && rs[i].measureType == p[i]
              && rs[i].measureValue == event[p[i]]
  {
    if mods != [] {
      DatapointsShape(mods[..|mods| - 1], event, patientId, sensorId, stamp, ttl);
    }
  }

  /** An unknown sensor, or an event without `sensorId`, ends the invocation with neither a save nor a stream write. */
  lemma UnknownSensorWritesNothing(sensors: SensorDirectory, deliveryStream: string, event: Event)
    ensures Ingest(sensors, deliveryStream, event).outcome == SensorNotFound
            <==> !("sensorId" in event && event["sensorId"] in sensors)
    ensures Ingest(sensors, deliveryStream, event).outcome == SensorNotFound
            ==> Ingest(sensors, deliveryStream, event).calls == []
  {
  }

  /**
   * For a known sensor: a RangeError exactly when a modality is present and
   * the timestamp is not a valid date, with no write; otherwise one
   * `saveMetrics` of the whole batch (empty when no modality is present),
   * then one write of the envelope to the delivery stream.
   */
  lemma KnownSensorSavesThenForwards(sensors: SensorDirectory, deliveryStream: string, event: Event)
    requires FindSensor(sensors, event).Some?
    ensures var inv := Ingest(sensors, deliveryStream, event);
            inv.outcome == RangeError
            <==> Present(Modalities, event) != [] && IsoStringOf(StampTime(event)).None?
    ensures var inv := Ingest(sensors, deliveryStream, event);
            inv.outcome == RangeError ==> inv.calls == []
    ensures var inv := Ingest(sensors, deliveryStream, event);
            inv.outcome == Delivered ==>
              && |inv.calls| == 2
              && inv.calls[0].SaveMetrics?
              && (Present(Modalities, event) == [] ==> inv.calls[0].batch == [])
              && inv.calls[1] == PutRecord(deliveryStream, Envelope(event, FindSensor(sensors, event).value))
  {
    var stamp := StampTime(event);
    var ttl := TtlField(TtlTime(stamp));
    DatapointsShape(Modalities, event, FindSensor(sensors, event).value, event["sensorId"], stamp, ttl);
  }

  /**
   * The saved batch holds one record per allow-listed key of the event, in
   * allow-list order, each with the resolved patient, the event's sensor id,
   * the modality name and the event's value for it; no other key becomes a record.
   */
  lemma SavedBatch(sensors: SensorDirectory, deliveryStream: string, event: Event)
    requires Ingest(sensors, deliveryStream, event).outcome == Delivered
    ensures Ingest(sensors, deliveryStream, event).calls[0].SaveMetrics?
    ensures var batch := Ingest(sensors, deliveryStream, event).calls[0].batch;
            && |batch| == (if "ecg" in event then 1 else 0) + (if "heartrate" in event then 1 else 0)
                          + (if "temp" in event then 1 else 0)
            && |batch| == |Present(Modalities, event)|
            && (forall i | 0 <= i < |batch| :: batch[i].measureType == Present(Modalities, event)[i])
            && (forall i | 0 <= i < |batch| :: batch[i].measureType in Modalities && batch[i].measureType in event)
            && (forall i | 0 <= i < |batch| ::
                  && batch[i].patientId == sensors[event["sensorId"]]
                  && batch[i].sensorId == event["sensorId"]
                  && batch[i].measureValue == event[batch[i].measureType])
  {
    var patientId := FindSensor(sensors, event).value;
    var stamp := StampTime(event);
    var ttl := TtlField(TtlTime(stamp));
    var batch := Datapoints(Modalities, event, patientId, event["sensorId"], stamp, ttl).value;
    assert Ingest(sensors, deliveryStream, event).calls[0].batch == batch;
    DatapointsShape(Modalities, event, patientId, event["sensorId"], stamp, ttl);
    var p := Present(Modalities, event);
    assert |batch| == |p|;
    PresentModalities(event);
    forall i | 0 <= i < |batch|
      ensures batch[i].measureType in Modalities && batch[i].measureType in event
    {
      assert batch[i].measureType == p[i];
    }
  }

  /** Every record of one event carries the same ISO timestamp and the same ttl, both computed once from the event. */
  lemma SharedTimestampAndTtl(sensors: SensorDirectory, deliveryStream: string, event: Event)
    requires Ingest(sensors, deliveryStream, event).outcome == Delivered
    ensures Ingest(sensors, deliveryStream, event).calls[0].SaveMetrics?
    ensures var batch := Ingest(sensors, deliveryStream, event).calls[0].batch;
            forall i | 0 <= i < |batch| ::
              && Some(batch[i].timestamp) == IsoStringOf(StampTime(event))
              && batch[i].ttl == TtlField(TtlTime(StampTime(event)))
  {
    var patientId := FindSensor(sensors, event).value;
    var stamp := StampTime(event);
    DatapointsShape(Modalities, event, patientId, event["sensorId"], stamp, TtlField(TtlTime(stamp)));
  }

  /** The timestamp text is the ISO rendering of `timestamp` seconds after the epoch; it fails only for a non-integer or out-of-range timestamp. */
  lemma StampOfEvent(event: Event)
    ensures EpochSeconds(event).Some? ==> StampTime(event) == TimeClip(EpochSeconds(event).value * MsPerSecond)
    ensures IsoStringOf(StampTime(event)).None?
            <==> EpochSeconds(event).None? || !InRange(EpochSeconds(event).value * MsPerSecond)
  {
    if EpochSeconds(event).Some? {
      SetUTCSecondsFromEpoch(EpochSeconds(event).value);
    }
  }

  /**
   * With a UTC local zone, the ttl instant is the timestamp plus 86400
   * seconds (month and year ends included) and falls on the next calendar
   * date; the stored number is that many seconds wrapped to a signed 32-bit
   * integer, or 0 when the day after is beyond the Date range.
   */
  lemma TtlIsNextDay(event: Event, n: int)
    requires EpochSeconds(event) == Some(n)
    requires InRange(n * MsPerSecond)
    ensures TtlTime(StampTime(event)) == TimeClip(n * MsPerSecond + MsPerDay)
    ensures TtlField(TtlTime(StampTime(event)))
            == if InRange(n * MsPerSecond + MsPerDay) then ToInt32(n + 86400) else 0
    ensures Calendar.CivilFromDays(Day(n * MsPerSecond + MsPerDay))
            == Calendar.NextDate(Calendar.CivilFromDays(Day(n * MsPerSecond)))
  {
    var t := n * MsPerSecond;
    SetUTCSecondsFromEpoch(n);
    assert StampTime(event) == Some(t);
    SetDateNextDay(t);
    assert TtlTime(Some(t)) == TimeClip(t + MsPerDay);
    NextDayDate(t);
    if InRange(t + MsPerDay) {
      assert t + MsPerDay == MsPerSecond * (n + 86400);
      assert Seconds(t + MsPerDay) == n + 86400;
    }
  }

  /** The stream receives every field of the event unchanged, plus `patientId` set to the resolved patient. */
  lemma ForwardedEnvelope(sensors: SensorDirectory, deliveryStream: string, event: Event)
    requires Ingest(sensors, deliveryStream, event).outcome == Delivered
    ensures |Ingest(sensors, deliveryStream, event).calls| == 2
    ensures Ingest(sensors, deliveryStream, event).calls[1].PutRecord?
    ensures var put := Ingest(sensors, deliveryStream, event).calls[1];
            && put.deliveryStream == deliveryStream
            && put.data.Keys == event.Keys + {"patientId"}
            && put.data["patientId"] == Str(sensors[event["sensorId"]])
            && forall k | k in event && k != "patientId" :: put.data[k] == event[k]
  {
  }

  /** The event shown in the handler's documentation; `temp: 36.7` is an opaque value. */
  function ExampleEvent(): Event {
    map["sensorId" := Str("777"), "ecg" := Int(24), "heartrate" := Int(68), "temp" := Opaque(367),
        "timestamp" := Int(1643008976)]
  }

  /** 1643008976 seconds after the epoch prints as 2022-01-24T07:22:56.000Z. */
  lemma ExampleTimestampText()
    ensures IsoStringOf(Some(1643008976 * MsPerSecond)) == Some("2022-01-24T07:22:56.000Z")
  {
    var t := 1643008976 * MsPerSecond;
    ExampleDayParts();
    ExampleCivilDate();
    ExampleTimeOfDay();
    ExampleTimestampFields();
    assert IsoStringOf(Some(t)) == Some(IsoFormat.IsoText(2022, 1, 24, 7, 22, 56, 0));
  }

  lemma ExampleDayParts()
    ensures Day(1643008976 * MsPerSecond) == 19016 && TimeWithinDay(1643008976 * MsPerSecond) == 26576000
  {
    DayParts(1643008976 * MsPerSecond);
  }

  /** Day 19016 is 2022-01-24: era 5, March year 21 of the era, day 329 of that year, in its eleventh month. */
  lemma ExampleCivilDate()
    ensures Calendar.CivilFromDays(19016) == Calendar.CivilDate(2022, 1, 24)
  {
    Calendar.EraSplit(19016 + Calendar.EpochOffset, 5, 7999);
    Calendar.CivilFromDaysSplit(19016, 5, 7999);
    assert Calendar.YearOfEra(7999) == 21;
    assert Calendar.YearStart(21) == 7670;
    assert Calendar.MonthOfDay(329) == 10;
    Calendar.CivilOfEraDayAt(5, 7999, 21, 329, 10);
  }

  lemma ExampleTimeOfDay()
    ensures Hour(26576000) == 7 && Minute(26576000) == 22 && Second(26576000) == 56 && Milli(26576000) == 0
  {
  }

  lemma ExampleYearDigits()
    ensures IsoFormat.Pad(2022, 4) == "2022"
  {
    assert IsoFormat.DigitChar(2) == '2' && IsoFormat.DigitChar(0) == '0';
    assert IsoFormat.Pad(0, 0) == "";
    assert IsoFormat.Pad(2, 1) == "2";
    assert IsoFormat.Pad(20, 2) == "20";
    assert IsoFormat.Pad(202, 3) == "202";
  }

  lemma ExampleFieldDigits()
    ensures IsoFormat.Pad(1, 2) == "01" && IsoFormat.Pad(24, 2) == "24" && IsoFormat.Pad(7, 2) == "07"
    ensures IsoFormat.Pad(22, 2) == "22" && IsoFormat.Pad(56, 2) == "56" && IsoFormat.Pad(0, 3) == "000"
  {
  }

  lemma ExampleTextPieces()
    ensures "2022" + "-" + "01" + "-" + "24" + "T" + "07" + ":" + "22" + ":" + "56" + "." + "000" + "Z"
            == "2022-01-24T07:22:56.000Z"
  {
    var date := "2022" + "-" + "01" + "-" + "24";
    assert date == "2022-01-24";
    var time := date + "T" + "07" + ":" + "22";
    assert time == "2022-01-24T07:22";
  }

  lemma ExampleTimestampFields()
    ensures IsoFormat.IsoText(2022, 1, 24, 7, 22, 56, 0) == "2022-01-24T07:22:56.000Z"
  {
    ExampleYearDigits();
    ExampleFieldDigits();
    ExampleTextPieces();
  }

  lemma ExampleStamp()
    ensures StampTime(ExampleEvent()) == Some(1643008976 * MsPerSecond)
  {
    StampOfEvent(ExampleEvent());
  }

  lemma ExampleTtl()
    ensures TtlField(TtlTime(Some(1643008976 * MsPerSecond))) == 1643095376
  {
    TtlIsNextDay(ExampleEvent(), 1643008976);
    ExampleStamp();
  }

  lemma ExamplePresent()
    ensures Present(Modalities, ExampleEvent()) == ["ecg", "heartrate", "temp"]
  {
    PresentModalities(ExampleEvent());
  }

  /** The records of the example event: one per modality, all stamped 2022-01-24T07:22:56.000Z and expiring at 1643095376. */
  lemma ExampleDatapoints()
    ensures Datapoints(Modalities, ExampleEvent(), "patientX", Str("777"), Some(1643008976 * MsPerSecond), 1643095376) ==
            Some([
              MetricRecord("patientX", Str("777"), "2022-01-24T07:22:56.000Z", 1643095376, "ecg", Int(24)),
              MetricRecord("patientX", Str("777"), "2022-01-24T07:22:56.000Z", 1643095376, "heartrate", Int(68)),
              MetricRecord("patientX", Str("777"), "2022-01-24T07:22:56.000Z", 1643095376, "temp", Opaque(367))])
  {
    ExampleTimestampText();
    ExampleBatch(Some(1643008976 * MsPerSecond), "2022-01-24T07:22:56.000Z", 1643095376);
  }

  /** The example event's three records, for any instant that prints as `iso`. */
  lemma ExampleBatch(stamp: TimeValue, iso: string, ttl: int)
    requires IsoStringOf(stamp) == Some(iso)
    ensures Datapoints(Modalities, ExampleEvent(), "patientX", Str("777"), stamp, ttl) ==
            Some([
              MetricRecord("patientX", Str("777"), iso, ttl, "ecg", Int(24)),
              MetricRecord("patientX", Str("777"), iso, ttl, "heartrate", Int(68)),
              MetricRecord("patientX", Str("777"), iso, ttl, "temp", Opaque(367))])
  {
    var event := ExampleEvent();
    ExamplePresent();
    DatapointsShape(Modalities, event, "patientX", Str("777"), stamp, ttl);
    var batch := Datapoints(Modalities, event, "patientX", Str("777"), stamp, ttl).value;
    assert batch == [
      MetricRecord("patientX", Str("777"), iso, ttl, "ecg", Int(24)),
      MetricRecord("patientX", Str("777"), iso, ttl, "heartrate", Int(68)),
      MetricRecord("patientX", Str("777"), iso, ttl, "temp", Opaque(367))]
    by {
      assert |batch| == 3;
      assert batch[0] == MetricRecord("patientX", Str("777"), iso, ttl, "ecg", Int(24));
      assert batch[1] == MetricRecord("patientX", Str("777"), iso, ttl, "heartrate", Int(68));
      assert batch[2] == MetricRecord("patientX", Str("777"), iso, ttl, "temp", Opaque(367));
    }
  }

  /** With sensor 777 owned by `patientX`: three records stamped 2022-01-24T07:22:56Z, expiring one day later, then the envelope. */
  lemma ExampleEventIsDelivered(deliveryStream: string)
    ensures Ingest(map[Str("777") := "patientX"], deliveryStream, ExampleEvent()) ==
            Invocation(Delivered, [
              SaveMetrics([
                MetricRecord("patientX", Str("777"), "2022-01-24T07:22:56.000Z", 1643095376, "ecg", Int(24)),
                MetricRecord("patientX", Str("777"), "2022-01-24T07:22:56.000Z", 1643095376, "heartrate", Int(68)),
                MetricRecord("patientX", Str("777"), "2022-01-24T07:22:56.000Z", 1643095376, "temp", Opaque(367))]),
              PutRecord(deliveryStream, ExampleEvent()["patientId" := Str("patientX")])])
  {
    var event := ExampleEvent();
    assert "sensorId" in event && event["sensorId"] == Str("777");
    ExampleStamp();
    ExampleTtl();
    ExampleDatapoints();
  }

  /** The same event when sensor 777 has no entry: nothing is saved or forwarded. */
  lemma ExampleEventUnknownSensor(deliveryStream: string)
    ensures Ingest(map[], deliveryStream, ExampleEvent()) == Invocation(SensorNotFound, [])
  {
  }

  /** An event with no modality: an empty batch is still saved, and the envelope is still forwarded. */
  lemma NoModalityStillForwards(deliveryStream: string, n: int)
    ensures var event := map["sensorId" := Str("777"), "timestamp" := Int(n)];
            Ingest(map[Str("777") := "patientX"], deliveryStream, event) ==
            Invocation(Delivered, [SaveMetrics([]), PutRecord(deliveryStream, event["patientId" := Str("patientX")])])
  {
    var event := map["sensorId" := Str("777"), "timestamp" := Int(n)];
    PresentModalities(event);
    var stamp := StampTime(event);
    DatapointsShape(Modalities, event, "patientX", Str("777"), stamp, TtlField(TtlTime(stamp)));
  }

  /** The event handler with its collaborators: the sensor table, the stream name and the log of outbound calls. */
  class Handler {
    const sensors: SensorDirectory
    const deliveryStream: string
    var calls: seq<Call>

    constructor (sensors: SensorDirectory, deliveryStream: string)
      ensures this.sensors == sensors && this.deliveryStream == deliveryStream
      ensures calls == []
    {
      this.sensors := sensors;
      this.deliveryStream := deliveryStream;
      calls := [];
    }

    /** `handler(event)`: appends to `calls` exactly the outbound calls of `Ingest`. */
    method Handle(event: Event) returns (outcome: Outcome)
      modifies this
      ensures outcome == Ingest(sensors, deliveryStream, event).outcome
      ensures calls == old(calls) + Ingest(sensors, deliveryStream, event).calls
    {
      var sensor := FindSensor(sensors, event);
      if sensor.None? {
        return SensorNotFound;
      }
      var patientId := sensor.value;

      var timestamp := new Date(Some(0));
      timestamp.SetUTCSeconds(EpochSeconds(event));
      var ttl := new Date(timestamp.GetTime());
      ttl.SetDate(Increment(timestamp.GetUTCDate()));

      var datapoints := CollectDatapoints(event, patientId, event["sensorId"], timestamp, TtlField(ttl.GetTime()));
      if datapoints.None? {
        return RangeError;
      }
      calls := calls + [SaveMetrics(datapoints.value)];

      var firehoseData := Envelope(event, patientId);
      calls := calls + [PutRecord(deliveryStream, firehoseData)];
      return Delivered;
    }
  }
}
