/**
 * The list algorithms of the clinician's event view: merging an event
 * pushed by the create subscription into the displayed list, looking up a
 * patient's name, choosing which patients to query, and concatenating the
 * per-patient query results into the list that is shown.
 */
module EventsView {
  import opened Wrappers

  /**
   * A JavaScript field read from a GraphQL object: a missing key reads as
   * `undefined` (`Absent`), which is distinct from an explicit `null`.
   */
  datatype Field = Absent | Null | Str(s: string)

  /**
   * An event detail as the GraphQL API delivers it. The subscription
   * handler reads the new event's `userId` but the listed items' `user_id`;
   * both are kept. `payload` stands for every other field, which the
   * algorithms only copy.
   */
  datatype EventDetail = EventDetail(userId: Field, user_id: Field, payload: nat)

  /**
   * The comparison in the merge loop: the new event's `userId` `===` the
   * listed item's `user_id`. Strict equality tells `undefined` from `null`,
   * and so does equality of `Field` values.
   */
  predicate Matches(created: EventDetail, item: EventDetail) {
    created.userId == item.user_id
  }

  predicate AnyMatch(items: seq<EventDetail>, created: EventDetail) {
    exists i | 0 <= i < |items| :: Matches(created, items[i])
  }

  /** The list with every matching item replaced by the new event and every other item kept where it was. */
  function Replaced(items: seq<EventDetail>, created: EventDetail): (r: seq<EventDetail>)
    ensures |r| == |items|
    ensures forall i | 0 <= i < |items| :: r[i] == if Matches(created, items[i]) then created else items[i]
  {
    if items == [] then []
    else
      var last := items[|items| - 1];
      Replaced(items[..|items| - 1], created) + [if Matches(created, last) then created else last]
  }

  /** The list shown after a create notification; `None` is a notification without data. */
  function Merged(items: seq<EventDetail>, notification: Option<EventDetail>): seq<EventDetail> {
    match notification
    case None => items
    case Some(created) =>
      Replaced(items, created) + (if AnyMatch(items, created) then [] else [created])
  }

  /** The `next` handler of the create subscription: one pass over the shown items with a `found` flag. */
  method MergeCreated(current: seq<EventDetail>, notification: Option<EventDetail>) returns (items: seq<EventDetail>)
    ensures items == Merged(current, notification)
  {
    if notification.None? {
      return current;
    }
    var created := notification.value;
    var newItems: seq<EventDetail> := [];
    var found := false;
    for k := 0 to |current|
      invariant newItems == Replaced(current[..k], created)
      invariant found <==> AnyMatch(current[..k], created)
    {
      assert current[..k + 1][..k] == current[..k];
      if Matches(created, current[k]) {
        newItems := newItems + [created];
        found := true;
      } else {
        newItems := newItems + [current[k]];
      }
    }
    assert current[..|current|] == current;
    if !found {
      newItems := newItems + [created];
    }
    items := newItems;
  }

  /** A notification without data leaves the shown list as it was. */
  lemma MergeWithoutData(items: seq<EventDetail>)
    ensures Merged(items, None) == items
  {
  }

  /**
   * With data: every item whose `user_id` equals the new event's `userId`
   * becomes the new event, every other item stays at its index, and the
   * new event is appended at the end exactly when nothing matched.
   */
  lemma MergeShape(items: seq<EventDetail>, created: EventDetail)
    ensures var r := Merged(items, Some(created));
            && |r| == (if AnyMatch(items, created) then |items| else |items| + 1)
            && (forall i | 0 <= i < |items| :: r[i] == (if Matches(created, items[i]) then created else items[i]))
            && (!AnyMatch(items, created) ==> r[|items|] == created)
  {
  }

  /** Items that do not match are kept, in their original relative order. */
  lemma MergeKeepsOthers(items: seq<EventDetail>, created: EventDetail, i: int, j: int)
    requires 0 <= i < j < |items|
    requires !Matches(created, items[i]) && !Matches(created, items[j])
    ensures var r := Merged(items, Some(created));
            i < j < |r| && r[i] == items[i] && r[j] == items[j]
  {
    var r := Merged(items, Some(created));
    MergeShape(items, created);
    assert r[i] == items[i];
  }

  /** The new event is present after the merge. */
  lemma {:induction false} CreatedIsShown(items: seq<EventDetail>, created: EventDetail)
    ensures created in Merged(items, Some(created))
  {
    var r := Merged(items, Some(created));
    if AnyMatch(items, created) {
      var i :| 0 <= i < |items| && Matches(created, items[i]);
      assert r[i] == created;
    } else {
      assert r[|items|] == created;
    }
  }

  /**
   * When the new event's `userId` equals its own `user_id`, delivering it
   * twice shows the same list as delivering it once.
   */
  lemma MergeIdempotent(items: seq<EventDetail>, created: EventDetail)
    requires created.userId == created.user_id
    ensures Merged(Merged(items, Some(created)), Some(created)) == Merged(items, Some(created))
  {
    var once := Merged(items, Some(created));
    CreatedIsShown(items, created);
    var k :| 0 <= k < |once| && once[k] == created;
    assert Matches(created, once[k]);
    assert AnyMatch(once, created);
    var twice := Replaced(once, created);
    assert twice == once by {
      MergeShape(items, created);
      forall i | 0 <= i < |once|
        ensures twice[i] == once[i]
      {
      }
    }
  }

  /**
   * The comparison as written: an event created without a `userId` key
   * never replaces an item whose `user_id` is present, even when it is
   * `null`, so it is appended even when the same user's events are already
   * shown.
   */
  lemma MissingUserIdAppends(items: seq<EventDetail>, created: EventDetail)
    requires created.userId.Absent?
    requires forall i | 0 <= i < |items| :: !items[i].user_id.Absent?
    ensures Merged(items, Some(created)) == items + [created]
  {
    var r := Replaced(items, created);
    assert r == items;
  }

  /** A listed item with `user_id: null` and a new event without `userId`: no match, so the list grows. */
  lemma MissingUserIdAgainstNull()
    ensures var item := EventDetail(Absent, Null, 0);
            var created := EventDetail(Absent, Str("u"), 1);
            Merged([item], Some(created)) == [item, created]
  {
    var item := EventDetail(Absent, Null, 0);
    var created := EventDetail(Absent, Str("u"), 1);
    MissingUserIdAppends([item], created);
  }

  /** A patient as the view receives it: the id and the display name. */
  datatype Patient = Patient(patientId: string, name: string)

  /** The index of the last patient with the given id, or -1 when no patient has it. */
  function LastIndex(patients: seq<Patient>, patientId: string): (i: int)
    ensures -1 <= i < |patients|
    ensures i >= 0 ==> patients[i].patientId == patientId
    ensures forall j | i < j < |patients| :: patients[j].patientId != patientId
  {
    if patients == [] then -1
    else if patients[|patients| - 1].patientId == patientId then |patients| - 1
    else
      var i := LastIndex(patients[..|patients| - 1], patientId);
      assert forall j | i < j < |patients| - 1 :: patients[j] == patients[..|patients| - 1][j];
      i
  }

  /** No index is found exactly when no patient has the id. */
  lemma LastIndexAbsent(patients: seq<Patient>, patientId: string)
    ensures LastIndex(patients, patientId) == -1
            <==> forall i | 0 <= i < |patients| :: patients[i].patientId != patientId
  {
  }

  /**
   * `getPatientName`: a full scan in which every match overwrites the name
   * found so far, so the result is the name of the last patient with the id,
   * or `""` when there is none.
   */
  method PatientName(patients: seq<Patient>, patientId: string) returns (patientName: string)
    ensures var i := LastIndex(patients, patientId);
            patientName == if i < 0 then "" else patients[i].name
  {
    patientName := "";
    for k := 0 to |patients|
      invariant var i := LastIndex(patients[..k], patientId);
                patientName == if i < 0 then "" else patients[i].name
    {
      assert patients[..k + 1][..k] == patients[..k];
      if patients[k].patientId == patientId {
        patientName := patients[k].name;
      }
    }
    assert patients[..|patients|] == patients;
  }

  /** The patient filter's value that means "every patient of the user". */
  const AllPatients: string := "all"

  /** The ids to query: the user's `patient_ids` for the "all" filter, otherwise just the selected patient. */
  function SelectPatientIds(filter: string, userPatientIds: Option<seq<string>>): (ids: Option<seq<string>>)
    ensures ids.None? <==> filter == AllPatients && userPatientIds.None?
    ensures filter != AllPatients ==> ids == Some([filter])
    ensures filter == AllPatients ==> ids == userPatientIds
  {
    if filter == AllPatients then userPatientIds else Some([filter])
  }

  /** The items of every queried patient, one patient after another in the given order. */
  function Concatenated(patientIds: seq<string>, query: string -> seq<EventDetail>): seq<EventDetail> {
    if patientIds == [] then []
    else Concatenated(patientIds[..|patientIds| - 1], query) + query(patientIds[|patientIds| - 1])
  }

  /**
   * The accumulation in `callListAllEvents`: one query per patient id, each
   * returned item pushed in turn. `query` stands for the GraphQL query of
   * one patient's events within the current time window.
   */
  method LoadEvents(patientIds: Option<seq<string>>, query: string -> seq<EventDetail>) returns (items: seq<EventDetail>)
    ensures items == if patientIds.None? then [] else Concatenated(patientIds.value, query)
  {
    items := [];
    if patientIds.Some? {
      var ids := patientIds.value;
      for k := 0 to |ids|
        invariant items == Concatenated(ids[..k], query)
      {
        assert ids[..k + 1][..k] == ids[..k];
        var itemsReturned := query(ids[k]);
        ghost var before := items;
        for j := 0 to |itemsReturned|
          invariant items == before + itemsReturned[..j]
        {
          assert itemsReturned[..j + 1] == itemsReturned[..j] + [itemsReturned[j]];
          items := items + [itemsReturned[j]];
        }
        assert itemsReturned[..|itemsReturned|] == itemsReturned;
      }
      assert ids[..|ids|] == ids;
    }
  }

  /** Loading the patients of two lists one after the other gives the two loads concatenated. */
  lemma {:induction false} ConcatenatedAppend(a: seq<string>, b: seq<string>, query: string -> seq<EventDetail>)
    ensures Concatenated(a + b, query) == Concatenated(a, query) + Concatenated(b, query)
  {
    if b != [] {
      var n := |b| - 1;
      assert (a + b)[..|a + b| - 1] == a + b[..n];
      ConcatenatedAppend(a, b[..n], query);
    } else {
      assert a + b == a;
    }
  }

  /** Some queried patient's results contain `x`. */
  predicate ReturnedBySome(patientIds: seq<string>, query: string -> seq<EventDetail>, x: EventDetail) {
    exists i | 0 <= i < |patientIds| :: x in query(patientIds[i])
  }

  /** Splitting off the last queried patient. */
  lemma ReturnedBySomeSnoc(patientIds: seq<string>, query: string -> seq<EventDetail>, x: EventDetail)
    requires patientIds != []
    ensures var n := |patientIds| - 1;
            ReturnedBySome(patientIds, query, x)
            <==> ReturnedBySome(patientIds[..n], query, x) || x in query(patientIds[n])
  {
    var n := |patientIds| - 1;
    var prefix := patientIds[..n];
    if ReturnedBySome(patientIds, query, x) {
      var i :| 0 <= i < |patientIds| && x in query(patientIds[i]);
      if i < n {
        assert prefix[i] == patientIds[i];
      }
    }
    if ReturnedBySome(prefix, query, x) {
      var i :| 0 <= i < |prefix| && x in query(prefix[i]);
      assert patientIds[i] == prefix[i];
    }
  }

  /** An item is loaded exactly when some queried patient's results contain it. */
  lemma {:induction false} ConcatenatedMembers(patientIds: seq<string>, query: string -> seq<EventDetail>, x: EventDetail)
    ensures x in Concatenated(patientIds, query) <==> ReturnedBySome(patientIds, query, x)
  {
    if patientIds != [] {
      var n := |patientIds| - 1;
      ConcatenatedMembers(patientIds[..n], query, x);
      ReturnedBySomeSnoc(patientIds, query, x);
    }
  }

  /** The number of loaded items is the total of the per-patient result sizes. */
  function TotalReturned(patientIds: seq<string>, query: string -> seq<EventDetail>): nat {
    if patientIds == [] then 0
    else TotalReturned(patientIds[..|patientIds| - 1], query) + |query(patientIds[|patientIds| - 1])|
  }

  lemma {:induction false} ConcatenatedLength(patientIds: seq<string>, query: string -> seq<EventDetail>)
    ensures |Concatenated(patientIds, query)| == TotalReturned(patientIds, query)
  {
    if patientIds != [] {
      ConcatenatedLength(patientIds[..|patientIds| - 1], query);
    }
  }

  /**
   * What the view loads for a filter: with a single patient selected,
   * exactly that patient's results; with "all", the user's patients' results
   * in order, or nothing when the user has no `patient_ids`.
   */
  lemma LoadedForFilter(filter: string, userPatientIds: Option<seq<string>>, query: string -> seq<EventDetail>)
    ensures var ids := SelectPatientIds(filter, userPatientIds);
            var loaded := if ids.None? then [] else Concatenated(ids.value, query);
            && (filter != AllPatients ==> loaded == query(filter))
            && (filter == AllPatients && userPatientIds.None? ==> loaded == [])
            && (filter == AllPatients && userPatientIds.Some? ==> loaded == Concatenated(userPatientIds.value, query))
  {
    if filter != AllPatients {
      assert Concatenated([filter], query) == Concatenated([], query) + query(filter) by {
        assert [filter][..0] == [];
      }
    }
  }
}
