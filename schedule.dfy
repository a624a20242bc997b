/**
 * The scheduling service: creating, cancelling and reading schedule
 * entries over the shared table, the poll cycle that publishes the entries
 * that are due, and the interval timer that drives it.
 *
 * Promises are modelled by what they settle to: a synchronous throw, a
 * rejection that `.catch(console.log)` turns into `undefined`, or a value.
 * The external PUT is a parameter saying for which uris its promise resolves,
 * that is, for which an HTTP response of any status arrives.
 */
module Schedule {
  import opened Wrappers
  import opened Strings
  import opened Js
  import opened References
  import opened ScheduleKey
  import opened Db

  /** What made a promise reject before `.catch(console.log)` swallowed it. */
  datatype Fault =
    | StoreFault(error: StoreError)
    | UrlFault(message: string)

  /** How a call ends. `Swallowed` resolves to `undefined` once the fault has been logged. */
  datatype Outcome<T> =
    | Thrown(message: string)
    | Swallowed(fault: Fault)
    | Resolved(value: T)

  /** A running `setInterval` timer: its handle and the delay it was started with. */
  datatype Timer = Timer(handle: nat, delay: int)

  /** What a poll cycle asks of the outside world, in order. */
  datatype Effect =
    | Put(uri: string)     // `rest.putObject` of a published version
    | Cancel(id: string)   // `del(id)` once that PUT has resolved

  /** The delay a timer gets when none has been set. */
  const DefaultDelay := 10000

  /** `{ data }`, what `del` resolves to when it deletes nothing. */
  function Wrapped(data: Data): (v: Value)
    ensures v.Obj? && v.fields.Keys == {"data"} && v.fields["data"] == Obj(data)
  {
    Obj(map["data" := Obj(data)])
  }

  /** A row as `getScheduleItem` resolves to it: `{ id, data }`. */
  function RowValue(row: Row): (v: Value)
    ensures v.Obj? && v.fields.Keys == {"id", "data"}
    ensures v.fields["id"] == Str(row.id) && v.fields["data"] == Obj(row.data)
  {
    Obj(map["id" := Str(row.id), "data" := Obj(row.data)])
  }

  /** The `data` of the row `del` reads: the stored document, or `{}` when there is none. */
  function StoredData(rows: map<string, Data>, id: string): (data: Data)
    ensures id in rows ==> data == rows[id]
    ensures id !in rows ==> data == map[]
  {
    if id in rows then rows[id] else map[]
  }

  /** `del` deletes a row exactly when its `publish` is truthy. */
  predicate Cancels(data: Data) {
    Truthy(Get(data, "publish"))
  }

  /** What `del` settles to for the row data it read (the table existing). */
  function DelOutcome(data: Data): (o: Outcome<Value>)
    ensures !Cancels(data) ==> o == Resolved(Wrapped(data))
    ensures Cancels(data) && IsUrl(Get(data, "publish")) ==> o == Resolved(Obj(data))
    ensures Cancels(data) && !IsUrl(Get(data, "publish")) ==>
      o == Swallowed(UrlFault("Invalid url " + ToText(Get(data, "publish"))))
  {
    if !Cancels(data) then Resolved(Wrapped(data))
    else match UrlToUri(Get(data, "publish"))
      case Failure(message) => Swallowed(UrlFault(message))
      case Success(_) => Resolved(Obj(data))
  }

  /**
   * A stored `publish` that is not a URL: the row is deleted, and the
   * `urlToUri` that follows throws, so `del` resolves to `undefined`.
   */
  lemma DelOfNonUrl(data: Data, s: string)
    requires s == "some/uri" && data == map["at" := Num(10000), "publish" := Str(s)]
    ensures Cancels(data) && DelOutcome(data) == Swallowed(UrlFault("Invalid url " + s))
  {
    assert Get(data, "publish") == Str(s);
    NoColonIsNotUrl(s);
  }

  /** Without `publish`, `del` deletes nothing and resolves to `{ data }`, not to `data`. */
  lemma DelWithoutPublish(data: Data)
    requires data == map["at" := Num(10000)]
    ensures !Cancels(data) && DelOutcome(data) == Resolved(Obj(map["data" := Obj(data)]))
    ensures DelOutcome(data) != Resolved(Obj(data))
  {
    assert Get(data, "publish") == Undefined;
  }

  // ------------------------------------------------------------ the poll cycle

  /**
   * The uri the poll cycle PUTs for a due row: its `publish` rewritten to
   * `@published`. `replaceVersion` throws on anything but a string, and
   * then nothing is put.
   */
  function PublishedUri(data: Data): (u: Option<string>)
    ensures u.Some? <==> Get(data, "publish").Str?
    ensures u.Some? ==> u.value == ReplaceVersion(Get(data, "publish").s, "published")
  {
    match Get(data, "publish")
    case Str(s) => Some(ReplaceVersion(s, "published"))
    case _ => None
  }

  /** What the poll cycle does for one due row, given which PUTs get a response. */
  function RowEffects(row: Row, responds: string -> bool): (es: seq<Effect>)
    ensures |es| <= 2
  {
    match PublishedUri(row.data)
    case None => []
    case Some(u) => if responds(u) then [Put(u), Cancel(row.id)] else [Put(u)]
  }

  /** What the poll cycle does for the due rows, one after the other. */
  function TickEffects(due: seq<Row>, responds: string -> bool): (es: seq<Effect>)
    ensures |es| <= 2 * |due|
  {
    if due == [] then []
    else TickEffects(due[..|due| - 1], responds) + RowEffects(due[|due| - 1], responds)
  }

  /** The rows the poll cycle deletes: `del` runs once the PUT has resolved, and deletes when `publish` is truthy. */
  function RowRemoved(row: Row, responds: string -> bool): (ids: set<string>)
    ensures ids <= {row.id}
  {
    if PublishedUri(row.data).Some? && responds(PublishedUri(row.data).value) && Cancels(row.data)
    then {row.id} else {}
  }

  function Removed(due: seq<Row>, responds: string -> bool): set<string> {
    if due == [] then {}
    else Removed(due[..|due| - 1], responds) + RowRemoved(due[|due| - 1], responds)
  }

  /** In `es`, every `del` comes right after a PUT that got a response. */
  predicate CancelAfterPut(es: seq<Effect>, responds: string -> bool) {
    forall k :: 0 <= k < |es| && es[k].Cancel? ==> 0 < k && es[k - 1].Put? && responds(es[k - 1].uri)
  }

  /** One of the rows of `due` has id `id` and is published at `uri`. */
  predicate PutOfRow(due: seq<Row>, id: string, uri: string) {
    exists j :: 0 <= j < |due| && due[j].id == id && PublishedUri(due[j].data) == Some(uri)
  }

  /** In `es`, every `del` of a row comes right after the PUT of that same row's uri. */
  predicate CancelOwnPut(es: seq<Effect>, due: seq<Row>) {
    forall k :: 0 <= k < |es| && es[k].Cancel? ==> 0 < k && es[k - 1].Put? && PutOfRow(due, es[k].id, es[k - 1].uri)
  }

  /** In `es`, every `del` is for one of `ids`. */
  predicate CancelWithin(es: seq<Effect>, ids: set<string>) {
    forall k :: 0 <= k < |es| && es[k].Cancel? ==> es[k].id in ids
  }

  lemma RowCancelAfterPut(row: Row, responds: string -> bool)
    ensures CancelAfterPut(RowEffects(row, responds), responds)
    ensures CancelWithin(RowEffects(row, responds), {row.id})
  {
  }

  lemma RowCancelOwnPut(row: Row, responds: string -> bool)
    ensures CancelOwnPut(RowEffects(row, responds), [row])
  {
    var es := RowEffects(row, responds);
    if |es| == 2 {
      assert [row][0] == row;
      assert PutOfRow([row], es[1].id, es[0].uri);
    }
  }

  /** A row found in `d1` or in `d2` is found in `d1 + d2`. */
  lemma PutOfRowConcat(d1: seq<Row>, d2: seq<Row>, id: string, uri: string)
    requires PutOfRow(d1, id, uri) || PutOfRow(d2, id, uri)
    ensures PutOfRow(d1 + d2, id, uri)
  {
    if PutOfRow(d1, id, uri) {
      var j :| 0 <= j < |d1| && d1[j].id == id && PublishedUri(d1[j].data) == Some(uri);
      assert (d1 + d2)[j] == d1[j];
    } else {
      var j :| 0 <= j < |d2| && d2[j].id == id && PublishedUri(d2[j].data) == Some(uri);
      assert (d1 + d2)[|d1| + j] == d2[j];
    }
  }

  lemma CancelOwnPutConcat(a: seq<Effect>, b: seq<Effect>, d1: seq<Row>, d2: seq<Row>)
    requires CancelOwnPut(a, d1) && CancelOwnPut(b, d2)
    ensures CancelOwnPut(a + b, d1 + d2)
  {
    var es := a + b;
    forall k | 0 <= k < |es| && es[k].Cancel?
      ensures 0 < k && es[k - 1].Put? && PutOfRow(d1 + d2, es[k].id, es[k - 1].uri)
    {
      if k < |a| {
        assert es[k] == a[k];
        assert es[k - 1] == a[k - 1];
      } else {
        assert es[k] == b[k - |a|];
        assert es[k - 1] == b[k - |a| - 1];
      }
      PutOfRowConcat(d1, d2, es[k].id, es[k - 1].uri);
    }
  }

  lemma CancelAfterPutConcat(a: seq<Effect>, b: seq<Effect>, responds: string -> bool)
    requires CancelAfterPut(a, responds) && CancelAfterPut(b, responds)
    ensures CancelAfterPut(a + b, responds)
  {
    var es := a + b;
    forall k | 0 <= k < |es| && es[k].Cancel?
      ensures 0 < k && es[k - 1].Put? && responds(es[k - 1].uri)
    {
      if k < |a| {
        assert es[k] == a[k];
        assert es[k - 1] == a[k - 1];
      } else {
        assert es[k] == b[k - |a|];
        assert es[k - 1] == b[k - |a| - 1];
      }
    }
  }

  lemma CancelWithinConcat(a: seq<Effect>, b: seq<Effect>, ids: set<string>, more: set<string>)
    requires CancelWithin(a, ids) && CancelWithin(b, more)
    ensures CancelWithin(a + b, ids + more)
  {
    var es := a + b;
    forall k | 0 <= k < |es| && es[k].Cancel? ensures es[k].id in ids + more {
      if k < |a| {
        assert es[k] == a[k];
      } else {
        assert es[k] == b[k - |a|];
      }
    }
  }

  /**
   * In the order the model runs them, every `del` of the poll cycle comes
   * right after a PUT that got a response, and that PUT is of the
   * `@published` uri of the very row being deleted.
   */
  lemma {:induction false} CancelFollowsPut(due: seq<Row>, responds: string -> bool)
    ensures CancelAfterPut(TickEffects(due, responds), responds)
    ensures CancelOwnPut(TickEffects(due, responds), due)
  {
    if due != [] {
      var init := due[..|due| - 1];
      var last := due[|due| - 1];
      CancelFollowsPut(init, responds);
      RowCancelAfterPut(last, responds);
      RowCancelOwnPut(last, responds);
      CancelAfterPutConcat(TickEffects(init, responds), RowEffects(last, responds), responds);
      CancelOwnPutConcat(TickEffects(init, responds), RowEffects(last, responds), init, [last]);
      assert init + [last] == due;
    }
  }

  /** The poll cycle only ever cancels and deletes the rows it was given. */
  lemma {:induction false} EffectsOfDueRows(due: seq<Row>, responds: string -> bool)
    ensures CancelWithin(TickEffects(due, responds), Ids(due))
    ensures Removed(due, responds) <= Ids(due)
  {
    if due != [] {
      var init := due[..|due| - 1];
      EffectsOfDueRows(init, responds);
      RowCancelAfterPut(due[|due| - 1], responds);
      CancelWithinConcat(TickEffects(init, responds), RowEffects(due[|due| - 1], responds),
        Ids(init), {due[|due| - 1].id});
    }
  }

  /** With no due row whose `publish` is a string, a poll cycle neither puts nor deletes. */
  lemma {:induction false} NothingDueNothingDone(due: seq<Row>, responds: string -> bool)
    requires forall i :: 0 <= i < |due| ==> !Get(due[i].data, "publish").Str?
    ensures TickEffects(due, responds) == [] && Removed(due, responds) == {}
  {
    if due != [] {
      NothingDueNothingDone(due[..|due| - 1], responds);
    }
  }

  /** A row is not in the ids before its own position, when ids are distinct. */
  lemma FreshAt(due: seq<Row>, i: nat)
    requires DistinctIds(due) && i < |due|
    ensures due[i].id !in Ids(due[..i])
  {
    IdsMember(due[..i], due[i].id);
  }

  /** Midway through a cycle, the next due row has not been touched yet. */
  lemma StillStored(rows: map<string, Data>, before: map<string, Data>, due: seq<Row>, i: nat,
                    responds: string -> bool)
    requires DistinctIds(due) && i < |due|
    requires forall j :: 0 <= j < |due| ==> due[j].id in before && before[due[j].id] == due[j].data
    requires rows == before - Removed(due[..i], responds)
    ensures due[i].id in rows && rows[due[i].id] == due[i].data
  {
    FreshAt(due, i);
    EffectsOfDueRows(due[..i], responds);
  }

  /** One more row of the cycle: its effects and its deletion are appended. */
  lemma StepAt(due: seq<Row>, i: nat, responds: string -> bool)
    requires i < |due|
    ensures due[..i + 1][..i] == due[..i] && due[..i + 1][i] == due[i]
    ensures TickEffects(due[..i + 1], responds) == TickEffects(due[..i], responds) + RowEffects(due[i], responds)
    ensures Removed(due[..i + 1], responds) == Removed(due[..i], responds) + RowRemoved(due[i], responds)
  {
    assert due[..i + 1][..i] == due[..i];
  }

  /** Deleting one more row's entry from what is left is deleting it along with the others. */
  lemma RemovedAt(before: map<string, Data>, due: seq<Row>, i: nat, responds: string -> bool)
    requires i < |due|
    ensures before - Removed(due[..i + 1], responds) == (before - Removed(due[..i], responds)) - RowRemoved(due[i], responds)
  {
    StepAt(due, i, responds);
  }

  // ------------------------------------------------------------ the service

  /**
   * The service state: the shared table, the timer of the poll cycle (if
   * one is running), the delay the next timer gets, and how many timers
   * have been started (which names the next handle).
   */
  class Scheduler {
    const db: Store
    var interval: Option<Timer>
    var intervalDelay: int
    var started: nat

    ghost predicate Valid()
      reads this, db
    {
      db.Valid()
    }

    constructor(db: Store)
      requires db.Valid()
      ensures Valid() && this.db == db
      ensures interval == None && intervalDelay == DefaultDelay && started == 0
    {
      this.db := db;
      interval := None;
      intervalDelay := DefaultDelay;
      started := 0;
    }

    /** `setScheduleInterval`: changes the delay of timers started from now on; a running one keeps its own. */
    method SetScheduleInterval(value: int)
      modifies this
      ensures intervalDelay == value
      ensures interval == old(interval) && started == old(started)
    {
      intervalDelay := value;
    }

    /** `startListening`: starts a timer with the current delay, unless one is running. */
    method StartListening()
      modifies this
      ensures intervalDelay == old(intervalDelay)
      ensures old(interval).Some? ==> interval == old(interval) && started == old(started)
      ensures old(interval).None? ==>
        interval == Some(Timer(old(started), intervalDelay)) && started == old(started) + 1
    {
      if interval.None? {
        interval := Some(Timer(started, intervalDelay));
        started := started + 1;
      }
    }

    /** `stopListening`: clears the running timer, if any. */
    method StopListening()
      modifies this
      ensures interval == None
      ensures intervalDelay == old(intervalDelay) && started == old(started)
    {
      if interval.Some? {
        interval := None;
      }
    }

    /**
     * `post(uri, data)`: validates `data`, then inserts the entry under its
     * key and resolves to `data`.
     */
    method Post(uri: string, data: Data) returns (o: Outcome<Value>)
      requires Valid()
      modifies db
      ensures Valid() && db.hasTable == old(db.hasTable)
      ensures CreateScheduleObjectKey(uri, data).Failure? ==>
        o == Thrown(CreateScheduleObjectKey(uri, data).error) && db.rows == old(db.rows)
      ensures CreateScheduleObjectKey(uri, data).Success? && !old(db.hasTable) ==>
        o == Swallowed(StoreFault(MissingRelation)) && db.rows == old(db.rows)
      ensures CreateScheduleObjectKey(uri, data).Success? && old(db.hasTable) ==>
        var key := CreateScheduleObjectKey(uri, data).value;
        if key in old(db.rows) then
          o == Swallowed(StoreFault(DuplicateKey(key))) && db.rows == old(db.rows)
        else
          o == Resolved(Obj(data)) && db.rows == old(db.rows)[key := JsonData(data)]
    {
      var key := CreateScheduleObjectKey(uri, data);
      if key.Failure? {
        return Thrown(key.error);
      }
      var target := UrlToUri(Get(data, "publish"));
      assert target.Success?;
      var inserted := db.InsertItem(key.value, data);
      if inserted.Failure? {
        return Swallowed(StoreFault(inserted.error));
      }
      return Resolved(Obj(data));
    }

    /**
     * `del(uri)`: reads the entry and deletes it when its `publish` is
     * truthy, resolving to its data; otherwise resolves to `{ data }`.
     */
    method Del(uri: string) returns (o: Outcome<Value>)
      requires Valid()
      modifies db
      ensures Valid() && db.hasTable == old(db.hasTable)
      ensures !old(db.hasTable) ==> o == Swallowed(StoreFault(MissingRelation)) && db.rows == old(db.rows)
      ensures old(db.hasTable) ==> o == DelOutcome(StoredData(old(db.rows), uri))
      ensures old(db.hasTable) ==>
        db.rows == if Cancels(StoredData(old(db.rows), uri)) then old(db.rows) - {uri} else old(db.rows)
    {
      var selected := db.SelectItem(uri);
      if selected.Failure? {
        return Swallowed(StoreFault(selected.error));
      }
      var data := if |selected.value| > 0 then selected.value[0].data else map[];
      assert data == StoredData(db.rows, uri);
      if !Truthy(Get(data, "publish")) {
        return Resolved(Wrapped(data));
      }
      var _ := db.DeleteItem(uri);
      var target := UrlToUri(Get(data, "publish"));
      if target.Failure? {
        return Swallowed(UrlFault(target.error));
      }
      return Resolved(Obj(data));
    }

    /** `getScheduleItem(uri)` as written: looks up the site prefix of `uri`, not `uri`. */
    method GetScheduleItem(uri: string) returns (o: Outcome<Value>)
      ensures !db.hasTable ==> o == Swallowed(StoreFault(MissingRelation))
      ensures db.hasTable && GetPrefix(uri) in db.rows ==>
        o == Resolved(RowValue(Row(GetPrefix(uri), db.rows[GetPrefix(uri)])))
      ensures db.hasTable && GetPrefix(uri) !in db.rows ==> o == Resolved(Obj(map[]))
    {
      var selected := db.SelectItem(GetPrefix(uri));
      if selected.Failure? {
        return Swallowed(StoreFault(selected.error));
      }
      if |selected.value| > 0 {
        return Resolved(RowValue(selected.value[0]));
      }
      return Resolved(Obj(map[]));
    }

    /** `getScheduleItem(uri)` as its documentation and tests describe it: the entry whose id is `uri`. */
    method GetScheduleItemById(uri: string) returns (o: Outcome<Value>)
      ensures !db.hasTable ==> o == Swallowed(StoreFault(MissingRelation))
      ensures db.hasTable && uri in db.rows ==> o == Resolved(RowValue(Row(uri, db.rows[uri])))
      ensures db.hasTable && uri !in db.rows ==> o == Resolved(Obj(map[]))
    {
      var selected := db.SelectItem(uri);
      if selected.Failure? {
        return Swallowed(StoreFault(selected.error));
      }
      if |selected.value| > 0 {
        return Resolved(RowValue(selected.value[0]));
      }
      return Resolved(Obj(map[]));
    }

    /** `getScheduleList(uri)`: the entries of the site `uri` belongs to. */
    method GetScheduleList(uri: string) returns (o: Outcome<seq<Row>>)
      ensures !db.hasTable ==> o == Swallowed(StoreFault(MissingRelation))
      ensures db.hasTable ==> o.Resolved? && DistinctIds(o.value)
      ensures db.hasTable ==> forall i :: 0 <= i < |o.value| ==>
        StartsWith(o.value[i].id, GetPrefix(uri)) && o.value[i].id in db.rows
        && o.value[i].data == db.rows[o.value[i].id]
      ensures db.hasTable ==> forall id :: id in db.rows && StartsWith(id, GetPrefix(uri)) ==> id in Ids(o.value)
    {
      var selected := db.SelectItemsFromSite(GetPrefix(uri));
      if selected.Failure? {
        return Swallowed(StoreFault(selected.error));
      }
      return Resolved(selected.value);
    }

    /** `publishExternally(row.data.publish).then(() => del(row.id))` for one due row. */
    method PublishRow(row: Row, responds: string -> bool) returns (es: seq<Effect>)
      requires Valid() && db.hasTable && row.id in db.rows && db.rows[row.id] == row.data
      modifies db
      ensures Valid() && db.hasTable
      ensures es == RowEffects(row, responds)
      ensures db.rows == old(db.rows) - RowRemoved(row, responds)
    {
      var published := PublishedUri(row.data);
      if published.None? {
        return [];
      }
      if !responds(published.value) {
        return [Put(published.value)];
      }
      var _ := Del(row.id);
      return [Put(published.value), Cancel(row.id)];
    }

    /**
     * One firing of the timer at time `now`: selects the due rows, and for
     * each one PUTs its `@published` version and, once that PUT has
     * resolved (with any HTTP status), calls `del` on its id. Returns the rows it selected and
     * what it did.
     */
    method Tick(now: int, responds: string -> bool) returns (due: seq<Row>, effects: seq<Effect>)
      requires Valid()
      modifies db
      ensures Valid() && db.hasTable == old(db.hasTable)
      ensures !old(db.hasTable) ==> due == [] && effects == [] && db.rows == old(db.rows)
      ensures old(db.hasTable) ==> DistinctIds(due)
      ensures old(db.hasTable) ==> forall i :: 0 <= i < |due| ==>
        due[i].id in old(db.rows) && due[i].data == old(db.rows)[due[i].id] && IsDue(due[i].data, now)
      ensures old(db.hasTable) ==> forall id :: id in old(db.rows) && IsDue(old(db.rows)[id], now) ==> id in Ids(due)
      ensures effects == TickEffects(due, responds)
      ensures db.rows == old(db.rows) - Removed(due, responds)
    {
      var selected := db.SelectPublishableItems(now);
      if selected.Failure? {
        return [], [];
      }
      due := selected.value;
      effects := PublishAll(due, responds);
    }

    /** The publishers of one cycle, run one after the other over rows that are all still stored. */
    method PublishAll(due: seq<Row>, responds: string -> bool) returns (effects: seq<Effect>)
      requires Valid() && db.hasTable && DistinctIds(due)
      requires forall i :: 0 <= i < |due| ==> due[i].id in db.rows && db.rows[due[i].id] == due[i].data
      modifies db
      ensures Valid() && db.hasTable
      ensures effects == TickEffects(due, responds)
      ensures db.rows == old(db.rows) - Removed(due, responds)
    {
      effects := [];
      var i := 0;
      while i < |due|
        invariant 0 <= i <= |due|
        invariant Valid() && db.hasTable
        invariant effects == TickEffects(due[..i], responds)
        invariant db.rows == old(db.rows) - Removed(due[..i], responds)
      {
        StillStored(db.rows, old(db.rows), due, i, responds);
        StepAt(due, i, responds);
        RemovedAt(old(db.rows), due, i, responds);
        var es := PublishRow(due[i], responds);
        effects := effects + es;
        i := i + 1;
      }
      assert due[..i] == due;
    }
  }

  /** An entry posted for a page is listed for every uri of the same site. */
  lemma PostedEntryIsListed(uri: string, data: Data, other: string)
    requires CreateScheduleObjectKey(uri, data).Success?
    requires GetPrefix(other) == GetPrefix(uri)
    ensures StartsWith(CreateScheduleObjectKey(uri, data).value, GetPrefix(other))
  {
    KeyOf(uri, data);
    KeyStartsWith(GetPrefix(uri), Get(data, "publish").s);
  }

  /** `getScheduleItem` as written never finds a posted entry: no site prefix is a key. */
  lemma PostedEntryNotFoundByPrefix(uri: string, data: Data, other: string)
    requires CreateScheduleObjectKey(uri, data).Success?
    ensures GetPrefix(other) != CreateScheduleObjectKey(uri, data).value
  {
    KeyOf(uri, data);
    KeyIsNoPrefix(GetPrefix(uri), Get(data, "publish").s, other);
  }
}
