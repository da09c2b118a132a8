/** The append-only log of sent notifications, kept in memory in place of the
    SQLite `notifies` table. */
module EventStore {
  import opened NotifyTypes

  /** The most recent event of type `typ` in `log`: one with the largest time;
      among events with equal times, the one appended last. */
  function LastOfType(log: seq<Notify>, typ: string): (r: Option<Notify>)
    ensures r.None? <==> forall i | 0 <= i < |log| :: log[i].typ != typ
    ensures r.Some? ==> r.value in log && r.value.typ == typ
    ensures r.Some? ==> forall i | 0 <= i < |log| && log[i].typ == typ :: log[i].time <= r.value.time
    decreases |log|
  {
    if log == [] then None
    else
      var init := log[..|log| - 1];
      var n := log[|log| - 1];
      assert forall i | 0 <= i < |init| :: init[i] == log[i];
      var prev := LastOfType(init, typ);
      if n.typ != typ then prev
      else if prev.Some? && prev.value.time > n.time then prev
      else Some(n)
  }

  /** Appending an event that is at least as recent as every earlier event of its
      type makes it the most recent event of that type. */
  lemma {:induction false} LastOfTypeAfterAppend(log: seq<Notify>, n: Notify)
    requires forall i | 0 <= i < |log| && log[i].typ == n.typ :: log[i].time <= n.time
    ensures LastOfType(log + [n], n.typ) == Some(n)
  {
    assert (log + [n])[..|log|] == log;
  }

  /** Appending an event of one type does not change the answer for any other type. */
  lemma {:induction false} LastOfTypeOtherType(log: seq<Notify>, n: Notify, typ: string)
    requires typ != n.typ
    ensures LastOfType(log + [n], typ) == LastOfType(log, typ)
  {
    assert (log + [n])[..|log|] == log;
  }

  class Store {
    var log: seq<Notify>
    var nextId: int

    /** Ids are positive and increase along the log; the next id to hand out is
        one past the last record's (1 for an empty table). */
    ghost predicate Valid()
      reads this
    {
      nextId == (if log == [] then 1 else log[|log| - 1].id + 1) &&
      (forall i | 0 <= i < |log| :: 1 <= log[i].id < nextId) &&
      (forall i, j | 0 <= i < j < |log| :: log[i].id < log[j].id)
    }

    /** A freshly created, empty table. */
    constructor ()
      ensures Valid()
      ensures log == [] && nextId == 1
    {
      log := [];
      nextId := 1;
    }

    /** The `ORDER BY time desc LIMIT 1` query for one type. */
    method FetchLastOfType(typ: string) returns (r: Option<Notify>)
      ensures r == LastOfType(log, typ)
      ensures r.None? <==> forall i | 0 <= i < |log| :: log[i].typ != typ
      ensures r.Some? ==> r.value in log && r.value.typ == typ
      ensures r.Some? ==> forall i | 0 <= i < |log| && log[i].typ == typ :: log[i].time <= r.value.time
    {
      r := LastOfType(log, typ);
    }

    /** Inserts one row with a storage-assigned id (the given id is ignored) and
        returns that id; earlier rows are untouched. */
    method SaveNotify(n: Notify) returns (id: int)
      requires Valid()
      modifies this
      ensures Valid()
      ensures id == old(nextId) && nextId == old(nextId) + 1
      ensures log == old(log) + [Notify(id, n.typ, n.time, n.message)]
    {
      id := nextId;
      log := log + [Notify(id, n.typ, n.time, n.message)];
      nextId := nextId + 1;
    }
  }
}
