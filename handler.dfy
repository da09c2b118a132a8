/** The request sequence: decode, authenticate, throttle, send, persist, respond. */
module Handler {
  import opened NotifyTypes
  import opened EventStore
  import opened Throttle
  import opened Auth

  const StatusCreated: int := 201
  const StatusFound: int := 302
  const StatusBadRequest: int := 400
  const StatusForbidden: int := 403

  /** The status code the handler answers with, given the store's log before the request. */
  function Response(config: Config, log: seq<Notify>, body: Decoded, throttleNow: real): (status: int)
    ensures status in {StatusCreated, StatusFound, StatusBadRequest, StatusForbidden}
    ensures status == StatusBadRequest <==> body.DecodeError?
    ensures status == StatusForbidden <==> body.Decoded? && body.request.token !in config.tokens
    ensures status in {StatusCreated, StatusFound} ==> body.Decoded? && body.request.token in config.tokens
    ensures status == StatusFound ==>
              exists k, i | 0 <= k < |config.durationTimeout| && 0 <= i < |log| ::
                config.durationTimeout[k].typ == body.request.typ && log[i].typ == body.request.typ &&
                throttleNow - log[i].time <= config.durationTimeout[k].timeoutSecond
  {
    if body.DecodeError? then StatusBadRequest
    else if body.request.token !in config.tokens then StatusForbidden
    else if !Allowed(config.durationTimeout, log, body.request.typ, throttleNow) then StatusFound
    else StatusCreated
  }

  /** Handles one request. `throttleNow` is the clock reading taken by the cooldown
      check, `receivedAt` the one stamped on the stored event, `delivered` the
      outcome of the single send attempt. `sent` is the message handed to the
      delivery channel, if any. */
  method Handle(config: Config, store: Store, body: Decoded, throttleNow: real, receivedAt: real, delivered: bool)
    returns (status: int, sent: Option<string>)
    requires store.Valid()
    modifies store
    ensures store.Valid()
    ensures status == Response(config, old(store.log), body, throttleNow)
    ensures status == StatusCreated ==>
              sent == Some(body.request.message) &&
              store.nextId == old(store.nextId) + 1 &&
              store.log == old(store.log) + [Notify(old(store.nextId), body.request.typ, receivedAt, body.request.message)]
    ensures status != StatusCreated ==>
              sent == None && store.log == old(store.log) && store.nextId == old(store.nextId)
  {
    if body.DecodeError? {
      return StatusBadRequest, None;
    }
    var request := body.request;

    var valid := CheckRequestToken(config, request.token);
    if !valid {
      return StatusForbidden, None;
    }

    var allowed := CheckTimeoutNotify(config, store, request.typ, throttleNow);
    if !allowed {
      return StatusFound, None;
    }

    var notify := Notify(0, request.typ, receivedAt, request.message);
    // The send outcome is only logged; it changes neither the row nor the answer.
    sent := Some(notify.message);
    var _ := store.SaveNotify(notify);
    status := StatusCreated;
  }

  /** Decode and authentication failures are answered before the cooldown is
      consulted: their status does not depend on the log or the clock. */
  lemma {:induction false} ClientErrorsIgnoreThrottle(config: Config, log: seq<Notify>, log': seq<Notify>,
                                                      body: Decoded, now: real, now': real)
    requires body.DecodeError? || body.request.token !in config.tokens
    ensures Response(config, log, body, now) == Response(config, log', body, now')
    ensures Response(config, log, body, now) in {StatusBadRequest, StatusForbidden}
  {
  }

  /** After a request of type T is answered 201 and stored at `receivedAt`, a
      second authenticated request of T whose clock reading is at most the first
      matching rule's cooldown after `receivedAt` is answered 302, whatever the
      earlier events of T and even if the clock went backwards. */
  lemma {:induction false} CooldownAfterCreated(config: Config, log: seq<Notify>, id: int, request: NotifyRequest,
                                                receivedAt: real, request': NotifyRequest, throttleNow': real, k: nat)
    requires k < |config.durationTimeout| && config.durationTimeout[k].typ == request.typ
    requires forall j | 0 <= j < k :: config.durationTimeout[j].typ != request.typ
    requires request'.typ == request.typ && request'.token in config.tokens
    requires throttleNow' - receivedAt <= config.durationTimeout[k].timeoutSecond
    ensures Response(config, log + [Notify(id, request.typ, receivedAt, request.message)], Decoded(request'), throttleNow')
            == StatusFound
  {
    var n := Notify(id, request.typ, receivedAt, request.message);
    var log' := log + [n];
    assert log'[..|log|] == log;
    var last := LastOfType(log', n.typ);
    assert last.Some? && last.value.time >= receivedAt by {
      assert log'[|log|] == n;
    }
    assert FirstMatch(config.durationTimeout, request.typ) == Some(k);
  }

  /** A `disk-full` rule of 60 seconds: the first event is sent and stored, one
      30 seconds later is suppressed, neither sent nor stored, one 61 seconds
      after the first is sent and becomes the most recent `disk-full` event. */
  method DiskFullScenario() returns (a: int, b: int, c: int, sentB: Option<string>, log: seq<Notify>,
                                     last: Option<Notify>)
    ensures a == StatusCreated && b == StatusFound && c == StatusCreated
    ensures sentB == None
    ensures log == [Notify(1, "disk-full", 0.0, "A"), Notify(2, "disk-full", 61.0, "C")]
    ensures last == Some(Notify(2, "disk-full", 61.0, "C"))
  {
    var config := Config(["valid1", "valid2"], [DurationTimeout("disk-full", 60.0)]);
    var requestA := NotifyRequest("disk-full", "A", "valid1");
    var requestB := NotifyRequest("disk-full", "B", "valid1");
    var requestC := NotifyRequest("disk-full", "C", "valid1");
    var eventA := Notify(1, "disk-full", 0.0, "A");
    var eventC := Notify(2, "disk-full", 61.0, "C");
    assert Response(config, [], Decoded(requestA), 0.0) == StatusCreated by {
      assert "valid1" in config.tokens;
      assert Allowed(config.durationTimeout, [], "disk-full", 0.0);
    }
    assert Response(config, [eventA], Decoded(requestB), 30.0) == StatusFound by {
      assert [] + [eventA] == [eventA];
      CooldownAfterCreated(config, [], 1, requestA, 0.0, requestB, 30.0, 0);
    }
    assert Response(config, [eventA], Decoded(requestC), 61.0) == StatusCreated by {
      assert "valid1" in config.tokens;
      assert [] + [eventA] == [eventA];
      CooldownAfterAppend(config.durationTimeout, [], eventA, 61.0, 0);
    }
    assert LastOfType([eventA, eventC], "disk-full") == Some(eventC) by {
      assert [eventA] + [eventC] == [eventA, eventC];
      LastOfTypeAfterAppend([eventA], eventC);
    }

    var store := new Store();
    var sent;
    a, sent := Handle(config, store, Decoded(requestA), 0.0, 0.0, true);
    b, sentB := Handle(config, store, Decoded(requestB), 30.0, 30.0, true);
    c, sent := Handle(config, store, Decoded(requestC), 61.0, 61.0, false);
    log := store.log;
    last := store.FetchLastOfType("disk-full");
  }
}
