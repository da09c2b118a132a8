/** The per-type cooldown decision. */
module Throttle {
  import opened NotifyTypes
  import opened EventStore

  /** Index of the first rule, in list order, whose type is `typ`. */
  function FirstMatch(rules: seq<DurationTimeout>, typ: string): (k: Option<nat>)
    ensures k.None? <==> forall j | 0 <= j < |rules| :: rules[j].typ != typ
    ensures k.Some? ==> k.value < |rules| && rules[k.value].typ == typ
    ensures k.Some? ==> forall j | 0 <= j < k.value :: rules[j].typ != typ
  {
    if rules == [] then None
    else if rules[0].typ == typ then Some(0)
    else
      match FirstMatch(rules[1..], typ)
      case None => None
      case Some(k) => Some(k + 1)
  }

  /** Whether an event of type `typ` arriving at `now` may be sent: the first
      matching rule decides; no rule, or no earlier event of the type, allows it;
      otherwise strictly more than the cooldown must have elapsed. */
  predicate Allowed(rules: seq<DurationTimeout>, log: seq<Notify>, typ: string, now: real)
    ensures !Allowed(rules, log, typ, now) ==>
              exists k, i | 0 <= k < |rules| && 0 <= i < |log| ::
                rules[k].typ == typ && log[i].typ == typ && now - log[i].time <= rules[k].timeoutSecond
  {
    match FirstMatch(rules, typ)
    case None => true
    case Some(k) =>
      match LastOfType(log, typ)
      case None => true
      case Some(last) => now - last.time > rules[k].timeoutSecond
  }

  /** The rule scan with its early returns; the store is only queried once a
      rule matches. */
  method CheckTimeoutNotify(config: Config, store: Store, typ: string, now: real) returns (ok: bool)
    ensures ok == Allowed(config.durationTimeout, store.log, typ, now)
  {
    var rules := config.durationTimeout;
    var i := 0;
    while i < |rules|
      invariant 0 <= i <= |rules|
      invariant forall j | 0 <= j < i :: rules[j].typ != typ
    {
      if rules[i].typ == typ {
        var last := store.FetchLastOfType(typ);
        if last.None? {
          return true;
        }
        return now - last.value.time > rules[i].timeoutSecond;
      }
      i := i + 1;
    }
    return true;
  }

  /** A type without any cooldown rule is always allowed, whatever the log holds. */
  lemma NoRuleAllowed(rules: seq<DurationTimeout>, log: seq<Notify>, typ: string, now: real)
    requires forall j | 0 <= j < |rules| :: rules[j].typ != typ
    ensures Allowed(rules, log, typ, now)
  {
  }

  /** The first event of a type always passes, whatever the rules say. */
  lemma FirstOccurrenceAllowed(rules: seq<DurationTimeout>, log: seq<Notify>, typ: string, now: real)
    requires forall i | 0 <= i < |log| :: log[i].typ != typ
    ensures Allowed(rules, log, typ, now)
  {
  }

  /** With `rules[k]` the first rule for `typ` and `last` a most recent event of
      that type, the event is allowed exactly when more than `rules[k]`'s cooldown
      has elapsed since `last`. */
  lemma {:induction false} CooldownDecision(rules: seq<DurationTimeout>, log: seq<Notify>, typ: string, now: real,
                                            k: nat, last: Notify)
    requires k < |rules| && rules[k].typ == typ
    requires forall j | 0 <= j < k :: rules[j].typ != typ
    requires last in log && last.typ == typ
    requires forall i | 0 <= i < |log| && log[i].typ == typ :: log[i].time <= last.time
    ensures Allowed(rules, log, typ, now) <==> now - last.time > rules[k].timeoutSecond
  {
    assert FirstMatch(rules, typ) == Some(k);
    assert LastOfType(log, typ).Some?;
  }

  /** An event exactly one cooldown after the most recent one is suppressed. */
  lemma {:induction false} BoundarySuppressed(rules: seq<DurationTimeout>, log: seq<Notify>, typ: string, now: real,
                                              k: nat, last: Notify)
    requires k < |rules| && rules[k].typ == typ
    requires forall j | 0 <= j < k :: rules[j].typ != typ
    requires last in log && last.typ == typ
    requires forall i | 0 <= i < |log| && log[i].typ == typ :: log[i].time <= last.time
    requires now - last.time == rules[k].timeoutSecond
    ensures !Allowed(rules, log, typ, now)
  {
    CooldownDecision(rules, log, typ, now, k, last);
  }

  /** Once some rule for `typ` exists, rules appended after it never change the decision. */
  lemma {:induction false} LaterRulesIgnored(rules: seq<DurationTimeout>, extra: seq<DurationTimeout>,
                                             log: seq<Notify>, typ: string, now: real)
    requires exists j | 0 <= j < |rules| :: rules[j].typ == typ
    ensures Allowed(rules + extra, log, typ, now) == Allowed(rules, log, typ, now)
  {
    var m := FirstMatch(rules, typ);
    var m' := FirstMatch(rules + extra, typ);
    assert m.Some?;
    assert (rules + extra)[m.value] == rules[m.value];
    assert m' == m;
  }

  /** After an event of `n.typ` is stored, at least as recent as every earlier one
      of its type, and with `rules[k]` the first rule for that type, a later event
      of the type is allowed exactly when more than the cooldown has elapsed since
      the stored one. */
  lemma {:induction false} CooldownAfterAppend(rules: seq<DurationTimeout>, log: seq<Notify>, n: Notify, now: real, k: nat)
    requires k < |rules| && rules[k].typ == n.typ
    requires forall j | 0 <= j < k :: rules[j].typ != n.typ
    requires forall i | 0 <= i < |log| && log[i].typ == n.typ :: log[i].time <= n.time
    ensures Allowed(rules, log + [n], n.typ, now) <==> now - n.time > rules[k].timeoutSecond
  {
    LastOfTypeAfterAppend(log, n);
    assert FirstMatch(rules, n.typ) == Some(k);
  }

  /** Storing an event of one type leaves the decision for every other type as it was. */
  lemma {:induction false} OtherTypeUnaffected(rules: seq<DurationTimeout>, log: seq<Notify>, n: Notify,
                                               typ: string, now: real)
    requires typ != n.typ
    ensures Allowed(rules, log + [n], typ, now) == Allowed(rules, log, typ, now)
  {
    LastOfTypeOtherType(log, n, typ);
  }
}
