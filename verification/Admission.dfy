/** Admission of confidential envelopes
    (apps/gateway/internal/adapters/http/handlers/confidential_chat_completions_handler.go):
    requests interleave between their freshness sample and their store sample, on one clock. */
module Admission {
  import opened ReplayCache

  const SECOND := 1_000_000_000
  const MAX_AGE := 120 * SECOND
  const FUTURE_SKEW := 30 * SECOND
  const REPLAY_TTL := 180 * SECOND

  datatype Envelope = Envelope(key: Key, issuedAt: int)

  /** A request either samples the clock for its freshness check, or asks the replay cache to store it. */
  datatype Step = CheckFresh(id: nat, envelope: Envelope, now: int) | AskStore(id: nat, now: int)

  datatype Waiting = Waiting(envelope: Envelope, freshAt: int)

  datatype Admitted = Admitted(envelope: Envelope, freshAt: int, storedAt: int)

  datatype World = World(history: seq<Acceptance>, waiting: map<nat, Waiting>, admitted: seq<Admitted>)

  predicate IsFresh(issuedAt: int, now: int) {
    !(issuedAt < now - MAX_AGE) && !(issuedAt > now + FUTURE_SKEW)
  }

  /** A stale or future envelope ends its request; a fresh one goes on to the cache; the cache decides once. */
  function Next(w: World, step: Step, capacity: nat, accountCapacity: nat): World {
    match step
    case CheckFresh(id, envelope, now) =>
      if IsFresh(envelope.issuedAt, now) then w.(waiting := w.waiting[id := Waiting(envelope, now)]) else w
    case AskStore(id, now) =>
      if id !in w.waiting then w
      else
        var e := w.waiting[id].envelope;
        var w' := w.(waiting := w.waiting - {id},
          history := After(w.history, now, REPLAY_TTL, capacity, accountCapacity, e.key));
        if Decide(w.history, now, REPLAY_TTL, capacity, accountCapacity, e.key).Accepted?
        then w'.(admitted := w.admitted + [Admitted(e, w.waiting[id].freshAt, now)])
        else w'
  }

  function Run(w: World, steps: seq<Step>, capacity: nat, accountCapacity: nat): World
    decreases |steps|
  {
    if steps == [] then w else Run(Next(w, steps[0], capacity, accountCapacity), steps[1..], capacity, accountCapacity)
  }

  /** The clock never goes back. */
  predicate InTime(steps: seq<Step>, last: int) {
    steps == [] || (last <= steps[0].now && InTime(steps[1..], steps[0].now))
  }

  const START := World([], map[], [])

  // ---------- What every step keeps ----------

  predicate AdmissionOk(a: Admitted, last: int) {
    IsFresh(a.envelope.issuedAt, a.freshAt) && a.freshAt <= a.storedAt <= last
  }

  ghost predicate WorldOk(w: World, last: int) {
    && |w.admitted| == |w.history|
    && (forall i | 0 <= i < |w.admitted| ::
          AdmissionOk(w.admitted[i], last)
            && w.history[i] == Acceptance(w.admitted[i].envelope.key, w.admitted[i].storedAt))
    && (forall id | id in w.waiting ::
          IsFresh(w.waiting[id].envelope.issuedAt, w.waiting[id].freshAt) && w.waiting[id].freshAt <= last)
    && Apart(w.admitted)
  }

  /** A key is stored again only once its replay entry has expired. */
  ghost predicate Apart(admitted: seq<Admitted>) {
    forall i, j | 0 <= i < j < |admitted| && admitted[i].envelope.key == admitted[j].envelope.key ::
      admitted[i].storedAt + REPLAY_TTL <= admitted[j].storedAt
  }

  lemma AcceptedIsApart(history: seq<Acceptance>, now: int, capacity: nat, accountCapacity: nat, key: Key, i: nat)
    requires Decide(history, now, REPLAY_TTL, capacity, accountCapacity, key).Accepted?
    requires i < |history| && history[i].key == key
    ensures history[i].at + REPLAY_TTL <= now
  {
    LiveOf(history, now, REPLAY_TTL, history[i]);
    InLive(Live(history, now, REPLAY_TTL), history[i]);
  }

  lemma InLive(live: seq<Acceptance>, a: Acceptance)
    ensures a in live ==> Contains(live, a.key)
  {
  }

  lemma NextKeeps(w: World, step: Step, capacity: nat, accountCapacity: nat, last: int)
    requires WorldOk(w, last) && last <= step.now
    ensures WorldOk(Next(w, step, capacity, accountCapacity), step.now)
  {
    if step.AskStore? && step.id in w.waiting {
      var e := w.waiting[step.id].envelope;
      if Decide(w.history, step.now, REPLAY_TTL, capacity, accountCapacity, e.key).Accepted? {
        forall i | 0 <= i < |w.admitted| && w.admitted[i].envelope.key == e.key
          ensures w.admitted[i].storedAt + REPLAY_TTL <= step.now
        {
          AcceptedIsApart(w.history, step.now, capacity, accountCapacity, e.key, i);
        }
      }
    }
  }

  lemma {:induction false} RunKeeps(w: World, steps: seq<Step>, capacity: nat, accountCapacity: nat, last: int)
        returns (end: int)
    requires WorldOk(w, last) && InTime(steps, last)
    ensures WorldOk(Run(w, steps, capacity, accountCapacity), end)
    decreases |steps|
  {
    if steps == [] {
      end := last;
    } else {
      NextKeeps(w, steps[0], capacity, accountCapacity, last);
      end := RunKeeps(Next(w, steps[0], capacity, accountCapacity), steps[1..], capacity, accountCapacity,
        steps[0].now);
    }
  }

  // ---------- At most once ----------

  predicate Prompt(a: Admitted) { a.storedAt - a.freshAt < 30_000_000_000 }

  /** In every run, whatever the interleaving and the capacities, an envelope whose store follows its freshness check
      within 30 s was not admitted before. */
  lemma AdmittedAtMostOnce(steps: seq<Step>, capacity: nat, accountCapacity: nat, start: int, i: nat, j: nat)
    requires InTime(steps, start)
    requires i < j < |Run(START, steps, capacity, accountCapacity).admitted|
    requires Prompt(Run(START, steps, capacity, accountCapacity).admitted[j])
    ensures var admitted := Run(START, steps, capacity, accountCapacity).admitted;
      admitted[i].envelope != admitted[j].envelope
  {
    var end := RunKeeps(START, steps, capacity, accountCapacity, start);
    var admitted := Run(START, steps, capacity, accountCapacity).admitted;
    var a, b := admitted[i], admitted[j];
    assert AdmissionOk(a, end) && AdmissionOk(b, end);
    if a.envelope == b.envelope {
      assert a.envelope.issuedAt <= a.storedAt + FUTURE_SKEW;
      assert b.freshAt - MAX_AGE <= b.envelope.issuedAt;
    }
  }

  /** Two steps admit a fresh envelope that the cache accepts. */
  lemma TwoStepsAdmit(w: World, id: nat, e: Envelope, freshAt: int, storedAt: int, capacity: nat, accountCapacity: nat)
    requires id !in w.waiting && IsFresh(e.issuedAt, freshAt)
    requires Decide(w.history, storedAt, REPLAY_TTL, capacity, accountCapacity, e.key).Accepted?
    ensures Next(Next(w, CheckFresh(id, e, freshAt), capacity, accountCapacity), AskStore(id, storedAt), capacity,
      accountCapacity)
         == World(w.history + [Acceptance(e.key, storedAt)], w.waiting, w.admitted + [Admitted(e, freshAt, storedAt)])
  {
    hide Decide;
    assert w.waiting[id := Waiting(e, freshAt)] - {id} == w.waiting;
  }

  lemma FourSteps(w: World, a: Step, b: Step, c: Step, d: Step, capacity: nat, accountCapacity: nat)
    ensures var w2 := Next(Next(w, a, capacity, accountCapacity), b, capacity, accountCapacity);
      Run(w, [a, b, c, d], capacity, accountCapacity)
        == Next(Next(w2, c, capacity, accountCapacity), d, capacity, accountCapacity)
    ensures forall last :: last <= a.now <= b.now <= c.now <= d.now ==> InTime([a, b, c, d], last)
  {
    hide Next;
    var s := [a, b, c, d];
    assert s[1..] == [b, c, d] && [b, c, d][1..] == [c, d] && [c, d][1..] == [d] && [d][1..] == [];
    var w1 := Next(w, a, capacity, accountCapacity);
    var w2 := Next(w1, b, capacity, accountCapacity);
    var w3 := Next(w2, c, capacity, accountCapacity);
    assert Run(w3, [d], capacity, accountCapacity) == Next(w3, d, capacity, accountCapacity);
    assert Run(w2, [c, d], capacity, accountCapacity) == Run(w3, [d], capacity, accountCapacity);
    assert Run(w1, [b, c, d], capacity, accountCapacity) == Run(w2, [c, d], capacity, accountCapacity);
    assert forall last :: last <= d.now ==> InTime([d], last);
    assert forall last :: last <= c.now <= d.now ==> InTime([c, d], last);
    assert forall last :: last <= b.now <= c.now <= d.now ==> InTime([b, c, d], last);
  }

  /** A key is accepted again once its entry has expired. */
  lemma AcceptedAgain(key: Key, at: int, now: int)
    requires at + REPLAY_TTL <= now
    ensures Decide([], at, REPLAY_TTL, 10, 10, key).Accepted?
    ensures Decide([Acceptance(key, at)], now, REPLAY_TTL, 10, 10, key).Accepted?
  {
    LiveIsSuffix([Acceptance(key, at)], now, REPLAY_TTL, 1);
  }

  /** The bound is exact: for every delay of 30 s or more some run admits one envelope twice. */
  lemma SlowStoreAdmitsTwice(key: Key, delay: int) returns (steps: seq<Step>)
    requires delay >= 30_000_000_000
    ensures InTime(steps, 0)
    ensures var admitted := Run(START, steps, 10, 10).admitted;
      |admitted| == 2 && admitted[0].envelope == admitted[1].envelope
        && admitted[1].storedAt - admitted[1].freshAt == delay
  {
    var e := Envelope(key, FUTURE_SKEW);
    var f := FUTURE_SKEW + MAX_AGE;
    assert IsFresh(e.issuedAt, 0) && IsFresh(e.issuedAt, f) && f + delay >= REPLAY_TTL;
    steps := [CheckFresh(0, e, 0), AskStore(0, 0), CheckFresh(1, e, f), AskStore(1, f + delay)];
    AcceptedAgain(key, 0, f + delay);
    hide Next, Run, Decide, InTime, IsFresh;
    TwoStepsAdmit(START, 0, e, 0, 0, 10, 10);
    var w := World([Acceptance(key, 0)], map[], [Admitted(e, 0, 0)]);
    assert w.history == START.history + [Acceptance(key, 0)] && w.admitted == START.admitted + [Admitted(e, 0, 0)];
    TwoStepsAdmit(w, 1, e, f, f + delay, 10, 10);
    FourSteps(START, steps[0], steps[1], steps[2], steps[3], 10, 10);
  }

  // ---------- The handler's two samples against the cache ----------

  datatype Verdict = Stale | Future | Decided(outcome: Outcome)

  /** One request from its freshness sample to its store sample. `storeNow` is sampled under the cache's lock. */
  method Admit(replays: ConfidentialReplayCache, envelope: Envelope, now: int, storeNow: int) returns (v: Verdict)
    requires replays.Valid() && now <= storeNow && replays.last <= storeNow
    modifies replays
    ensures replays.Valid()
    ensures v.Decided? <==> now - 120_000_000_000 <= envelope.issuedAt <= now + 30_000_000_000
    ensures v.Decided? ==>
      && v.outcome == Decide(old(replays.history), storeNow, replays.ttl, replays.capacity, replays.accountCapacity,
        envelope.key)
      && replays.history == After(old(replays.history), storeNow, replays.ttl, replays.capacity,
        replays.accountCapacity, envelope.key)
    ensures !v.Decided? ==> replays.history == old(replays.history)
    ensures v.Stale? <==> envelope.issuedAt < now - 120_000_000_000
  {
    if envelope.issuedAt < now - MAX_AGE {
      return Stale;
    }
    if envelope.issuedAt > now + FUTURE_SKEW {
      return Future;
    }
    var r := replays.CheckAndStore(envelope.key.account, envelope.key.request, storeNow);
    return Decided(r);
  }
}
