/** Keeping a credit hold alive at Metering while a request runs
    (apps/gateway/internal/adapters/metering/reservation_lease.go). Times and durations are nanoseconds. */
module Lease {
  import opened Common
  import opened Wrappers

  const MILLISECOND := 1_000_000

  const SECOND := 1_000_000_000

  /** A hold as this process's clock sees it. */
  datatype Lease = Lease(expires: nat, length: nat)

  /** A lease runs from when its request was sent. */
  function NewLease(sent: nat, ms: nat): Lease { Lease(sent + ms * MILLISECOND, ms * MILLISECOND) }

  /** Attempts are never closer than a tenth of the lease or a second. */
  function Floor(length: nat): nat { Min(SECOND, length / 10) }

  /** How long to wait with `remaining` time left. */
  function Wait(remaining: nat, floor: nat): nat { Min(Max(remaining / 3, floor), remaining) }

  // ---------- The protocol ----------

  /** What a renewal returns: an answer, a transport or server failure, or a refusal. */
  datatype Answer = Renewed(id: string, ms: int) | Transient | Rejected

  /** Metering handled a request and granted the hold for `ms`. */
  datatype Grant = Grant(handled: nat, ms: nat)
  {
    predicate Covers(t: nat) { handled <= t < handled + ms * MILLISECOND }
  }

  /** One turn of the keeper: when it looks at the clock, when the wait ends and by what, when it looks again, sends and
      gets an answer. `grants` is what Metering granted for the request, whether or not the answer arrived. */
  datatype Round = Round(
    start: nat, wake: nat, stopped: bool, checked: nat, sent: nat, answer: Answer, back: nat, grants: seq<Grant>)

  datatype Status = Keeping | Stopped | Expired | Refused

  /** The keeper, with the renewals it sent, the grants made for them and how often it reported the hold lost. */
  datatype Keeper = Keeper(held: Lease, now: nat, status: Status, losses: nat, sends: seq<nat>, grants: seq<Grant>)

  /** What stays fixed: the reservation, the shortest wait, and when the keeper is stopped. */
  datatype Setting = Setting(id: string, floor: nat, stopAt: Option<nat>)
  {
    predicate Canceled(t: nat) { stopAt.Some? && stopAt.value <= t }
  }

  /** The clock never runs back, timers never fire early, the stop is only seen once it happened, and an answer that
      renews the hold is one that Metering gave in between. */
  predicate Timely(c: Setting, k: Keeper, r: Round) {
    && k.now <= r.start <= r.wake <= r.checked <= r.sent <= r.back
    && (r.stopped ==> c.Canceled(r.wake))
    && (!r.stopped && r.start < k.held.expires ==> r.wake >= r.start + Wait(k.held.expires - r.start, c.floor))
    && (r.answer.Renewed? && r.answer.id == c.id && r.answer.ms > 0 ==>
          exists g | g in r.grants :: g.ms == r.answer.ms && r.sent <= g.handled <= r.back)
  }

  function Losses(c: Setting, k: Keeper, t: nat): nat { k.losses + if c.Canceled(t) then 0 else 1 }

  /** The lease after an answer: a valid one that lasts longer replaces it. */
  function Improved(held: Lease, c: Setting, r: Round): Lease {
    if r.answer.Renewed? && r.answer.id == c.id && r.answer.ms > 0
      && NewLease(r.sent, r.answer.ms).expires > held.expires
    then NewLease(r.sent, r.answer.ms) else held
  }

  function Next(c: Setting, k: Keeper, r: Round): Keeper {
    if !k.status.Keeping? then k
    else if k.held.expires <= r.start then k.(now := r.start, status := Expired, losses := Losses(c, k, r.start))
    else if r.stopped then k.(now := r.wake, status := Stopped)
    else if k.held.expires <= r.checked then k.(now := r.checked)
    else
      var sent := k.(now := r.back, sends := k.sends + [r.sent], grants := k.grants + r.grants);
      if r.answer.Rejected? then sent.(status := Refused, losses := Losses(c, k, r.back))
      else sent.(held := Improved(k.held, c, r))
  }

  function Run(c: Setting, k: Keeper, rounds: seq<Round>): Keeper
    decreases |rounds|
  {
    if rounds == [] then k else Run(c, Next(c, k, rounds[0]), rounds[1..])
  }

  predicate TimelyRun(c: Setting, k: Keeper, rounds: seq<Round>)
    decreases |rounds|
  {
    rounds == [] || !k.status.Keeping? || (Timely(c, k, rounds[0]) && TimelyRun(c, Next(c, k, rounds[0]), rounds[1..]))
  }

  /** A keeper at work: the reservation was sent at `sent`, handled later by Metering, and its answer has arrived. */
  predicate Begins(k: Keeper, sent: nat, g: Grant) {
    && sent <= g.handled <= k.now && g.ms > 0
    && k == Keeper(NewLease(sent, g.ms), k.now, Keeping, 0, [], [g])
  }

  // ---------- Safety ----------

  predicate Live(grants: seq<Grant>, t: nat) { exists g | g in grants :: g.Covers(t) }

  /** A grant that lasts at least as long as the local lease was made already. */
  predicate Covered(k: Keeper)
  {
    exists g | g in k.grants :: g.handled <= k.now && k.held.expires <= g.handled + g.ms * MILLISECOND
  }

  lemma CoveredStep(c: Setting, k: Keeper, r: Round)
    requires Covered(k) && (k.status.Keeping? ==> Timely(c, k, r))
    ensures var k' := Next(c, k, r); Covered(k') && k'.now >= k.now && k'.held.expires >= k.held.expires
  {
    var k' := Next(c, k, r);
    var g :| g in k.grants && g.handled <= k.now && k.held.expires <= g.handled + g.ms * MILLISECOND;
    assert k.status.Keeping? ==> k'.now >= k.now;
    if k'.held == k.held {
      assert g in k'.grants;
    } else {
      var renewed :| renewed in r.grants && renewed.ms == r.answer.ms && r.sent <= renewed.handled <= r.back;
      assert renewed in k'.grants;
    }
  }

  lemma {:induction false} CoveredRun(c: Setting, k: Keeper, rounds: seq<Round>)
    requires Covered(k) && TimelyRun(c, k, rounds)
    ensures var k' := Run(c, k, rounds); Covered(k') && k'.now >= k.now && k'.held.expires >= k.held.expires
    decreases |rounds|
  {
    if rounds != [] {
      CoveredStep(c, k, rounds[0]);
      hide Next, Covered;
      if k.status.Keeping? { CoveredRun(c, Next(c, k, rounds[0]), rounds[1..]); } else { Idle(c, k, rounds); }
    }
  }

  lemma {:induction false} Idle(c: Setting, k: Keeper, rounds: seq<Round>)
    requires !k.status.Keeping?
    ensures Run(c, k, rounds) == k
    decreases |rounds|
  {
    if rounds != [] { Idle(c, k, rounds[1..]); }
  }

  /** While the local lease is unexpired, Metering still keeps the hold; and the lease never gets shorter. */
  lemma HoldIsLive(c: Setting, k: Keeper, sent: nat, g: Grant, rounds: seq<Round>)
    requires Begins(k, sent, g) && TimelyRun(c, k, rounds)
    ensures var k' := Run(c, k, rounds);
      && k'.held.expires >= k.held.expires
      && forall t: nat | k'.now <= t < k'.held.expires :: Live(k'.grants, t)
  {
    var k' := Run(c, k, rounds);
    assert g in k.grants;
    CoveredRun(c, k, rounds);
    var cover :| cover in k'.grants && cover.handled <= k'.now
      && k'.held.expires <= cover.handled + cover.ms * MILLISECOND;
    forall t: nat | k'.now <= t < k'.held.expires ensures Live(k'.grants, t) { assert cover.Covers(t); }
  }

  // ---------- What a renewal is worth ----------

  /** The keeper sends a renewal in this turn, and gets a valid answer. */
  predicate Extends(c: Setting, k: Keeper, r: Round) {
    && k.status.Keeping? && r.start < k.held.expires && !r.stopped && r.checked < k.held.expires
    && r.answer.Renewed? && r.answer.id == c.id && r.answer.ms > 0
  }

  /** The leases that the valid renewals of a run granted: so many milliseconds from when each was sent. */
  function Granted(c: Setting, k: Keeper, rounds: seq<Round>): seq<Lease>
    decreases |rounds|
  {
    if rounds == [] then []
    else
      (if Extends(c, k, rounds[0])
       then [Lease(rounds[0].sent + rounds[0].answer.ms * 1_000_000, rounds[0].answer.ms * 1_000_000)] else [])
      + Granted(c, Next(c, k, rounds[0]), rounds[1..])
  }

  /** `held` is one of the leases, and none of them ends later. */
  predicate LastOf(held: Lease, leases: seq<Lease>) {
    held in leases && forall l | l in leases :: l.expires <= held.expires
  }

  /** After every run the keeper holds the lease that ends last, of the first one and all that were granted since; so it
      never reports the hold expired while a granted lease lasts. */
  lemma {:induction false} RenewalsExtend(c: Setting, k: Keeper, rounds: seq<Round>)
    requires Reported(c, k)
    ensures var k' := Run(c, k, rounds); var leases := [k.held] + Granted(c, k, rounds);
      && LastOf(k'.held, leases)
      && (k'.status.Expired? ==> forall l | l in leases :: l.expires <= k'.now)
    decreases |rounds|
  {
    LossIsReportedOnce(c, k, rounds);
    if rounds != [] {
      var k' := Next(c, k, rounds[0]);
      assert Reported(c, k') by { LossIsReportedOnce(c, k, [rounds[0]]); OneRound(c, k, rounds[0]); }
      RenewalsExtend(c, k', rounds[1..]);
      ExtendsOnce(c, k, rounds[0]);
      hide Next, Reported, Extends;
    }
  }

  lemma OneRound(c: Setting, k: Keeper, r: Round)
    ensures Run(c, k, [r]) == Next(c, k, r)
  {
    hide Next;
    assert [r][1..] == [];
  }

  lemma ExtendsOnce(c: Setting, k: Keeper, r: Round)
    ensures var held := Next(c, k, r).held;
      if Extends(c, k, r) then
        var granted := Lease(r.sent + r.answer.ms * 1_000_000, r.answer.ms * 1_000_000);
        held == if granted.expires > k.held.expires then granted else k.held
      else held == k.held
  {
  }

  // ---------- Reporting a loss ----------

  /** The hold is reported lost once at most: when it expired or was refused, unless the keeper was stopped by then. */
  predicate Reported(c: Setting, k: Keeper) {
    && (k.status.Expired? ==> k.held.expires <= k.now)
    && k.losses == (if (k.status.Expired? || k.status.Refused?) && !c.Canceled(k.now) then 1 else 0)
  }

  lemma {:induction false} LossIsReportedOnce(c: Setting, k: Keeper, rounds: seq<Round>)
    requires Reported(c, k)
    ensures Reported(c, Run(c, k, rounds)) && Run(c, k, rounds).losses <= 1
    ensures k.status.Keeping? && Run(c, k, rounds).status.Refused? ==>
      exists i | 0 <= i < |rounds| :: rounds[i].answer.Rejected?
    decreases |rounds|
  {
    if rounds != [] {
      var k' := Next(c, k, rounds[0]);
      assert Reported(c, k');
      LossIsReportedOnce(c, k', rounds[1..]);
      if k.status.Keeping? && Run(c, k, rounds).status.Refused? {
        if k'.status.Keeping? {
          var i :| 0 <= i < |rounds[1..]| && rounds[1..][i].answer.Rejected?;
          assert rounds[i + 1].answer.Rejected?;
        } else {
          Idle(c, k', rounds[1..]);
          assert rounds[0].answer.Rejected?;
        }
      }
    }
  }

  /** Why a keeper ends in this turn: the hold ran out, the keeper was stopped, or Metering refused. */
  predicate EndsIn(k: Keeper, r: Round, s: Status) {
    || (s.Expired? && k.held.expires <= r.start)
    || (s.Stopped? && r.start < k.held.expires && r.stopped)
    || (s.Refused? && r.start < k.held.expires && !r.stopped && r.checked < k.held.expires && r.answer.Rejected?)
  }

  lemma EndsAtOnce(c: Setting, k: Keeper, r: Round)
    requires k.status.Keeping?
    ensures var s := Next(c, k, r).status;
      if s.Keeping? then forall e :: !EndsIn(k, r, e) else EndsIn(k, r, s)
  {
  }

  /** A keeper ends in the first turn that gives it a reason, and for that reason; without one it goes on. */
  lemma {:induction false} EndsForAReason(c: Setting, k: Keeper, rounds: seq<Round>)
    requires k.status.Keeping?
    ensures var s := Run(c, k, rounds).status;
      if s.Keeping? then
        forall i, e | 0 <= i < |rounds| :: !EndsIn(Run(c, k, rounds[..i]), rounds[i], e)
      else
        exists i | 0 <= i < |rounds| :: Run(c, k, rounds[..i]).status.Keeping? && EndsIn(Run(c, k, rounds[..i]),
          rounds[i], s)
    decreases |rounds|
  {
    if rounds != [] {
      var k', rest := Next(c, k, rounds[0]), rounds[1..];
      EndsAtOnce(c, k, rounds[0]);
      assert Run(c, k, rounds[..0]) == k;
      hide Next, EndsIn;
      if k'.status.Keeping? {
        EndsForAReason(c, k', rest);
        forall i | 0 < i < |rounds| ensures Run(c, k, rounds[..i]) == Run(c, k', rest[..i - 1]) {
          assert rounds[..i][0] == rounds[0] && rounds[..i][1..] == rest[..i - 1];
        }
        if Run(c, k, rounds).status.Keeping? {
          forall i, e | 0 <= i < |rounds| ensures !EndsIn(Run(c, k, rounds[..i]), rounds[i], e) {
            if i > 0 { assert rest[i - 1] == rounds[i]; }
          }
        } else {
          var i :| 0 <= i < |rest| && Run(c, k', rest[..i]).status.Keeping?
            && EndsIn(Run(c, k', rest[..i]), rest[i], Run(c, k', rest).status);
          assert rounds[i + 1] == rest[i] && Run(c, k, rounds[..i + 1]) == Run(c, k', rest[..i]);
        }
      } else {
        Idle(c, k', rest);
      }
    }
  }

  // ---------- How often Metering is asked ----------

  /** Renewals are at least `gap` apart, the first as long after `from`, and none later than `now`. */
  predicate Spaced(sends: seq<nat>, from: nat, gap: nat, now: nat) {
    && (forall i | 0 <= i < |sends| :: from + gap <= sends[i] <= now)
    && (forall i | 0 <= i < |sends| - 1 :: sends[i] + gap <= sends[i + 1])
  }

  lemma SpacedStep(c: Setting, k: Keeper, r: Round, from: nat)
    requires from <= k.now && Spaced(k.sends, from, c.floor, k.now) && k.status.Keeping? && Timely(c, k, r)
    ensures var k' := Next(c, k, r); Spaced(k'.sends, from, c.floor, k'.now) && from <= k'.now
  {
  }

  lemma {:induction false} RenewalsAreSpaced(c: Setting, k: Keeper, rounds: seq<Round>, from: nat)
    requires from <= k.now && Spaced(k.sends, from, c.floor, k.now) && TimelyRun(c, k, rounds)
    ensures var k' := Run(c, k, rounds); Spaced(k'.sends, from, c.floor, k'.now)
    decreases |rounds|
  {
    if rounds != [] {
      if k.status.Keeping? {
        SpacedStep(c, k, rounds[0], from);
        hide Spaced, Next;
        RenewalsAreSpaced(c, Next(c, k, rounds[0]), rounds[1..], from);
      } else {
        Idle(c, k, rounds);
      }
    }
  }

  /** Nothing Metering answers renews the hold. */
  predicate Outage(rounds: seq<Round>)
  {
    forall i | 0 <= i < |rounds| :: rounds[i].answer.Transient? && !rounds[i].stopped
  }

  /** A turn in an outage that keeps going takes at least the shortest wait, or all that is left. */
  lemma OutageStep(c: Setting, k: Keeper, r: Round)
    requires k.status.Keeping? && Timely(c, k, r) && r.answer.Transient? && !r.stopped
    ensures var k' := Next(c, k, r);
      && k'.held == k.held && |k.sends| <= |k'.sends| <= |k.sends| + 1
      && (k.held.expires <= k.now ==> k'.status.Expired? && k'.sends == k.sends)
      && (k'.status.Expired? || k'.status.Keeping?)
      && (|k'.sends| > |k.sends| ==> k.now + c.floor < k.held.expires && k'.now >= k.now + c.floor)
      && (k'.status.Keeping? && |k'.sends| == |k.sends| ==> k'.now >= k.held.expires)
  {
  }

  lemma TimelyNow(c: Setting, k: Keeper, r: Round)
    requires Timely(c, k, r)
    ensures k.now <= Next(c, k, r).now
  {
  }

  /** `n` waits fit into the time from `now` to `end`, or there are none. */
  predicate Fits(n: int, floor: nat, now: nat, end: nat) { n == 0 || (n > 0 && n * floor < end - now) }

  lemma OneMoreFits(n: int, floor: nat, now: nat, later: nat, end: nat)
    requires Fits(n, floor, later, end) && now + floor <= later && now + floor < end
    ensures Fits(n + 1, floor, now, end)
  {
    assert (n + 1) * floor == n * floor + floor;
  }

  lemma NoMoreFit(n: int, floor: nat, now: nat, later: nat, end: nat)
    requires Fits(n, floor, later, end) && now <= later
    ensures Fits(n, floor, now, end)
  {
  }

  /** In an outage that starts with `remaining` time left there are fewer than `remaining / floor` renewals. */
  lemma {:induction false} OutageIsBounded(c: Setting, k: Keeper, rounds: seq<Round>)
    requires TimelyRun(c, k, rounds) && Outage(rounds)
    ensures Fits(|Run(c, k, rounds).sends| - |k.sends|, c.floor, k.now, k.held.expires)
    decreases |rounds|
  {
    if rounds != [] && k.status.Keeping? {
      OutageStep(c, k, rounds[0]);
      assert forall i | 0 <= i < |rounds| - 1 :: rounds[1..][i] == rounds[i + 1];
      var k', end := Next(c, k, rounds[0]), k.held.expires;
      var n := |Run(c, k', rounds[1..]).sends| - |k'.sends|;
      TimelyNow(c, k, rounds[0]);
      hide Next, Timely, Fits;
      OutageIsBounded(c, k', rounds[1..]);
      if |k'.sends| > |k.sends| {
        OneMoreFits(n, c.floor, k.now, k'.now, end);
      } else {
        NoMoreFit(n, c.floor, k.now, k'.now, end);
      }
    } else {
      if rounds != [] { Idle(c, k, rounds); }
    }
  }

  /** An outage ends the hold: once the turns outlast the time left, the lease has expired. */
  lemma {:induction false} OutageEndsTheHold(c: Setting, k: Keeper, rounds: seq<Round>)
    requires k.status.Keeping? && TimelyRun(c, k, rounds) && Outage(rounds)
    ensures var k' := Run(c, k, rounds);
      && (k'.status.Keeping? || k'.status.Expired?)
      && (k'.status.Keeping? && rounds != [] ==>
        k.now < k.held.expires && Fits(|rounds| - 1, c.floor, k.now, k.held.expires))
    decreases |rounds|
  {
    if rounds != [] {
      var k' := Next(c, k, rounds[0]);
      OutageStep(c, k, rounds[0]);
      assert forall i | 0 <= i < |rounds| - 1 :: rounds[1..][i] == rounds[i + 1];
      TimelyNow(c, k, rounds[0]);
      assert Fits(0, c.floor, k.now, k.held.expires);
      hide Next, Timely, Fits;
      if k'.status.Keeping? {
        OutageEndsTheHold(c, k', rounds[1..]);
        if |rounds| > 1 && Run(c, k, rounds).status.Keeping? {
          OneMoreFits(|rounds| - 2, c.floor, k.now, k'.now, k.held.expires);
        }
      } else {
        Idle(c, k', rounds[1..]);
      }
    }
  }

  /** A keeper whose timers are punctual asks in every turn, exactly until no more than the shortest wait is left. */
  lemma PunctualKeeperAsks(c: Setting, k: Keeper, r: Round)
    requires k.status.Keeping? && Timely(c, k, r) && !r.stopped && r.start < k.held.expires
    requires r.checked == r.wake == r.start + Wait(k.held.expires - r.start, c.floor)
    ensures |Next(c, k, r).sends| > |k.sends| <==> k.held.expires - r.start > c.floor
  {
  }

  /** A punctual turn asks once a third of the time left is over, rounded down, unless that is less than the shortest
      wait. */
  lemma PunctualKeeperWaits(c: Setting, k: Keeper, r: Round)
    requires k.status.Keeping? && Timely(c, k, r) && r.start < k.held.expires
    requires r.wake == r.start + Wait(k.held.expires - r.start, c.floor)
    ensures var left, waited := k.held.expires - r.start, r.wake - r.start;
      if 3 * c.floor <= left - 2 then 3 * waited <= left <= 3 * waited + 2
      else waited >= c.floor || waited == left
  {
  }

  /** The renewals of a keeper are at least a second or a tenth of the first lease apart, whichever is shorter. */
  lemma SecondOrTenthApart(id: string, held: Lease, stopAt: Option<nat>, now: nat, rounds: seq<Round>, gap: nat)
    requires gap <= 1_000_000_000 && 10 * gap <= held.length
    requires TimelyRun(Setting(id, Floor(held.length), stopAt), Keeper(held, now, Keeping, 0, [], []), rounds)
    ensures var k := Run(Setting(id, Floor(held.length), stopAt), Keeper(held, now, Keeping, 0, [], []), rounds);
      Spaced(k.sends, now, gap, k.now)
  {
    var c, k := Setting(id, Floor(held.length), stopAt), Keeper(held, now, Keeping, 0, [], []);
    RenewalsAreSpaced(c, k, rounds, now);
    assert c.floor >= gap;
  }

  // ---------- The keeper ----------

  /** Takes the lease of a reservation and renews its hold turn by turn; `rounds` is what clock, timer and Metering
      answer.
      A reservation without a lease is not renewed. */
  method KeepReservation(id: string, reservations: map<string, Lease>, stopAt: Option<nat>, now: nat,
        rounds: seq<Round>)
      returns (left: map<string, Lease>, held: Option<Lease>, lost: nat, sends: seq<nat>)
    ensures left == reservations - {id}
    ensures id !in reservations ==> held == None && lost == 0 && sends == []
    ensures id in reservations ==>
      var c := Setting(id, Floor(reservations[id].length), stopAt);
      var k := Run(c, Keeper(reservations[id], now, Keeping, 0, [], []), rounds);
      held == Some(k.held) && lost == k.losses && sends == k.sends
  {
    left := reservations - {id};
    if id !in reservations {
      return left, None, 0, [];
    }
    var last: Lease;
    last, lost, sends := Renew(id, reservations[id], stopAt, now, rounds);
    held := Some(last);
  }

  /** The renewing loop. */
  method Renew(id: string, held0: Lease, stopAt: Option<nat>, now: nat, rounds: seq<Round>)
      returns (held: Lease, lost: nat, sends: seq<nat>)
    ensures var c := Setting(id, Floor(held0.length), stopAt);
      var k := Run(c, Keeper(held0, now, Keeping, 0, [], []), rounds);
      held == k.held && lost == k.losses && sends == k.sends
  {
    held, lost, sends := held0, 0, [];
    var floor := Min(SECOND, held.length / 10);
    ghost var c := Setting(id, floor, stopAt);
    ghost var first := Keeper(held0, now, Keeping, 0, [], []);
    ghost var k := first;
    assert rounds[0..] == rounds;
    for i := 0 to |rounds|
      invariant k.status.Keeping? && k.held == held && k.losses == lost && k.sends == sends
      invariant Run(c, k, rounds[i..]) == Run(c, first, rounds)
    {
      var r := rounds[i];
      assert rounds[i..][0] == r && rounds[i..][1..] == rounds[i + 1..];
      k := Next(c, k, r);
      if !k.status.Keeping? { Idle(c, k, rounds[i + 1..]); }
      if held.expires <= r.start {
        if stopAt.None? || r.start < stopAt.value { lost := lost + 1; }
        return;
      }
      if r.stopped { return; }
      if held.expires <= r.checked { continue; }
      sends := sends + [r.sent];
      match r.answer
      case Renewed(answered, ms) =>
        if answered == id && ms > 0 {
          var renewed := NewLease(r.sent, ms);
          if renewed.expires > held.expires { held := renewed; }
        }
      case Transient =>
      case Rejected =>
        if stopAt.None? || r.back < stopAt.value { lost := lost + 1; }
        return;
    }
    assert rounds[|rounds|..] == [];
  }
}
