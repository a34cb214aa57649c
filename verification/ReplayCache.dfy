/** The bounded replay cache of the confidential endpoint
    (apps/gateway/internal/adapters/http/handlers/confidential_chat_completions_handler.go).
    Times are points on one clock. */
module ReplayCache {

  datatype Key = Key(account: string, request: string)

  datatype Entry = Entry(key: Key, expiresAt: int)

  datatype Outcome = Accepted | Duplicate | CapacityReached | AccountCapacityReached

  /** A stored envelope: its key and when it was accepted. */
  datatype Acceptance = Acceptance(key: Key, at: int)

  // ---------- The plain specification: scan everything ever accepted ----------

  function Live(history: seq<Acceptance>, now: int, ttl: int): seq<Acceptance> {
    if history == [] then []
    else (if now < history[0].at + ttl then [history[0]] else []) + Live(history[1..], now, ttl)
  }

  function CountAccount(s: seq<Acceptance>, account: string): nat {
    if s == [] then 0 else (if s[0].key.account == account then 1 else 0) + CountAccount(s[1..], account)
  }

  predicate Contains(s: seq<Acceptance>, key: Key) { exists i | 0 <= i < |s| :: s[i].key == key }

  function Decide(history: seq<Acceptance>, now: int, ttl: int, capacity: nat, accountCapacity: nat,
        key: Key): Outcome
  {
    var live := Live(history, now, ttl);
    if Contains(live, key) then Duplicate
    else if CountAccount(live, key.account) >= accountCapacity then AccountCapacityReached
    else if |live| >= capacity then CapacityReached
    else Accepted
  }

  /** The history after asking for `key` at `now`. */
  function After(history: seq<Acceptance>, now: int, ttl: int, capacity: nat, accountCapacity: nat,
        key: Key): seq<Acceptance>
  {
    if Decide(history, now, ttl, capacity, accountCapacity, key).Accepted? then history + [Acceptance(key, now)]
      else history
  }

  predicate InOrder(history: seq<Acceptance>, last: int) {
    && (forall i, j | 0 <= i < j < |history| :: history[i].at <= history[j].at)
    && (forall i | 0 <= i < |history| :: history[i].at <= last)
  }

  predicate DistinctKeys(s: seq<Acceptance>) {
    forall i, j | 0 <= i < j < |s| :: s[i].key != s[j].key
  }

  /** On an ordered history the live acceptances are a suffix. */
  lemma {:induction false} LiveIsSuffix(history: seq<Acceptance>, now: int, ttl: int, h: nat)
    requires h <= |history|
    requires forall i | 0 <= i < h :: history[i].at + ttl <= now
    requires forall i | h <= i < |history| :: now < history[i].at + ttl
    ensures Live(history, now, ttl) == history[h..]
  {
    if history != [] {
      if h > 0 {
        LiveIsSuffix(history[1..], now, ttl, h - 1);
        assert history[1..][h - 1..] == history[h..];
      } else {
        LiveIsSuffix(history[1..], now, ttl, 0);
      }
    }
  }

  lemma {:induction false} LiveOf(history: seq<Acceptance>, now: int, ttl: int, a: Acceptance)
    ensures a in Live(history, now, ttl) <==> a in history && now < a.at + ttl
  {
    if history != [] { LiveOf(history[1..], now, ttl, a); }
  }

  function LiveAt(history: seq<Acceptance>, now: int, ttl: int): set<nat> {
    set i: nat | i < |history| && now < history[i].at + ttl
  }

  function OwnAt(history: seq<Acceptance>, now: int, ttl: int, account: string): set<nat> {
    set i: nat | i < |history| && now < history[i].at + ttl && history[i].key.account == account
  }

  lemma {:induction false} LiveCounts(history: seq<Acceptance>, now: int, ttl: int, account: string)
    ensures |Live(history, now, ttl)| == |LiveAt(history, now, ttl)|
    ensures CountAccount(Live(history, now, ttl), account) == |OwnAt(history, now, ttl, account)|
  {
    if history != [] {
      var n := |history| - 1;
      var front, last := history[..n], history[n];
      assert history == front + [last];
      LiveCounts(front, now, ttl, account);
      LiveSnoc(front, last, now, ttl);
      CountSnoc(Live(front, now, ttl), last, account);
      PlaceSnoc(history, now, ttl, account);
      assert Live(front, now, ttl) + [] == Live(front, now, ttl);
      hide Live, CountAccount, LiveAt, OwnAt;
    }
  }

  lemma PlaceSnoc(history: seq<Acceptance>, now: int, ttl: int, account: string)
    requires history != []
    ensures var n := |history| - 1;
      var last, live := history[n], now < history[n].at + ttl;
      && |LiveAt(history, now, ttl)| == |LiveAt(history[..n], now, ttl)| + (if live then 1 else 0)
      && |OwnAt(history, now, ttl, account)|
         == |OwnAt(history[..n], now, ttl, account)| + if live && last.key.account == account then 1 else 0
  {
    var n := |history| - 1;
    var last, live := history[n], now < history[n].at + ttl;
    var front := history[..n];
    assert forall i | 0 <= i < n :: front[i] == history[i];
    var a, b := LiveAt(front, now, ttl), OwnAt(front, now, ttl, account);
    assert n !in a && n !in b;
    assert LiveAt(history, now, ttl) == if live then a + {n} else a;
    assert OwnAt(history, now, ttl, account) == if live && last.key.account == account then b + {n} else b;
  }

  lemma {:induction false} LiveSnoc(history: seq<Acceptance>, a: Acceptance, now: int, ttl: int)
    ensures Live(history + [a], now, ttl) == Live(history, now, ttl) + if now < a.at + ttl then [a] else []
  {
    if history == [] {
      assert [] + [a] == [a] && [a][1..] == [];
    } else {
      assert (history + [a])[1..] == history[1..] + [a];
      LiveSnoc(history[1..], a, now, ttl);
    }
  }

  /** The answer counts acceptances that have not expired: one with the key makes a duplicate, as many as the account
      may have or as many as there may be at all refuse it, and otherwise it is accepted. */
  lemma DecideCounts(history: seq<Acceptance>, now: int, ttl: int, capacity: nat, accountCapacity: nat, key: Key)
    ensures Decide(history, now, ttl, capacity, accountCapacity, key)
         == if exists i | 0 <= i < |history| :: history[i].key == key && now < history[i].at + ttl then Duplicate
            else if |OwnAt(history, now, ttl, key.account)| >= accountCapacity then AccountCapacityReached
            else if |LiveAt(history, now, ttl)| >= capacity then CapacityReached else Accepted
  {
    LiveCounts(history, now, ttl, key.account);
    var live := Live(history, now, ttl);
    if i :| 0 <= i < |history| && history[i].key == key && now < history[i].at + ttl {
      LiveOf(history, now, ttl, history[i]);
      var j :| 0 <= j < |live| && live[j] == history[i];
    }
    if Contains(live, key) {
      var j :| 0 <= j < |live| && live[j].key == key;
      LiveOf(history, now, ttl, live[j]);
    }
  }

  lemma {:induction false} CountSnoc(s: seq<Acceptance>, a: Acceptance, account: string)
    ensures CountAccount(s + [a], account) == CountAccount(s, account) + if a.key.account == account then 1 else 0
  {
    if s == [] {
      assert [] + [a] == [a];
    } else {
      assert (s + [a])[1..] == s[1..] + [a];
      CountSnoc(s[1..], a, account);
    }
  }

  // ---------- The three structures that stand for the live suffix ----------

  function Queue(s: seq<Acceptance>, ttl: int): (q: seq<Entry>)
    ensures |q| == |s|
    ensures forall i | 0 <= i < |s| :: q[i] == Entry(s[i].key, s[i].at + ttl)
  {
    if s == [] then [] else [Entry(s[0].key, s[0].at + ttl)] + Queue(s[1..], ttl)
  }

  ghost predicate KeysAgree(entries: set<Key>, s: seq<Acceptance>) {
    && DistinctKeys(s) && |entries| == |s|
    && forall k :: k in entries <==> Contains(s, k)
  }

  /** Every account's count, without zero entries. */
  ghost predicate CountsAgree(accounts: map<string, nat>, s: seq<Acceptance>) {
    forall a :: CountAccount(s, a) == (if a in accounts then accounts[a] else 0) && (a in accounts ==> accounts[a] > 0)
  }

  lemma DropKey(entries: set<Key>, s: seq<Acceptance>)
    requires s != [] && KeysAgree(entries, s)
    ensures KeysAgree(entries - {s[0].key}, s[1..])
  {
    var k0 := s[0].key;
    assert Contains(s, k0);
    forall k ensures k in entries - {k0} <==> Contains(s[1..], k) {
      if k != k0 && Contains(s, k) {
        var i :| 0 <= i < |s| && s[i].key == k;
        assert s[1..][i - 1].key == k;
      }
      if Contains(s[1..], k) {
        var i :| 0 <= i < |s[1..]| && s[1..][i].key == k;
        assert s[i + 1].key == k;
      }
    }
  }

  lemma AddKey(entries: set<Key>, s: seq<Acceptance>, a: Acceptance)
    requires KeysAgree(entries, s) && a.key !in entries
    ensures KeysAgree(entries + {a.key}, s + [a])
  {
    assert !Contains(s, a.key);
    forall k ensures k in entries + {a.key} <==> Contains(s + [a], k) {
      if Contains(s, k) {
        var i :| 0 <= i < |s| && s[i].key == k;
        assert (s + [a])[i].key == k;
      }
      if k == a.key { assert (s + [a])[|s|].key == k; }
      if Contains(s + [a], k) {
        var i :| 0 <= i < |s + [a]| && (s + [a])[i].key == k;
        if i < |s| { assert s[i].key == k; }
      }
    }
  }

  lemma DropCount(accounts: map<string, nat>, s: seq<Acceptance>)
    requires s != [] && CountsAgree(accounts, s)
    ensures s[0].key.account in accounts
    ensures var a := s[0].key.account;
      accounts[a] > 0 && CountsAgree(CountDown(accounts, a), s[1..])
  {
    assert CountAccount(s, s[0].key.account) > 0;
    forall a ensures CountAccount(s, a) == (if s[0].key.account == a then 1 else 0) + CountAccount(s[1..], a) {
    }
  }

  lemma AddCount(accounts: map<string, nat>, s: seq<Acceptance>, x: Acceptance)
    requires CountsAgree(accounts, s)
    ensures var a := x.key.account;
      CountsAgree(CountUp(accounts, a), s + [x])
  {
    forall a { CountSnoc(s, x, a); }
  }

  predicate Expired(history: seq<Acceptance>, evicted: nat, last: int, ttl: int) {
    forall i | 0 <= i < evicted && i < |history| :: history[i].at + ttl <= last
  }

  /** What the cache holds, next to everything it ever accepted. */
  datatype State = State(
    history: seq<Acceptance>, last: int, evicted: nat,
    entries: set<Key>, accounts: map<string, nat>, expirations: seq<Entry>)

  /** Acceptances are in time order, and only expired ones were evicted. */
  ghost predicate HistoryOk(history: seq<Acceptance>, last: int, evicted: nat, ttl: int) {
    evicted <= |history| && InOrder(history, last) && Expired(history, evicted, last, ttl)
  }

  /** The three structures stand for the acceptances `live`. */
  ghost predicate StandFor(live: seq<Acceptance>, ttl: int, entries: set<Key>, accounts: map<string, nat>,
        expirations: seq<Entry>)
  {
    expirations == Queue(live, ttl) && KeysAgree(entries, live) && CountsAgree(accounts, live)
  }

  ghost predicate WithinLimits(entries: set<Key>, accounts: map<string, nat>, capacity: nat, accountCapacity: nat) {
    |entries| <= capacity && forall a | a in accounts :: accounts[a] <= accountCapacity
  }

  ghost predicate Consistent(s: State, ttl: int, capacity: nat, accountCapacity: nat) {
    && HistoryOk(s.history, s.last, s.evicted, ttl)
    && StandFor(s.history[s.evicted..], ttl, s.entries, s.accounts, s.expirations)
    && WithinLimits(s.entries, s.accounts, capacity, accountCapacity)
  }

  lemma TickKeeps(s: State, ttl: int, capacity: nat, accountCapacity: nat, now: int)
    requires Consistent(s, ttl, capacity, accountCapacity) && s.last <= now
    ensures Consistent(s.(last := now), ttl, capacity, accountCapacity)
  {
  }

  function CountDown(accounts: map<string, nat>, account: string): map<string, nat>
    requires account in accounts && accounts[account] > 0
  {
    if accounts[account] == 1 then accounts - {account} else accounts[account := accounts[account] - 1]
  }

  function CountUp(accounts: map<string, nat>, account: string): map<string, nat> {
    accounts[account := (if account in accounts then accounts[account] else 0) + 1]
  }

  lemma EvictKeeps(s: State, ttl: int, capacity: nat, accountCapacity: nat)
    requires Consistent(s, ttl, capacity, accountCapacity)
    requires s.expirations != [] && s.expirations[0].expiresAt <= s.last
    ensures var key := s.expirations[0].key;
      && key.account in s.accounts && s.accounts[key.account] > 0
      && Consistent(s.(evicted := s.evicted + 1, entries := s.entries - {key},
                       accounts := CountDown(s.accounts, key.account), expirations := s.expirations[1..]),
                    ttl, capacity, accountCapacity)
  {
    var live := s.history[s.evicted..];
    assert live[1..] == s.history[s.evicted + 1..];
    DropKey(s.entries, live);
    DropCount(s.accounts, live);
  }

  /** Once the first entry is live, the entries are exactly the live acceptances. */
  lemma NothingExpired(s: State, ttl: int, capacity: nat, accountCapacity: nat)
    requires Consistent(s, ttl, capacity, accountCapacity)
    requires s.expirations == [] || s.last < s.expirations[0].expiresAt
    ensures s.evicted <= |s.history| && s.history[s.evicted..] == Live(s.history, s.last, ttl)
  {
    LiveIsSuffix(s.history, s.last, ttl, s.evicted);
  }

  /** The three tests on the structures decide like the scan of the history. */
  lemma TestsDecide(s: State, ttl: int, capacity: nat, accountCapacity: nat, key: Key)
    requires Consistent(s, ttl, capacity, accountCapacity) && s.history[s.evicted..] == Live(s.history, s.last, ttl)
    ensures Decide(s.history, s.last, ttl, capacity, accountCapacity, key)
         == if key in s.entries then Duplicate
            else if (if key.account in s.accounts then s.accounts[key.account] else 0) >= accountCapacity
              then AccountCapacityReached
            else if |s.entries| >= capacity then CapacityReached
            else Accepted
  {
    assert CountAccount(s.history[s.evicted..], key.account) == if key.account in s.accounts
      then s.accounts[key.account] else 0;
  }

  lemma StoreKeeps(s: State, ttl: int, capacity: nat, accountCapacity: nat, key: Key)
    requires Consistent(s, ttl, capacity, accountCapacity) && key !in s.entries && |s.entries| < capacity
    requires (if key.account in s.accounts then s.accounts[key.account] else 0) < accountCapacity
    ensures Consistent(s.(history := s.history + [Acceptance(key, s.last)], entries := s.entries + {key},
                          accounts := CountUp(s.accounts, key.account),
                          expirations := s.expirations + [Entry(key, s.last + ttl)]),
                       ttl, capacity, accountCapacity)
  {
    hide HistoryOk, StandFor, WithinLimits, CountUp;
    var a := Acceptance(key, s.last);
    AddToHistory(s.history, s.last, s.evicted, ttl, a);
    AddToStructures(s.history[s.evicted..], ttl, s.entries, s.accounts, s.expirations, a);
    AddWithinLimits(s.entries, s.accounts, capacity, accountCapacity, key);
  }

  lemma AddToHistory(history: seq<Acceptance>, last: int, evicted: nat, ttl: int, a: Acceptance)
    requires HistoryOk(history, last, evicted, ttl) && a.at == last
    ensures HistoryOk(history + [a], last, evicted, ttl) && evicted <= |history|
    ensures (history + [a])[evicted..] == history[evicted..] + [a]
  {
  }

  lemma AddToStructures(live: seq<Acceptance>, ttl: int, entries: set<Key>, accounts: map<string, nat>,
        expirations: seq<Entry>, a: Acceptance)
    requires StandFor(live, ttl, entries, accounts, expirations) && a.key !in entries
    ensures StandFor(live + [a], ttl, entries + {a.key}, CountUp(accounts, a.key.account),
      expirations + [Entry(a.key, a.at + ttl)])
  {
    hide KeysAgree, CountsAgree, CountUp, Queue;
    AddKey(entries, live, a);
    AddCount(accounts, live, a);
    AddEntry(live, ttl, a);
  }

  lemma AddWithinLimits(entries: set<Key>, accounts: map<string, nat>, capacity: nat, accountCapacity: nat, key: Key)
    requires WithinLimits(entries, accounts, capacity, accountCapacity) && key !in entries && |entries| < capacity
    requires (if key.account in accounts then accounts[key.account] else 0) < accountCapacity
    ensures WithinLimits(entries + {key}, CountUp(accounts, key.account), capacity, accountCapacity)
  {
  }

  lemma {:induction false} AddEntry(live: seq<Acceptance>, ttl: int, a: Acceptance)
    ensures Queue(live + [a], ttl) == Queue(live, ttl) + [Entry(a.key, a.at + ttl)]
  {
  }

  class ConfidentialReplayCache {
    const ttl: int
    const capacity: nat
    const accountCapacity: nat
    var entries: set<Key>
    var accounts: map<string, nat>
    var expirations: seq<Entry>

    /** Everything accepted so far, the last clock sample, and how many acceptances were evicted. */
    ghost var history: seq<Acceptance>
    ghost var last: int
    ghost var evicted: nat

    ghost function View(): State
      reads this
    {
      State(history, last, evicted, entries, accounts, expirations)
    }

    ghost predicate Valid()
      reads this
    {
      Consistent(View(), ttl, capacity, accountCapacity)
    }

    constructor (ttl: int, capacity: nat, ghost now: int)
      ensures Valid() && history == [] && last == now
      ensures this.ttl == ttl && this.capacity == capacity
        && accountCapacity == if capacity < 10_000 then capacity else 10_000
    {
      this.ttl := ttl;
      this.capacity := capacity;
      this.accountCapacity := if capacity < 10_000 then capacity else 10_000;
      entries, accounts, expirations := {}, map[], [];
      history, last, evicted := [], now, 0;
    }

    /** Removes what has expired at `now`, and nothing else. */
    method Evict(now: int)
      requires Valid() && last <= now
      modifies this`entries, this`accounts, this`expirations, this`last, this`evicted
      ensures Valid() && last == now && evicted <= |history|
      ensures history[evicted..] == Live(history, now, ttl)
    {
      hide Consistent;
      TickKeeps(View(), ttl, capacity, accountCapacity, now);
      last := now;
      while |expirations| > 0
        invariant Valid() && last == now
        decreases |expirations|
      {
        var entry := expirations[0];
        if now < entry.expiresAt {
          break;
        }
        EvictKeeps(View(), ttl, capacity, accountCapacity);
        var account := entry.key.account;
        entries := entries - {entry.key};
        accounts := CountDown(accounts, account);
        expirations := expirations[1..];
        evicted := evicted + 1;
      }
      NothingExpired(View(), ttl, capacity, accountCapacity);
    }

    /** Records a key that passed the tests. */
    method Store(key: Key, now: int)
      requires Valid() && now == last && key !in entries && |entries| < capacity
      requires (if key.account in accounts then accounts[key.account] else 0) < accountCapacity
      modifies this`entries, this`accounts, this`expirations, this`history
      ensures Valid() && history == old(history) + [Acceptance(key, now)]
    {
      hide Consistent, CountUp;
      StoreKeeps(View(), ttl, capacity, accountCapacity, key);
      entries := entries + {key};
      accounts := CountUp(accounts, key.account);
      expirations := expirations + [Entry(key, now + ttl)];
      history := history + [Acceptance(key, now)];
    }

    /** `now` is the clock sample taken under the lock. The answer is the one a scan of the whole history gives. */
    method CheckAndStore(account: string, request: string, now: int) returns (r: Outcome)
      requires Valid() && last <= now
      modifies this
      ensures Valid() && last == now
      ensures r == Decide(old(history), now, ttl, capacity, accountCapacity, Key(account, request))
      ensures history == After(old(history), now, ttl, capacity, accountCapacity, Key(account, request))
    {
      Evict(now);
      var key := Key(account, request);
      TestsDecide(View(), ttl, capacity, accountCapacity, key);
      hide Consistent, Decide, Live;
      if key in entries {
        return Duplicate;
      }
      if (if account in accounts then accounts[account] else 0) >= accountCapacity {
        return AccountCapacityReached;
      }
      if |entries| >= capacity {
        return CapacityReached;
      }
      Store(key, now);
      return Accepted;
    }
  }
}
