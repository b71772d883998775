/** Keyed strike and cooldown state against repeated failed logins. */
module LoginLockout {
  import opened Wrappers
  import opened Text

  const SWEEP_THRESHOLD: nat := 10_000

  /** `lockedUntil == None` is the zero time. */
  datatype Entry = Entry(failures: nat, lockedUntil: Option<int>)

  type Entries = map<string, Entry>

  predicate Locked(e: Entry, now: int) {
    e.lockedUntil.Some? && now < e.lockedUntil.value
  }

  predicate Allowed(entries: Entries, key: string, now: int) {
    key in entries ==> !Locked(entries[key], now)
  }

  /** Housekeeping: keeps the keys that are locked right now. */
  function Swept(entries: Entries, now: int): (r: Entries)
    ensures forall k :: k in r <==> k in entries && Locked(entries[k], now)
    ensures forall k :: k in r ==> r[k] == entries[k]
  {
    map k | k in entries && Locked(entries[k], now) :: entries[k]
  }

  function Struck(e: Entry, now: int, maxFailures: nat, lockoutFor: int): Entry {
    if e.failures + 1 >= maxFailures then Entry(e.failures + 1, Some(now + lockoutFor))
    else Entry(e.failures + 1, e.lockedUntil)
  }

  /** What a failure finds: the sweep, a first strike, or a lockout that has run out. */
  function Found(entries: Entries, key: string, now: int): Entry {
    if key !in entries then Entry(0, None)
    else if entries[key].lockedUntil.Some? && !Locked(entries[key], now) then Entry(0, None)
    else entries[key]
  }

  function Tidied(entries: Entries, now: int): Entries {
    if |entries| >= SWEEP_THRESHOLD then Swept(entries, now) else entries
  }

  function Failed(entries: Entries, key: string, now: int, maxFailures: nat, lockoutFor: int): Entries {
    var tidy := Tidied(entries, now);
    tidy[key := Struck(Found(tidy, key, now), now, maxFailures, lockoutFor)]
  }

  class Lockout {
    const maxFailures: nat
    const lockoutFor: int
    var entries: Entries

    constructor (maxFailures: nat, lockoutFor: int)
      ensures this.maxFailures == maxFailures && this.lockoutFor == lockoutFor && entries == map[]
    {
      this.maxFailures := maxFailures;
      this.lockoutFor := lockoutFor;
      entries := map[];
    }

    method CheckAllowed(key: string, now: int) returns (ok: bool, retryAfter: int)
      ensures ok == Allowed(entries, key, now)
      ensures ok ==> retryAfter == 0
      ensures !ok ==> retryAfter > 0 && entries[key].lockedUntil == Some(now + retryAfter)
    {
      if key !in entries {
        return true, 0;
      }
      var until := entries[key].lockedUntil;
      if until.Some? && until.value - now > 0 {
        return false, until.value - now;
      }
      return true, 0;
    }

    method RecordFailure(key: string, now: int)
      modifies this`entries
      ensures entries == Failed(old(entries), key, now, maxFailures, lockoutFor)
    {
      if |entries| >= SWEEP_THRESHOLD {
        var keys := entries.Keys;
        while keys != {}
          invariant keys <= old(entries).Keys
          invariant forall k :: k in entries <==> k in old(entries) && (k in keys || Locked(old(entries)[k], now))
          invariant forall k :: k in entries ==> entries[k] == old(entries)[k]
          decreases |keys|
        {
          var k :| k in keys;
          keys := keys - {k};
          if entries[k].lockedUntil == None || now >= entries[k].lockedUntil.value {
            entries := entries - {k};
          }
        }
        assert entries == Swept(old(entries), now);
      }
      assert entries == Tidied(old(entries), now);
      var e := Entry(0, None);
      if key in entries {
        e := entries[key];
        if e.lockedUntil.Some? && now >= e.lockedUntil.value {
          e := Entry(0, None);
        }
      }
      e := e.(failures := e.failures + 1);
      if e.failures >= maxFailures {
        e := e.(lockedUntil := Some(now + lockoutFor));
      }
      entries := entries[key := e];
    }

    method RecordSuccess(key: string)
      modifies this`entries
      ensures entries == old(entries) - {key}
    {
      entries := entries - {key};
    }
  }

  // ---------- Runs ----------

  datatype Event = Fail(key: string, at: int) | Succeed(key: string, at: int)

  function After(entries: Entries, e: Event, maxFailures: nat, lockoutFor: int): Entries {
    match e
    case Fail(key, at) => Failed(entries, key, at, maxFailures, lockoutFor)
    case Succeed(key, _) => entries - {key}
  }

  ghost predicate ClockRuns(events: seq<Event>) {
    forall i, j :: 0 <= i < j < |events| ==> events[i].at <= events[j].at
  }

  /** A failure of `key` is recorded only after it was allowed to try; `key` does not succeed; and no
      sweep drops strikes of `key` that are not a lockout yet. */
  ghost predicate Guarded(entries: Entries, key: string, e: Event) {
    if e.key == key then e.Fail? && Allowed(entries, key, e.at) && SparesStrikes(entries, key)
    else e.Fail? ==> SparesStrikes(entries, key)
  }

  ghost predicate SparesStrikes(entries: Entries, key: string) {
    |entries| >= SWEEP_THRESHOLD && key in entries ==> entries[key].lockedUntil.Some?
  }

  ghost predicate GuardedRun(entries: Entries, key: string, events: seq<Event>, maxFailures: nat, lockoutFor: int)
    decreases |events|
  {
    events == [] || (Guarded(entries, key, events[0])
                     && GuardedRun(After(entries, events[0], maxFailures, lockoutFor), key, events[1..], maxFailures, lockoutFor))
  }

  /** The times at which `key` failed. */
  function Failures(events: seq<Event>, key: string): seq<int>
    decreases |events|
  {
    if events == [] then []
    else (if events[0].Fail? && events[0].key == key then [events[0].at] else []) + Failures(events[1..], key)
  }

  lemma {:induction false} FailuresLate(events: seq<Event>, key: string, from: int)
    requires forall i :: 0 <= i < |events| ==> from <= events[i].at
    ensures forall i :: 0 <= i < |Failures(events, key)| ==> from <= Failures(events, key)[i]
    decreases |events|
  {
    if events != [] {
      FailuresLate(events[1..], key, from);
    }
  }

  lemma {:induction false} LaterEvents(events: seq<Event>)
    requires ClockRuns(events) && events != []
    ensures ClockRuns(events[1..]) && forall i :: 0 <= i < |events[1..]| ==> events[0].at <= events[1..][i].at
  {
  }

  /** The strikes of `key` so far, if it is not locked out. */
  ghost predicate Counting(entries: Entries, key: string, count: nat) {
    if key in entries then entries[key].failures == count && entries[key].lockedUntil == None else count == 0
  }

  /** A lockout of `key` that lasts until `until` is in force or has been cleared away after it ran out. */
  ghost predicate LockedOut(entries: Entries, key: string, until: int) {
    key in entries && entries[key].lockedUntil.Some? && entries[key].lockedUntil.value >= until
  }

  /** Once locked out, no failure of `key` is recorded before the lockout ends. */
  lemma {:induction false} LockHolds(entries: Entries, key: string, events: seq<Event>, maxFailures: nat,
                                     lockoutFor: int, until: int)
    requires GuardedRun(entries, key, events, maxFailures, lockoutFor) && ClockRuns(events)
    requires LockedOut(entries, key, until)
    ensures forall i :: 0 <= i < |Failures(events, key)| ==> until <= Failures(events, key)[i]
    decreases |events|
  {
    hide ClockRuns;
    if events != [] {
      var e := events[0];
      LaterEvents(events);
      if e.key == key || e.at >= until {
        FailuresLate(events[1..], key, e.at);
      } else {
        LockHolds(After(entries, e, maxFailures, lockoutFor), key, events[1..], maxFailures, lockoutFor, until);
      }
    }
  }

  /** One more strike, or an event that leaves the strikes of `key` alone. */
  lemma {:induction false} CountingStep(entries: Entries, key: string, e: Event, maxFailures: nat, lockoutFor: nat,
                                        count: nat)
    requires Guarded(entries, key, e) && Counting(entries, key, count) && count < maxFailures
    ensures var next := After(entries, e, maxFailures, lockoutFor);
            if e.key != key then Counting(next, key, count)
            else if count + 1 == maxFailures then LockedOut(next, key, e.at + lockoutFor)
            else Counting(next, key, count + 1)
  {
    hide Swept;
  }

  /** With `count` strikes on record, the failure after those that complete the lockout waits for the
      whole lockout time. */
  lemma {:induction false} StrikesSpan(entries: Entries, key: string, events: seq<Event>, maxFailures: nat,
                                       lockoutFor: nat, count: nat, from: int)
    requires GuardedRun(entries, key, events, maxFailures, lockoutFor) && ClockRuns(events)
    requires forall i :: 0 <= i < |events| ==> from <= events[i].at
    requires Counting(entries, key, count) && count < maxFailures
    requires |Failures(events, key)| >= maxFailures - count + 1
    ensures Failures(events, key)[maxFailures - count] >= from + lockoutFor
    decreases |events|
  {
    var e := events[0];
    LaterEvents(events);
    CountingStep(entries, key, e, maxFailures, lockoutFor, count);
    hide ClockRuns, After, Counting, LockedOut;
    var next := After(entries, e, maxFailures, lockoutFor);
    var rest := Failures(events[1..], key);
    if e.key == key {
      assert Failures(events, key) == [e.at] + rest;
      if count + 1 == maxFailures {
        LockHolds(next, key, events[1..], maxFailures, lockoutFor, e.at + lockoutFor);
      } else {
        StrikesSpan(next, key, events[1..], maxFailures, lockoutFor, count + 1, from);
      }
    } else {
      assert Failures(events, key) == rest;
      StrikesSpan(next, key, events[1..], maxFailures, lockoutFor, count, from);
    }
  }

  /** An entry without a lockout has fewer strikes than a lockout takes. */
  ghost predicate Valid(entries: Entries, maxFailures: nat) {
    forall k :: k in entries && entries[k].lockedUntil == None ==> entries[k].failures < maxFailures
  }

  lemma {:induction false} StepKeepsValid(entries: Entries, e: Event, maxFailures: nat, lockoutFor: int)
    requires Valid(entries, maxFailures)
    ensures Valid(After(entries, e, maxFailures, lockoutFor), maxFailures)
  {
  }

  /** A sweep never frees a key that is locked at that moment. */
  lemma {:induction false} SweepSparesLocked(entries: Entries, e: Event, key: string, maxFailures: nat, lockoutFor: int)
    requires key in entries && Locked(entries[key], e.at) && e.key != key
    ensures var next := After(entries, e, maxFailures, lockoutFor); key in next && next[key] == entries[key]
  {
  }

  lemma {:induction false} FailuresOrdered(events: seq<Event>, key: string, i: nat, j: nat)
    requires ClockRuns(events) && i <= j < |Failures(events, key)|
    ensures Failures(events, key)[i] <= Failures(events, key)[j]
    decreases |events|
  {
    LaterEvents(events);
    hide ClockRuns;
    FailuresLate(events[1..], key, events[0].at);
    if events[0].Fail? && events[0].key == key {
      if i > 0 {
        FailuresOrdered(events[1..], key, i - 1, j - 1);
      }
    } else {
      FailuresOrdered(events[1..], key, i, j);
    }
  }

  /** A first strike after a lockout that has run out starts a new count. */
  lemma {:induction false} FreshStrike(entries: Entries, key: string, e: Event, maxFailures: nat, lockoutFor: nat)
    requires Guarded(entries, key, e) && e.key == key && key in entries && entries[key].lockedUntil.Some? && maxFailures >= 1
    ensures var next := After(entries, e, maxFailures, lockoutFor);
            if maxFailures == 1 then LockedOut(next, key, e.at + lockoutFor) else Counting(next, key, 1)
  {
  }

  /** Any `maxFailures + 1` consecutive failures of a key span at least the lockout time. */
  lemma {:induction false} LockoutSpacing(entries: Entries, key: string, events: seq<Event>, maxFailures: nat,
                                          lockoutFor: nat, i: nat)
    requires Valid(entries, maxFailures) && maxFailures >= 1
    requires GuardedRun(entries, key, events, maxFailures, lockoutFor) && ClockRuns(events)
    requires i + maxFailures < |Failures(events, key)|
    ensures Failures(events, key)[i + maxFailures] - Failures(events, key)[i] >= lockoutFor
    decreases |events|
  {
    hide After, ClockRuns, Guarded, Valid;
    var e, rest := events[0], Failures(events[1..], key);
    var next := After(entries, e, maxFailures, lockoutFor);
    LaterEvents(events);
    StepKeepsValid(entries, e, maxFailures, lockoutFor);
    if e.Fail? && e.key == key {
      assert Failures(events, key) == [e.at] + rest;
      if i == 0 {
        FirstFailureSpan(entries, key, events, maxFailures, lockoutFor);
      } else {
        LockoutSpacing(next, key, events[1..], maxFailures, lockoutFor, i - 1);
      }
    } else {
      assert Failures(events, key) == rest;
      LockoutSpacing(next, key, events[1..], maxFailures, lockoutFor, i);
    }
  }

  lemma {:induction false} FirstFailureSpan(entries: Entries, key: string, events: seq<Event>, maxFailures: nat,
                                            lockoutFor: nat)
    requires Valid(entries, maxFailures) && maxFailures >= 1
    requires GuardedRun(entries, key, events, maxFailures, lockoutFor) && ClockRuns(events)
    requires events != [] && events[0].Fail? && events[0].key == key && maxFailures < |Failures(events, key)|
    ensures Failures(events, key)[maxFailures] >= events[0].at + lockoutFor
  {
    var e, next := events[0], After(entries, events[0], maxFailures, lockoutFor);
    LaterEvents(events);
    if key in entries && entries[key].lockedUntil.Some? {
      FreshStrike(entries, key, e, maxFailures, lockoutFor);
      assert Failures(events, key)[maxFailures] == Failures(events[1..], key)[maxFailures - 1];
      hide After, ClockRuns, Counting, LockedOut, Guarded, Valid, Failures;
      if maxFailures == 1 {
        LockHolds(next, key, events[1..], maxFailures, lockoutFor, e.at + lockoutFor);
      } else {
        StrikesSpan(next, key, events[1..], maxFailures, lockoutFor, 1, e.at);
      }
    } else {
      var count := if key in entries then entries[key].failures else 0;
      FailuresOrdered(events, key, maxFailures - count, maxFailures);
      assert forall k :: 0 <= k < |events| ==> e.at <= events[k].at;
      assert Counting(entries, key, count);
      hide After, ClockRuns, Counting, GuardedRun, Valid, Failures;
      StrikesSpan(entries, key, events, maxFailures, lockoutFor, count, e.at);
    }
  }

  /** Why strikes must be spared: a sweep that drops them makes the next failure the first again. */
  lemma {:induction false} SweepForgetsStrikes(entries: Entries, key: string, at: int, maxFailures: nat, lockoutFor: nat)
    requires !SparesStrikes(entries, key) && maxFailures >= 2
    ensures Counting(After(entries, Fail(key, at), maxFailures, lockoutFor), key, 1)
  {
  }

  // ---------- A run in which a sweep forgets strikes ----------

  /** A failure of `key` is recorded only after it was allowed to try, and `key` does not succeed. */
  ghost predicate AllowedRun(entries: Entries, key: string, events: seq<Event>, maxFailures: nat, lockoutFor: int)
    decreases |events|
  {
    events == [] || ((events[0].key == key ==> events[0].Fail? && Allowed(entries, key, events[0].at))
                     && AllowedRun(After(entries, events[0], maxFailures, lockoutFor), key, events[1..], maxFailures, lockoutFor))
  }

  /** The keys of other users. */
  function OtherKey(i: nat): string {
    "k" + Decimal(i)
  }

  lemma OtherKeysDiffer(i: nat, j: nat)
    ensures OtherKey(i) == OtherKey(j) ==> i == j
    ensures OtherKey(i) != "user"
  {
    assert OtherKey(i)[0] == 'k' && "user"[0] == 'u';
    assert OtherKey(i)[1..] == Decimal(i) && OtherKey(j)[1..] == Decimal(j);
    if OtherKey(i) == OtherKey(j) {
      DecimalInjective(i, j);
    }
  }

  /** The entries after the first `n` other users failed once each. */
  function Crowd(n: nat): Entries {
    if n == 0 then map[] else Crowd(n - 1)[OtherKey(n - 1) := Entry(1, None)]
  }

  lemma {:induction false} CrowdExact(n: nat)
    ensures |Crowd(n)| == n && "user" !in Crowd(n)
    ensures forall i :: i >= n ==> OtherKey(i) !in Crowd(n)
    ensures forall k :: k in Crowd(n) ==> Crowd(n)[k] == Entry(1, None)
    decreases n
  {
    if n > 0 {
      CrowdExact(n - 1);
      hide OtherKey;
      OtherKeysDiffer(n - 1, n - 1);
      forall i | i >= n
        ensures OtherKey(i) !in Crowd(n)
      {
        OtherKeysDiffer(i, n - 1);
      }
    }
  }

  /** The other users from number `k` on fail once each, up to one less than a sweep takes. */
  function CrowdFails(k: nat, at: int): seq<Event>
    decreases SWEEP_THRESHOLD - k
  {
    if k >= SWEEP_THRESHOLD - 1 then [] else [Fail(OtherKey(k), at)] + CrowdFails(k + 1, at)
  }

  function Burst(n: nat, at: int): seq<Event> {
    if n == 0 then [] else [Fail("user", at)] + Burst(n - 1, at)
  }

  ghost predicate AllAt(events: seq<Event>, at: int) {
    forall i :: 0 <= i < |events| ==> events[i].at == at
  }

  lemma {:induction false} BurstExact(n: nat, at: int)
    ensures AllAt(Burst(n, at), at)
    ensures |Failures(Burst(n, at), "user")| == n
    ensures forall i :: 0 <= i < n ==> Failures(Burst(n, at), "user")[i] == at
    decreases n
  {
    if n > 0 {
      BurstExact(n - 1, at);
    }
  }

  lemma {:induction false} CrowdStep(n: nat, at: int, maxFailures: nat, lockoutFor: nat)
    requires n < SWEEP_THRESHOLD && maxFailures >= 2
    ensures After(Crowd(n), Fail(OtherKey(n), at), maxFailures, lockoutFor) == Crowd(n + 1)
  {
    CrowdExact(n);
  }

  lemma {:induction false} CrowdRuns(k: nat, tail: seq<Event>, at: int, maxFailures: nat, lockoutFor: nat)
    requires k < SWEEP_THRESHOLD && maxFailures >= 2 && AllAt(tail, at)
    requires AllowedRun(Crowd(SWEEP_THRESHOLD - 1), "user", tail, maxFailures, lockoutFor)
    ensures AllowedRun(Crowd(k), "user", CrowdFails(k, at) + tail, maxFailures, lockoutFor)
    ensures Failures(CrowdFails(k, at) + tail, "user") == Failures(tail, "user")
    ensures AllAt(CrowdFails(k, at) + tail, at)
    decreases SWEEP_THRESHOLD - k
  {
    hide Crowd, After, OtherKey;
    var events := CrowdFails(k, at) + tail;
    if k == SWEEP_THRESHOLD - 1 {
      assert events == tail;
    } else {
      CrowdRuns(k + 1, tail, at, maxFailures, lockoutFor);
      CrowdStep(k, at, maxFailures, lockoutFor);
      OtherKeysDiffer(k, k);
      assert events[0] == Fail(OtherKey(k), at) && events[1..] == CrowdFails(k + 1, at) + tail;
    }
  }

  lemma {:induction false} StrikesAllowed(count: nat, n: nat, at: int, maxFailures: nat, lockoutFor: nat)
    requires 1 <= count && count + n <= maxFailures
    ensures AllowedRun(map["user" := Entry(count, None)], "user", Burst(n, at), maxFailures, lockoutFor)
    decreases n
  {
    if n > 0 {
      var entries := map["user" := Entry(count, None)];
      assert |entries| == 1;
      if n > 1 {
        assert After(entries, Fail("user", at), maxFailures, lockoutFor) == map["user" := Entry(count + 1, None)];
        StrikesAllowed(count + 1, n - 1, at, maxFailures, lockoutFor);
      }
    }
  }

  /** The first failure fills the map, the second finds it full and counts as the first again. */
  lemma {:induction false} StrikeForgotten(at: int, maxFailures: nat, lockoutFor: nat)
    requires maxFailures >= 2
    ensures var full := After(Crowd(SWEEP_THRESHOLD - 1), Fail("user", at), maxFailures, lockoutFor);
            && Allowed(full, "user", at)
            && After(full, Fail("user", at), maxFailures, lockoutFor) == map["user" := Entry(1, None)]
  {
    var crowd := Crowd(SWEEP_THRESHOLD - 1);
    CrowdExact(SWEEP_THRESHOLD - 1);
    hide Crowd;
    var full := crowd["user" := Entry(1, None)];
    assert After(crowd, Fail("user", at), maxFailures, lockoutFor) == full;
    assert |full| == SWEEP_THRESHOLD;
    assert Swept(full, at) == map[];
  }

  /** Once 9999 other users have failed, `maxFailures + 1` failures of one key are recorded at the same
      instant, each of them allowed. */
  function Forgetful(maxFailures: nat, at: int): seq<Event> {
    CrowdFails(0, at) + Burst(maxFailures + 1, at)
  }

  lemma {:induction false} SpacingBroken(at: int, maxFailures: nat, lockoutFor: nat)
    requires maxFailures >= 2
    ensures var events := Forgetful(maxFailures, at);
            && AllowedRun(map[], "user", events, maxFailures, lockoutFor) && ClockRuns(events)
            && |Failures(events, "user")| == maxFailures + 1
            && Failures(events, "user")[maxFailures] - Failures(events, "user")[0] == 0
  {
    var crowd, burst := Crowd(SWEEP_THRESHOLD - 1), Burst(maxFailures + 1, at);
    CrowdExact(SWEEP_THRESHOLD - 1);
    BurstExact(maxFailures + 1, at);
    StrikeForgotten(at, maxFailures, lockoutFor);
    StrikesAllowed(1, maxFailures - 1, at, maxFailures, lockoutFor);
    hide After, CrowdFails;
    assert Crowd(0) == map[];
    hide Crowd;
    var e := Fail("user", at);
    assert burst == [e] + ([e] + Burst(maxFailures - 1, at));
    assert burst[1..] == [e] + Burst(maxFailures - 1, at) && burst[1..][1..] == Burst(maxFailures - 1, at);
    CrowdRuns(0, burst, at, maxFailures, lockoutFor);
  }

  // ---------- When the spacing holds ----------

  function KeysOf(events: seq<Event>): set<string>
    decreases |events|
  {
    if events == [] then {} else {events[0].key} + KeysOf(events[1..])
  }

  lemma {:induction false} SubsetSize<T>(a: set<T>, b: set<T>)
    requires a <= b
    ensures |a| <= |b|
  {
    assert b == a + (b - a);
  }

  lemma {:induction false} CrowdKeys(k: nat, tail: seq<Event>, at: int)
    requires k < SWEEP_THRESHOLD
    ensures forall x :: x in KeysOf(CrowdFails(k, at) + tail) ==> x in KeysOf(tail) || x in Crowd(SWEEP_THRESHOLD - 1)
    decreases SWEEP_THRESHOLD - k
  {
    hide OtherKey, Crowd;
    var events := CrowdFails(k, at) + tail;
    if k == SWEEP_THRESHOLD - 1 {
      assert events == tail;
    } else {
      CrowdKeys(k + 1, tail, at);
      assert events[0] == Fail(OtherKey(k), at) && events[1..] == CrowdFails(k + 1, at) + tail;
      CrowdHas(k, SWEEP_THRESHOLD - 1);
    }
  }

  lemma {:induction false} CrowdHas(k: nat, n: nat)
    requires k < n
    ensures OtherKey(k) in Crowd(n)
    decreases n
  {
    hide OtherKey;
    if k < n - 1 {
      CrowdHas(k, n - 1);
    }
  }

  lemma {:induction false} BurstKeys(n: nat, at: int)
    ensures KeysOf(Burst(n, at)) <= {"user"}
    decreases n
  {
    if n > 0 {
      BurstKeys(n - 1, at);
    }
  }

  lemma {:induction false} ForgetfulKeys(maxFailures: nat, at: int)
    ensures |KeysOf(Forgetful(maxFailures, at))| <= SWEEP_THRESHOLD
  {
    hide Crowd, CrowdFails, KeysOf, Burst;
    var crowd := Crowd(SWEEP_THRESHOLD - 1);
    CrowdExact(SWEEP_THRESHOLD - 1);
    CrowdKeys(0, Burst(maxFailures + 1, at), at);
    BurstKeys(maxFailures + 1, at);
    SubsetSize(KeysOf(Forgetful(maxFailures, at)), crowd.Keys + {"user"});
  }

  lemma {:induction false} AfterKeys(entries: Entries, e: Event, maxFailures: nat, lockoutFor: int)
    ensures After(entries, e, maxFailures, lockoutFor).Keys <= entries.Keys + {e.key}
  {
  }

  /** With too few keys for a sweep no strike is forgotten. */
  lemma {:induction false} FewKeysGuarded(entries: Entries, key: string, events: seq<Event>, maxFailures: nat,
                                          lockoutFor: int, keys: set<string>)
    requires entries.Keys <= keys && KeysOf(events) <= keys && |keys| < SWEEP_THRESHOLD
    requires AllowedRun(entries, key, events, maxFailures, lockoutFor)
    ensures GuardedRun(entries, key, events, maxFailures, lockoutFor)
    decreases |events|
  {
    hide After;
    if events != [] {
      SubsetSize(entries.Keys, keys);
      assert |entries| == |entries.Keys|;
      AfterKeys(entries, events[0], maxFailures, lockoutFor);
      FewKeysGuarded(After(entries, events[0], maxFailures, lockoutFor), key, events[1..], maxFailures, lockoutFor, keys);
    }
  }

  /** If one strike locks out already there are no strikes to forget. */
  lemma {:induction false} OneStrikeGuarded(entries: Entries, key: string, events: seq<Event>, lockoutFor: int)
    requires forall k :: k in entries ==> entries[k].lockedUntil.Some?
    requires AllowedRun(entries, key, events, 1, lockoutFor)
    ensures GuardedRun(entries, key, events, 1, lockoutFor)
    decreases |events|
  {
    if events != [] {
      OneStrikeLocks(entries, events[0], lockoutFor);
      hide After;
      OneStrikeGuarded(After(entries, events[0], 1, lockoutFor), key, events[1..], lockoutFor);
    }
  }

  lemma {:induction false} OneStrikeLocks(entries: Entries, e: Event, lockoutFor: int)
    requires forall k :: k in entries ==> entries[k].lockedUntil.Some?
    ensures var next := After(entries, e, 1, lockoutFor); forall k :: k in next ==> next[k].lockedUntil.Some?
  {
  }

  /** Any `maxFailures + 1` consecutive failures of the key span at least the lockout time. */
  ghost predicate SpacedOut(events: seq<Event>, key: string, maxFailures: nat, lockoutFor: nat) {
    forall i :: 0 <= i && i + maxFailures < |Failures(events, key)| ==>
      Failures(events, key)[i + maxFailures] - Failures(events, key)[i] >= lockoutFor
  }

  /** A run from a new lockout in which at most `users` keys occur and `key` only fails when allowed to try. */
  ghost predicate Plays(events: seq<Event>, key: string, users: nat, maxFailures: nat, lockoutFor: nat) {
    |KeysOf(events)| <= users && ClockRuns(events) && AllowedRun(map[], key, events, maxFailures, lockoutFor)
  }

  lemma {:induction false} FewUsersSpaced(events: seq<Event>, key: string, users: nat, maxFailures: nat, lockoutFor: nat)
    requires maxFailures >= 1 && Plays(events, key, users, maxFailures, lockoutFor)
    requires users < SWEEP_THRESHOLD || maxFailures == 1 || lockoutFor == 0
    ensures SpacedOut(events, key, maxFailures, lockoutFor)
  {
    hide GuardedRun, AllowedRun, ClockRuns, Failures, KeysOf;
    if users < SWEEP_THRESHOLD {
      FewKeysGuarded(map[], key, events, maxFailures, lockoutFor, KeysOf(events));
    } else if maxFailures == 1 {
      OneStrikeGuarded(map[], key, events, lockoutFor);
    }
    forall i | 0 <= i && i + maxFailures < |Failures(events, key)|
      ensures Failures(events, key)[i + maxFailures] - Failures(events, key)[i] >= lockoutFor
    {
      if users < SWEEP_THRESHOLD || maxFailures == 1 {
        LockoutSpacing(map[], key, events, maxFailures, lockoutFor, i);
      } else {
        FailuresOrdered(events, key, i, i + maxFailures);
      }
    }
  }

  /** The spacing is kept by every run of at most `users` keys exactly if those are too few for a sweep,
      or one failure locks out already, or a lockout lasts no time. */
  lemma {:induction false} SpacingExact(users: nat, maxFailures: nat, lockoutFor: nat)
    requires maxFailures >= 1
    ensures (forall events, key :: Plays(events, key, users, maxFailures, lockoutFor) ==>
               SpacedOut(events, key, maxFailures, lockoutFor))
       <==> users < SWEEP_THRESHOLD || maxFailures == 1 || lockoutFor == 0
  {
    hide Plays, SpacedOut;
    if users < SWEEP_THRESHOLD || maxFailures == 1 || lockoutFor == 0 {
      forall events, key | Plays(events, key, users, maxFailures, lockoutFor)
        ensures SpacedOut(events, key, maxFailures, lockoutFor)
      {
        FewUsersSpaced(events, key, users, maxFailures, lockoutFor);
      }
    } else {
      ForgetfulPlays(users, maxFailures, lockoutFor);
    }
  }

  lemma {:induction false} ForgetfulPlays(users: nat, maxFailures: nat, lockoutFor: nat)
    requires users >= SWEEP_THRESHOLD && maxFailures >= 2 && lockoutFor > 0
    ensures Plays(Forgetful(maxFailures, 0), "user", users, maxFailures, lockoutFor)
    ensures !SpacedOut(Forgetful(maxFailures, 0), "user", maxFailures, lockoutFor)
  {
    hide AllowedRun, ClockRuns, Failures, KeysOf, Forgetful;
    SpacingBroken(0, maxFailures, lockoutFor);
    ForgetfulKeys(maxFailures, 0);
    var times := Failures(Forgetful(maxFailures, 0), "user");
    assert times[0 + maxFailures] - times[0] < lockoutFor;
  }
}
