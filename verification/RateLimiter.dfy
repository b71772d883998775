/** The per-user sliding-window rate limit on processed messages.  Times are nanoseconds. */
module RateLimiter {
  const MINUTE: int := 60 * 1_000_000_000
  const HOUR: int := 60 * MINUTE

  /** The times after the cutoff, in order. */
  function Trim(log: seq<int>, cutoff: int): seq<int> {
    if log == [] then []
    else
      Trim(log[..|log| - 1], cutoff) + (if log[|log| - 1] > cutoff then [log[|log| - 1]] else [])
  }

  predicate Accepts(log: seq<int>, now: int, perMinute: int, perHour: int) {
    |Trim(Trim(log, now - HOUR), now - MINUTE)| < perMinute && |Trim(log, now - HOUR)| < perHour
  }

  function NextLog(log: seq<int>, now: int, perMinute: int, perHour: int): seq<int> {
    Trim(log, now - HOUR) + (if Accepts(log, now, perMinute, perHour) then [now] else [])
  }

  function LogOf(rate: map<string, seq<int>>, user: string): seq<int> {
    if user in rate then rate[user] else []
  }

  class Limiter {
    var rate: map<string, seq<int>>

    constructor ()
      ensures rate == map[]
    {
      rate := map[];
    }

    method AllowByRate(user: string, now: int, perMinute: int, perHour: int) returns (ok: bool)
      modifies this
      ensures ok == Accepts(LogOf(old(rate), user), now, perMinute, perHour)
      ensures rate == old(rate)[user := NextLog(LogOf(old(rate), user), now, perMinute, perHour)]
    {
      hide Trim;
      TrimNothing();
      var minuteCutoff, hourCutoff := now - MINUTE, now - HOUR;
      var window := LogOf(rate, user);
      var trimmed: seq<int> := [];
      for i := 0 to |window|
        invariant rate == old(rate)
        invariant trimmed == Trim(window[..i], hourCutoff)
      {
        TrimStep(window, i, hourCutoff);
        if window[i] > hourCutoff {
          trimmed := trimmed + [window[i]];
        }
      }
      assert window[..|window|] == window;
      var minuteCount := 0;
      for i := 0 to |trimmed|
        invariant rate == old(rate)
        invariant minuteCount == |Trim(trimmed[..i], minuteCutoff)|
      {
        TrimStep(trimmed, i, minuteCutoff);
        if trimmed[i] > minuteCutoff {
          minuteCount := minuteCount + 1;
        }
      }
      assert trimmed[..|trimmed|] == trimmed;
      if minuteCount >= perMinute || |trimmed| >= perHour {
        assert trimmed + [] == trimmed;
        rate := rate[user := trimmed];
        return false;
      }
      rate := rate[user := trimmed + [now]];
      ok := true;
    }
  }

  // ---------- Runs ----------

  datatype Call = Call(user: string, at: int)

  ghost predicate ClockRuns(calls: seq<Call>) {
    forall i, j :: 0 <= i < j < |calls| ==> calls[i].at <= calls[j].at
  }

  /** The logs after the calls. */
  function After(calls: seq<Call>, perMinute: int, perHour: int): map<string, seq<int>> {
    if calls == [] then map[]
    else
      var rate, c := After(calls[..|calls| - 1], perMinute, perHour), calls[|calls| - 1];
      rate[c.user := NextLog(LogOf(rate, c.user), c.at, perMinute, perHour)]
  }

  /** The times of all accepted calls of a user: the full history, which the program does not keep. */
  function Accepted(calls: seq<Call>, user: string, perMinute: int, perHour: int): seq<int> {
    if calls == [] then []
    else
      var front, c := calls[..|calls| - 1], calls[|calls| - 1];
      Accepted(front, user, perMinute, perHour)
      + (if c.user == user && Accepts(LogOf(After(front, perMinute, perHour), user), c.at, perMinute, perHour) then [c.at] else [])
  }

  lemma TrimNothing()
    ensures forall cutoff :: Trim([], cutoff) == []
  {
  }

  lemma {:induction false} TrimStep(log: seq<int>, i: nat, cutoff: int)
    requires i < |log|
    ensures Trim(log[..i + 1], cutoff) == Trim(log[..i], cutoff) + (if log[i] > cutoff then [log[i]] else [])
  {
    assert log[..i + 1][..i] == log[..i];
  }

  lemma {:induction false} TrimAppend(log: seq<int>, t: int, cutoff: int)
    ensures Trim(log + [t], cutoff) == Trim(log, cutoff) + (if t > cutoff then [t] else [])
  {
    assert (log + [t])[..|log|] == log;
  }

  /** A later cutoff does not miss what an earlier one dropped. */
  lemma {:induction false} TrimTwice(log: seq<int>, a: int, b: int)
    requires a <= b
    ensures Trim(Trim(log, a), b) == Trim(log, b)
    decreases |log|
  {
    if log != [] {
      var n := |log| - 1;
      TrimTwice(log[..n], a, b);
      if log[n] > a {
        TrimAppend(Trim(log[..n], a), log[n], b);
      } else {
        assert Trim(log[..n], a) + [] == Trim(log[..n], a);
      }
    }
  }

  ghost predicate Agree(a: seq<int>, b: seq<int>, from: int) {
    forall cutoff :: cutoff >= from ==> Trim(a, cutoff) == Trim(b, cutoff)
  }

  /** One call: `log` is what was kept for the user, `full` the user's history. */
  lemma {:induction false} StepAgrees(log: seq<int>, full: seq<int>, at: int, ok: bool, now: int)
    requires Agree(log, full, at - HOUR) && at <= now
    ensures var more := if ok then [at] else []; Agree(Trim(log, at - HOUR) + more, full + more, now - HOUR)
  {
    hide Trim;
    var more := if ok then [at] else [];
    var kept := Trim(log, at - HOUR);
    assert full + [] == full && kept + [] == kept;
    forall cutoff | cutoff >= now - HOUR
      ensures Trim(kept + more, cutoff) == Trim(full + more, cutoff)
    {
      TrimTwice(log, at - HOUR, cutoff);
      TrimAppend(kept, at, cutoff);
      TrimAppend(full, at, cutoff);
      assert Trim(log, cutoff) == Trim(full, cutoff);
    }
  }

  lemma {:induction false} LogStep(calls: seq<Call>, user: string, perMinute: int, perHour: int)
    requires calls != []
    ensures var front, c := calls[..|calls| - 1], calls[|calls| - 1];
            var log := LogOf(After(front, perMinute, perHour), user);
            var ok := c.user == user && Accepts(log, c.at, perMinute, perHour);
            && LogOf(After(calls, perMinute, perHour), user) == (if c.user == user then NextLog(log, c.at, perMinute, perHour) else log)
            && Accepted(calls, user, perMinute, perHour) == Accepted(front, user, perMinute, perHour) + (if ok then [c.at] else [])
  {
    hide Accepts, Trim;
  }

  /** The kept log and the full history agree on everything a later call looks at. */
  lemma {:induction false} LogAgrees(calls: seq<Call>, user: string, perMinute: int, perHour: int, now: int)
    requires ClockRuns(calls) && (calls != [] ==> calls[|calls| - 1].at <= now)
    ensures Agree(LogOf(After(calls, perMinute, perHour), user), Accepted(calls, user, perMinute, perHour), now - HOUR)
    decreases |calls|
  {
    hide Accepts, Trim;
    if calls != [] {
      var front, c := calls[..|calls| - 1], calls[|calls| - 1];
      LogAgrees(front, user, perMinute, perHour, c.at);
      LogStep(calls, user, perMinute, perHour);
      var log, full := LogOf(After(front, perMinute, perHour), user), Accepted(front, user, perMinute, perHour);
      hide After, Accepted, LogOf;
      if c.user == user {
        StepAgrees(log, full, c.at, Accepts(log, c.at, perMinute, perHour), now);
      } else {
        assert full + [] == full;
      }
    }
  }

  /** The trimmed log decides exactly as the full history would. */
  lemma {:induction false} DecidesAsFullHistory(calls: seq<Call>, user: string, perMinute: int, perHour: int, now: int)
    requires ClockRuns(calls) && (calls != [] ==> calls[|calls| - 1].at <= now)
    ensures var full := Accepted(calls, user, perMinute, perHour);
            Accepts(LogOf(After(calls, perMinute, perHour), user), now, perMinute, perHour)
            <==> |Trim(full, now - MINUTE)| < perMinute && |Trim(full, now - HOUR)| < perHour
  {
    LogAgrees(calls, user, perMinute, perHour, now);
    TrimTwice(LogOf(After(calls, perMinute, perHour), user), now - HOUR, now - MINUTE);
    hide After, Accepted;
  }

  // ---------- The bound ----------

  /** How many of the times lie in the half-open window after `from`, up to and including `to`. */
  function Within(times: seq<int>, from: int, to: int): nat {
    if times == [] then 0
    else
      var t := times[|times| - 1];
      Within(times[..|times| - 1], from, to) + (if from < t <= to then 1 else 0)
  }

  ghost predicate NonDecreasing(times: seq<int>) {
    forall i, j :: 0 <= i < j < |times| ==> times[i] <= times[j]
  }

  lemma {:induction false} WithinIsTrim(times: seq<int>, from: int, to: int)
    requires forall i :: 0 <= i < |times| ==> times[i] <= to
    ensures Within(times, from, to) == |Trim(times, from)|
    decreases |times|
  {
    if times != [] {
      WithinIsTrim(times[..|times| - 1], from, to);
    }
  }

  lemma {:induction false} WithinShrinks(times: seq<int>, from: int, to: int, from': int, to': int)
    requires forall i :: 0 <= i < |times| && from' < times[i] <= to' ==> from < times[i] <= to
    ensures Within(times, from', to') <= Within(times, from, to)
    decreases |times|
  {
    if times != [] {
      assert forall i :: 0 <= i < |times| - 1 ==> times[..|times| - 1][i] == times[i];
      WithinShrinks(times[..|times| - 1], from, to, from', to');
    }
  }

  lemma {:induction false} AcceptedOrdered(calls: seq<Call>, user: string, perMinute: int, perHour: int)
    requires ClockRuns(calls)
    ensures var full := Accepted(calls, user, perMinute, perHour);
            && NonDecreasing(full)
            && forall i :: 0 <= i < |full| ==> calls != [] && full[i] <= calls[|calls| - 1].at
    decreases |calls|
  {
    hide Accepts, After;
    if calls != [] {
      var front := calls[..|calls| - 1];
      AcceptedOrdered(front, user, perMinute, perHour);
      var full := Accepted(front, user, perMinute, perHour);
      forall i | 0 <= i < |full|
        ensures full[i] <= calls[|calls| - 1].at
      {
        assert front[|front| - 1] == calls[|front| - 1];
      }
    }
  }

  /** The sliding-window bound over every run with a clock that does not run backwards: any half-open
      minute holds at most `perMinute` accepted calls of a user and any half-open hour at most `perHour`. */
  lemma {:induction false} RateBound(calls: seq<Call>, user: string, perMinute: nat, perHour: nat, start: int)
    requires ClockRuns(calls)
    ensures var full := Accepted(calls, user, perMinute, perHour);
            Within(full, start, start + MINUTE) <= perMinute && Within(full, start, start + HOUR) <= perHour
    decreases |calls|
  {
    hide Accepts, Trim, NonDecreasing, ClockRuns, After, LogOf, Accepted;
    if calls == [] {
      NothingAccepted(user, perMinute, perHour);
    } else {
      var front, c := calls[..|calls| - 1], calls[|calls| - 1];
      EarlierCalls(calls);
      RateBound(front, user, perMinute, perHour, start);
      LogStep(calls, user, perMinute, perHour);
      var full := Accepted(front, user, perMinute, perHour);
      if c.user == user && Accepts(LogOf(After(front, perMinute, perHour), user), c.at, perMinute, perHour) {
        AcceptedOrdered(front, user, perMinute, perHour);
        DecidesAsFullHistory(front, user, perMinute, perHour, c.at);
        hide Within;
        BothFit(full, c.at, perMinute, perHour, start);
      } else {
        assert full + [] == full;
      }
    }
  }

  lemma NothingAccepted(user: string, perMinute: int, perHour: int)
    ensures Accepted([], user, perMinute, perHour) == []
  {
  }

  lemma {:induction false} EarlierCalls(calls: seq<Call>)
    requires ClockRuns(calls) && calls != []
    ensures var front := calls[..|calls| - 1];
            ClockRuns(front) && (front != [] ==> front[|front| - 1].at <= calls[|calls| - 1].at)
  {
  }

  lemma {:induction false} BothFit(full: seq<int>, at: int, perMinute: nat, perHour: nat, start: int)
    requires forall i :: 0 <= i < |full| ==> full[i] <= at
    requires |Trim(full, at - MINUTE)| < perMinute && Within(full, start, start + MINUTE) <= perMinute
    requires |Trim(full, at - HOUR)| < perHour && Within(full, start, start + HOUR) <= perHour
    ensures Within(full + [at], start, start + MINUTE) <= perMinute && Within(full + [at], start, start + HOUR) <= perHour
  {
    hide Trim, Within;
    LastFits(full, at, MINUTE, perMinute, start);
    LastFits(full, at, HOUR, perHour, start);
  }

  /** An accepted call keeps every window of the given length within the limit. */
  lemma {:induction false} LastFits(full: seq<int>, at: int, span: int, limit: nat, start: int)
    requires span > 0 && forall i :: 0 <= i < |full| ==> full[i] <= at
    requires |Trim(full, at - span)| < limit && Within(full, start, start + span) <= limit
    ensures Within(full + [at], start, start + span) <= limit
  {
    assert (full + [at])[..|full|] == full;
    if start < at <= start + span {
      WithinIsTrim(full, at - span, at);
      WithinShrinks(full, at - span, at, start, start + span);
    }
  }
}
