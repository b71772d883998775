/** The bounded App Pull queue and its readers. */
module PullQueue {
  import opened Text

  const MAX_PULL_NOTIFICATIONS: nat := 100

  datatype Notification = Notification(seqNo: nat, createdAt: string, payload: string)

  datatype Queue = Queue(pullSeq: nat, stored: seq<Notification>)

  /** What is stored for a notification: its sequence number, and a creation time if it came without. */
  function Stamped(n: Notification, seqNo: nat, now: string): Notification {
    n.(seqNo := seqNo, createdAt := if Trim(n.createdAt) == "" then now else n.createdAt)
  }

  function Newest(stored: seq<Notification>): seq<Notification> {
    if |stored| > MAX_PULL_NOTIFICATIONS then stored[|stored| - MAX_PULL_NOTIFICATIONS..] else stored
  }

  function Enqueued(q: Queue, n: Notification, now: string): Queue {
    Queue(q.pullSeq + 1, Newest(q.stored + [Stamped(n, q.pullSeq + 1, now)]))
  }

  function Since(stored: seq<Notification>, after: int): seq<Notification> {
    if stored == [] then []
    else
      Since(stored[..|stored| - 1], after)
      + (if stored[|stored| - 1].seqNo > after then [stored[|stored| - 1]] else [])
  }

  class Store {
    var pullSeq: nat
    var pullNotifications: seq<Notification>

    function Abs(): Queue
      reads this
    {
      Queue(pullSeq, pullNotifications)
    }

    constructor ()
      ensures Abs() == Queue(0, [])
    {
      pullSeq, pullNotifications := 0, [];
    }

    method EnqueuePullNotification(n: Notification, now: string)
      modifies this
      ensures Abs() == Enqueued(old(Abs()), n, now)
    {
      pullSeq := pullSeq + 1;
      var stamped := n.(seqNo := pullSeq);
      if Trim(stamped.createdAt) == "" {
        stamped := stamped.(createdAt := now);
      }
      pullNotifications := pullNotifications + [stamped];
      if |pullNotifications| > MAX_PULL_NOTIFICATIONS {
        pullNotifications := pullNotifications[|pullNotifications| - MAX_PULL_NOTIFICATIONS..];
      }
    }

    method PullNotificationsAfter(after: int) returns (out: seq<Notification>, cursor: nat)
      ensures out == Since(pullNotifications, after) && cursor == pullSeq
    {
      out := [];
      for i := 0 to |pullNotifications|
        invariant out == Since(pullNotifications[..i], after)
      {
        assert pullNotifications[..i + 1][..i] == pullNotifications[..i];
        if pullNotifications[i].seqNo > after {
          out := out + [pullNotifications[i]];
        }
      }
      assert pullNotifications[..|pullNotifications|] == pullNotifications;
      cursor := pullSeq;
    }
  }

  // ---------- The queue against the whole history ----------

  /** `history[k]` is the notification with sequence number `k + 1`; the queue does not keep it. */
  ghost predicate Numbered(history: seq<Notification>) {
    forall k :: 0 <= k < |history| ==> history[k].seqNo == k + 1
  }

  function Max(a: int, b: int): int {
    if a >= b then a else b
  }

  /** The queue is exactly the newest part of the history. */
  ghost predicate Tail(q: Queue, history: seq<Notification>) {
    && Numbered(history) && q.pullSeq == |history|
    && q.stored == history[Max(0, |history| - MAX_PULL_NOTIFICATIONS)..]
  }

  lemma {:induction false} EnqueueKeepsTail(q: Queue, history: seq<Notification>, n: Notification, now: string)
    requires Tail(q, history)
    ensures Tail(Enqueued(q, n, now), history + [Stamped(n, q.pullSeq + 1, now)])
  {
    hide Trim;
    var e := Stamped(n, q.pullSeq + 1, now);
    var more := history + [e];
    var from := Max(0, |history| - MAX_PULL_NOTIFICATIONS);
    assert q.stored + [e] == more[from..];
    if |q.stored + [e]| > MAX_PULL_NOTIFICATIONS {
      assert more[from..][1..] == more[from + 1..];
    }
  }

  /** The stored sequence numbers are exactly the last min(pullSeq, 100) ones, in order. */
  lemma {:induction false} StoredNumbers(q: Queue, history: seq<Notification>)
    requires Tail(q, history)
    ensures |q.stored| == (if q.pullSeq <= MAX_PULL_NOTIFICATIONS then q.pullSeq else MAX_PULL_NOTIFICATIONS)
    ensures forall i :: 0 <= i < |q.stored| ==> q.stored[i].seqNo == q.pullSeq - |q.stored| + 1 + i
  {
  }

  lemma SplitLast(stored: seq<Notification>, k: nat)
    requires k < |stored|
    ensures stored[..|stored| - 1][k..] + [stored[|stored| - 1]] == stored[k..]
  {
  }

  lemma {:induction false} SinceSuffix(stored: seq<Notification>, first: int, after: int)
    requires forall i :: 0 <= i < |stored| ==> stored[i].seqNo == first + i
    ensures Since(stored, after) == (if after < first then stored
                                     else if after - first + 1 <= |stored| then stored[after - first + 1..] else [])
    decreases |stored|
  {
    if stored != [] {
      var m, k := |stored| - 1, after - first + 1;
      SinceSuffix(stored[..m], first, after);
      if k <= 0 {
        assert stored[..m] + [stored[m]] == stored;
      } else if k <= m {
        SplitLast(stored, k);
      }
    }
  }

  /** A reader at `cursor` receives the history after its cursor, from the oldest stored one on. */
  lemma {:induction false} ReadExact(q: Queue, history: seq<Notification>, cursor: nat)
    requires Tail(q, history) && cursor <= |history|
    ensures Since(q.stored, cursor) == history[Max(cursor, |history| - MAX_PULL_NOTIFICATIONS)..]
  {
    var from := Max(0, |history| - MAX_PULL_NOTIFICATIONS);
    SinceSuffix(q.stored, from + 1, cursor);
    if cursor >= from + 1 && cursor - from <= |q.stored| {
      assert q.stored[cursor - from..] == history[cursor..];
    }
  }

  // ---------- A reader over a whole run ----------

  datatype Event = Enqueue(n: Notification, now: string) | Poll

  /** The queue, the full history, what the reader has received, and its cursor. */
  datatype World = World(q: Queue, history: seq<Notification>, received: seq<Notification>, cursor: nat)

  const NEW_WORLD: World := World(Queue(0, []), [], [], 0)

  function Step(w: World, e: Event): World {
    match e
    case Enqueue(n, now) => w.(q := Enqueued(w.q, n, now), history := w.history + [Stamped(n, w.q.pullSeq + 1, now)])
    case Poll => w.(received := w.received + Since(w.q.stored, w.cursor), cursor := w.q.pullSeq)
  }

  function Steps(w: World, events: seq<Event>): World
    decreases |events|
  {
    if events == [] then w else Steps(Step(w, events[0]), events[1..])
  }

  ghost predicate Increasing(ns: seq<Notification>) {
    forall i, j :: 0 <= i < j < |ns| ==> ns[i].seqNo < ns[j].seqNo
  }

  /** Received in order, each at most once, nothing made up, and nothing beyond the cursor. */
  ghost predicate Orderly(w: World) {
    && Tail(w.q, w.history) && w.cursor <= |w.history| && Increasing(w.received)
    && forall i :: 0 <= i < |w.received| ==>
         1 <= w.received[i].seqNo <= w.cursor && w.received[i] == w.history[w.received[i].seqNo - 1]
  }

  lemma {:induction false} StepOrderly(w: World, e: Event)
    requires Orderly(w)
    ensures Orderly(Step(w, e))
  {
    match e {
      case Enqueue(n, now) =>
        EnqueueKeepsTail(w.q, w.history, n, now);
        hide Enqueued, Stamped, Tail, Increasing;
      case Poll =>
        PollOrderly(w);
    }
  }

  lemma {:induction false} PollOrderly(w: World)
    requires Orderly(w)
    ensures Orderly(Step(w, Poll))
  {
    var from := Max(w.cursor, |w.history| - MAX_PULL_NOTIFICATIONS);
    assert w.q.pullSeq == |w.history| && Numbered(w.history);
    ReadExact(w.q, w.history, w.cursor);
    ReceiveOrderly(w.received, w.history, w.cursor, from);
    hide Since, Increasing, Numbered, Tail;
    assert Step(w, Poll).received == w.received + w.history[from..];
  }

  lemma {:induction false} ReceiveOrderly(received: seq<Notification>, history: seq<Notification>, cursor: nat, from: nat)
    requires Numbered(history) && Increasing(received) && cursor <= from <= |history|
    requires forall i :: 0 <= i < |received| ==>
               1 <= received[i].seqNo <= cursor && received[i] == history[received[i].seqNo - 1]
    ensures var all := received + history[from..];
            && Increasing(all)
            && forall i :: 0 <= i < |all| ==> 1 <= all[i].seqNo <= |history| && all[i] == history[all[i].seqNo - 1]
  {
    var all := received + history[from..];
    forall i | |received| <= i < |all|
      ensures all[i].seqNo == from + i - |received| + 1 && all[i] == history[from + i - |received|]
    {
    }
  }

  /** Over any run a reader that advances to the returned cursor sees each notification at most once
      and in order. */
  lemma {:induction false} ReaderOrderly(w: World, events: seq<Event>)
    requires Orderly(w)
    ensures Orderly(Steps(w, events))
    decreases |events|
  {
    hide Orderly, Step;
    if events != [] {
      StepOrderly(w, events[0]);
      ReaderOrderly(Step(w, events[0]), events[1..]);
    }
  }

  /** At every poll of the run the reader is at most 100 notifications behind. */
  ghost predicate KeepsUp(w: World, events: seq<Event>)
    decreases |events|
  {
    events == [] || ((events[0].Poll? ==> |w.history| - w.cursor <= MAX_PULL_NOTIFICATIONS)
                     && KeepsUp(Step(w, events[0]), events[1..]))
  }

  ghost predicate Complete(w: World) {
    w.cursor <= |w.history| && w.received == w.history[..w.cursor]
  }

  /** A new store and a reader at cursor 0 start out in order and complete. */
  lemma StartsComplete()
    ensures Orderly(NEW_WORLD) && Complete(NEW_WORLD)
  {
  }

  lemma {:induction false} CompleteStep(w: World, e: Event)
    requires Orderly(w) && Complete(w)
    ensures var next := Step(w, e);
            if e.Poll? && |w.history| - w.cursor > MAX_PULL_NOTIFICATIONS then |next.received| < next.cursor else Complete(next)
  {
    var next := Step(w, e);
    match e {
      case Enqueue(n, now) =>
        hide Stamped, Enqueued;
        assert next.history[..next.cursor] == w.history[..w.cursor];
      case Poll =>
        ReadExact(w.q, w.history, w.cursor);
        hide Since, Increasing;
        assert w.history[..w.cursor] + w.history[w.cursor..] == w.history[..|w.history|];
    }
  }

  lemma {:induction false} MissedStep(w: World, e: Event)
    requires Orderly(w) && |w.received| < w.cursor
    ensures var next := Step(w, e); |next.received| < next.cursor
  {
    if e.Poll? {
      ReadExact(w.q, w.history, w.cursor);
    }
    hide Since, Increasing, Enqueued, Stamped;
  }

  /** What was missed is never received later. */
  lemma {:induction false} MissedForGood(w: World, events: seq<Event>)
    requires Orderly(w) && |w.received| < w.cursor
    ensures var end := Steps(w, events); |end.received| < end.cursor
    decreases |events|
  {
    hide Orderly, Step;
    if events != [] {
      StepOrderly(w, events[0]);
      MissedStep(w, events[0]);
      MissedForGood(Step(w, events[0]), events[1..]);
    }
  }

  lemma MissedIncomplete(w: World)
    requires |w.received| < w.cursor
    ensures !Complete(w)
  {
  }

  /** A reader misses something exactly when it is more than 100 behind at a poll: it has received the
      whole history up to its cursor if and only if it kept up throughout. */
  lemma {:induction false} CompleteExact(w: World, events: seq<Event>)
    requires Orderly(w) && Complete(w)
    ensures Complete(Steps(w, events)) <==> KeepsUp(w, events)
    decreases |events|
  {
    hide Orderly, Step, Complete;
    if events != [] {
      var next := Step(w, events[0]);
      StepOrderly(w, events[0]);
      CompleteStep(w, events[0]);
      if events[0].Poll? && |w.history| - w.cursor > MAX_PULL_NOTIFICATIONS {
        MissedForGood(next, events[1..]);
        MissedIncomplete(Steps(w, events));
      } else {
        CompleteExact(next, events[1..]);
      }
    }
  }

  /** So for a new store and a reader that starts at cursor 0. */
  lemma {:induction false} FreshReader(events: seq<Event>)
    ensures Orderly(Steps(NEW_WORLD, events))
    ensures Complete(Steps(NEW_WORLD, events)) <==> KeepsUp(NEW_WORLD, events)
  {
    StartsComplete();
    hide Orderly, Complete, Steps, KeepsUp;
    ReaderOrderly(NEW_WORLD, events);
    CompleteExact(NEW_WORLD, events);
  }
}
