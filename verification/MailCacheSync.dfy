/** What the mail cache promises its pollers: exact deltas, revisions that tell how long a message
    stayed in the window, and a replica that follows the live list. */
module MailCacheSync {
  import opened Wrappers
  import opened Sorting
  import opened MailCache

  // ---------- Windows ----------

  ghost predicate HasUid(entries: seq<Entry>, u: int) {
    exists i :: 0 <= i < |entries| && entries[i].uid == u
  }

  ghost predicate DistinctUids(entries: seq<Entry>) {
    forall i, j :: 0 <= i < j < |entries| ==> entries[i].uid != entries[j].uid
  }

  ghost predicate DistinctLive(live: seq<Overview>) {
    forall i, j :: 0 <= i < j < |live| ==> live[i].uid != live[j].uid
  }

  ghost predicate Bounded(entries: seq<Entry>, seqNo: nat) {
    forall i :: 0 <= i < |entries| ==> 1 <= entries[i].firstRev <= entries[i].rev <= seqNo
  }

  ghost predicate Ascending(entries: seq<Entry>) {
    forall i, j :: 0 <= i < j < |entries| ==> entries[i].uid < entries[j].uid
  }

  /** UIDs ascend, and first revisions, revisions and the counter are in order. */
  ghost predicate Inv(win: Window) {
    Ascending(win.entries) && Bounded(win.entries, win.seqNo)
  }

  /** Where `e` comes from: its UID arrived after `seqNo`, or it was there with the same first revision,
      and unless it was changed after `seqNo`, with the same metadata. */
  ghost predicate ComesFrom(entries: seq<Entry>, seqNo: nat, e: Entry) {
    || e.firstRev > seqNo
    || exists p :: p in entries && p.uid == e.uid && p.firstRev == e.firstRev
                   && (e.rev > seqNo || (p.rev == e.rev && p.meta == e.meta))
  }

  ghost predicate Follows(entries: seq<Entry>, seqNo: nat, entries': seq<Entry>, seqNo': nat) {
    seqNo <= seqNo' && forall i :: 0 <= i < |entries'| ==> ComesFrom(entries, seqNo, entries'[i])
  }

  /** A UID in both keeps its first revision. */
  ghost predicate KeepsFirst(entries: seq<Entry>, entries': seq<Entry>) {
    forall p, e :: p in entries && e in entries' && p.uid == e.uid ==> e.firstRev == p.firstRev
  }

  lemma {:induction false} FollowsSelf(entries: seq<Entry>, seqNo: nat)
    ensures Follows(entries, seqNo, entries, seqNo)
  {
    forall i | 0 <= i < |entries|
      ensures ComesFrom(entries, seqNo, entries[i])
    {
      assert entries[i] in entries;
    }
  }

  lemma {:induction false} FollowsTrans(a: seq<Entry>, n: nat, b: seq<Entry>, n': nat, c: seq<Entry>, n'': nat)
    requires Follows(a, n, b, n') && Follows(b, n', c, n'')
    requires Bounded(b, n') && Bounded(c, n'')
    ensures Follows(a, n, c, n'')
  {
    forall i | 0 <= i < |c|
      ensures ComesFrom(a, n, c[i])
    {
      var e := c[i];
      assert ComesFrom(b, n', e);
      if e.firstRev <= n {
        var p :| p in b && p.uid == e.uid && p.firstRev == e.firstRev
                 && (e.rev > n' || (p.rev == e.rev && p.meta == e.meta));
        assert ComesFrom(a, n, p);
      }
    }
  }

  lemma {:induction false} AscendingDistinct(entries: seq<Entry>)
    requires Ascending(entries)
    ensures DistinctUids(entries)
  {
  }

  lemma {:induction false} TheEntry(entries: seq<Entry>, e: Entry)
    requires DistinctUids(entries) && e in entries
    ensures EntryOf(entries, e.uid) == Some(e)
  {
    var i :| 0 <= i < |entries| && entries[i] == e;
    var r := LastAt(entries, e.uid);
    assert r.Some?;
    assert r.value == i;
  }

  lemma {:induction false} HasUidMember(entries: seq<Entry>, u: int)
    ensures HasUid(entries, u) <==> exists e :: e in entries && e.uid == u
  {
    if e :| e in entries && e.uid == u {
      var i :| 0 <= i < |entries| && entries[i] == e;
    }
    if HasUid(entries, u) {
      var i :| 0 <= i < |entries| && entries[i].uid == u;
      assert entries[i] in entries;
    }
  }

  // ---------- Sorting a window ----------

  lemma {:induction false} UidsOrder()
    ensures StrictWeakOrder(ByUid)
  {
  }

  lemma {:induction false} SortedAscends(entries: seq<Entry>)
    requires DistinctUids(entries)
    ensures Ascending(Sort(ByUid, entries))
  {
    var s := Sort(ByUid, entries);
    UidsOrder();
    SortSorted(ByUid, entries);
    SortMembers(ByUid, entries);
    assert Distinct(entries);
    SortKeepsDistinct(ByUid, entries);
    hide Sort, StrictWeakOrder;
    forall i, j | 0 <= i < j < |s|
      ensures s[i].uid < s[j].uid
    {
      assert s[i] in entries && s[j] in entries && s[i] != s[j];
      assert !ByUid(s[j], s[i]);
    }
  }

  /** Sorting changes neither the bounds nor where the entries come from. */
  lemma {:induction false} SubsetKeeps(entries: seq<Entry>, seqNo: nat, all: seq<Entry>, some: seq<Entry>, seqNo': nat)
    requires forall e :: e in some ==> e in all
    requires Bounded(all, seqNo') && Follows(entries, seqNo, all, seqNo') && KeepsFirst(entries, all)
    ensures Bounded(some, seqNo') && Follows(entries, seqNo, some, seqNo') && KeepsFirst(entries, some)
  {
    hide ComesFrom;
    forall i | 0 <= i < |some|
      ensures 1 <= some[i].firstRev <= some[i].rev <= seqNo' && ComesFrom(entries, seqNo, some[i])
    {
      assert some[i] in some;
      var k :| 0 <= k < |all| && all[k] == some[i];
    }
  }

  // ---------- One synchronisation ----------

  /** The entry for `ov`: unchanged, refreshed under a newer revision, or new; what only the warm path
      knows is never lost. */
  ghost predicate Renewed(prev: seq<Entry>, ov: Overview, e: Entry, lo: nat, hi: nat) {
    && e.uid == ov.uid && e.meta == ov.meta
    && match EntryOf(prev, ov.uid)
       case None => lo < e.firstRev == e.rev <= hi
                    && e == EntryFromOverview(ov).(rev := e.rev, firstRev := e.firstRev)
       case Some(p) =>
         && e.firstRev == p.firstRev && e.body == p.body && e.hasAttachments == p.hasAttachments && e.pgp == p.pgp
         && (if p.meta == ov.meta then e == p else lo < e.rev <= hi)
  }

  lemma {:induction false} ReconciledExact(prev: seq<Entry>, live: seq<Overview>, seqNo: nat)
    ensures var (next, n) := Reconciled(prev, live, seqNo);
            forall k :: 0 <= k < |live| ==> Renewed(prev, live[k], next[k], seqNo, n)
    decreases |live|
  {
    if live != [] {
      var front := live[..|live| - 1];
      ReconciledExact(prev, front, seqNo);
      var (before, m) := Reconciled(prev, front, seqNo);
      var (next, n) := Reconciled(prev, live, seqNo);
      hide EntryOf;
      forall k | 0 <= k < |live|
        ensures Renewed(prev, live[k], next[k], seqNo, n)
      {
        if k < |front| {
          assert live[k] == front[k] && next[k] == before[k];
          assert Renewed(prev, front[k], before[k], seqNo, m);
        }
      }
    }
  }

  lemma {:induction false} RenewedComesFrom(prev: seq<Entry>, ov: Overview, e: Entry, lo: nat, hi: nat)
    requires Renewed(prev, ov, e, lo, hi) && Bounded(prev, lo) && lo <= hi
    ensures ComesFrom(prev, lo, e) && 1 <= e.firstRev <= e.rev <= hi
  {
    match EntryOf(prev, ov.uid) {
      case None =>
      case Some(p) =>
        var i :| 0 <= i < |prev| && prev[i] == p;
    }
  }

  lemma {:induction false} ReconciledFollows(prev: seq<Entry>, live: seq<Overview>, seqNo: nat)
    requires DistinctUids(prev) && Bounded(prev, seqNo) && DistinctLive(live)
    ensures var (next, n) := Reconciled(prev, live, seqNo);
            && DistinctUids(next) && Bounded(next, n) && Follows(prev, seqNo, next, n) && KeepsFirst(prev, next)
  {
    ReconciledExact(prev, live, seqNo);
    hide Reconciled, ComesFrom;
    var (next, n) := Reconciled(prev, live, seqNo);
    forall i | 0 <= i < |next|
      ensures ComesFrom(prev, seqNo, next[i]) && 1 <= next[i].firstRev <= next[i].rev <= n
    {
      RenewedComesFrom(prev, live[i], next[i], seqNo, n);
    }
    forall p, e | p in prev && e in next && p.uid == e.uid
      ensures e.firstRev == p.firstRev
    {
      var k :| 0 <= k < |next| && next[k] == e;
      TheEntry(prev, p);
      assert Renewed(prev, live[k], e, seqNo, n);
    }
  }

  lemma {:induction false} ComparableInv(win: Window, limit: int)
    requires Inv(win)
    ensures var prev := Comparable(win, limit); DistinctUids(prev) && Bounded(prev, win.seqNo)
  {
  }

  /** After a synchronisation the window keeps its invariant and holds exactly the live messages, each
      renewed from its entry before. */
  lemma {:induction false} SyncedExact(win: Window, limit: int, live: seq<Overview>)
    requires Inv(win) && DistinctLive(live)
    ensures var prev, after := Comparable(win, limit), Synced(win, limit, live);
            && Inv(after) && |after.entries| == |live|
            && Follows(prev, win.seqNo, after.entries, after.seqNo) && KeepsFirst(prev, after.entries)
            && (forall e :: e in after.entries ==>
                  exists k :: 0 <= k < |live| && Renewed(prev, live[k], e, win.seqNo, after.seqNo))
            && (forall k :: 0 <= k < |live| ==>
                  exists e :: e in after.entries && Renewed(prev, live[k], e, win.seqNo, after.seqNo))
  {
    var prev := Comparable(win, limit);
    ComparableInv(win, limit);
    ReconciledExact(prev, live, win.seqNo);
    ReconciledFollows(prev, live, win.seqNo);
    var (next, n) := Reconciled(prev, live, win.seqNo);
    SortPermutes(ByUid, next);
    SortMembers(ByUid, next);
    SortedAscends(next);
    var after := Synced(win, limit, live);
    hide Reconciled, Sort, Renewed, Comparable;
    SubsetKeeps(prev, win.seqNo, next, after.entries, n);
    hide Follows, KeepsFirst, Bounded, Ascending, DistinctUids;
    forall e | e in after.entries
      ensures exists k :: 0 <= k < |live| && Renewed(prev, live[k], e, win.seqNo, after.seqNo)
    {
      var k :| 0 <= k < |next| && next[k] == e;
      assert Renewed(prev, live[k], e, win.seqNo, after.seqNo);
    }
    forall k | 0 <= k < |live|
      ensures exists e :: e in after.entries && Renewed(prev, live[k], e, win.seqNo, after.seqNo)
    {
      assert next[k] in next;
    }
  }

  lemma {:induction false} SyncFollows(win: Window, limit: int, live: seq<Overview>)
    requires Inv(win) && DistinctLive(live)
    ensures var after := Synced(win, limit, live);
            && Inv(after) && Follows(win.entries, win.seqNo, after.entries, after.seqNo)
            && (!Resets(win, limit) ==> KeepsFirst(win.entries, after.entries))
            && (Resets(win, limit) ==> forall e :: e in after.entries ==> e.firstRev > win.seqNo)
  {
    SyncedExact(win, limit, live);
    hide Synced, Renewed;
    var after := Synced(win, limit, live);
    forall i | 0 <= i < |after.entries|
      ensures ComesFrom(win.entries, win.seqNo, after.entries[i])
    {
      assert ComesFrom(Comparable(win, limit), win.seqNo, after.entries[i]);
    }
    forall e | Resets(win, limit) && e in after.entries
      ensures e.firstRev > win.seqNo
    {
      var i :| 0 <= i < |after.entries| && after.entries[i] == e;
      assert ComesFrom([], win.seqNo, after.entries[i]);
    }
  }

  // ---------- One warming write ----------

  ghost predicate KeepsAll(entries: seq<Entry>, entries': seq<Entry>) {
    forall p :: p in entries ==> exists e :: e in entries' && e.uid == p.uid && e.firstRev == p.firstRev
  }

  /** A stored entry keeps its place, UID and first revision; at most one entry is appended. */
  lemma {:induction false} MergedInShape(entries: seq<Entry>, seqNo: nat, arriving: Entry)
    ensures var (es, n) := MergedIn(entries, seqNo, arriving);
            && |entries| <= |es| <= |entries| + 1 && seqNo <= n <= seqNo + 1
            && (forall i :: 0 <= i < |entries| ==>
                  && es[i].uid == entries[i].uid && es[i].firstRev == entries[i].firstRev
                  && ((es[i].rev == n > seqNo) || (es[i].rev == entries[i].rev && es[i].meta == entries[i].meta)))
            && (|es| > |entries| ==>
                  && es[|entries|].firstRev == es[|entries|].rev == n > seqNo
                  && forall i :: 0 <= i < |entries| ==> entries[i].uid != es[|entries|].uid)
  {
  }

  lemma {:induction false} MergedInBounded(entries: seq<Entry>, seqNo: nat, arriving: Entry)
    requires DistinctUids(entries) && Bounded(entries, seqNo)
    ensures var (es, n) := MergedIn(entries, seqNo, arriving); DistinctUids(es) && Bounded(es, n)
  {
    MergedInShape(entries, seqNo, arriving);
    hide MergedIn;
  }

  lemma {:induction false} MergedInFollows(entries: seq<Entry>, seqNo: nat, arriving: Entry)
    ensures var (es, n) := MergedIn(entries, seqNo, arriving); Follows(entries, seqNo, es, n)
  {
    var (es, n) := MergedIn(entries, seqNo, arriving);
    MergedInShape(entries, seqNo, arriving);
    hide MergedIn;
    forall i | 0 <= i < |es|
      ensures ComesFrom(entries, seqNo, es[i])
    {
      if i < |entries| {
        assert entries[i] in entries;
      }
    }
  }

  lemma {:induction false} MergedInKeepsAll(entries: seq<Entry>, seqNo: nat, arriving: Entry)
    ensures KeepsAll(entries, MergedIn(entries, seqNo, arriving).0)
  {
    var (es, n) := MergedIn(entries, seqNo, arriving);
    MergedInShape(entries, seqNo, arriving);
    hide MergedIn;
    forall p | p in entries
      ensures exists e :: e in es && e.uid == p.uid && e.firstRev == p.firstRev
    {
      var i :| 0 <= i < |entries| && entries[i] == p;
      assert es[i] in es;
    }
  }

  lemma {:induction false} AllMergedInFollows(entries: seq<Entry>, seqNo: nat, arriving: seq<Entry>)
    requires DistinctUids(entries) && Bounded(entries, seqNo)
    ensures var (es, n) := AllMergedIn(entries, seqNo, arriving);
            && DistinctUids(es) && Bounded(es, n) && Follows(entries, seqNo, es, n) && KeepsAll(entries, es)
    decreases |arriving|
  {
    hide DistinctUids, Bounded, Follows, MergedIn;
    if arriving == [] {
      FollowsSelf(entries, seqNo);
    } else {
      var k := |arriving| - 1;
      AllMergedInFollows(entries, seqNo, arriving[..k]);
      var (mid, m) := AllMergedIn(entries, seqNo, arriving[..k]);
      MergedInBounded(mid, m, arriving[k]);
      MergedInFollows(mid, m, arriving[k]);
      MergedInKeepsAll(mid, m, arriving[k]);
      var (es, n) := AllMergedIn(entries, seqNo, arriving);
      FollowsTrans(entries, seqNo, mid, m, es, n);
      KeepsAllTrans(entries, mid, es);
    }
  }

  lemma {:induction false} KeepsAllTrans(a: seq<Entry>, b: seq<Entry>, c: seq<Entry>)
    requires KeepsAll(a, b) && KeepsAll(b, c)
    ensures KeepsAll(a, c)
  {
    forall p | p in a
      ensures exists e :: e in c && e.uid == p.uid && e.firstRev == p.firstRev
    {
      var q :| q in b && q.uid == p.uid && q.firstRev == p.firstRev;
      var e :| e in c && e.uid == q.uid && e.firstRev == q.firstRev;
    }
  }

  lemma {:induction false} KeepsAllKeepsFirst(entries: seq<Entry>, es: seq<Entry>)
    requires KeepsAll(entries, es) && DistinctUids(es)
    ensures KeepsFirst(entries, es)
  {
    forall p, e | p in entries && e in es && p.uid == e.uid
      ensures e.firstRev == p.firstRev
    {
      var q :| q in es && q.uid == p.uid && q.firstRev == p.firstRev;
      TheEntry(es, q);
      TheEntry(es, e);
    }
  }

  lemma {:induction false} AscendingSuffix(entries: seq<Entry>, k: nat)
    requires Ascending(entries) && k <= |entries|
    ensures Ascending(entries[k..])
    ensures forall e :: e in entries[k..] ==> e in entries
  {
  }

  lemma {:induction false} TrimmedKeeps(entries: seq<Entry>)
    requires Ascending(entries)
    ensures Ascending(Trimmed(entries)) && forall e :: e in Trimmed(entries) ==> e in entries
  {
    if |entries| > MAX_WINDOW_ENTRIES {
      AscendingSuffix(entries, |entries| - MAX_WINDOW_ENTRIES);
    }
  }

  lemma {:induction false} UpsertFollows(win: Window, arriving: seq<Entry>)
    requires Inv(win)
    ensures var after := Upserted(win, arriving);
            && Inv(after) && after.limit == win.limit
            && Follows(win.entries, win.seqNo, after.entries, after.seqNo) && KeepsFirst(win.entries, after.entries)
  {
    AscendingDistinct(win.entries);
    AllMergedInFollows(win.entries, win.seqNo, arriving);
    var (es, n) := AllMergedIn(win.entries, win.seqNo, arriving);
    KeepsAllKeepsFirst(win.entries, es);
    SortMembers(ByUid, es);
    SortedAscends(es);
    var sorted := Sort(ByUid, es);
    TrimmedKeeps(sorted);
    hide AllMergedIn, Sort, Trimmed, KeepsAll;
    var after := Upserted(win, arriving);
    if arriving == [] {
      FollowsSelf(win.entries, win.seqNo);
      SameUidSameEntry(win.entries);
    } else {
      SubsetKeeps(win.entries, win.seqNo, es, after.entries, n);
    }
  }

  lemma {:induction false} SameUidSameEntry(entries: seq<Entry>)
    requires DistinctUids(entries)
    ensures KeepsFirst(entries, entries)
  {
    forall p, e | p in entries && e in entries && p.uid == e.uid
      ensures e.firstRev == p.firstRev
    {
      TheEntry(entries, p);
      TheEntry(entries, e);
    }
  }

  /** Without eviction a warming write takes no UID out of the window. */
  lemma {:induction false} UpsertRetains(win: Window, arriving: seq<Entry>, u: int)
    requires Inv(win) && HasUid(win.entries, u)
    requires |AllMergedIn(win.entries, win.seqNo, arriving).0| <= MAX_WINDOW_ENTRIES
    ensures HasUid(Upserted(win, arriving).entries, u)
  {
    AscendingDistinct(win.entries);
    AllMergedInFollows(win.entries, win.seqNo, arriving);
    var (es, n) := AllMergedIn(win.entries, win.seqNo, arriving);
    SortPermutes(ByUid, es);
    SortMembers(ByUid, es);
    HasUidMember(win.entries, u);
    HasUidMember(Upserted(win, arriving).entries, u);
    hide AllMergedIn, Sort, HasUid, Bounded, DistinctUids, Follows;
    var p :| p in win.entries && p.uid == u;
    if arriving != [] {
      var e :| e in es && e.uid == p.uid && e.firstRev == p.firstRev;
      assert e in Upserted(win, arriving).entries;
    }
  }

  // ---------- How long a message stayed ----------

  datatype Op = Poll(limit: int, live: seq<Overview>) | Warm(arriving: seq<Entry>)

  /** The mail server lists a message once. */
  ghost predicate Sensible(op: Op) {
    op.Poll? ==> DistinctLive(op.live)
  }

  function After(win: Window, op: Op): Window {
    match op
    case Poll(limit, live) => Synced(win, limit, live)
    case Warm(arriving) => Upserted(win, arriving)
  }

  function Final(win: Window, ops: seq<Op>): Window
    decreases |ops|
  {
    if ops == [] then win else Final(After(win, ops[0]), ops[1..])
  }

  ghost predicate ResetBy(win: Window, op: Op) {
    op.Poll? && Resets(win, op.limit)
  }

  lemma {:induction false} StepFollows(win: Window, op: Op)
    requires Inv(win) && Sensible(op)
    ensures var after := After(win, op);
            && Inv(after) && Follows(win.entries, win.seqNo, after.entries, after.seqNo)
            && (!ResetBy(win, op) ==> KeepsFirst(win.entries, after.entries))
            && (ResetBy(win, op) ==> forall e :: e in after.entries ==> e.firstRev > win.seqNo)
  {
    hide Inv, Follows, KeepsFirst;
    match op {
      case Poll(limit, live) => SyncFollows(win, limit, live);
      case Warm(arriving) => UpsertFollows(win, arriving);
    }
  }

  /** Every window of every run keeps the invariant, and later windows follow earlier ones. */
  lemma {:induction false} RunFollows(win: Window, ops: seq<Op>)
    requires Inv(win) && forall k :: 0 <= k < |ops| ==> Sensible(ops[k])
    ensures var after := Final(win, ops); Inv(after) && Follows(win.entries, win.seqNo, after.entries, after.seqNo)
    decreases |ops|
  {
    hide Ascending, Follows, Sensible, Bounded;
    if ops == [] {
      FollowsSelf(win.entries, win.seqNo);
    } else {
      var next := After(win, ops[0]);
      StepFollows(win, ops[0]);
      RunFollows(next, ops[1..]);
      FollowsTrans(win.entries, win.seqNo, next.entries, next.seqNo, Final(win, ops).entries, Final(win, ops).seqNo);
    }
  }

  /** The UID is in every window of the run, and no change of the limit discards one. */
  ghost predicate Stayed(win: Window, ops: seq<Op>, u: int)
    decreases |ops|
  {
    && HasUid(win.entries, u)
    && (ops == [] || (!ResetBy(win, ops[0]) && Stayed(After(win, ops[0]), ops[1..], u)))
  }

  /** A first revision tells exactly whether a message stayed: it is at most an earlier counter if and
      only if the UID was in every window since then. */
  lemma {:induction false} FirstRevExact(win: Window, ops: seq<Op>, e: Entry)
    requires Inv(win) && (forall k :: 0 <= k < |ops| ==> Sensible(ops[k])) && e in Final(win, ops).entries
    ensures e.firstRev <= win.seqNo <==> Stayed(win, ops, e.uid)
    decreases |ops|
  {
    hide Sensible, ResetBy, After;
    if ops == [] {
      var i :| 0 <= i < |win.entries| && win.entries[i] == e;
    } else {
      var next := After(win, ops[0]);
      StepFollows(win, ops[0]);
      RunFollows(next, ops[1..]);
      FirstRevExact(next, ops[1..], e);
      var last := Final(win, ops);
      var i :| 0 <= i < |last.entries| && last.entries[i] == e;
      FirstRevStep(win, next, ResetBy(win, ops[0]), e);
      StayedHasUid(next, ops[1..], e.uid);
    }
  }

  lemma {:induction false} FirstRevStep(win: Window, next: Window, reset: bool, e: Entry)
    requires Inv(win) && Inv(next) && Follows(win.entries, win.seqNo, next.entries, next.seqNo)
    requires !reset ==> KeepsFirst(win.entries, next.entries)
    requires reset ==> forall p :: p in next.entries ==> p.firstRev > win.seqNo
    requires ComesFrom(next.entries, next.seqNo, e)
    ensures e.firstRev <= win.seqNo
       <==> HasUid(win.entries, e.uid) && !reset && HasUid(next.entries, e.uid) && e.firstRev <= next.seqNo
  {
    HasUidMember(win.entries, e.uid);
    HasUidMember(next.entries, e.uid);
    hide HasUid, Ascending;
    if e.firstRev <= next.seqNo {
      var q :| q in next.entries && q.uid == e.uid && q.firstRev == e.firstRev;
      var i :| 0 <= i < |next.entries| && next.entries[i] == q;
      assert ComesFrom(win.entries, win.seqNo, q);
      if !reset && HasUid(win.entries, e.uid) {
        var p :| p in win.entries && p.uid == e.uid;
        var k :| 0 <= k < |win.entries| && win.entries[k] == p;
        assert q.firstRev == p.firstRev;
      }
    }
  }

  lemma StayedHasUid(win: Window, ops: seq<Op>, u: int)
    ensures Stayed(win, ops, u) ==> HasUid(win.entries, u)
  {
  }

  // ---------- Deltas ----------

  lemma {:induction false} ReportedExact(entries: seq<Entry>, since: int, brandNew: bool)
    ensures forall e :: e in Reported(entries, since, brandNew)
              <==> e in entries && e.rev > since && (e.firstRev > since <==> brandNew)
    decreases |entries|
  {
    if entries != [] {
      ReportedExact(entries[..|entries| - 1], since, brandNew);
      assert entries == entries[..|entries| - 1] + [entries[|entries| - 1]];
    }
  }

  lemma {:induction false} FallenExact(entries: seq<Entry>, live: seq<Overview>)
    ensures forall e :: e in Fallen(entries, live) <==> e in entries && !IsLive(live, e.uid)
    decreases |entries|
  {
    if entries != [] {
      hide IsLive;
      FallenExact(entries[..|entries| - 1], live);
      assert entries == entries[..|entries| - 1] + [entries[|entries| - 1]];
    }
  }

  /** A delta is complete and its lists are disjoint: an entry of the new window is reported exactly
      when it changed after the cursor, as new exactly when its UID arrived after the cursor. */
  lemma {:induction false} DeltaLists(win: Window, limit: int, live: seq<Overview>, since: int, e: Entry)
    requires Inv(win) && DistinctLive(live)
    ensures var d, after := SyncDelta(win, limit, live, since), Synced(win, limit, live);
            && (e in d.added <==> e in after.entries && e.firstRev > since)
            && (e in d.updated <==> e in after.entries && e.firstRev <= since < e.rev)
            && (e in d.removed <==> e in Comparable(win, limit) && !IsLive(live, e.uid))
            && d.cursor == after.seqNo
  {
    SyncFollows(win, limit, live);
    var after := Synced(win, limit, live);
    ReportedExact(after.entries, since, true);
    ReportedExact(after.entries, since, false);
    FallenExact(Comparable(win, limit), live);
    hide Reported, Fallen, Synced, IsLive, Comparable, Follows, KeepsFirst;
    if e in after.entries {
      var i :| 0 <= i < |after.entries| && after.entries[i] == e;
    }
  }

  // ---------- A poller's replica ----------

  type Replica = map<int, Meta>

  /** The replica holds the metadata of the entries, by UID. */
  ghost predicate Holds(replica: Replica, entries: seq<Entry>) {
    Covers(replica, entries) && forall u :: u in replica ==> HasUid(entries, u)
  }

  /** The replica has the metadata of the entries, and perhaps messages besides. */
  ghost predicate Covers(replica: Replica, entries: seq<Entry>) {
    forall e :: e in entries ==> e.uid in replica && replica[e.uid] == e.meta
  }

  /** The replica holds the metadata of the live messages, by UID. */
  ghost predicate HoldsLive(replica: Replica, live: seq<Overview>) {
    ShowsLive(replica, live) && forall u :: u in replica ==> IsLive(live, u)
  }

  /** The replica has the metadata of the live messages, and perhaps messages besides. */
  ghost predicate ShowsLive(replica: Replica, live: seq<Overview>) {
    forall k :: 0 <= k < |live| ==> live[k].uid in replica && replica[live[k].uid] == live[k].meta
  }

  ghost function UidSet(entries: seq<Entry>): (r: set<int>)
    ensures forall u :: u in r <==> HasUid(entries, u)
  {
    set i | 0 <= i < |entries| :: entries[i].uid
  }

  /** What a poller makes of a delta. */
  ghost function Patched(replica: Replica, d: SyncResult): Replica {
    var changed := d.added + d.updated;
    map u | u in (replica.Keys - UidSet(d.removed)) + UidSet(changed) ::
      match EntryOf(changed, u)
      case Some(e) => e.meta
      case None => replica[u]
  }

  lemma {:induction false} ChangedOnce(win: Window, limit: int, live: seq<Overview>, since: int, u: int)
    requires Inv(win) && DistinctLive(live)
    ensures var d, after := SyncDelta(win, limit, live, since), Synced(win, limit, live);
            match EntryOf(d.added + d.updated, u)
            case Some(e) => e in after.entries && e.rev > since && e.uid == u
            case None => forall e :: e in after.entries && e.uid == u ==> e.rev <= since
  {
    var d, after := SyncDelta(win, limit, live, since), Synced(win, limit, live);
    var changed := d.added + d.updated;
    var found := EntryOf(changed, u);
    SyncFollows(win, limit, live);
    if found.Some? {
      DeltaLists(win, limit, live, since, found.value);
      hide SyncDelta, Synced, EntryOf, Follows, KeepsFirst;
      if found.value in after.entries {
        var i :| 0 <= i < |after.entries| && after.entries[i] == found.value;
      }
    } else {
      forall e | e in after.entries && e.uid == u
        ensures e.rev <= since
      {
        DeltaLists(win, limit, live, since, e);
        NotFound(changed, e);
      }
    }
  }

  lemma {:induction false} NotFound(entries: seq<Entry>, e: Entry)
    requires EntryOf(entries, e.uid) == None
    ensures e !in entries
  {
    hide EntryOf;
  }

  /** `base` and `since` are the window and the counter a cursor was issued with, `win` is the window now;
      the replica may show messages whose removal it never heard of. */
  ghost predicate Polling(base: seq<Entry>, since: nat, win: Window, replica: Replica) {
    Inv(win) && Follows(base, since, win.entries, win.seqNo) && Covers(replica, base)
  }

  lemma {:induction false} OldEntryHeld(base: seq<Entry>, since: nat, replica: Replica, entries: seq<Entry>,
                                        seqNo: nat, e: Entry)
    requires Follows(base, since, entries, seqNo) && Bounded(entries, seqNo) && Covers(replica, base)
    requires e in entries && e.rev <= since
    ensures e.uid in replica && replica[e.uid] == e.meta
  {
    var i :| 0 <= i < |entries| && entries[i] == e;
    assert ComesFrom(base, since, entries[i]);
    var p :| p in base && p.uid == e.uid && p.firstRev == e.firstRev && p.rev == e.rev && p.meta == e.meta;
  }

  lemma {:induction false} SyncedFollowsBase(base: seq<Entry>, since: nat, win: Window, limit: int, live: seq<Overview>)
    requires Inv(win) && Follows(base, since, win.entries, win.seqNo) && DistinctLive(live)
    ensures var after := Synced(win, limit, live); Inv(after) && Follows(base, since, after.entries, after.seqNo)
  {
    SyncFollows(win, limit, live);
    hide Synced, Follows, Ascending, Bounded, KeepsFirst;
    var after := Synced(win, limit, live);
    FollowsTrans(base, since, win.entries, win.seqNo, after.entries, after.seqNo);
  }

  /** The entry of a live message. */
  lemma {:induction false} LiveEntry(win: Window, limit: int, live: seq<Overview>, k: nat) returns (e: Entry)
    requires Inv(win) && DistinctLive(live) && k < |live|
    ensures e in Synced(win, limit, live).entries && e.uid == live[k].uid && e.meta == live[k].meta
  {
    SyncedExact(win, limit, live);
    hide Synced, Inv, Follows, KeepsFirst, EntryOf;
    var after := Synced(win, limit, live);
    e :| e in after.entries && Renewed(Comparable(win, limit), live[k], e, win.seqNo, after.seqNo);
  }

  lemma {:induction false} WindowIsLive(win: Window, limit: int, live: seq<Overview>, e: Entry)
    requires Inv(win) && DistinctLive(live) && e in Synced(win, limit, live).entries
    ensures IsLive(live, e.uid)
  {
    SyncedExact(win, limit, live);
    hide Synced, Inv, Follows, KeepsFirst, EntryOf;
    var after := Synced(win, limit, live);
    var k :| 0 <= k < |live| && Renewed(Comparable(win, limit), live[k], e, win.seqNo, after.seqNo);
  }

  lemma {:induction false} RemovedExact(win: Window, limit: int, live: seq<Overview>, since: int, u: int)
    ensures HasUid(SyncDelta(win, limit, live, since).removed, u) <==> HasUid(Comparable(win, limit), u) && !IsLive(live, u)
  {
    var prev := Comparable(win, limit);
    FallenExact(prev, live);
    HasUidMember(prev, u);
    HasUidMember(Fallen(prev, live), u);
    hide HasUid, Fallen, IsLive, Comparable, Synced, Reported;
  }

  /** Every live message arrives in the replica with its current metadata. */
  lemma {:induction false} LiveArrives(base: seq<Entry>, since: nat, win: Window, replica: Replica, limit: int,
                                       live: seq<Overview>, k: nat)
    requires Polling(base, since, win, replica) && DistinctLive(live) && k < |live|
    ensures var patched := Patched(replica, SyncDelta(win, limit, live, since));
            live[k].uid in patched && patched[live[k].uid] == live[k].meta
  {
    var u := live[k].uid;
    var e := LiveEntry(win, limit, live, k);
    SyncedFollowsBase(base, since, win, limit, live);
    ChangedOnce(win, limit, live, since, u);
    RemovedExact(win, limit, live, since, u);
    var d, after := SyncDelta(win, limit, live, since), Synced(win, limit, live);
    hide SyncDelta, Synced, Follows, Comparable;
    assert IsLive(live, u);
    AscendingDistinct(after.entries);
    TheEntry(after.entries, e);
    match EntryOf(d.added + d.updated, u) {
      case Some(f) =>
        TheEntry(after.entries, f);
        FoundUid(d.added + d.updated, u);
      case None =>
        OldEntryHeld(base, since, replica, after.entries, after.seqNo, e);
    }
  }

  lemma FoundUid(entries: seq<Entry>, u: int)
    ensures EntryOf(entries, u).Some? ==> HasUid(entries, u)
  {
  }

  /** What else stays in the replica: the messages neither live nor known to have fallen out. */
  lemma {:induction false} PatchedKeys(win: Window, replica: Replica, limit: int, live: seq<Overview>, since: int, u: int)
    requires Inv(win) && DistinctLive(live) && !IsLive(live, u)
    ensures u in Patched(replica, SyncDelta(win, limit, live, since)) <==> u in replica && !HasUid(Comparable(win, limit), u)
  {
    RemovedExact(win, limit, live, since, u);
    var d := SyncDelta(win, limit, live, since);
    var changed := d.added + d.updated;
    ChangedOnce(win, limit, live, since, u);
    forall e | e in changed
      ensures e.uid != u
    {
      DeltaLists(win, limit, live, since, e);
      WindowIsLive(win, limit, live, e);
    }
    HasUidMember(changed, u);
    hide SyncDelta, Synced, EntryOf, IsLive, HasUid, Comparable;
  }

  /** The exact reach of a delta, for any number of pollers and writers in between: after a poll the
      replica shows every live message as it is now, and is the live list if and only if every message
      it showed is live or was still in the window the poll compared with. */
  lemma {:induction false} DeltaExact(base: seq<Entry>, since: nat, win: Window, replica: Replica, limit: int,
                                      live: seq<Overview>)
    requires Polling(base, since, win, replica) && DistinctLive(live)
    ensures ShowsLive(Patched(replica, SyncDelta(win, limit, live, since)), live)
    ensures HoldsLive(Patched(replica, SyncDelta(win, limit, live, since)), live)
       <==> forall u :: u in replica ==> IsLive(live, u) || HasUid(Comparable(win, limit), u)
  {
    hide IsLive, HasUid, SyncDelta, Patched, Inv, Follows, Covers, DistinctLive, Comparable;
    var patched := Patched(replica, SyncDelta(win, limit, live, since));
    forall k | 0 <= k < |live|
      ensures live[k].uid in patched && patched[live[k].uid] == live[k].meta
    {
      LiveArrives(base, since, win, replica, limit, live, k);
    }
    forall u | !IsLive(live, u)
      ensures u in patched <==> u in replica && !HasUid(Comparable(win, limit), u)
    {
      PatchedKeys(win, replica, limit, live, since, u);
    }
  }

  /** The stored window shows exactly the live list, so a replica that equals it mirrors the window. */
  lemma {:induction false} LiveIsWindow(win: Window, limit: int, live: seq<Overview>, replica: Replica)
    requires Inv(win) && DistinctLive(live)
    ensures HoldsLive(replica, live) <==> Holds(replica, Synced(win, limit, live).entries)
  {
    hide Inv, Synced, DistinctLive;
    var entries := Synced(win, limit, live).entries;
    forall u
      ensures HasUid(entries, u) <==> IsLive(live, u)
    {
      WindowUids(win, limit, live, u);
    }
    hide HasUid, IsLive;
    if HoldsLive(replica, live) {
      forall e | e in entries
        ensures e.uid in replica && replica[e.uid] == e.meta
      {
        EntryIsLive(win, limit, live, e);
      }
    }
    if Holds(replica, entries) {
      forall k | 0 <= k < |live|
        ensures live[k].uid in replica && replica[live[k].uid] == live[k].meta
      {
        var e := LiveEntry(win, limit, live, k);
      }
    }
  }

  lemma {:induction false} EntryIsLive(win: Window, limit: int, live: seq<Overview>, e: Entry)
    requires Inv(win) && DistinctLive(live) && e in Synced(win, limit, live).entries
    ensures exists k :: 0 <= k < |live| && live[k].uid == e.uid && live[k].meta == e.meta
  {
    SyncedExact(win, limit, live);
    hide Synced, Inv, Follows, KeepsFirst, EntryOf;
    var after := Synced(win, limit, live);
    var k :| 0 <= k < |live| && Renewed(Comparable(win, limit), live[k], e, win.seqNo, after.seqNo);
  }

  lemma {:induction false} WindowUids(win: Window, limit: int, live: seq<Overview>, u: int)
    requires Inv(win) && DistinctLive(live)
    ensures HasUid(Synced(win, limit, live).entries, u) <==> IsLive(live, u)
  {
    var entries := Synced(win, limit, live).entries;
    HasUidMember(entries, u);
    hide Synced, HasUid, Inv, DistinctLive;
    if e :| e in entries && e.uid == u {
      WindowIsLive(win, limit, live, e);
    }
    if k :| 0 <= k < |live| && live[k].uid == u {
      var e := LiveEntry(win, limit, live, k);
    }
  }

  // ---------- A single poller over a whole run ----------

  datatype Event = Arrives(arriving: seq<Entry>) | Fetch(live: seq<Overview>)

  datatype Client = Client(replica: Replica, cursor: nat)

  /** The mail server lists a message once, and the writer does not overflow the window. */
  ghost predicate Calm(win: Window, event: Event) {
    match event
    case Arrives(arriving) => |AllMergedIn(win.entries, win.seqNo, arriving).0| <= MAX_WINDOW_ENTRIES
    case Fetch(live) => DistinctLive(live)
  }

  ghost function Happen(win: Window, client: Client, limit: int, event: Event): (Window, Client) {
    match event
    case Arrives(arriving) => (Upserted(win, arriving), client)
    case Fetch(live) =>
      var d := SyncDelta(win, limit, live, client.cursor);
      (Synced(win, limit, live), Client(Patched(client.replica, d), d.cursor))
  }

  ghost predicate CalmRun(win: Window, client: Client, limit: int, events: seq<Event>)
    decreases |events|
  {
    events == [] || (Calm(win, events[0])
                     && var (w, c) := Happen(win, client, limit, events[0]); CalmRun(w, c, limit, events[1..]))
  }

  ghost function Played(win: Window, client: Client, limit: int, events: seq<Event>): (Window, Client)
    decreases |events|
  {
    if events == [] then (win, client)
    else
      var (w, c) := Happen(win, client, limit, events[0]);
      Played(w, c, limit, events[1..])
  }

  /** The poller's replica is an earlier window, none of whose messages has left the window since. */
  ghost predicate InStep(base: seq<Entry>, win: Window, client: Client, limit: int) {
    && Polling(base, client.cursor, win, client.replica)
    && !Resets(win, limit)
    && forall u :: u in client.replica ==> HasUid(win.entries, u)
  }

  lemma {:induction false} ArrivalInStep(base: seq<Entry>, win: Window, client: Client, limit: int, arriving: seq<Entry>)
    requires InStep(base, win, client, limit) && Calm(win, Arrives(arriving))
    ensures InStep(base, Upserted(win, arriving), client, limit)
  {
    var after := Upserted(win, arriving);
    UpsertFollows(win, arriving);
    forall u | u in client.replica
      ensures HasUid(after.entries, u)
    {
      UpsertRetains(win, arriving, u);
    }
    hide Upserted, AllMergedIn, HasUid, Follows, KeepsFirst, Ascending, Bounded, Holds;
    FollowsTrans(base, client.cursor, win.entries, win.seqNo, after.entries, after.seqNo);
  }

  lemma {:induction false} FetchInStep(base: seq<Entry>, win: Window, client: Client, limit: int, live: seq<Overview>)
    requires InStep(base, win, client, limit) && DistinctLive(live)
    ensures var (w, c) := Happen(win, client, limit, Fetch(live));
            InStep(w.entries, w, c, limit) && HoldsLive(c.replica, live)
  {
    var (w, c) := Happen(win, client, limit, Fetch(live));
    DeltaExact(base, client.cursor, win, client.replica, limit, live);
    SyncFollows(win, limit, live);
    LiveIsWindow(win, limit, live, c.replica);
    FollowsSelf(w.entries, w.seqNo);
    hide Synced, Patched, HasUid, IsLive, Follows, KeepsFirst, Ascending, Bounded, Reported, Fallen;
    assert w.limit == limit by {
      SyncedLimit(win, limit, live);
    }
  }

  lemma SyncedLimit(win: Window, limit: int, live: seq<Overview>)
    ensures Synced(win, limit, live).limit == limit
  {
    hide Reconciled, Sort;
  }

  lemma {:induction false} PlayInStep(base: seq<Entry>, win: Window, client: Client, limit: int, events: seq<Event>)
    requires InStep(base, win, client, limit) && CalmRun(win, client, limit, events)
    ensures events != [] && events[|events| - 1].Fetch? ==>
              HoldsLive(Played(win, client, limit, events).1.replica, events[|events| - 1].live)
    decreases |events|
  {
    hide InStep, HoldsLive, Synced, Upserted, SyncDelta, Patched, DistinctLive;
    if events != [] {
      var (w, c) := Happen(win, client, limit, events[0]);
      match events[0] {
        case Arrives(arriving) =>
          ArrivalInStep(base, win, client, limit, arriving);
          PlayInStep(base, w, c, limit, events[1..]);
        case Fetch(live) =>
          FetchInStep(base, win, client, limit, live);
          PlayInStep(w.entries, w, c, limit, events[1..]);
      }
    }
  }

  /** A single poller with a fixed limit always holds the live list: from an empty cache, after any
      run of warming writes that overflow no window and of polls, the replica is what the last poll
      saw, although each poll was answered with a delta. */
  lemma {:induction false} SinglePollerHoldsLive(limit: int, events: seq<Event>)
    requires CalmRun(EMPTY_WINDOW, Client(map[], 0), limit, events)
    requires events != [] && events[|events| - 1].Fetch?
    ensures HoldsLive(Played(EMPTY_WINDOW, Client(map[], 0), limit, events).1.replica, events[|events| - 1].live)
  {
    FollowsSelf([], 0);
    assert InStep([], EMPTY_WINDOW, Client(map[], 0), limit);
    PlayInStep([], EMPTY_WINDOW, Client(map[], 0), limit, events);
  }

  // ---------- The read path, repetition and the cap ----------

  /** Right after a poll the read path shows the live list, and vouches for it only when the window is
      full and every body is there. */
  lemma {:induction false} SnapshotIsLive(win: Window, limit: int, live: seq<Overview>)
    requires Inv(win) && DistinctLive(live) && |live| <= limit && limit > 0
    ensures var after := Synced(win, limit, live);
            Shown(after, limit) == (after.entries, |live| == limit && AllWarm(after.entries))
    ensures forall replica :: HoldsLive(replica, live) <==> Holds(replica, Shown(Synced(win, limit, live), limit).0)
  {
    SyncedExact(win, limit, live);
    hide Synced, Inv, Follows, KeepsFirst, Renewed, DistinctLive, AllWarm, Holds, HoldsLive;
    var after := Synced(win, limit, live);
    assert after.entries[0..] == after.entries;
    forall replica
      ensures HoldsLive(replica, live) <==> Holds(replica, after.entries)
    {
      LiveIsWindow(win, limit, live, replica);
    }
  }

  lemma {:induction false} ReconciledUnchanged(prev: seq<Entry>, live: seq<Overview>, seqNo: nat)
    requires forall k :: 0 <= k < |live| ==>
               EntryOf(prev, live[k].uid).Some? && EntryOf(prev, live[k].uid).value.meta == live[k].meta
    ensures var (next, n) := Reconciled(prev, live, seqNo);
            && n == seqNo && forall k :: 0 <= k < |live| ==> Some(next[k]) == EntryOf(prev, live[k].uid)
    decreases |live|
  {
    hide EntryOf;
    if live != [] {
      ReconciledUnchanged(prev, live[..|live| - 1], seqNo);
    }
  }

  lemma {:induction false} SameMembersSameSort(a: seq<Entry>, b: seq<Entry>)
    requires DistinctUids(a) && Ascending(b) && forall e :: e in a <==> e in b
    ensures Sort(ByUid, a) == b
  {
    AscendingDistinct(b);
    assert Distinct(a) && Distinct(b);
    DistinctMultiset(a);
    DistinctMultiset(b);
    forall e
      ensures multiset(a)[e] == multiset(b)[e]
    {
      assert e in multiset(a) <==> e in a;
      assert e in multiset(b) <==> e in b;
    }
    UidsOrder();
    assert Separates(ByUid, b) by {
      forall i, j | 0 <= i < |b| && 0 <= j < |b| && b[i] != b[j]
        ensures ByUid(b[i], b[j]) || ByUid(b[j], b[i])
      {
        assert i < j || j < i;
      }
    }
    SortForgetsArrival(ByUid, b, a);
    SortOfSorted(ByUid, b);
  }

  lemma {:induction false} FoundAgain(win: Window, limit: int, live: seq<Overview>, k: nat)
    requires Inv(win) && DistinctLive(live) && k < |live|
    ensures var found := EntryOf(Synced(win, limit, live).entries, live[k].uid);
            found.Some? && found.value.meta == live[k].meta
  {
    SyncFollows(win, limit, live);
    var after := Synced(win, limit, live);
    AscendingDistinct(after.entries);
    var e := LiveEntry(win, limit, live, k);
    TheEntry(after.entries, e);
    hide Synced, Follows, KeepsFirst, Bounded, Ascending, EntryOf, DistinctLive;
  }

  /** `next` lists, for each live message, its entry. */
  lemma {:induction false} ListedEntries(entries: seq<Entry>, live: seq<Overview>, next: seq<Entry>)
    requires DistinctUids(entries) && DistinctLive(live) && |next| == |live|
    requires forall k :: 0 <= k < |live| ==> Some(next[k]) == EntryOf(entries, live[k].uid)
    requires forall e :: e in entries ==> IsLive(live, e.uid)
    ensures DistinctUids(next) && forall e :: e in next <==> e in entries
  {
    hide LastAt;
    forall i, j | 0 <= i < j < |next|
      ensures next[i].uid != next[j].uid
    {
      assert live[i].uid != live[j].uid;
    }
    hide EntryOf;
    forall e | e in entries
      ensures e in next
    {
      var k :| 0 <= k < |live| && live[k].uid == e.uid;
      TheEntry(entries, e);
      assert next[k] == e;
    }
    forall e | e in next
      ensures e in entries
    {
      var k :| 0 <= k < |next| && next[k] == e;
      assert Some(next[k]) == EntryOf(entries, live[k].uid);
    }
  }

  lemma {:induction false} AgainUnchanged(win: Window, limit: int, live: seq<Overview>)
    requires Inv(win) && DistinctLive(live)
    ensures var after := Synced(win, limit, live);
            var (next, n) := Reconciled(after.entries, live, after.seqNo);
            && n == after.seqNo && DistinctUids(next) && forall e :: e in next <==> e in after.entries
  {
    SyncFollows(win, limit, live);
    var after := Synced(win, limit, live);
    AscendingDistinct(after.entries);
    hide Synced, Follows, KeepsFirst, Bounded, Ascending, EntryOf, DistinctUids, DistinctLive, IsLive, Reconciled;
    forall k | 0 <= k < |live|
      ensures EntryOf(after.entries, live[k].uid).Some? && EntryOf(after.entries, live[k].uid).value.meta == live[k].meta
    {
      FoundAgain(win, limit, live, k);
    }
    ReconciledUnchanged(after.entries, live, after.seqNo);
    forall e | e in after.entries
      ensures IsLive(live, e.uid)
    {
      WindowIsLive(win, limit, live, e);
    }
    ListedEntries(after.entries, live, Reconciled(after.entries, live, after.seqNo).0);
  }

  /** Polling again with nothing new changes nothing and reports nothing. */
  lemma {:induction false} PollAgain(win: Window, limit: int, live: seq<Overview>)
    requires Inv(win) && DistinctLive(live)
    ensures var after := Synced(win, limit, live);
            && Synced(after, limit, live) == after
            && SyncDelta(after, limit, live, after.seqNo) == SyncResult([], [], [], after.seqNo)
  {
    var after := Synced(win, limit, live);
    SyncedLimit(win, limit, live);
    SyncFollows(win, limit, live);
    AgainUnchanged(win, limit, live);
    hide Follows, KeepsFirst, Reconciled, Sort, LastAt, DistinctUids;
    var (next, n) := Reconciled(after.entries, live, after.seqNo);
    SameMembersSameSort(next, after.entries);
    ReportedExact(after.entries, after.seqNo, true);
    ReportedExact(after.entries, after.seqNo, false);
    FallenExact(after.entries, live);
    hide Reported, Fallen, IsLive, Ascending, DistinctLive;
    var d := SyncDelta(after, limit, live, after.seqNo);
    forall e | e in after.entries
      ensures e.rev <= after.seqNo && IsLive(live, e.uid)
    {
      var i :| 0 <= i < |after.entries| && after.entries[i] == e;
      hide Synced;
      WindowIsLive(win, limit, live, e);
    }
    HasMember(d.added);
    HasMember(d.updated);
    HasMember(d.removed);
  }

  /** The cap drops the lowest UIDs: a window over the cap keeps as many entries as it may, and every
      dropped UID is below every kept one. */
  lemma {:induction false} CapKeepsNewest(entries: seq<Entry>, e: Entry)
    requires Ascending(entries) && e in entries && e !in Trimmed(entries)
    ensures |Trimmed(entries)| == MAX_WINDOW_ENTRIES
    ensures forall k :: k in Trimmed(entries) ==> e.uid < k.uid
  {
    var cut := |entries| - MAX_WINDOW_ENTRIES;
    var i :| 0 <= i < |entries| && entries[i] == e;
    forall m | cut <= m < |entries| && cut > 0
      ensures entries[m] in Trimmed(entries)
    {
      assert Trimmed(entries)[m - cut] == entries[m];
    }
    forall k | k in Trimmed(entries)
      ensures e.uid < k.uid
    {
      var j :| 0 <= j < |Trimmed(entries)| && Trimmed(entries)[j] == k;
      assert entries[cut + j] == k;
    }
  }

  /** What a warming write makes of the stored entry: a body is attached without a new revision,
      changed metadata gets one, and an arriving entry without body erases none. */
  ghost predicate WarmedFrom(stored: Option<Entry>, arriving: Entry, w: Entry, seqNo: nat, n: nat) {
    match stored
    case None => n == seqNo + 1 && w == arriving.(rev := n, firstRev := n)
    case Some(e) =>
      && w.uid == e.uid && w.messageID == e.messageID && w.firstRev == e.firstRev
      && w.meta == arriving.meta && w.hasAttachments == arriving.hasAttachments
      && (w.body, w.pgp) == (if arriving.body != "" then (arriving.body, arriving.pgp) else (e.body, e.pgp))
      && (if e.meta == arriving.meta then n == seqNo && w.rev == e.rev else w.rev == n == seqNo + 1)
  }

  /** A warming write touches only the entry of its UID. */
  lemma {:induction false} WarmExact(entries: seq<Entry>, seqNo: nat, arriving: Entry)
    requires DistinctUids(entries)
    ensures var (es, n) := MergedIn(entries, seqNo, arriving);
            && (forall e: Entry :: e.uid != arriving.uid ==> (e in es <==> e in entries))
            && exists w :: w in es && w.uid == arriving.uid && WarmedFrom(EntryOf(entries, arriving.uid), arriving, w, seqNo, n)
  {
    var (es, n) := MergedIn(entries, seqNo, arriving);
    var found := LastAt(entries, arriving.uid);
    hide LastAt;
    var i := if found.Some? then found.value else |entries|;
    assert es[i] in es && WarmedFrom(EntryOf(entries, arriving.uid), arriving, es[i], seqNo, n);
    forall e: Entry | e.uid != arriving.uid
      ensures e in es <==> e in entries
    {
      ReplacedMember(entries, i, es, e);
    }
  }

  lemma {:induction false} ReplacedMember(entries: seq<Entry>, i: nat, es: seq<Entry>, e: Entry)
    requires i <= |entries| && i < |es| && |entries| <= |es| <= |entries| + 1
    requires forall k :: 0 <= k < |es| && k != i ==> k < |entries| && es[k] == entries[k]
    requires (i < |entries| ==> entries[i].uid != e.uid) && es[i].uid != e.uid
    ensures e in es <==> e in entries
  {
    if e in es {
      var k :| 0 <= k < |es| && es[k] == e;
      assert entries[k] == e;
    }
    if e in entries {
      var k :| 0 <= k < |entries| && entries[k] == e;
      assert es[k] == e;
    }
  }
}
