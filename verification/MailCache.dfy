/** The cached top-N window of a mailbox: synchronisation against a live overview list, the
    independent writer that warms bodies, and the read path. */
module MailCache {
  import opened Wrappers
  import opened Text
  import opened Sorting

  const MAX_WINDOW_ENTRIES: nat := 5000

  /** The fields an entry shares with an overview; a change of one of them is a change of the message. */
  datatype Meta = Meta(
    subject: string, sender: string, sentTo: string, cc: string, bcc: string,
    status: string, atUTC: string, keywords: seq<string>)

  datatype PGPInfo = PGPInfo(
    encrypted: bool, signed: bool, verified: bool, signerFingerprint: string, protectedSubject: string)

  const NO_PGP: PGPInfo := PGPInfo(false, false, false, "", "")

  datatype Entry = Entry(
    uid: int,
    messageID: string,
    meta: Meta,
    rev: nat,
    firstRev: nat,
    body: string,
    hasAttachments: bool,
    pgp: PGPInfo)

  datatype Overview = Overview(uid: int, meta: Meta)

  datatype Window = Window(limit: int, seqNo: nat, entries: seq<Entry>)

  const EMPTY_WINDOW: Window := Window(0, 0, [])

  datatype SyncResult = SyncResult(added: seq<Entry>, updated: seq<Entry>, removed: seq<Entry>, cursor: nat)

  function EntryFromOverview(ov: Overview): Entry {
    Entry(ov.uid, Itoa(ov.uid), ov.meta, 0, 0, "", false, NO_PGP)
  }

  predicate ByUid(a: Entry, b: Entry) {
    a.uid < b.uid
  }

  /** The position of the last entry with the UID. */
  function LastAt(entries: seq<Entry>, uid: int): (r: Option<nat>)
    ensures r.Some? ==> r.value < |entries| && entries[r.value].uid == uid
    ensures r == None ==> forall i :: 0 <= i < |entries| ==> entries[i].uid != uid
  {
    if entries == [] then None
    else if entries[|entries| - 1].uid == uid then Some(|entries| - 1)
    else
      assert forall i :: 0 <= i < |entries| - 1 ==> entries[i] == entries[..|entries| - 1][i];
      LastAt(entries[..|entries| - 1], uid)
  }

  function EntryOf(entries: seq<Entry>, uid: int): (r: Option<Entry>)
    ensures r.Some? ==> r.value in entries && r.value.uid == uid
    ensures r == None ==> forall i :: 0 <= i < |entries| ==> entries[i].uid != uid
  {
    match LastAt(entries, uid)
    case None => None
    case Some(i) => Some(entries[i])
  }

  // ---------- Sync on windows ----------

  /** The changed form of a known message: what only the warm path knows is carried over. */
  function Refreshed(prev: Entry, ov: Overview, rev: nat): Entry {
    EntryFromOverview(ov).(rev := rev, firstRev := prev.firstRev, body := prev.body,
                           hasAttachments := prev.hasAttachments, pgp := prev.pgp)
  }

  /** The entries for the live list, and the counter after them. */
  function Reconciled(prev: seq<Entry>, live: seq<Overview>, seqNo: nat): (r: (seq<Entry>, nat))
    ensures |r.0| == |live| && r.1 >= seqNo
  {
    if live == [] then ([], seqNo)
    else
      var (next, n) := Reconciled(prev, live[..|live| - 1], seqNo);
      var ov := live[|live| - 1];
      match EntryOf(prev, ov.uid)
      case None => (next + [EntryFromOverview(ov).(rev := n + 1, firstRev := n + 1)], n + 1)
      case Some(p) =>
        if p.meta != ov.meta then (next + [Refreshed(p, ov, n + 1)], n + 1) else (next + [p], n)
  }

  predicate Resets(win: Window, limit: int) {
    win.limit != 0 && win.limit != limit
  }

  /** The entries a synchronisation compares with: none when the limit changed. */
  function Comparable(win: Window, limit: int): seq<Entry> {
    if Resets(win, limit) then [] else win.entries
  }

  function Synced(win: Window, limit: int, live: seq<Overview>): Window {
    var (next, n) := Reconciled(Comparable(win, limit), live, win.seqNo);
    Window(limit, n, Sort(ByUid, next))
  }

  predicate IsLive(live: seq<Overview>, uid: int) {
    exists i :: 0 <= i < |live| && live[i].uid == uid
  }

  function Fallen(entries: seq<Entry>, live: seq<Overview>): seq<Entry> {
    if entries == [] then []
    else
      Fallen(entries[..|entries| - 1], live)
      + (if IsLive(live, entries[|entries| - 1].uid) then [] else [entries[|entries| - 1]])
  }

  /** Entries changed after `since`, split by whether their UID was in the window before. */
  function Reported(entries: seq<Entry>, since: int, brandNew: bool): seq<Entry> {
    if entries == [] then []
    else
      var e := entries[|entries| - 1];
      Reported(entries[..|entries| - 1], since, brandNew)
      + (if e.rev > since && (e.firstRev > since) == brandNew then [e] else [])
  }

  function SyncDelta(win: Window, limit: int, live: seq<Overview>, since: int): SyncResult {
    var after := Synced(win, limit, live);
    SyncResult(Reported(after.entries, since, true), Reported(after.entries, since, false),
               Fallen(Comparable(win, limit), live), after.seqNo)
  }

  // ---------- Upsert on windows ----------

  /** A stored entry after the writer brought `arriving`: metadata is adopted, a body only if there is one. */
  function Warmed(stored: Entry, arriving: Entry): Entry {
    var e := stored.(meta := arriving.meta, hasAttachments := arriving.hasAttachments);
    if arriving.body != "" then e.(body := arriving.body, pgp := arriving.pgp) else e
  }

  function MergedIn(entries: seq<Entry>, seqNo: nat, arriving: Entry): (r: (seq<Entry>, nat))
    ensures r.1 >= seqNo && |r.0| >= |entries|
  {
    match LastAt(entries, arriving.uid)
    case None => (entries + [arriving.(rev := seqNo + 1, firstRev := seqNo + 1)], seqNo + 1)
    case Some(i) =>
      var e := Warmed(entries[i], arriving);
      if entries[i].meta != arriving.meta then (entries[i := e.(rev := seqNo + 1)], seqNo + 1) else (entries[i := e], seqNo)
  }

  function AllMergedIn(entries: seq<Entry>, seqNo: nat, arriving: seq<Entry>): (r: (seq<Entry>, nat))
    ensures r.1 >= seqNo && |r.0| >= |entries|
  {
    if arriving == [] then (entries, seqNo)
    else
      var (es, n) := AllMergedIn(entries, seqNo, arriving[..|arriving| - 1]);
      MergedIn(es, n, arriving[|arriving| - 1])
  }

  /** The entries with the highest UIDs, as many as a window may hold. */
  function Trimmed(entries: seq<Entry>): (r: seq<Entry>)
    ensures |r| <= MAX_WINDOW_ENTRIES
  {
    if |entries| > MAX_WINDOW_ENTRIES then entries[|entries| - MAX_WINDOW_ENTRIES..] else entries
  }

  function Upserted(win: Window, arriving: seq<Entry>): Window {
    if arriving == [] then win
    else
      var (es, n) := AllMergedIn(win.entries, win.seqNo, arriving);
      Window(win.limit, n, Trimmed(Sort(ByUid, es)))
  }

  // ---------- Snapshot on windows ----------

  predicate AllWarm(entries: seq<Entry>) {
    forall i :: 0 <= i < |entries| ==> entries[i].body != ""
  }

  /** The newest entries, and whether they can be served without asking the mail server. */
  function Shown(win: Window, limit: int): (seq<Entry>, bool) {
    if limit <= 0 then ([], false)
    else if |win.entries| < limit then (win.entries, false)
    else
      var out := win.entries[|win.entries| - limit..];
      (out, AllWarm(out))
  }

  // ---------- The store object ----------

  class Store {
    var mailboxes: map<string, Window>

    constructor ()
      ensures mailboxes == map[]
    {
      mailboxes := map[];
    }

    function WindowOf(key: string): Window
      reads this
    {
      if key in mailboxes then mailboxes[key] else EMPTY_WINDOW
    }

    method Snapshot(key: string, limit: int) returns (out: seq<Entry>, warm: bool)
      ensures (out, warm) == Shown(WindowOf(key), limit)
    {
      if limit <= 0 || key !in mailboxes {
        return [], false;
      }
      var win := mailboxes[key];
      if |win.entries| < limit {
        return win.entries, false;
      }
      out := win.entries[|win.entries| - limit..];
      for i := 0 to |out|
        invariant AllWarm(out[..i])
      {
        if out[i].body == "" {
          return out, false;
        }
      }
      warm := true;
    }

    method Sync(key: string, limit: int, live: seq<Overview>, since: int) returns (result: SyncResult)
      modifies this
      ensures mailboxes == old(mailboxes)[key := Synced(old(WindowOf(key)), limit, live)]
      ensures result == SyncDelta(old(WindowOf(key)), limit, live, since)
    {
      hide Sort;
      ghost var before := mailboxes;
      var win := WindowOf(key);
      var compared := Comparable(win, limit);
      var prevByUID: map<int, Entry> := map[];
      for i := 0 to |compared|
        invariant mailboxes == before
        invariant Indexed(compared[..i], prevByUID)
      {
        IndexStep(compared, i, prevByUID);
        prevByUID := prevByUID[compared[i].uid := compared[i]];
      }
      assert compared[..|compared|] == compared;
      var next, seqNo, liveUIDs := ReconcileLive(compared, prevByUID, live, win.seqNo);
      next := Sort(ByUid, next);
      var removed: seq<Entry> := [];
      for i := 0 to |compared|
        invariant mailboxes == before
        invariant removed == Fallen(compared[..i], live)
      {
        assert compared[..i + 1][..i] == compared[..i];
        if compared[i].uid !in liveUIDs {
          removed := removed + [compared[i]];
        }
      }
      mailboxes := mailboxes[key := Window(limit, seqNo, next)];
      result := SplitReport(next, since, removed, seqNo);
    }

    static method ReconcileLive(compared: seq<Entry>, prevByUID: map<int, Entry>, live: seq<Overview>, start: nat)
      returns (next: seq<Entry>, seqNo: nat, liveUIDs: set<int>)
      requires Indexed(compared, prevByUID)
      ensures (next, seqNo) == Reconciled(compared, live, start)
      ensures forall u :: u in liveUIDs <==> IsLive(live, u)
    {
      next, seqNo, liveUIDs := [], start, {};
      for i := 0 to |live|
        invariant (next, seqNo) == Reconciled(compared, live[..i], start)
        invariant forall u :: u in liveUIDs <==> exists k :: 0 <= k < i && live[k].uid == u
      {
        assert live[..i + 1][..i] == live[..i];
        var ov := live[i];
        liveUIDs := liveUIDs + {ov.uid};
        if ov.uid !in prevByUID {
          seqNo := seqNo + 1;
          next := next + [EntryFromOverview(ov).(rev := seqNo, firstRev := seqNo)];
        } else {
          var prev := prevByUID[ov.uid];
          if prev.meta != ov.meta {
            seqNo := seqNo + 1;
            next := next + [Refreshed(prev, ov, seqNo)];
          } else {
            next := next + [prev];
          }
        }
      }
      assert live[..|live|] == live;
    }

    static method SplitReport(next: seq<Entry>, since: int, removed: seq<Entry>, cursor: nat) returns (result: SyncResult)
      ensures result == SyncResult(Reported(next, since, true), Reported(next, since, false), removed, cursor)
    {
      var added, updated: seq<Entry> := [], [];
      for i := 0 to |next|
        invariant added == Reported(next[..i], since, true)
        invariant updated == Reported(next[..i], since, false)
      {
        assert next[..i + 1][..i] == next[..i];
        var e := next[i];
        if e.rev > since {
          if e.firstRev > since {
            added := added + [e];
          } else {
            updated := updated + [e];
          }
        }
      }
      assert next[..|next|] == next;
      result := SyncResult(added, updated, removed, cursor);
    }

    method Upsert(key: string, arriving: seq<Entry>)
      modifies this
      ensures arriving == [] ==> mailboxes == old(mailboxes)
      ensures arriving != [] ==> mailboxes == old(mailboxes)[key := Upserted(old(WindowOf(key)), arriving)]
    {
      hide Sort;
      if arriving == [] {
        return;
      }
      var win := WindowOf(key);
      var es, seqNo := MergeArriving(win.entries, arriving, win.seqNo);
      es := Sort(ByUid, es);
      if |es| > MAX_WINDOW_ENTRIES {
        es := es[|es| - MAX_WINDOW_ENTRIES..];
      }
      mailboxes := mailboxes[key := Window(win.limit, seqNo, es)];
    }

    static method MergeArriving(stored: seq<Entry>, arriving: seq<Entry>, start: nat) returns (es: seq<Entry>, seqNo: nat)
      ensures (es, seqNo) == AllMergedIn(stored, start, arriving)
    {
      hide Placed, LastAt;
      var byUID: map<int, nat> := map[];
      NothingPlaced();
      for i := 0 to |stored|
        invariant Placed(stored[..i], byUID)
      {
        PlaceStep(stored, i, byUID);
        byUID := byUID[stored[i].uid := i];
      }
      assert stored[..|stored|] == stored;
      es, seqNo := stored, start;
      for k := 0 to |arriving|
        invariant (es, seqNo) == AllMergedIn(stored, start, arriving[..k])
        invariant Placed(es, byUID)
      {
        assert arriving[..k + 1][..k] == arriving[..k];
        var e := arriving[k];
        PlaceOf(es, e.uid, byUID);
        if e.uid !in byUID {
          seqNo := seqNo + 1;
          ghost var before := es;
          es := es + [e.(rev := seqNo, firstRev := seqNo)];
          PlaceAppended(before, es[|before|], byUID);
          byUID := byUID[e.uid := |es| - 1];
        } else {
          var i := byUID[e.uid];
          var updated := es[i];
          var changed := updated.meta != e.meta;
          updated := updated.(meta := e.meta);
          if e.body != "" {
            updated := updated.(body := e.body, pgp := e.pgp);
          }
          updated := updated.(hasAttachments := e.hasAttachments);
          if changed {
            seqNo := seqNo + 1;
            updated := updated.(rev := seqNo);
          }
          PlaceReplaced(es, i, updated, byUID);
          es := es[i := updated];
        }
      }
      assert arriving[..|arriving|] == arriving;
    }
  }

  // ---------- The index maps ----------

  ghost predicate Indexed(entries: seq<Entry>, byUID: map<int, Entry>) {
    && (forall u :: u in byUID <==> EntryOf(entries, u).Some?)
    && (forall u :: u in byUID ==> EntryOf(entries, u) == Some(byUID[u]))
  }

  lemma {:induction false} IndexStep(entries: seq<Entry>, i: nat, byUID: map<int, Entry>)
    requires i < |entries| && Indexed(entries[..i], byUID)
    ensures Indexed(entries[..i + 1], byUID[entries[i].uid := entries[i]])
  {
    assert entries[..i + 1][..i] == entries[..i];
  }

  ghost predicate Placed(entries: seq<Entry>, byUID: map<int, nat>) {
    && (forall u :: u in byUID <==> LastAt(entries, u).Some?)
    && (forall u :: u in byUID ==> LastAt(entries, u) == Some(byUID[u]))
  }

  lemma NothingPlaced()
    ensures Placed([], map[])
  {
  }

  lemma PlaceOf(entries: seq<Entry>, u: int, byUID: map<int, nat>)
    requires Placed(entries, byUID)
    ensures LastAt(entries, u) == if u in byUID then Some(byUID[u]) else None
    ensures u in byUID ==> byUID[u] < |entries| && entries[byUID[u]].uid == u
  {
  }

  lemma {:induction false} PlaceStep(entries: seq<Entry>, i: nat, byUID: map<int, nat>)
    requires i < |entries| && Placed(entries[..i], byUID)
    ensures Placed(entries[..i + 1], byUID[entries[i].uid := i])
  {
    assert entries[..i + 1][..i] == entries[..i];
  }

  lemma {:induction false} PlaceAppended(entries: seq<Entry>, e: Entry, byUID: map<int, nat>)
    requires Placed(entries, byUID)
    ensures Placed(entries + [e], byUID[e.uid := |entries|])
  {
    assert (entries + [e])[..|entries|] == entries;
  }

  lemma {:induction false} PlaceReplaced(entries: seq<Entry>, i: nat, e: Entry, byUID: map<int, nat>)
    requires Placed(entries, byUID) && i < |entries| && e.uid == entries[i].uid
    ensures Placed(entries[i := e], byUID)
  {
    forall u
      ensures LastAt(entries[i := e], u) == LastAt(entries, u)
    {
      LastAtReplaced(entries, i, e, u);
    }
  }

  lemma {:induction false} LastAtReplaced(entries: seq<Entry>, i: nat, e: Entry, u: int)
    requires i < |entries| && e.uid == entries[i].uid
    ensures LastAt(entries[i := e], u) == LastAt(entries, u)
    decreases |entries|
  {
    var n := |entries| - 1;
    if i < n {
      assert entries[i := e][..n] == entries[..n][i := e];
      LastAtReplaced(entries[..n], i, e, u);
    } else {
      assert entries[i := e][..n] == entries[..n];
    }
  }
}
