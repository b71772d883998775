/** What every run of address book operations keeps, delta synchronisation, and the absence of lost
    updates. */
module ContactRuns {
  import opened Text
  import opened Sorting
  import opened ContactModel
  import opened ContactMerge
  import opened DuplicateGraph
  import opened ContactStore

  // ---------- The store invariant and what time changes ----------

  ghost predicate HasUid(cs: seq<Contact>, uid: string) {
    exists i :: 0 <= i < |cs| && cs[i].uid == uid
  }

  /** UIDs are distinct, revisions are positive, distinct and at most the counter, and so is the
      watermark. */
  ghost predicate Inv(st: State) {
    && (forall i :: 0 <= i < |st.contacts| ==> st.contacts[i].uid != "" && 1 <= st.contacts[i].rev <= st.seqNo)
    && (forall i, j :: 0 <= i < j < |st.contacts| ==>
          st.contacts[i].uid != st.contacts[j].uid && st.contacts[i].rev != st.contacts[j].rev)
    && st.gcHighWaterRev <= st.seqNo
  }

  /** The contact `c` of `s0` is still there under its UID in `s`, or the watermark of `s` tells. */
  ghost predicate Accounted(s0: State, s: State, c: Contact) {
    || HasUid(s.contacts, c.uid)
    || s.gcHighWaterRev > s0.seqNo
    || (c.deleted && s.gcHighWaterRev >= c.rev)
  }

  /** `s` may follow `s0`: counters do not go down, whatever was touched has a newer revision than
      any in `s0`, and what is gone is accounted for. */
  ghost predicate Since(s0: State, s: State) {
    && s0.seqNo <= s.seqNo && s0.gcHighWaterRev <= s.gcHighWaterRev
    && (forall i :: 0 <= i < |s.contacts| ==> s.contacts[i].rev > s0.seqNo || s.contacts[i] in s0.contacts)
    && (forall i :: 0 <= i < |s0.contacts| ==> Accounted(s0, s, s0.contacts[i]))
  }

  lemma {:induction false} SinceSelf(s: State)
    ensures Since(s, s)
  {
    forall i | 0 <= i < |s.contacts|
      ensures Accounted(s, s, s.contacts[i])
    {
      assert HasUid(s.contacts, s.contacts[i].uid);
    }
  }

  lemma {:induction false} SinceTrans(a: State, b: State, c: State)
    requires Inv(a) && Since(a, b) && Since(b, c)
    ensures Since(a, c)
  {
    forall i | 0 <= i < |c.contacts|
      ensures c.contacts[i].rev > a.seqNo || c.contacts[i] in a.contacts
    {
      if c.contacts[i] in b.contacts {
        var k :| 0 <= k < |b.contacts| && b.contacts[k] == c.contacts[i];
      }
    }
    forall i | 0 <= i < |a.contacts|
      ensures Accounted(a, c, a.contacts[i])
    {
      assert Accounted(a, b, a.contacts[i]);
      if HasUid(b.contacts, a.contacts[i].uid) {
        var k :| 0 <= k < |b.contacts| && b.contacts[k].uid == a.contacts[i].uid;
        assert Accounted(b, c, b.contacts[k]);
        if b.contacts[k] in a.contacts {
          var m :| 0 <= m < |a.contacts| && a.contacts[m] == b.contacts[k];
          assert m == i;
        }
      }
    }
  }

  lemma {:induction false} StampKeeps(st: State, p: nat, c: Contact, now: Time)
    requires Inv(st) && p < |st.contacts| && c.uid == st.contacts[p].uid
    ensures Inv(Stamp(st, p, c, now)) && Since(st, Stamp(st, p, c, now))
    ensures SameUids(Stamp(st, p, c, now).contacts, st.contacts)
  {
    var s := Stamp(st, p, c, now);
    forall i | 0 <= i < |st.contacts|
      ensures Accounted(st, s, st.contacts[i])
    {
      assert s.contacts[i].uid == st.contacts[i].uid;
    }
    forall i | 0 <= i < |s.contacts|
      ensures s.contacts[i].rev > st.seqNo || s.contacts[i] in st.contacts
    {
      if i != p {
        assert s.contacts[i] == st.contacts[i];
      }
    }
  }

  lemma {:induction false} AppendKeeps(st: State, c: Contact, now: Time)
    requires Inv(st) && c.uid != "" && !HasUid(st.contacts, c.uid)
    ensures Inv(Append(st, c, now)) && Since(st, Append(st, c, now))
  {
    var s := Append(st, c, now);
    forall i | 0 <= i < |st.contacts|
      ensures Accounted(st, s, st.contacts[i])
    {
      assert s.contacts[i].uid == st.contacts[i].uid;
    }
    forall i | 0 <= i < |s.contacts|
      ensures s.contacts[i].rev > st.seqNo || s.contacts[i] in st.contacts
    {
      if i < |st.contacts| {
        assert s.contacts[i] == st.contacts[i];
      }
    }
  }

  ghost predicate SameUids(a: seq<Contact>, b: seq<Contact>) {
    |a| == |b| && forall i :: 0 <= i < |a| ==> a[i].uid == b[i].uid
  }

  // ---------- Garbage collection ----------

  lemma {:induction false} KeptExact(cs: seq<Contact>, cutoff: int, old_: nat)
    ensures forall i :: 0 <= i < |Kept(cs, cutoff)| ==> Kept(cs, cutoff)[i] in cs && !Expired(Kept(cs, cutoff)[i], cutoff)
    ensures forall i :: 0 <= i < |cs| ==> cs[i] in Kept(cs, cutoff) || (Expired(cs[i], cutoff) && cs[i].rev <= Watermark(cs, cutoff, old_))
    ensures Watermark(cs, cutoff, old_) >= old_
    ensures Watermark(cs, cutoff, old_) == old_ || exists i :: 0 <= i < |cs| && cs[i].rev == Watermark(cs, cutoff, old_)
    decreases |cs|
  {
    hide Expired;
    if cs != [] {
      var n := |cs| - 1;
      KeptExact(cs[..n], cutoff, old_);
      assert cs == cs[..n] + [cs[n]];
      assert forall i :: 0 <= i < n ==> cs[..n][i] == cs[i];
      if exists i :: 0 <= i < |cs[..n]| && cs[..n][i].rev == Watermark(cs[..n], cutoff, old_) {
        var i :| 0 <= i < |cs[..n]| && cs[..n][i].rev == Watermark(cs[..n], cutoff, old_);
        assert cs[i].rev == Watermark(cs[..n], cutoff, old_);
      }
    }
  }

  ghost predicate AllDistinct(cs: seq<Contact>) {
    forall i, j :: 0 <= i < j < |cs| ==> cs[i].uid != cs[j].uid && cs[i].rev != cs[j].rev
  }

  lemma {:induction false} TakeDistinct(cs: seq<Contact>, n: nat)
    requires n <= |cs| && AllDistinct(cs)
    ensures AllDistinct(cs[..n])
  {
    assert forall i :: 0 <= i < n ==> cs[..n][i] == cs[i];
  }

  /** A sublist of the contacts before the last, followed by the last. */
  lemma {:induction false} AppendDistinct(cs: seq<Contact>, k: seq<Contact>)
    requires cs != [] && AllDistinct(cs) && AllDistinct(k)
    requires forall c :: c in k ==> c in cs[..|cs| - 1]
    ensures AllDistinct(k + [cs[|cs| - 1]])
  {
    var n := |cs| - 1;
    forall i | 0 <= i < |k|
      ensures k[i].uid != cs[n].uid && k[i].rev != cs[n].rev
    {
      assert k[i] in k;
      var m :| 0 <= m < n && cs[..n][m] == k[i];
      assert cs[m] == k[i];
    }
  }

  /** Kept contacts stay in order, so none appears twice. */
  lemma {:induction false} KeptDistinct(cs: seq<Contact>, cutoff: int)
    requires AllDistinct(cs)
    ensures AllDistinct(Kept(cs, cutoff))
    decreases |cs|
  {
    if cs != [] {
      var n := |cs| - 1;
      TakeDistinct(cs, n);
      KeptDistinct(cs[..n], cutoff);
      KeptExact(cs[..n], cutoff, 0);
      hide Expired;
      var k := Kept(cs[..n], cutoff);
      assert forall c :: c in k ==> c in cs[..n];
      AppendDistinct(cs, k);
      hide AllDistinct;
      assert k + [] == k;
    }
  }

  lemma {:induction false} PurgeInv(st: State, now: Time, retention: int)
    requires Inv(st)
    ensures Inv(Purged(st, now, retention))
  {
    var cutoff := Cutoff(now, retention);
    var s := Purged(st, now, retention);
    KeptExact(st.contacts, cutoff, st.gcHighWaterRev);
    assert AllDistinct(st.contacts);
    KeptDistinct(st.contacts, cutoff);
    hide Kept, Watermark, Expired, Cutoff;
    forall i | 0 <= i < |s.contacts|
      ensures s.contacts[i].uid != "" && 1 <= s.contacts[i].rev <= s.seqNo
    {
      var k :| 0 <= k < |st.contacts| && st.contacts[k] == s.contacts[i];
    }
  }

  lemma {:induction false} PurgeSince(st: State, now: Time, retention: int)
    ensures Since(st, Purged(st, now, retention))
  {
    var cutoff := Cutoff(now, retention);
    var s := Purged(st, now, retention);
    KeptExact(st.contacts, cutoff, st.gcHighWaterRev);
    hide Kept, Watermark, Cutoff;
    forall i | 0 <= i < |st.contacts|
      ensures Accounted(st, s, st.contacts[i])
    {
      if st.contacts[i] in s.contacts {
        var k :| 0 <= k < |s.contacts| && s.contacts[k] == st.contacts[i];
        assert HasUid(s.contacts, st.contacts[i].uid);
      }
    }
  }

  // ---------- The self mark ----------

  lemma {:induction false} OthersClearedKeeps(st: State, idx: nat, n: nat, now: Time)
    requires Inv(st) && n <= |st.contacts|
    ensures var s := OthersCleared(st, idx, n, now);
            Inv(s) && Since(st, s) && SameUids(s.contacts, st.contacts)
    decreases n
  {
    hide Inv, Since, Stamp;
    if n == 0 {
      SinceSelf(st);
    } else {
      OthersClearedKeeps(st, idx, n - 1, now);
      var s := OthersCleared(st, idx, n - 1, now);
      if n - 1 != idx && s.contacts[n - 1].isSelf {
        StampKeeps(s, n - 1, s.contacts[n - 1].(isSelf := false), now);
        SinceTrans(st, s, OthersCleared(st, idx, n, now));
      }
    }
  }

  lemma {:induction false} SelfSetKeeps(st: State, uid: string, self: bool, now: Time)
    requires Inv(st)
    ensures Inv(SelfSet(st, uid, self, now)) && Since(st, SelfSet(st, uid, self, now))
  {
    SinceSelf(st);
    var found := Find(st.contacts, uid);
    if found.Some? {
      var i := found.value;
      OthersClearedKeeps(st, i, |st.contacts|, now);
      var s := if self then OthersCleared(st, i, |st.contacts|, now) else st;
      if s.contacts[i].isSelf != self {
        StampKeeps(s, i, s.contacts[i].(isSelf := self), now);
        SinceTrans(st, s, SelfSet(st, uid, self, now));
      }
    }
  }

  // ---------- Deduplication ----------

  ghost predicate UidsDistinct(cs: seq<Contact>) {
    forall i, j :: 0 <= i < j < |cs| ==> cs[i].uid != cs[j].uid
  }

  /** The position of a member's UID is that member's position. */
  lemma {:induction false} PosOfExact(cs: seq<Contact>, g: seq<nat>, p: nat)
    requires g != [] && InRange(cs, g) && UidsDistinct(cs) && p in g && p < |cs|
    ensures PosOf(cs, g, cs[p].uid) == p
    decreases |g|
  {
    if g[0] != p {
      assert forall i :: 0 <= i < |g[1..]| ==> g[1..][i] == g[i + 1];
      var k :| 0 <= k < |g| && g[k] == p;
      assert g[1..][k - 1] == p;
      PosOfExact(cs, g[1..], p);
    }
  }

  /** The survivor is one of the members, and the absorbed UIDs are those of the others. */
  lemma {:induction false} SurvivorIsMember(members: seq<Contact>)
    requires members != []
    ensures exists i :: 0 <= i < |members| && members[i].uid == Survivor(members).uid
    ensures forall u :: u in Absorbed(members) ==> exists i :: 0 <= i < |members| && members[i].uid == u
  {
    hide OlderThan, Less, MergedCard, MergedUIDs;
    SortPermutes(OlderThan, members);
    SortMembers(OlderThan, members);
    var ordered := Sort(OlderThan, members);
    assert ordered[0] in members;
    var uids := Uids(ordered[1..]);
    SortMembers(Less, uids);
    forall u | u in Absorbed(members)
      ensures exists i :: 0 <= i < |members| && members[i].uid == u
    {
      var k :| 0 <= k < |uids| && uids[k] == u;
      assert ordered[k + 1] in members;
    }
  }

  lemma {:induction false} MemberPosition(cs: seq<Contact>, g: seq<nat>, uid: string)
    requires g != [] && InRange(cs, g) && UidsDistinct(cs)
    requires exists i :: 0 <= i < |Pick(cs, g)| && Pick(cs, g)[i].uid == uid
    ensures PosOf(cs, g, uid) < |cs| && cs[PosOf(cs, g, uid)].uid == uid
  {
    var i :| 0 <= i < |Pick(cs, g)| && Pick(cs, g)[i].uid == uid;
    assert g[i] in g && cs[g[i]].uid == uid;
    PosOfExact(cs, g, g[i]);
  }

  lemma {:induction false} RetiredKeeps(start: State, st: State, cs: seq<Contact>, g: seq<nat>, absorbed: seq<string>,
                                        into: string, now: Time)
    requires Inv(start) && Inv(st) && Since(start, st) && SameUids(st.contacts, cs)
    requires g != [] && InRange(cs, g) && UidsDistinct(cs)
    requires forall u :: u in absorbed ==> exists i :: 0 <= i < |Pick(cs, g)| && Pick(cs, g)[i].uid == u
    ensures var s := Retired(st, cs, g, absorbed, into, now);
            Inv(s) && Since(start, s) && SameUids(s.contacts, cs)
    decreases |absorbed|
  {
    hide Inv, Since;
    if absorbed != [] {
      var n := |absorbed| - 1;
      assert forall u :: u in absorbed[..n] ==> u in absorbed;
      RetiredKeeps(start, st, cs, g, absorbed[..n], into, now);
      var before := Retired(st, cs, g, absorbed[..n], into, now);
      var u := absorbed[n];
      assert u in absorbed;
      MemberPosition(cs, g, u);
      var p := PosOf(cs, g, u);
      StampKeeps(before, p, Tombstone(before.contacts[p]).(mergedInto := into), now);
      SinceTrans(start, before, Retired(st, cs, g, absorbed, into, now));
    }
  }

  lemma {:induction false} GroupMergedKeeps(start: State, st: State, cs: seq<Contact>, g: seq<nat>, now: Time)
    requires Inv(start) && Inv(st) && Since(start, st) && SameUids(st.contacts, cs)
    requires g != [] && InRange(cs, g) && UidsDistinct(cs)
    ensures var s := GroupMerged(st, cs, g, now);
            Inv(s) && Since(start, s) && SameUids(s.contacts, cs)
  {
    hide Inv, Since, ShouldMerge, Survivor, Absorbed, Stamp;
    var members := Pick(cs, g);
    if ShouldMerge(members) {
      SurvivorIsMember(members);
      var survivor := Survivor(members);
      MemberPosition(cs, g, survivor.uid);
      var p := PosOf(cs, g, survivor.uid);
      StampKeeps(st, p, survivor, now);
      SinceTrans(start, st, Stamp(st, p, survivor, now));
      RetiredKeeps(start, Stamp(st, p, survivor, now), cs, g, Absorbed(members), survivor.uid, now);
    }
  }

  lemma {:induction false} GroupsMergedKeeps(st: State, groups: seq<seq<nat>>, now: Time)
    requires Inv(st) && GroupsInRange(st.contacts, groups)
    ensures var s := GroupsMerged(st, st.contacts, groups, now);
            Inv(s) && Since(st, s) && SameUids(s.contacts, st.contacts)
    decreases |groups|
  {
    assert UidsDistinct(st.contacts);
    hide Inv, Since, UidsDistinct, GroupMerged;
    if groups == [] {
      SinceSelf(st);
    } else {
      var n := |groups| - 1;
      assert forall k :: 0 <= k < n ==> groups[..n][k] == groups[k];
      GroupsMergedKeeps(st, groups[..n], now);
      GroupMergedKeeps(st, GroupsMerged(st, st.contacts, groups[..n], now), st.contacts, groups[n], now);
    }
  }

  // ---------- Runs ----------

  datatype Op =
    | Put(c: Contact, pre: Precondition, newUid: string, now: Time)
    | Remove(uid: string, now: Time)
    | MarkSelf(uid: string, self: bool, now: Time)
    | Deduplicate(groups: seq<seq<nat>>, now: Time)
    | Purge(now: Time, retention: int)

  /** A generated UID is not in use, and a deduplication works on the duplicate groups. */
  ghost predicate Enabled(st: State, op: Op) {
    match op
    case Put(c, _, newUid, _) => c.uid == "" ==> newUid != "" && !HasUid(st.contacts, newUid)
    case Deduplicate(groups, _) => AreGroups(st.contacts, Live(st.contacts), groups)
    case _ => true
  }

  ghost function Apply(st: State, op: Op): State
    requires Enabled(st, op)
  {
    match op
    case Put(c, pre, newUid, now) => if Permits(st, c.uid, pre) then Upserted(st, c, newUid, now) else st
    case Remove(uid, now) => Deleted(st, uid, now)
    case MarkSelf(uid, self, now) => SelfSet(st, uid, self, now)
    case Deduplicate(groups, now) => GroupsRange(st.contacts, groups); GroupsMerged(st, st.contacts, groups, now)
    case Purge(now, retention) => Purged(st, now, retention)
  }

  lemma {:induction false} UpsertKeeps(st: State, c: Contact, newUid: string, now: Time)
    requires Inv(st) && (c.uid == "" ==> newUid != "" && !HasUid(st.contacts, newUid))
    ensures Inv(Upserted(st, c, newUid, now)) && Since(st, Upserted(st, c, newUid, now))
  {
    hide Inv, Since, Stamp, Append;
    if c.uid == "" {
      AppendKeeps(st, c.(deleted := false, uid := newUid, createdAt := now), now);
    } else {
      match Find(st.contacts, c.uid)
      case None => AppendKeeps(st, c.(deleted := false, createdAt := now), now);
      case Some(i) =>
        var existing := st.contacts[i];
        StampKeeps(st, i, c.(deleted := false,
                             createdAt := if c.createdAt == 0 then existing.createdAt else c.createdAt,
                             isSelf := existing.isSelf), now);
    }
  }

  /** Every operation keeps the invariant, gives what it touches a newer revision and leaves the rest
      unchanged. */
  lemma {:induction false} StepKeeps(st: State, op: Op)
    requires Inv(st) && Enabled(st, op)
    ensures Inv(Apply(st, op)) && Since(st, Apply(st, op))
  {
    hide Inv, Since, AreGroups, Upserted, SelfSet, Purged, Stamp, GroupsMerged;
    SinceSelf(st);
    match op {
      case Put(c, pre, newUid, now) => UpsertKeeps(st, c, newUid, now);
      case Remove(uid, now) =>
        var found := Find(st.contacts, uid);
        if found.Some? {
          StampKeeps(st, found.value, Tombstone(st.contacts[found.value]), now);
        }
      case MarkSelf(uid, self, now) => SelfSetKeeps(st, uid, self, now);
      case Deduplicate(groups, now) =>
        GroupsRange(st.contacts, groups);
        GroupsMergedKeeps(st, groups, now);
      case Purge(now, retention) =>
        PurgeInv(st, now, retention);
        PurgeSince(st, now, retention);
    }
  }

  ghost predicate Runnable(st: State, ops: seq<Op>)
    decreases |ops|
  {
    ops == [] || (Enabled(st, ops[0]) && Runnable(Apply(st, ops[0]), ops[1..]))
  }

  ghost function Run(st: State, ops: seq<Op>): State
    requires Runnable(st, ops)
    decreases |ops|
  {
    if ops == [] then st else Run(Apply(st, ops[0]), ops[1..])
  }

  /** The invariant holds after every run, and the end of a run is a successor of its start. */
  lemma {:induction false} RunKeeps(st: State, ops: seq<Op>)
    requires Inv(st) && Runnable(st, ops)
    ensures Inv(Run(st, ops)) && Since(st, Run(st, ops))
    decreases |ops|
  {
    hide Inv, Since, Enabled, Apply;
    if ops == [] {
      SinceSelf(st);
    } else {
      StepKeeps(st, ops[0]);
      RunKeeps(Apply(st, ops[0]), ops[1..]);
      SinceTrans(st, Apply(st, ops[0]), Run(st, ops));
    }
  }

  // ---------- Delta synchronisation ----------

  type Replica = map<string, Contact>

  /** The replica is the live set, by UID. */
  ghost predicate Mirrors(replica: Replica, cs: seq<Contact>) {
    && (forall i :: 0 <= i < |cs| && !cs[i].deleted ==> cs[i].uid in replica && replica[cs[i].uid] == cs[i])
    && (forall u :: u in replica ==> exists i :: 0 <= i < |cs| && !cs[i].deleted && cs[i].uid == u)
  }

  function WithAll(replica: Replica, cs: seq<Contact>): Replica {
    if cs == [] then replica
    else WithAll(replica, cs[..|cs| - 1])[cs[|cs| - 1].uid := cs[|cs| - 1]]
  }

  function WithoutAll(replica: Replica, cs: seq<Contact>): Replica {
    if cs == [] then replica
    else WithoutAll(replica, cs[..|cs| - 1]) - {cs[|cs| - 1].uid}
  }

  /** What a client makes of a delta. */
  function Patched(replica: Replica, d: Delta): Replica {
    WithAll(WithoutAll(replica, d.deleted), d.changed)
  }

  lemma {:induction false} WithoutAllExact(replica: Replica, cs: seq<Contact>)
    ensures forall u :: u in WithoutAll(replica, cs) <==> u in replica && !HasUid(cs, u)
    ensures forall u :: u in WithoutAll(replica, cs) ==> WithoutAll(replica, cs)[u] == replica[u]
    decreases |cs|
  {
    if cs != [] {
      var n := |cs| - 1;
      WithoutAllExact(replica, cs[..n]);
      forall u
        ensures HasUid(cs, u) <==> HasUid(cs[..n], u) || cs[n].uid == u
      {
        HasUidLast(cs, u);
      }
    }
  }

  lemma {:induction false} HasUidLast(cs: seq<Contact>, u: string)
    requires cs != []
    ensures HasUid(cs, u) <==> HasUid(cs[..|cs| - 1], u) || cs[|cs| - 1].uid == u
  {
    var n := |cs| - 1;
    if HasUid(cs[..n], u) {
      var i :| 0 <= i < |cs[..n]| && cs[..n][i].uid == u;
      assert cs[i].uid == u;
    }
    if HasUid(cs, u) && cs[n].uid != u {
      var i :| 0 <= i < |cs| && cs[i].uid == u;
      assert cs[..n][i].uid == u;
    }
  }

  lemma {:induction false} WithAllExact(replica: Replica, cs: seq<Contact>)
    requires UidsDistinct(cs)
    ensures forall u :: u in WithAll(replica, cs) <==> u in replica || HasUid(cs, u)
    ensures forall i :: 0 <= i < |cs| ==> cs[i].uid in WithAll(replica, cs) && WithAll(replica, cs)[cs[i].uid] == cs[i]
    ensures forall u :: u in replica && !HasUid(cs, u) ==> WithAll(replica, cs)[u] == replica[u]
    decreases |cs|
  {
    if cs != [] {
      var n := |cs| - 1;
      WithAllExact(replica, cs[..n]);
      forall u
        ensures HasUid(cs, u) <==> HasUid(cs[..n], u) || cs[n].uid == u
      {
        HasUidLast(cs, u);
      }
      forall i | 0 <= i < |cs|
        ensures WithAll(replica, cs)[cs[i].uid] == cs[i]
      {
        if i < n {
          assert cs[..n][i] == cs[i];
        }
      }
    }
  }

  lemma {:induction false} NewerExact(cs: seq<Contact>, rev: int, deleted: bool)
    ensures forall c :: c in NewerThanRev(cs, rev, deleted) <==> c in cs && c.rev > rev && c.deleted == deleted
    decreases |cs|
  {
    if cs != [] {
      NewerExact(cs[..|cs| - 1], rev, deleted);
      assert cs == cs[..|cs| - 1] + [cs[|cs| - 1]];
    }
  }

  lemma {:induction false} NewerDistinct(cs: seq<Contact>, rev: int, deleted: bool)
    requires AllDistinct(cs)
    ensures AllDistinct(NewerThanRev(cs, rev, deleted))
    decreases |cs|
  {
    if cs != [] {
      var n := |cs| - 1;
      TakeDistinct(cs, n);
      NewerDistinct(cs[..n], rev, deleted);
      NewerExact(cs[..n], rev, deleted);
      var k := NewerThanRev(cs[..n], rev, deleted);
      AppendDistinct(cs, k);
      hide AllDistinct;
      assert k + [] == k;
    }
  }

  /** A replica that equalled the live set when its cursor was issued equals the current live set
      after applying the changes since that cursor, unless the cursor is too old. */
  lemma {:induction false} DeltaConverges(s0: State, s: State, replica: Replica)
    requires Inv(s0) && Inv(s) && Since(s0, s) && Mirrors(replica, s0.contacts)
    requires !Changes(s, s0.seqNo).tooOld
    ensures Mirrors(Patched(replica, Changes(s, s0.seqNo)), s.contacts)
  {
    hide Inv, Since, Patched, Changes;
    forall i | 0 <= i < |s.contacts| && !s.contacts[i].deleted
      ensures var patched := Patched(replica, Changes(s, s0.seqNo));
              s.contacts[i].uid in patched && patched[s.contacts[i].uid] == s.contacts[i]
    {
      LiveArrives(s0, s, replica, i);
    }
    forall u | u in Patched(replica, Changes(s, s0.seqNo))
      ensures exists i :: 0 <= i < |s.contacts| && !s.contacts[i].deleted && s.contacts[i].uid == u
    {
      OnlyLiveStays(s0, s, replica, u);
    }
  }

  /** Nothing else stays in the replica. */
  lemma {:induction false} OnlyLiveStays(s0: State, s: State, replica: Replica, u: string)
    requires Inv(s0) && Inv(s) && Since(s0, s) && Mirrors(replica, s0.contacts)
    requires !Changes(s, s0.seqNo).tooOld && u in Patched(replica, Changes(s, s0.seqNo))
    ensures exists i :: 0 <= i < |s.contacts| && !s.contacts[i].deleted && s.contacts[i].uid == u
  {
    var d := Changes(s, s0.seqNo);
    NewerExact(s.contacts, s0.seqNo, false);
    assert AllDistinct(s.contacts);
    NewerDistinct(s.contacts, s0.seqNo, false);
    WithoutAllExact(replica, d.deleted);
    WithAllExact(WithoutAll(replica, d.deleted), d.changed);
    if HasUid(d.changed, u) {
      hide Inv, Since, Mirrors, NewerThanRev, WithAll, WithoutAll, AllDistinct;
      var k :| 0 <= k < |d.changed| && d.changed[k].uid == u;
      assert d.changed[k] in d.changed;
    } else {
      hide Inv, Since, Mirrors, NewerThanRev, WithAll, WithoutAll, AllDistinct;
      StaleLeaves(s0, s, replica, u);
    }
  }

  /** Every live contact reaches the replica. */
  lemma {:induction false} LiveArrives(s0: State, s: State, replica: Replica, i: nat)
    requires Inv(s0) && Inv(s) && Since(s0, s) && Mirrors(replica, s0.contacts)
    requires !Changes(s, s0.seqNo).tooOld && i < |s.contacts| && !s.contacts[i].deleted
    ensures var patched := Patched(replica, Changes(s, s0.seqNo));
            s.contacts[i].uid in patched && patched[s.contacts[i].uid] == s.contacts[i]
  {
    var d, c := Changes(s, s0.seqNo), s.contacts[i];
    NewerExact(s.contacts, s0.seqNo, false);
    NewerExact(s.contacts, s0.seqNo, true);
    assert AllDistinct(s.contacts);
    NewerDistinct(s.contacts, s0.seqNo, false);
    WithoutAllExact(replica, d.deleted);
    WithAllExact(WithoutAll(replica, d.deleted), d.changed);
    hide NewerThanRev, WithAll, WithoutAll;
    if c.rev > s0.seqNo {
      assert c in d.changed;
      var k :| 0 <= k < |d.changed| && d.changed[k] == c;
    } else {
      var k :| 0 <= k < |s0.contacts| && s0.contacts[k] == c;
      assert replica[c.uid] == c;
      NotListed(s, s0.seqNo, false, i);
      NotListed(s, s0.seqNo, true, i);
    }
  }

  /** An untouched contact's UID is in neither list. */
  lemma {:induction false} NotListed(s: State, rev: nat, deleted: bool, i: nat)
    requires Inv(s) && i < |s.contacts| && s.contacts[i].rev <= rev
    ensures !HasUid(NewerThanRev(s.contacts, rev, deleted), s.contacts[i].uid)
  {
    NewerExact(s.contacts, rev, deleted);
    hide NewerThanRev;
    var list := NewerThanRev(s.contacts, rev, deleted);
    forall k | 0 <= k < |list|
      ensures list[k].uid != s.contacts[i].uid
    {
      assert list[k] in list;
      var m :| 0 <= m < |s.contacts| && s.contacts[m] == list[k];
      assert m != i;
    }
  }

  /** What stays in the replica untouched is still live. */
  lemma {:induction false} StaleLeaves(s0: State, s: State, replica: Replica, u: string)
    requires Inv(s0) && Inv(s) && Since(s0, s) && Mirrors(replica, s0.contacts)
    requires !Changes(s, s0.seqNo).tooOld
    requires u in replica && !HasUid(Changes(s, s0.seqNo).deleted, u)
    ensures exists i :: 0 <= i < |s.contacts| && !s.contacts[i].deleted && s.contacts[i].uid == u
  {
    NewerExact(s.contacts, s0.seqNo, true);
    hide NewerThanRev;
    var k :| 0 <= k < |s0.contacts| && !s0.contacts[k].deleted && s0.contacts[k].uid == u;
    assert Accounted(s0, s, s0.contacts[k]);
    assert s0.seqNo > 0;
    var i :| 0 <= i < |s.contacts| && s.contacts[i].uid == u;
    NotAmong(Changes(s, s0.seqNo).deleted, s.contacts[i]);
    if s.contacts[i] in s0.contacts {
      var m :| 0 <= m < |s0.contacts| && s0.contacts[m] == s.contacts[i];
      assert m == k;
    }
  }

  lemma NotAmong(cs: seq<Contact>, c: Contact)
    ensures !HasUid(cs, c.uid) ==> c !in cs
  {
  }

  // ---------- A client over a whole run ----------

  datatype Event = Happen(op: Op) | Poll

  datatype Client = Client(replica: Replica, cursor: nat)

  const NEW_CLIENT: Client := Client(map[], 0)

  /** A poll fetches the changes since the cursor, or everything when the cursor is too old. */
  function Polled(st: State, client: Client): Client {
    var d := Changes(st, client.cursor);
    if d.tooOld then Client(Patched(map[], Changes(st, 0)), st.seqNo) else Client(Patched(client.replica, d), d.cursor)
  }

  ghost predicate Playable(st: State, events: seq<Event>)
    decreases |events|
  {
    if events == [] then true
    else if events[0].Poll? then Playable(st, events[1..])
    else Enabled(st, events[0].op) && Playable(Apply(st, events[0].op), events[1..])
  }

  ghost function Played(st: State, client: Client, events: seq<Event>): (State, Client)
    requires Playable(st, events)
    decreases |events|
  {
    if events == [] then (st, client)
    else if events[0].Poll? then Played(st, Polled(st, client), events[1..])
    else Played(Apply(st, events[0].op), client, events[1..])
  }

  /** The client's replica is the live set of the state `s0` its cursor comes from. */
  ghost predicate Synced(s0: State, st: State, client: Client) {
    Inv(s0) && Inv(st) && Since(s0, st) && client.cursor == s0.seqNo && Mirrors(client.replica, s0.contacts)
  }

  lemma {:induction false} PollSyncs(s0: State, st: State, client: Client)
    requires Synced(s0, st, client)
    ensures Synced(st, st, Polled(st, client))
  {
    SinceSelf(st);
    hide Since, Inv, Patched, Mirrors;
    if Changes(st, client.cursor).tooOld {
      SinceEmpty(st);
      DeltaConverges(EMPTY_STATE, st, map[]);
    } else {
      DeltaConverges(s0, st, client.replica);
    }
  }

  lemma {:induction false} SinceEmpty(st: State)
    requires Inv(st)
    ensures Inv(EMPTY_STATE) && Since(EMPTY_STATE, st) && Mirrors(map[], EMPTY_STATE.contacts)
  {
  }

  lemma {:induction false} PlayKeepsSynced(s0: State, st: State, client: Client, events: seq<Event>)
    requires Synced(s0, st, client) && Playable(st, events)
    ensures var (st', client') := Played(st, client, events);
            && Inv(st')
            && (events != [] && events[|events| - 1].Poll? ==> Mirrors(client'.replica, st'.contacts))
    decreases |events|
  {
    hide Since, Inv, Mirrors, Polled, Enabled, Apply;
    if events != [] {
      if events[0].Poll? {
        PollSyncs(s0, st, client);
        PlayKeepsSynced(st, st, Polled(st, client), events[1..]);
      } else {
        StepKeeps(st, events[0].op);
        SinceTrans(s0, st, Apply(st, events[0].op));
        PlayKeepsSynced(s0, Apply(st, events[0].op), client, events[1..]);
      }
    }
  }

  /** Synchronisation converges on every run: however creations, replacements, deletions, self marks,
      deduplications, purges and polls interleave, a client that starts empty holds exactly the live
      contacts after each of its polls. */
  lemma {:induction false} ClientConverges(events: seq<Event>)
    requires Playable(EMPTY_STATE, events)
    requires events != [] && events[|events| - 1].Poll?
    ensures var (st, client) := Played(EMPTY_STATE, NEW_CLIENT, events); Mirrors(client.replica, st.contacts)
  {
    SinceEmpty(EMPTY_STATE);
    PlayKeepsSynced(EMPTY_STATE, EMPTY_STATE, NEW_CLIENT, events);
  }

  // ---------- No lost update ----------

  /** The conditional write succeeds with If-Match on `etag`. */
  ghost predicate Wins(st: State, op: Op, uid: string, etag: string) {
    op.Put? && op.c.uid == uid && op.pre.requireETag == etag != "" && Permits(st, uid, op.pre)
  }

  ghost predicate HasRevision(cs: seq<Contact>, uid: string, rev: nat) {
    exists i :: 0 <= i < |cs| && cs[i].uid == uid && cs[i].rev == rev
  }

  ghost function StateAt(st: State, ops: seq<Op>, k: nat): State
    requires Runnable(st, ops) && k <= |ops|
    decreases |ops|
  {
    if k == 0 then st else StateAt(Apply(st, ops[0]), ops[1..], k - 1)
  }

  lemma {:induction false} StateAtKeeps(st: State, ops: seq<Op>, j: nat, k: nat)
    requires Inv(st) && Runnable(st, ops) && j <= k <= |ops|
    ensures Inv(StateAt(st, ops, j)) && Since(StateAt(st, ops, j), StateAt(st, ops, k))
    ensures j < |ops| ==> Enabled(StateAt(st, ops, j), ops[j])
    ensures j < |ops| ==> StateAt(st, ops, j + 1) == Apply(StateAt(st, ops, j), ops[j])
    decreases |ops|
  {
    hide Inv, Since, Enabled, Apply;
    if ops == [] {
      SinceSelf(st);
    } else {
      StepKeeps(st, ops[0]);
      var next := Apply(st, ops[0]);
      if j > 0 {
        StateAtKeeps(next, ops[1..], j - 1, k - 1);
      } else if k > 0 {
        StateAtKeeps(next, ops[1..], 0, k - 1);
        SinceTrans(st, next, StateAt(st, ops, k));
      } else {
        SinceSelf(st);
      }
    }
  }

  /** A revision that is not in the store although it was issued before never comes back, through
      tombstones, purges and re-creation under the same UID. */
  lemma {:induction false} SupersededStaysGone(s: State, later: State, uid: string, rev: nat)
    requires Inv(s) && Since(s, later) && rev <= s.seqNo && !HasRevision(s.contacts, uid, rev)
    ensures !HasRevision(later.contacts, uid, rev)
  {
    forall i | 0 <= i < |later.contacts|
      ensures !(later.contacts[i].uid == uid && later.contacts[i].rev == rev)
    {
      if later.contacts[i] in s.contacts {
        var k :| 0 <= k < |s.contacts| && s.contacts[k] == later.contacts[i];
      }
    }
  }

  /** A successful conditional write supersedes the revision its ETag names. */
  lemma {:induction false} WinSupersedes(st: State, op: Op, uid: string, etag: string) returns (rev: nat)
    requires Inv(st) && Enabled(st, op) && Wins(st, op, uid, etag)
    ensures ETagForRev(rev) == etag && rev <= st.seqNo && HasRevision(st.contacts, uid, rev)
    ensures !HasRevision(Apply(st, op).contacts, uid, rev)
  {
    var i := Find(st.contacts, uid).value;
    rev := st.contacts[i].rev;
    assert HasRevision(st.contacts, uid, rev);
    var s := Apply(st, op);
    assert st.contacts[i].uid != "";
    assert s.contacts[i].rev == st.seqNo + 1 && s.contacts[i].uid == uid;
    assert forall k :: 0 <= k < |s.contacts| && k != i ==> s.contacts[k] == st.contacts[k];
  }

  lemma {:induction false} WinNeedsRevision(st: State, op: Op, uid: string, etag: string, rev: nat)
    requires Wins(st, op, uid, etag) && ETagForRev(rev) == etag
    ensures HasRevision(st.contacts, uid, rev)
  {
    var i := Find(st.contacts, uid).value;
    ETagInjective(st.contacts[i].rev, rev);
  }

  /** No lost update: over any run, at most one conditional write with a given UID and ETag succeeds. */
  lemma {:induction false} NoLostUpdate(st: State, ops: seq<Op>, j: nat, k: nat, uid: string, etag: string)
    requires Inv(st) && Runnable(st, ops) && j < k < |ops|
    requires Wins(StateAt(st, ops, j), ops[j], uid, etag)
    ensures !Wins(StateAt(st, ops, k), ops[k], uid, etag)
  {
    hide Inv, Since, Enabled, Apply, Wins, HasRevision;
    StateAtKeeps(st, ops, j, k);
    StateAtKeeps(st, ops, j + 1, k);
    var s, next := StateAt(st, ops, j), StateAt(st, ops, j + 1);
    var rev := WinSupersedes(s, ops[j], uid, etag);
    StepKeeps(s, ops[j]);
    SinceCounts(s, next);
    SupersededStaysGone(next, StateAt(st, ops, k), uid, rev);
    if Wins(StateAt(st, ops, k), ops[k], uid, etag) {
      WinNeedsRevision(StateAt(st, ops, k), ops[k], uid, etag, rev);
    }
  }

  lemma SinceCounts(a: State, b: State)
    requires Since(a, b)
    ensures a.seqNo <= b.seqNo
  {
  }
}
