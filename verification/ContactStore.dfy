/** The address book: every operation as a function on states, and the store object that performs
    them.  Each operation is one atomic step; times are passed in. */
module ContactStore {
  import opened Wrappers
  import opened ContactModel
  import opened ContactMerge
  import opened DuplicateGraph

  const DEFAULT_TOMBSTONE_RETENTION: int := 30 * 24 * 3600

  datatype State = State(contacts: seq<Contact>, seqNo: nat, gcHighWaterRev: nat)

  const EMPTY_STATE: State := State([], 0, 0)

  datatype Precondition = Precondition(requireAbsent: bool, requireETag: string)

  datatype Delta = Delta(changed: seq<Contact>, deleted: seq<Contact>, cursor: nat, tooOld: bool)

  datatype Merge = Merge(survivor: string, absorbed: seq<string>)

  // ---------- Operations on states ----------

  function Find(cs: seq<Contact>, uid: string): (r: Option<nat>)
    ensures r.Some? ==> r.value < |cs| && cs[r.value].uid == uid
    ensures r == None ==> forall i :: 0 <= i < |cs| ==> cs[i].uid != uid
  {
    if cs == [] then None
    else if cs[0].uid == uid then Some(0)
    else
      assert forall i :: 0 < i < |cs| ==> cs[i] == cs[1..][i - 1];
      match Find(cs[1..], uid)
      case None => None
      case Some(i) => Some(i + 1)
  }

  /** Writes `c` at a position under the next revision. */
  function Stamp(st: State, p: nat, c: Contact, now: Time): State
    requires p < |st.contacts|
  {
    State(st.contacts[p := c.(rev := st.seqNo + 1, updatedAt := now)], st.seqNo + 1, st.gcHighWaterRev)
  }

  function Append(st: State, c: Contact, now: Time): State {
    State(st.contacts + [c.(rev := st.seqNo + 1, updatedAt := now)], st.seqNo + 1, st.gcHighWaterRev)
  }

  /** Creates or replaces a contact; `newUid` is the UID a new contact without one receives. */
  function Upserted(st: State, c: Contact, newUid: string, now: Time): State {
    if c.uid == "" then Append(st, c.(deleted := false, uid := newUid, createdAt := now), now)
    else
      match Find(st.contacts, c.uid)
      case None => Append(st, c.(deleted := false, createdAt := now), now)
      case Some(i) =>
        var existing := st.contacts[i];
        Stamp(st, i, c.(deleted := false,
                        createdAt := if c.createdAt == 0 then existing.createdAt else c.createdAt,
                        isSelf := existing.isSelf), now)
  }

  predicate Permits(st: State, uid: string, pre: Precondition) {
    var found := Find(st.contacts, uid);
    && !(pre.requireAbsent && found.Some? && !st.contacts[found.value].deleted)
    && (pre.requireETag != "" ==> found.Some? && ETagForRev(st.contacts[found.value].rev) == pre.requireETag)
  }

  function Deleted(st: State, uid: string, now: Time): State {
    match Find(st.contacts, uid)
    case None => st
    case Some(i) => Stamp(st, i, Tombstone(st.contacts[i]), now)
  }

  /** Clears the self mark of every contact before position `n` but the one at `idx`. */
  function OthersCleared(st: State, idx: nat, n: nat, now: Time): (r: State)
    requires n <= |st.contacts|
    ensures |r.contacts| == |st.contacts|
  {
    if n == 0 then st
    else
      var s := OthersCleared(st, idx, n - 1, now);
      if n - 1 != idx && s.contacts[n - 1].isSelf then
        Stamp(s, n - 1, s.contacts[n - 1].(isSelf := false), now)
      else s
  }

  function SelfSet(st: State, uid: string, self: bool, now: Time): State {
    match Find(st.contacts, uid)
    case None => st
    case Some(i) =>
      var s := if self then OthersCleared(st, i, |st.contacts|, now) else st;
      if s.contacts[i].isSelf != self then Stamp(s, i, s.contacts[i].(isSelf := self), now) else s
  }

  predicate Expired(c: Contact, cutoff: int) {
    c.deleted && c.updatedAt != 0 && c.updatedAt < cutoff
  }

  function Kept(cs: seq<Contact>, cutoff: int): seq<Contact> {
    if cs == [] then []
    else
      Kept(cs[..|cs| - 1], cutoff)
      + (if Expired(cs[|cs| - 1], cutoff) then [] else [cs[|cs| - 1]])
  }

  /** The highest purged revision, or the old watermark if that is higher. */
  function Watermark(cs: seq<Contact>, cutoff: int, old_: nat): nat {
    if cs == [] then old_
    else
      var w, c := Watermark(cs[..|cs| - 1], cutoff, old_), cs[|cs| - 1];
      if Expired(c, cutoff) && c.rev > w then c.rev else w
  }

  function Cutoff(now: Time, retention: int): int {
    now - (if retention <= 0 then DEFAULT_TOMBSTONE_RETENTION else retention)
  }

  function Purged(st: State, now: Time, retention: int): State {
    var cutoff := Cutoff(now, retention);
    State(Kept(st.contacts, cutoff), st.seqNo, Watermark(st.contacts, cutoff, st.gcHighWaterRev))
  }

  function NewerThanRev(cs: seq<Contact>, rev: int, deleted: bool): seq<Contact> {
    if cs == [] then []
    else
      NewerThanRev(cs[..|cs| - 1], rev, deleted)
      + (if cs[|cs| - 1].rev > rev && cs[|cs| - 1].deleted == deleted then [cs[|cs| - 1]] else [])
  }

  function Changes(st: State, rev: int): Delta {
    var tooOld := rev > 0 && rev < st.gcHighWaterRev;
    if tooOld then Delta([], [], st.seqNo, true)
    else Delta(NewerThanRev(st.contacts, rev, false), NewerThanRev(st.contacts, rev, true), st.seqNo, false)
  }

  // ---------- Deduplication on states ----------

  /** The positions of the live contacts. */
  ghost function Live(cs: seq<Contact>): (r: set<nat>)
    ensures forall i :: i in r <==> 0 <= i < |cs| && !cs[i].deleted
  {
    set i | i in Below(|cs|) && !cs[i].deleted
  }

  predicate InRange(cs: seq<Contact>, g: seq<nat>) {
    forall i :: 0 <= i < |g| ==> g[i] < |cs|
  }

  function Pick(cs: seq<Contact>, g: seq<nat>): (r: seq<Contact>)
    requires InRange(cs, g)
    ensures |r| == |g|
  {
    seq(|g|, i requires 0 <= i < |g| => cs[g[i]])
  }

  /** The first position of the group that carries the UID (its last position if none does). */
  function PosOf(cs: seq<Contact>, g: seq<nat>, uid: string): (p: nat)
    requires g != [] && InRange(cs, g)
    ensures p in g && p < |cs|
  {
    if |g| == 1 || cs[g[0]].uid == uid then g[0]
    else
      assert forall i :: 0 <= i < |g[1..]| ==> g[1..][i] == g[i + 1];
      PosOf(cs, g[1..], uid)
  }

  /** Turns the absorbed contacts, one after the other, into tombstones that name the survivor. */
  function Retired(st: State, cs: seq<Contact>, g: seq<nat>, absorbed: seq<string>, into: string, now: Time): (r: State)
    requires g != [] && InRange(cs, g) && |st.contacts| == |cs|
    ensures |r.contacts| == |cs|
  {
    if absorbed == [] then st
    else
      var before := Retired(st, cs, g, absorbed[..|absorbed| - 1], into, now);
      var p := PosOf(cs, g, absorbed[|absorbed| - 1]);
      Stamp(before, p, Tombstone(before.contacts[p]).(mergedInto := into), now)
  }

  function GroupMerged(st: State, cs: seq<Contact>, g: seq<nat>, now: Time): (r: State)
    requires g != [] && InRange(cs, g) && |st.contacts| == |cs|
    ensures |r.contacts| == |cs|
  {
    var members := Pick(cs, g);
    if ShouldMerge(members) then
      var survivor := Survivor(members);
      var p := PosOf(cs, g, survivor.uid);
      Retired(Stamp(st, p, survivor, now), cs, g, Absorbed(members), survivor.uid, now)
    else st
  }

  predicate GroupsInRange(cs: seq<Contact>, groups: seq<seq<nat>>) {
    forall k :: 0 <= k < |groups| ==> groups[k] != [] && InRange(cs, groups[k])
  }

  /** Merges the groups in order; members are taken from the contacts `cs` the pass started from. */
  function GroupsMerged(st: State, cs: seq<Contact>, groups: seq<seq<nat>>, now: Time): (r: State)
    requires GroupsInRange(cs, groups) && |st.contacts| == |cs|
    ensures |r.contacts| == |cs|
  {
    if groups == [] then st
    else
      var n := |groups| - 1;
      assert forall k :: 0 <= k < n ==> groups[..n][k] == groups[k];
      GroupMerged(GroupsMerged(st, cs, groups[..n], now), cs, groups[n], now)
  }

  function Merges(cs: seq<Contact>, groups: seq<seq<nat>>): seq<Merge>
    requires GroupsInRange(cs, groups)
  {
    if groups == [] then []
    else
      var n := |groups| - 1;
      assert forall k :: 0 <= k < n ==> groups[..n][k] == groups[k];
      var members := Pick(cs, groups[n]);
      Merges(cs, groups[..n])
      + (if ShouldMerge(members) then [Merge(Survivor(members).uid, Absorbed(members))] else [])
  }

  lemma GroupsRange(cs: seq<Contact>, groups: seq<seq<nat>>)
    requires AreGroups(cs, Live(cs), groups)
    ensures GroupsInRange(cs, groups)
  {
    hide Connected;
    forall k | 0 <= k < |groups|
      ensures groups[k] != [] && InRange(cs, groups[k])
    {
      var g := groups[k];
      assert g in groups && IsComponent(cs, Live(cs), g);
      assert forall i :: 0 <= i < |g| ==> g[i] in g;
    }
  }

  // ---------- The live list and the live positions ----------

  ghost predicate LiveListing(cs: seq<Contact>, n: nat, live: seq<Contact>, liveIdx: seq<nat>) {
    && n <= |cs| && |live| == |liveIdx| && Increasing(liveIdx)
    && (forall a :: 0 <= a < |live| ==> liveIdx[a] < n && live[a] == cs[liveIdx[a]] && !live[a].deleted)
    && (forall i :: 0 <= i < n && !cs[i].deleted ==> i in liveIdx)
  }

  function Mapped(idx: seq<nat>, g: seq<nat>): (r: seq<nat>)
    requires forall i :: 0 <= i < |g| ==> g[i] < |idx|
    ensures |r| == |g|
  {
    seq(|g|, i requires 0 <= i < |g| => idx[g[i]])
  }

  lemma {:induction false} WalkToStore(cs: seq<Contact>, live: seq<Contact>, liveIdx: seq<nat>, a: nat, b: nat, p: seq<nat>)
    requires LiveListing(cs, |cs|, live, liveIdx) && a < |live|
    requires Walk(live, All(live), a, b, p)
    ensures b < |live| && exists q :: Walk(cs, Live(cs), liveIdx[a], liveIdx[b], q)
    decreases |p|
  {
    hide Linked;
    if p == [] {
      assert Walk(cs, Live(cs), liveIdx[a], liveIdx[b], []);
    } else {
      WalkToStore(cs, live, liveIdx, p[0], b, p[1..]);
      var q :| Walk(cs, Live(cs), liveIdx[p[0]], liveIdx[b], q);
      var r := [liveIdx[p[0]]] + q;
      assert r[1..] == q;
      assert Walk(cs, Live(cs), liveIdx[a], liveIdx[b], r);
    }
  }

  lemma {:induction false} WalkToList(cs: seq<Contact>, live: seq<Contact>, liveIdx: seq<nat>, a: nat, j: nat, p: seq<nat>)
    requires LiveListing(cs, |cs|, live, liveIdx) && a < |live|
    requires Walk(cs, Live(cs), liveIdx[a], j, p)
    ensures j in liveIdx && forall b :: 0 <= b < |live| && liveIdx[b] == j ==> Connected(live, All(live), a, b)
    decreases |p|
  {
    hide Linked;
    if p == [] {
      ConnectedSelf(live, All(live), a);
    } else {
      assert p[0] in liveIdx;
      var c :| 0 <= c < |liveIdx| && liveIdx[c] == p[0];
      WalkToList(cs, live, liveIdx, c, j, p[1..]);
      ConnectedLink(live, All(live), a, c);
      forall b | 0 <= b < |live| && liveIdx[b] == j
        ensures Connected(live, All(live), a, b)
      {
        ConnectedTrans(live, All(live), a, c, b);
      }
    }
  }

  /** Connectedness in the list of live contacts is connectedness in the store. */
  lemma {:induction false} ListingConnects(cs: seq<Contact>, live: seq<Contact>, liveIdx: seq<nat>, a: nat, b: nat)
    requires LiveListing(cs, |cs|, live, liveIdx) && a < |live| && b < |live|
    ensures Connected(live, All(live), a, b) <==> Connected(cs, Live(cs), liveIdx[a], liveIdx[b])
  {
    if Connected(live, All(live), a, b) {
      var p :| Walk(live, All(live), a, b, p);
      WalkToStore(cs, live, liveIdx, a, b, p);
    }
    if Connected(cs, Live(cs), liveIdx[a], liveIdx[b]) {
      var p :| Walk(cs, Live(cs), liveIdx[a], liveIdx[b], p);
      WalkToList(cs, live, liveIdx, a, liveIdx[b], p);
    }
  }

  lemma {:induction false} MappedComponent(cs: seq<Contact>, live: seq<Contact>, liveIdx: seq<nat>, g: seq<nat>)
    requires LiveListing(cs, |cs|, live, liveIdx) && IsComponent(live, All(live), g)
    ensures forall i :: 0 <= i < |g| ==> g[i] < |liveIdx|
    ensures IsComponent(cs, Live(cs), Mapped(liveIdx, g))
  {
    hide Connected;
    assert forall i :: 0 <= i < |g| ==> g[i] in g;
    var m := Mapped(liveIdx, g);
    forall i, j | i in m && j in Live(cs)
      ensures Connected(cs, Live(cs), i, j) <==> j in m
    {
      var x :| 0 <= x < |m| && m[x] == i;
      var b :| 0 <= b < |liveIdx| && liveIdx[b] == j;
      ListingConnects(cs, live, liveIdx, g[x], b);
      MappedMember(liveIdx, g, b);
    }
  }

  lemma {:induction false} MappedMember(idx: seq<nat>, g: seq<nat>, b: nat)
    requires Increasing(idx) && b < |idx| && forall i :: 0 <= i < |g| ==> g[i] < |idx|
    ensures idx[b] in Mapped(idx, g) <==> b in g
  {
    var m := Mapped(idx, g);
    if idx[b] in m {
      var y :| 0 <= y < |m| && m[y] == idx[b];
      assert g[y] == b;
    }
    if b in g {
      var y :| 0 <= y < |g| && g[y] == b;
      assert m[y] == idx[b];
    }
  }

  /** `mapped` lists the groups of the live list by their store positions. */
  ghost predicate MapsAll(liveIdx: seq<nat>, groups: seq<seq<nat>>, mapped: seq<seq<nat>>) {
    && |mapped| == |groups|
    && forall k :: 0 <= k < |groups| ==>
         && (forall i :: 0 <= i < |groups[k]| ==> groups[k][i] < |liveIdx|)
         && mapped[k] == Mapped(liveIdx, groups[k])
  }

  lemma {:induction false} MappedPair(cs: seq<Contact>, live: seq<Contact>, liveIdx: seq<nat>,
                                      groups: seq<seq<nat>>, mapped: seq<seq<nat>>, i: nat, j: nat)
    requires LiveListing(cs, |cs|, live, liveIdx) && AreGroups(live, All(live), groups) && MapsAll(liveIdx, groups, mapped)
    requires i != j && Connected(cs, Live(cs), i, j)
    ensures exists m :: m in mapped && i in m && j in m
  {
    hide Connected, IsComponent;
    ConnectedInRange(cs, Live(cs), i, j);
    assert i in liveIdx && j in liveIdx;
    var a :| 0 <= a < |liveIdx| && liveIdx[a] == i;
    var b :| 0 <= b < |liveIdx| && liveIdx[b] == j;
    ListingConnects(cs, live, liveIdx, a, b);
    var g :| g in groups && a in g && b in g;
    hide AreGroups, LiveListing;
    var k :| 0 <= k < |groups| && groups[k] == g;
    var x :| 0 <= x < |g| && g[x] == a;
    var y :| 0 <= y < |g| && g[y] == b;
    assert mapped[k] == Mapped(liveIdx, g);
    assert mapped[k][x] == i && mapped[k][y] == j;
    assert mapped[k] in mapped && i in mapped[k] && j in mapped[k];
  }

  lemma {:induction false} MappedFirsts(liveIdx: seq<nat>, groups: seq<seq<nat>>, mapped: seq<seq<nat>>)
    requires Increasing(liveIdx) && MapsAll(liveIdx, groups, mapped) && FirstsIncrease(groups)
    ensures FirstsIncrease(mapped)
  {
    forall a, b | 0 <= a < b < |mapped|
      ensures mapped[a] != [] && mapped[b] != [] && mapped[a][0] < mapped[b][0]
    {
      var g, h := groups[a], groups[b];
      assert g != [] && h != [] && g[0] < h[0];
      assert mapped[a] == Mapped(liveIdx, g) && mapped[b] == Mapped(liveIdx, h);
      assert g[0] < |liveIdx| && h[0] < |liveIdx|;
      assert mapped[a][0] == liveIdx[g[0]] && mapped[b][0] == liveIdx[h[0]];
      assert liveIdx[g[0]] < liveIdx[h[0]];
    }
  }

  /** The groups of the live list, moved to store positions, are the groups of the store. */
  lemma {:induction false} MappedGroups(cs: seq<Contact>, live: seq<Contact>, liveIdx: seq<nat>,
                                        groups: seq<seq<nat>>, mapped: seq<seq<nat>>)
    requires LiveListing(cs, |cs|, live, liveIdx) && AreGroups(live, All(live), groups) && MapsAll(liveIdx, groups, mapped)
    ensures AreGroups(cs, Live(cs), mapped)
  {
    MappedFirsts(liveIdx, groups, mapped);
    hide Connected, IsComponent, FirstsIncrease, Increasing;
    forall m | m in mapped
      ensures IsComponent(cs, Live(cs), m)
    {
      var k :| 0 <= k < |mapped| && mapped[k] == m;
      assert groups[k] in groups;
      MappedComponent(cs, live, liveIdx, groups[k]);
    }
    forall i: nat, j: nat | i != j && Connected(cs, Live(cs), i, j)
      ensures exists m :: m in mapped && i in m && j in m
    {
      MappedPair(cs, live, liveIdx, groups, mapped, i, j);
    }
  }

  // ---------- The store object ----------

  datatype Report = Report(mergedCount: nat, groups: seq<Merge>)

  function AbsorbedCount(merges: seq<Merge>): nat {
    if merges == [] then 0
    else AbsorbedCount(merges[..|merges| - 1]) + |merges[|merges| - 1].absorbed|
  }

  class Store {
    var contacts: seq<Contact>
    var seqNo: nat
    var gcHighWaterRev: nat

    function Abs(): State
      reads this
    {
      State(contacts, seqNo, gcHighWaterRev)
    }

    constructor ()
      ensures Abs() == EMPTY_STATE
    {
      contacts, seqNo, gcHighWaterRev := [], 0, 0;
    }

    method UpsertLocked(c: Contact, newUid: string, now: Time) returns (r: Contact)
      modifies this
      ensures Abs() == Upserted(old(Abs()), c, newUid, now)
      ensures r in contacts && r.rev == seqNo && r.uid == if c.uid == "" then newUid else c.uid
    {
      seqNo := seqNo + 1;
      r := c.(rev := seqNo, deleted := false, updatedAt := now);
      if r.uid == "" {
        r := r.(uid := newUid, createdAt := now);
        contacts := contacts + [r];
        return;
      }
      assert contacts[0..] == contacts;
      for i := 0 to |contacts|
        invariant contacts == old(contacts) && seqNo == old(seqNo) + 1 && gcHighWaterRev == old(gcHighWaterRev)
        invariant forall k :: 0 <= k < i ==> contacts[k].uid != c.uid
        invariant r == c.(rev := seqNo, deleted := false, updatedAt := now)
      {
        var existing := contacts[i];
        if existing.uid == r.uid {
          if r.createdAt == 0 {
            r := r.(createdAt := existing.createdAt);
          }
          r := r.(isSelf := existing.isSelf);
          FindFirst(contacts, i);
          contacts := contacts[i := r];
          assert contacts[i] == r;
          return;
        }
      }
      r := r.(createdAt := now);
      contacts := contacts + [r];
    }

    method Upsert(c: Contact, newUid: string, now: Time) returns (r: Contact)
      modifies this
      ensures Abs() == Upserted(old(Abs()), c, newUid, now)
      ensures r in contacts && r.rev == seqNo && r.uid == if c.uid == "" then newUid else c.uid
    {
      r := UpsertLocked(c, newUid, now);
    }

    /** The check and the write are one step. */
    method UpsertWithPrecondition(c: Contact, pre: Precondition, newUid: string, now: Time) returns (r: Option<Contact>)
      modifies this
      ensures r.Some? <==> Permits(old(Abs()), c.uid, pre)
      ensures r.Some? ==> Abs() == Upserted(old(Abs()), c, newUid, now) && r.value in contacts && r.value.rev == seqNo
      ensures r == None ==> Abs() == old(Abs())
    {
      var found := GetLocked(c.uid);
      if pre.requireAbsent && found.Some? && !found.value.deleted {
        return None;
      }
      if pre.requireETag != "" && (found == None || ETagForRev(found.value.rev) != pre.requireETag) {
        return None;
      }
      var w := UpsertLocked(c, newUid, now);
      r := Some(w);
    }

    method GetLocked(uid: string) returns (r: Option<Contact>)
      ensures match Find(contacts, uid)
              case None => r == None
              case Some(i) => r == Some(contacts[i])
    {
      for i := 0 to |contacts|
        invariant forall k :: 0 <= k < i ==> contacts[k].uid != uid
      {
        if contacts[i].uid == uid {
          FindFirst(contacts, i);
          return Some(contacts[i]);
        }
      }
      r := None;
    }

    method Delete(uid: string, now: Time) returns (found: bool)
      modifies this
      ensures Abs() == Deleted(old(Abs()), uid, now)
      ensures found <==> Find(old(contacts), uid).Some?
    {
      for i := 0 to |contacts|
        invariant Abs() == old(Abs())
        invariant forall k :: 0 <= k < i ==> contacts[k].uid != uid
      {
        if contacts[i].uid == uid {
          FindFirst(contacts, i);
          seqNo := seqNo + 1;
          contacts := contacts[i := Tombstone(contacts[i]).(rev := seqNo, updatedAt := now)];
          return true;
        }
      }
      found := false;
    }

    method SetSelf(uid: string, self: bool, now: Time) returns (r: Option<Contact>)
      modifies this
      ensures Abs() == SelfSet(old(Abs()), uid, self, now)
      ensures r == match Find(old(contacts), uid)
                   case None => None
                   case Some(i) => if i < |contacts| then Some(contacts[i]) else None
    {
      hide Find, OthersCleared;
      var i := 0;
      while i < |contacts| && contacts[i].uid != uid
        invariant i <= |contacts| && Abs() == old(Abs())
        invariant forall k :: 0 <= k < i ==> contacts[k].uid != uid
      {
        i := i + 1;
      }
      if i == |contacts| {
        return None;
      }
      FindFirst(contacts, i);
      NoneCleared(Abs(), i, now);
      if self {
        for k := 0 to |contacts|
          invariant |contacts| == |old(contacts)|
          invariant Abs() == OthersCleared(old(Abs()), i, k, now)
        {
          ClearOne(old(Abs()), i, k, now);
          if k != i && contacts[k].isSelf {
            seqNo := seqNo + 1;
            contacts := contacts[k := contacts[k].(isSelf := false, rev := seqNo, updatedAt := now)];
          }
        }
      }
      if contacts[i].isSelf != self {
        seqNo := seqNo + 1;
        contacts := contacts[i := contacts[i].(isSelf := self, rev := seqNo, updatedAt := now)];
      }
      r := Some(contacts[i]);
    }

    method ChangedSince(rev: int) returns (delta: Delta)
      ensures delta == Changes(Abs(), rev)
    {
      var tooOld := rev > 0 && rev < gcHighWaterRev;
      var changed, deleted: seq<Contact> := [], [];
      if !tooOld {
        for i := 0 to |contacts|
          invariant changed == NewerThanRev(contacts[..i], rev, false)
          invariant deleted == NewerThanRev(contacts[..i], rev, true)
        {
          assert contacts[..i + 1][..i] == contacts[..i];
          var c := contacts[i];
          if c.rev > rev {
            if c.deleted {
              deleted := deleted + [c];
            } else {
              changed := changed + [c];
            }
          }
        }
        assert contacts[..|contacts|] == contacts;
      }
      delta := Delta(changed, deleted, seqNo, tooOld);
    }

    method GC(now: Time, retention: int)
      modifies this
      ensures Abs() == Purged(old(Abs()), now, retention)
    {
      var cutoff := Cutoff(now, retention);
      var kept: seq<Contact> := [];
      var changed := false;
      for i := 0 to |contacts|
        invariant contacts == old(contacts) && seqNo == old(seqNo)
        invariant kept == Kept(contacts[..i], cutoff)
        invariant gcHighWaterRev == Watermark(contacts[..i], cutoff, old(gcHighWaterRev))
        invariant !changed ==> kept == contacts[..i]
      {
        assert contacts[..i + 1][..i] == contacts[..i];
        var c := contacts[i];
        if Expired(c, cutoff) {
          if c.rev > gcHighWaterRev {
            gcHighWaterRev := c.rev;
          }
          changed := true;
        } else {
          kept := kept + [c];
        }
      }
      assert contacts[..|contacts|] == contacts;
      if changed {
        contacts := kept;
      }
    }

    /** The live contacts and where they stand. */
    method ListLive() returns (live: seq<Contact>, liveIdx: seq<nat>)
      ensures LiveListing(contacts, |contacts|, live, liveIdx)
    {
      live, liveIdx := [], [];
      for i := 0 to |contacts|
        invariant LiveListing(contacts, i, live, liveIdx)
      {
        if !contacts[i].deleted {
          live := live + [contacts[i]];
          liveIdx := liveIdx + [i];
        }
      }
    }

    /** Merges one group of `cs`, the contacts the pass started from. */
    method MergeOne(cs: seq<Contact>, g: seq<nat>, now: Time) returns (merge: Option<Merge>)
      requires g != [] && InRange(cs, g) && |contacts| == |cs|
      modifies this
      ensures Abs() == GroupMerged(old(Abs()), cs, g, now)
      ensures merge == if ShouldMerge(Pick(cs, g)) then Some(Merge(Survivor(Pick(cs, g)).uid, Absorbed(Pick(cs, g)))) else None
    {
      hide Survivor, Absorbed, ShouldMerge, PosOf, Pick, InRange;
      var members := Pick(cs, g);
      if !ShouldMerge(members) {
        return None;
      }
      var survivor, absorbed := MergeGroup(members);
      seqNo := seqNo + 1;
      contacts := contacts[PosOf(cs, g, survivor.uid) := survivor.(rev := seqNo, updatedAt := now)];
      ghost var first := Abs();
      for k := 0 to |absorbed|
        invariant |contacts| == |cs|
        invariant Abs() == Retired(first, cs, g, absorbed[..k], survivor.uid, now)
      {
        assert absorbed[..k + 1][..k] == absorbed[..k];
        var p := PosOf(cs, g, absorbed[k]);
        var loser := Tombstone(contacts[p]).(mergedInto := survivor.uid);
        seqNo := seqNo + 1;
        contacts := contacts[p := loser.(rev := seqNo, updatedAt := now)];
      }
      assert absorbed[..|absorbed|] == absorbed;
      merge := Some(Merge(survivor.uid, absorbed));
    }

    method MergeAll(cs: seq<Contact>, groups: seq<seq<nat>>, now: Time) returns (report: Report)
      requires contacts == cs && GroupsInRange(cs, groups)
      modifies this
      ensures Abs() == GroupsMerged(old(Abs()), cs, groups, now)
      ensures report == Report(AbsorbedCount(Merges(cs, groups)), Merges(cs, groups))
    {
      hide GroupMerged, ShouldMerge, Survivor, Absorbed, Pick, InRange;
      report := Report(0, []);
      for k := 0 to |groups|
        invariant |contacts| == |cs| && GroupsInRange(cs, groups[..k])
        invariant Abs() == GroupsMerged(old(Abs()), cs, groups[..k], now)
        invariant report == Report(AbsorbedCount(Merges(cs, groups[..k])), Merges(cs, groups[..k]))
      {
        assert groups[..k + 1][..k] == groups[..k];
        var merge := MergeOne(cs, groups[k], now);
        if merge.Some? {
          ghost var before := report.groups;
          report := Report(report.mergedCount + |merge.value.absorbed|, report.groups + [merge.value]);
          assert report.groups[..|report.groups| - 1] == before;
        } else {
          assert report.groups + [] == report.groups;
        }
      }
      assert groups[..|groups|] == groups;
    }

    /** Merges every duplicate group; `groups` are the groups of live positions it found. */
    method Dedupe(now: Time) returns (report: Report, ghost groups: seq<seq<nat>>)
      modifies this
      ensures AreGroups(old(contacts), Live(old(contacts)), groups) && GroupsInRange(old(contacts), groups)
      ensures Abs() == GroupsMerged(old(Abs()), old(contacts), groups, now)
      ensures report == Report(AbsorbedCount(Merges(old(contacts), groups)), Merges(old(contacts), groups))
    {
      var live, liveIdx := ListLive();
      var found := FindDuplicateGroups(live);
      GroupsBounded(live, found);
      var mapped := seq(|found|, k requires 0 <= k < |found| => Mapped(liveIdx, found[k]));
      MappedGroups(contacts, live, liveIdx, found, mapped);
      groups := mapped;
      GroupsRange(contacts, groups);
      report := MergeAll(contacts, mapped, now);
    }
  }

  lemma {:induction false} GroupsBounded(live: seq<Contact>, groups: seq<seq<nat>>)
    requires AreGroups(live, All(live), groups)
    ensures forall k :: 0 <= k < |groups| ==> forall i :: 0 <= i < |groups[k]| ==> groups[k][i] < |live|
  {
    hide Connected;
    forall k, i | 0 <= k < |groups| && 0 <= i < |groups[k]|
      ensures groups[k][i] < |live|
    {
      assert groups[k] in groups && IsComponent(live, All(live), groups[k]);
      assert groups[k][i] in groups[k];
    }
  }

  lemma NoneCleared(st: State, idx: nat, now: Time)
    ensures OthersCleared(st, idx, 0, now) == st
  {
  }

  lemma ClearOne(st: State, idx: nat, k: nat, now: Time)
    requires k < |st.contacts|
    ensures var s := OthersCleared(st, idx, k, now);
            OthersCleared(st, idx, k + 1, now)
            == if k != idx && s.contacts[k].isSelf then Stamp(s, k, s.contacts[k].(isSelf := false), now) else s
  {
  }

  lemma {:induction false} FindFirst(cs: seq<Contact>, i: nat)
    requires i < |cs| && forall k :: 0 <= k < i ==> cs[k].uid != cs[i].uid
    ensures Find(cs, cs[i].uid) == Some(i)
    decreases |cs|
  {
    if i > 0 {
      FindFirst(cs[1..], i - 1);
    }
  }
}
