/** At most one contact carries the self mark. */
module SelfMark {
  import opened Text
  import opened Sorting
  import opened ContactModel
  import opened ContactMerge
  import opened DuplicateGraph
  import opened ContactStore
  import opened ContactRuns
  import opened DedupeEffect
  import opened DedupeIdempotence

  ghost predicate AtMostOneSelf(cs: seq<Contact>) {
    forall i, j :: 0 <= i < j < |cs| ==> !(cs[i].isSelf && cs[j].isSelf)
  }

  /** Every mark of `r` is a mark of `cs`. */
  ghost predicate SelfWithin(r: seq<Contact>, cs: seq<Contact>) {
    |r| == |cs| && forall i :: 0 <= i < |r| ==> r[i].isSelf ==> cs[i].isSelf
  }

  lemma {:induction false} OthersClearedExact(st: State, idx: nat, n: nat, now: Time)
    requires n <= |st.contacts|
    ensures var s := OthersCleared(st, idx, n, now).contacts;
            && (forall k :: 0 <= k < n && k != idx ==> !s[k].isSelf)
            && (forall k :: 0 <= k < |s| && (k >= n || k == idx) ==> s[k] == st.contacts[k])
            && (forall k :: 0 <= k < |s| ==> s[k].uid == st.contacts[k].uid)
    decreases n
  {
    if n > 0 {
      OthersClearedExact(st, idx, n - 1, now);
    }
  }

  /** Marking a contact leaves exactly that contact marked, whatever the store held before; unmarking
      one leaves the marks of the others alone. */
  lemma {:induction false} SelfSetExact(st: State, uid: string, self: bool, now: Time)
    requires UidsDistinct(st.contacts) && HasUid(st.contacts, uid)
    ensures var s := SelfSet(st, uid, self, now).contacts;
            && SameUids(s, st.contacts)
            && (self ==> forall k :: 0 <= k < |s| ==> (s[k].isSelf <==> s[k].uid == uid))
            && (!self ==> forall k :: 0 <= k < |s| ==> if s[k].uid == uid then !s[k].isSelf else s[k] == st.contacts[k])
  {
    var i := Find(st.contacts, uid).value;
    OthersClearedExact(st, i, |st.contacts|, now);
    hide OthersCleared;
  }

  lemma {:induction false} KeptSelf(cs: seq<Contact>, cutoff: int)
    requires AtMostOneSelf(cs)
    ensures AtMostOneSelf(Kept(cs, cutoff))
    ensures (forall i :: 0 <= i < |cs| ==> !cs[i].isSelf) ==> forall i :: 0 <= i < |Kept(cs, cutoff)| ==> !Kept(cs, cutoff)[i].isSelf
    decreases |cs|
  {
    if cs != [] {
      var n := |cs| - 1;
      assert forall i :: 0 <= i < n ==> cs[..n][i] == cs[i];
      KeptSelf(cs[..n], cutoff);
      hide Expired;
      if cs[n].isSelf {
        assert forall i :: 0 <= i < n ==> !cs[i].isSelf;
      }
    }
  }

  /** A contact is marked after the pass exactly when it was before and has not been absorbed. */
  lemma {:induction false} PassSelfExact(cs: seq<Contact>, r: seq<Contact>, groups: seq<seq<nat>>, now: Time, i: nat)
    requires Pass(cs, r, groups, now) && i < |cs|
    ensures |r| == |cs|
    ensures r[i].isSelf <==> cs[i].isSelf && !(InMerged(cs, groups, i) && r[i].deleted)
  {
    PassLength(cs, r, groups, now);
    hide Pass, ShouldMerge, Pick, InRange, MergedAt;
    Untouched(cs, r, groups, now, i);
    if InMerged(cs, groups, i) {
      var g :| g in groups && i in g && InRange(cs, g) && ShouldMerge(Pick(cs, g));
      MergedGroup(cs, r, groups, now, g);
      OneSurvivor(cs, r, groups, now, g);
      PassUids(cs, r, groups, now);
      MergedSelf(cs, r[i], g, i, now);
    }
  }

  lemma PassUids(cs: seq<Contact>, r: seq<Contact>, groups: seq<seq<nat>>, now: Time)
    requires Pass(cs, r, groups, now)
    ensures UidsDistinct(cs)
  {
  }

  /** The survivor carries the mark exactly if the contact it replaces did. */
  lemma {:induction false} MergedSelf(cs: seq<Contact>, c: Contact, g: seq<nat>, i: nat, now: Time)
    requires g != [] && InRange(cs, g) && UidsDistinct(cs) && i in g && i < |cs| && MergedAt(cs, c, g, i, now)
    ensures c.isSelf <==> cs[i].isSelf && cs[i].uid == Survivor(Pick(cs, g)).uid
  {
    hide Survivor, Pick, InRange, Increasing;
    SurvivorOrigin(cs, g);
  }

  lemma {:induction false} PassSelf(cs: seq<Contact>, r: seq<Contact>, groups: seq<seq<nat>>, now: Time)
    requires Pass(cs, r, groups, now)
    ensures SelfWithin(r, cs)
  {
    PassLength(cs, r, groups, now);
    hide Pass, InMerged;
    forall i: nat | i < |r| && r[i].isSelf
      ensures cs[i].isSelf
    {
      PassSelfExact(cs, r, groups, now, i);
    }
  }

  lemma {:induction false} SurvivorOrigin(cs: seq<Contact>, g: seq<nat>)
    requires g != [] && InRange(cs, g)
    ensures exists p: nat :: p < |cs| && cs[p].uid == Survivor(Pick(cs, g)).uid && cs[p].isSelf == Survivor(Pick(cs, g)).isSelf
  {
    var members := Pick(cs, g);
    SortPermutes(OlderThan, members);
    SortMembers(OlderThan, members);
    hide MergedCard, MergedUIDs, Absorbed, Sort;
    var oldest := Sort(OlderThan, members)[0];
    assert oldest in members;
    var k :| 0 <= k < |members| && members[k] == oldest;
    assert cs[g[k]] == oldest;
  }

  ghost predicate SomeMarked(cs: seq<Contact>) {
    exists i :: 0 <= i < |cs| && cs[i].isSelf
  }

  /** The write creates a contact that is marked although one is already. */
  ghost predicate AddsMark(st: State, op: Op) {
    && op.Put? && Permits(st, op.c.uid, op.pre)
    && (op.c.uid == "" || !HasUid(st.contacts, op.c.uid))
    && op.c.isSelf && SomeMarked(st.contacts)
  }

  lemma {:induction false} PutSelfExact(st: State, c: Contact, newUid: string, now: Time)
    requires AtMostOneSelf(st.contacts)
    ensures AtMostOneSelf(Upserted(st, c, newUid, now).contacts)
       <==> !((c.uid == "" || !HasUid(st.contacts, c.uid)) && c.isSelf && SomeMarked(st.contacts))
  {
    var cs, r := st.contacts, Upserted(st, c, newUid, now).contacts;
    if c.uid == "" || !HasUid(cs, c.uid) {
      assert |r| == |cs| + 1 && r[..|cs|] == cs && r[|cs|].isSelf == c.isSelf;
      assert forall i :: 0 <= i < |cs| ==> r[i] == cs[i];
    } else {
      assert |r| == |cs| && forall i :: 0 <= i < |cs| ==> r[i].isSelf == cs[i].isSelf;
    }
  }

  /** Every operation keeps the self mark unique, except one that creates another marked contact. */
  lemma {:induction false} StepSelfExact(st: State, op: Op)
    requires Inv(st) && AtMostOneSelf(st.contacts) && Enabled(st, op)
    ensures AtMostOneSelf(Apply(st, op).contacts) <==> !AddsMark(st, op)
  {
    assert UidsDistinct(st.contacts);
    hide Inv, AreGroups, Upserted, SelfSet, Kept, Watermark, GroupsMerged, Pass, Permits, SomeMarked;
    match op {
      case Put(c, pre, newUid, now) => PutSelfExact(st, c, newUid, now);
      case Remove(uid, now) =>
      case MarkSelf(uid, self, now) => MarkKeepsSelf(st, uid, self, now);
      case Deduplicate(groups, now) =>
        GroupsRange(st.contacts, groups);
        PassHappens(st, groups, now);
        PassSelf(st.contacts, GroupsMerged(st, st.contacts, groups, now).contacts, groups, now);
      case Purge(now, retention) => KeptSelf(st.contacts, Cutoff(now, retention));
    }
  }

  lemma {:induction false} MarkKeepsSelf(st: State, uid: string, self: bool, now: Time)
    requires UidsDistinct(st.contacts) && AtMostOneSelf(st.contacts)
    ensures AtMostOneSelf(SelfSet(st, uid, self, now).contacts)
  {
    if Find(st.contacts, uid).Some? {
      SelfSetExact(st, uid, self, now);
      hide SelfSet;
      var s := SelfSet(st, uid, self, now).contacts;
      forall i, j | 0 <= i < j < |s|
        ensures !(s[i].isSelf && s[j].isSelf)
      {
        assert s[i].uid != s[j].uid;
      }
    }
  }

  /** At every point of the run at most one contact is marked. */
  ghost predicate AlwaysOneSelf(st: State, ops: seq<Op>)
    requires Runnable(st, ops)
    decreases |ops|
  {
    AtMostOneSelf(st.contacts) && (ops == [] || AlwaysOneSelf(Apply(st, ops[0]), ops[1..]))
  }

  ghost predicate NeverAddsMark(st: State, ops: seq<Op>)
    requires Runnable(st, ops)
    decreases |ops|
  {
    ops == [] || (!AddsMark(st, ops[0]) && NeverAddsMark(Apply(st, ops[0]), ops[1..]))
  }

  lemma UniqueNow(st: State, ops: seq<Op>)
    requires Runnable(st, ops) && AlwaysOneSelf(st, ops)
    ensures AtMostOneSelf(st.contacts)
  {
  }

  /** Over a run the mark stays unique exactly if no write creates a marked contact while one is marked. */
  lemma {:induction false} RunSelfExact(st: State, ops: seq<Op>)
    requires Inv(st) && AtMostOneSelf(st.contacts) && Runnable(st, ops)
    ensures AlwaysOneSelf(st, ops) <==> NeverAddsMark(st, ops)
    decreases |ops|
  {
    hide Inv, Enabled, Apply, AtMostOneSelf, AddsMark;
    if ops != [] {
      StepSelfExact(st, ops[0]);
      StepKeeps(st, ops[0]);
      if AddsMark(st, ops[0]) {
        if AlwaysOneSelf(st, ops) {
          UniqueNow(Apply(st, ops[0]), ops[1..]);
        }
      } else {
        RunSelfExact(Apply(st, ops[0]), ops[1..]);
      }
    }
  }

  // ---------- A pass can lose the mark ----------

  /** Some live contact is the user's own. */
  ghost predicate HasSelf(cs: seq<Contact>) {
    exists i :: 0 <= i < |cs| && !cs[i].deleted && cs[i].isSelf
  }

  /** The contact is to be absorbed: some member of its qualifying group is older. */
  ghost predicate ToAbsorb(cs: seq<Contact>, groups: seq<seq<nat>>, i: nat)
    requires i < |cs|
  {
    exists g :: Merged(cs, groups, g) && i in g && SomeOlder(cs, g, i)
  }

  ghost predicate SomeOlder(cs: seq<Contact>, g: seq<nat>, i: nat)
    requires i < |cs|
  {
    exists j :: j in g && j < |cs| && OlderThan(cs[j], cs[i])
  }

  lemma {:induction false} PickedAt(cs: seq<Contact>, g: seq<nat>, c: Contact) returns (j: nat)
    requires InRange(cs, g) && c in Pick(cs, g)
    ensures j in g && j < |cs| && cs[j] == c
  {
    var k :| 0 <= k < |g| && Pick(cs, g)[k] == c;
    j := g[k];
  }

  lemma {:induction false} Picked(cs: seq<Contact>, g: seq<nat>, j: nat)
    requires InRange(cs, g) && j in g && j < |cs|
    ensures cs[j] in Pick(cs, g)
  {
    var k :| 0 <= k < |g| && g[k] == j;
    assert Pick(cs, g)[k] == cs[j];
  }

  lemma {:induction false} OlderTotal(a: Contact, b: Contact)
    ensures a.uid != b.uid ==> OlderThan(a, b) || OlderThan(b, a)
  {
    hide Less;
    LessTotal(a.uid, b.uid);
  }

  /** A member survives exactly if no member is older. */
  lemma {:induction false} SurvivesIfOldest(cs: seq<Contact>, g: seq<nat>, i: nat)
    requires g != [] && InRange(cs, g) && UidsDistinct(cs) && i in g && i < |cs|
    ensures cs[i].uid == Survivor(Pick(cs, g)).uid <==> !SomeOlder(cs, g, i)
  {
    hide Survivor, OlderThan, Pick;
    var members := Pick(cs, g);
    SurvivorOldest(members);
    var m :| m in members && m.uid == Survivor(members).uid && forall o :: o in members ==> !OlderThan(o, m);
    var p := PickedAt(cs, g, m);
    Picked(cs, g, i);
    OlderTotal(m, cs[i]);
    if SomeOlder(cs, g, i) {
      var j :| j in g && j < |cs| && OlderThan(cs[j], cs[i]);
      Picked(cs, g, j);
    }
  }

  lemma {:induction false} AbsorbedIsGone(cs: seq<Contact>, r: seq<Contact>, groups: seq<seq<nat>>, now: Time, i: nat)
    requires Pass(cs, r, groups, now) && i in Live(cs)
    ensures |r| == |cs| && (r[i].deleted <==> ToAbsorb(cs, groups, i))
  {
    PassLength(cs, r, groups, now);
    PassUids(cs, r, groups, now);
    hide Pass, ShouldMerge, Pick, Survivor, SomeOlder, UidsDistinct;
    Untouched(cs, r, groups, now, i);
    if InMerged(cs, groups, i) {
      var g :| g in groups && i in g && InRange(cs, g) && ShouldMerge(Pick(cs, g));
      assert Merged(cs, groups, g);
      OneSurvivor(cs, r, groups, now, g);
      SurvivesIfOldest(cs, g, i);
    }
    forall g | Merged(cs, groups, g) && i in g && SomeOlder(cs, g, i)
      ensures r[i].deleted
    {
      OneSurvivor(cs, r, groups, now, g);
      SurvivesIfOldest(cs, g, i);
    }
  }

  /** The one marked contact is still there after the pass exactly when it is not one to be absorbed;
      the survivor that absorbs it does not take the mark over. */
  lemma {:induction false} MarkSurvivesExact(cs: seq<Contact>, r: seq<Contact>, groups: seq<seq<nat>>, now: Time, p: nat)
    requires Pass(cs, r, groups, now) && AtMostOneSelf(cs) && p in Live(cs) && cs[p].isSelf
    ensures HasSelf(r) <==> !ToAbsorb(cs, groups, p)
  {
    hide Pass, ToAbsorb, InMerged;
    AbsorbedIsGone(cs, r, groups, now, p);
    PassSelfExact(cs, r, groups, now, p);
    PassSelf(cs, r, groups, now);
    if HasSelf(r) {
      var i :| 0 <= i < |r| && !r[i].deleted && r[i].isSelf;
      assert cs[i].isSelf;
    }
  }

  /** Two contacts that share an email; the user's own is the younger one. */
  function Couple(): State {
    State([Named("1", 1, "a", ["x"]).(createdAt := 1), Named("2", 2, "b", ["x"]).(createdAt := 2, isSelf := true)], 2, 0)
  }

  lemma {:induction false} CoupleLinked()
    ensures var cs := Couple().contacts;
            |cs| == 2 && Live(cs) == {0, 1} && Linked(cs[0], cs[1])
  {
    var cs := Couple().contacts;
    assert Trim("x") == "x";
    hide Trim, Linked;
    SharedEmail(cs[0], cs[1], 0, 0);
  }

  lemma {:induction false} CoupleGroup()
    ensures AreGroups(Couple().contacts, Live(Couple().contacts), [[0, 1]])
  {
    CoupleLinked();
    PairGroup(Couple().contacts);
  }

  lemma {:induction false} PairGroup(cs: seq<Contact>)
    requires |cs| == 2 && Live(cs) == {0, 1} && Linked(cs[0], cs[1])
    ensures AreGroups(cs, Live(cs), [[0, 1]])
  {
    hide Linked, Live;
    var N, g := {0, 1}, [0, 1];
    ConnectedLink(cs, N, 0, 1);
    ConnectedSelf(cs, N, 0);
    ConnectedSelf(cs, N, 1);
    hide Connected;
    assert [g][0] == g;
    assert IsComponent(cs, N, g);
    forall i, j | i != j && Connected(cs, N, i, j)
      ensures i in g && j in g
    {
      ConnectedInRange(cs, N, i, j);
    }
  }

  lemma {:induction false} CoupleMembers()
    ensures var cs := Couple().contacts;
            |cs| == 2 && InRange(cs, [0, 1]) && |Pick(cs, [0, 1])| == 2 && OlderThan(cs[0], cs[1])
  {
  }

  lemma {:induction false} CoupleAbsorbed()
    ensures ToAbsorb(Couple().contacts, [[0, 1]], 1)
  {
    CoupleMembers();
    hide Couple, OlderThan, Pick;
    var cs, groups := Couple().contacts, [[0, 1]];
    assert groups[0] == [0, 1] && [0, 1][0] == 0 && [0, 1][1] == 1;
    assert Merged(cs, groups, [0, 1]);
    assert SomeOlder(cs, [0, 1], 1);
  }

  lemma CoupleMarked()
    ensures var st := Couple();
            && Inv(st) && AtMostOneSelf(st.contacts) && UidsDistinct(st.contacts)
            && 1 in Live(st.contacts) && st.contacts[1].isSelf && HasSelf(st.contacts)
  {
    assert Couple().contacts[1].isSelf;
  }

  /** Merging them leaves nobody marked. */
  lemma {:induction false} MarkLost(now: Time)
    ensures var st := Couple();
            && Inv(st) && AtMostOneSelf(st.contacts) && HasSelf(st.contacts)
            && AreGroups(st.contacts, Live(st.contacts), [[0, 1]])
            && !HasSelf(GroupsMerged(st, st.contacts, [[0, 1]], now).contacts)
  {
    CoupleGroup();
    CoupleMarked();
    CoupleAbsorbed();
    hide Couple, Inv, AreGroups, GroupsMerged, Pass, HasSelf, AtMostOneSelf, ToAbsorb, UidsDistinct;
    var st := Couple();
    PassHappens(st, [[0, 1]], now);
    MarkSurvivesExact(st.contacts, GroupsMerged(st, st.contacts, [[0, 1]], now).contacts, [[0, 1]], now, 1);
  }
}
