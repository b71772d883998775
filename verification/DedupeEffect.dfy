/** What one deduplication pass does to each contact, and what it conserves. */
module DedupeEffect {
  import opened Wrappers
  import opened Text
  import opened Sorting
  import opened ContactModel
  import opened ContactMerge
  import opened DuplicateGraph
  import opened ContactStore
  import opened ContactRuns

  // ---------- The survivor and the absorbed ----------

  lemma {:induction false} DistinctContacts(members: seq<Contact>)
    requires UidsDistinct(members)
    ensures Distinct(members)
  {
  }

  lemma {:induction false} OrderedUids(members: seq<Contact>)
    requires UidsDistinct(members)
    ensures UidsDistinct(Sort(OlderThan, members))
  {
    DistinctContacts(members);
    SortKeepsDistinct(OlderThan, members);
    SortMembers(OlderThan, members);
    hide Sort, OlderThan;
    var ordered := Sort(OlderThan, members);
    forall i, j | 0 <= i < j < |ordered|
      ensures ordered[i].uid != ordered[j].uid
    {
      assert ordered[i] in members && ordered[j] in members;
    }
  }

  /** Every member but the survivor is absorbed, and nothing else. */
  lemma {:induction false} AbsorbedExact(members: seq<Contact>)
    requires members != [] && UidsDistinct(members)
    ensures forall u :: u in Absorbed(members) <==> HasUid(members, u) && u != Survivor(members).uid
  {
    hide Sort, MergedCard, MergedUIDs, OlderThan, Less, UidsDistinct;
    SortPermutes(OlderThan, members);
    SortMembers(OlderThan, members);
    OrderedUids(members);
    var ordered := Sort(OlderThan, members);
    SortMembers(Less, Uids(ordered[1..]));
    OtherUids(ordered);
    SameUidMembers(members, ordered);
    assert Survivor(members).uid == ordered[0].uid;
    hide HasUid, Uids, Survivor;
  }

  lemma {:induction false} OtherUids(ordered: seq<Contact>)
    requires ordered != [] && UidsDistinct(ordered)
    ensures forall u :: u in Uids(ordered[1..]) <==> HasUid(ordered, u) && u != ordered[0].uid
  {
    var uids := Uids(ordered[1..]);
    forall u
      ensures u in uids <==> HasUid(ordered, u) && u != ordered[0].uid
    {
      if u in uids {
        var k :| 0 <= k < |uids| && uids[k] == u;
        assert ordered[k + 1].uid == u;
      }
      if HasUid(ordered, u) && u != ordered[0].uid {
        var k :| 0 <= k < |ordered| && ordered[k].uid == u;
        assert uids[k - 1] == u;
      }
    }
  }

  lemma {:induction false} SameUidMembers(a: seq<Contact>, b: seq<Contact>)
    requires forall c :: c in a <==> c in b
    ensures forall u :: HasUid(a, u) <==> HasUid(b, u)
  {
    forall u
      ensures HasUid(a, u) <==> HasUid(b, u)
    {
      if HasUid(a, u) {
        var i :| 0 <= i < |a| && a[i].uid == u;
        assert a[i] in b;
      }
      if HasUid(b, u) {
        var i :| 0 <= i < |b| && b[i].uid == u;
        assert b[i] in a;
      }
    }
  }

  /** The survivor keeps the identity of a member that no other member is older than. */
  lemma {:induction false} SurvivorOldest(members: seq<Contact>)
    requires members != []
    ensures var c := Survivor(members);
            exists m :: m in members && c == m.(card := c.card, mergedUIDs := c.mergedUIDs, mergedInto := "")
                        && forall o :: o in members ==> !OlderThan(o, m)
  {
    hide Sort, MergedCard, MergedUIDs, OlderThan, Absorbed;
    SortPermutes(OlderThan, members);
    SortMembers(OlderThan, members);
    OlderIsOrder();
    SortSorted(OlderThan, members);
    var ordered := Sort(OlderThan, members);
    var m := ordered[0];
    assert m in members;
    assert !OlderThan(m, m);
    hide StrictWeakOrder, Survivor;
    forall o | o in members
      ensures !OlderThan(o, m)
    {
      var j :| 0 <= j < |ordered| && ordered[j] == o;
    }
    assert Survivor(members) == m.(card := MergedCard(members), mergedUIDs := MergedUIDs(m.uid, members, Absorbed(members)), mergedInto := "") by {
      SurvivorIs(members);
    }
  }

  lemma SurvivorIs(members: seq<Contact>)
    requires members != []
    ensures |Sort(OlderThan, members)| > 0
    ensures var m := Sort(OlderThan, members)[0];
            Survivor(members)
            == m.(card := MergedCard(members), mergedUIDs := MergedUIDs(m.uid, members, Absorbed(members)), mergedInto := "")
  {
    hide Sort, MergedCard, MergedUIDs, OlderThan, Absorbed;
    SortPermutes(OlderThan, members);
  }

  // ---------- The effect of a pass, position by position ----------

  ghost predicate RetiredAt(cs: seq<Contact>, c: Contact, i: nat, into: string, now: Time)
    requires i < |cs|
  {
    c == Tombstone(cs[i]).(mergedInto := into, rev := c.rev, updatedAt := now)
  }

  /** What becomes of a member of a merged group: the survivor or a tombstone that names it. */
  ghost predicate MergedAt(cs: seq<Contact>, c: Contact, g: seq<nat>, i: nat, now: Time)
    requires g != [] && InRange(cs, g) && i < |cs|
  {
    var survivor := Survivor(Pick(cs, g));
    if cs[i].uid == survivor.uid then c == survivor.(rev := c.rev, updatedAt := now)
    else RetiredAt(cs, c, i, survivor.uid, now)
  }

  lemma {:induction false} RetiredEffect(st: State, cs: seq<Contact>, g: seq<nat>, absorbed: seq<string>,
                                         into: string, now: Time)
    requires g != [] && InRange(cs, g) && UidsDistinct(cs) && |st.contacts| == |cs|
    requires forall u :: u in absorbed ==> HasUid(Pick(cs, g), u)
    requires forall i :: i in g ==> i < |cs| && (cs[i].uid in absorbed ==> st.contacts[i] == cs[i])
    ensures var r := Retired(st, cs, g, absorbed, into, now).contacts;
            forall i: nat :: i < |cs| ==>
              if i in g && cs[i].uid in absorbed then RetiredAt(cs, r[i], i, into, now) else r[i] == st.contacts[i]
    decreases |absorbed|
  {
    if absorbed != [] {
      var n := |absorbed| - 1;
      var u := absorbed[n];
      assert absorbed == absorbed[..n] + [u];
      RetiredEffect(st, cs, g, absorbed[..n], into, now);
      var before := Retired(st, cs, g, absorbed[..n], into, now);
      assert u in absorbed;
      assert HasUid(Pick(cs, g), u);
      MemberPosition(cs, g, u);
      var p := PosOf(cs, g, u);
      hide Retired, PosOf;
      forall i: nat | i < |cs| && i != p
        ensures i in g && cs[i].uid in absorbed <==> i in g && cs[i].uid in absorbed[..n]
      {
        assert cs[i].uid != cs[p].uid;
      }
    }
  }

  lemma {:induction false} PickDistinct(cs: seq<Contact>, g: seq<nat>)
    requires InRange(cs, g) && Increasing(g) && UidsDistinct(cs)
    ensures UidsDistinct(Pick(cs, g))
  {
  }

  lemma {:induction false} PickHasUid(cs: seq<Contact>, g: seq<nat>, i: nat)
    requires InRange(cs, g) && i in g
    ensures i < |cs| && HasUid(Pick(cs, g), cs[i].uid)
  {
    var k :| 0 <= k < |g| && g[k] == i;
    assert Pick(cs, g)[k] == cs[i];
  }

  ghost predicate GroupOutcome(cs: seq<Contact>, before: seq<Contact>, r: seq<Contact>, g: seq<nat>, now: Time)
    requires g != [] && InRange(cs, g) && |before| == |cs| == |r|
  {
    forall i: nat :: i < |cs| ==>
      if i in g && ShouldMerge(Pick(cs, g)) then MergedAt(cs, r[i], g, i, now) else r[i] == before[i]
  }

  /** One group: its members are merged or left alone, and the other positions do not change. */
  lemma {:induction false} GroupEffect(st: State, cs: seq<Contact>, g: seq<nat>, now: Time)
    requires g != [] && InRange(cs, g) && Increasing(g) && UidsDistinct(cs) && |st.contacts| == |cs|
    requires forall i :: i in g ==> i < |cs| && st.contacts[i] == cs[i]
    ensures GroupOutcome(cs, st.contacts, GroupMerged(st, cs, g, now).contacts, g, now)
  {
    hide Survivor, Absorbed, ShouldMerge, RetiredAt, Retired, PosOf, MergedAt, Stamp, Pick;
    if ShouldMerge(Pick(cs, g)) {
      var survivor := Survivor(Pick(cs, g));
      var p := SurvivorPlace(cs, g);
      var first := Stamp(st, p, survivor, now);
      StampOthers(st, p, survivor, now);
      AbsorbedPlaces(cs, g);
      assert |first.contacts| == |cs| by {
        StampLength(st, p, survivor, now);
      }
      RetiredEffect(first, cs, g, Absorbed(Pick(cs, g)), survivor.uid, now);
      var r := Retired(first, cs, g, Absorbed(Pick(cs, g)), survivor.uid, now).contacts;
      hide UidsDistinct, Increasing;
      forall i: nat | i < |cs|
        ensures if i in g then MergedAt(cs, r[i], g, i, now) else r[i] == st.contacts[i]
      {
        if i in g {
          MergedMember(st, cs, g, p, i, r[i], now);
        }
      }
    }
  }

  lemma {:induction false} SurvivorPlace(cs: seq<Contact>, g: seq<nat>) returns (p: nat)
    requires g != [] && InRange(cs, g) && UidsDistinct(cs)
    ensures p == PosOf(cs, g, Survivor(Pick(cs, g)).uid) && p in g && p < |cs| && cs[p].uid == Survivor(Pick(cs, g)).uid
  {
    hide Survivor, Absorbed, PosOf;
    SurvivorIsMember(Pick(cs, g));
    MemberPosition(cs, g, Survivor(Pick(cs, g)).uid);
    p := PosOf(cs, g, Survivor(Pick(cs, g)).uid);
  }

  /** A member is absorbed exactly if it is not at the survivor's position. */
  lemma {:induction false} AbsorbedPlaces(cs: seq<Contact>, g: seq<nat>)
    requires g != [] && InRange(cs, g) && Increasing(g) && UidsDistinct(cs)
    ensures forall u :: u in Absorbed(Pick(cs, g)) ==> HasUid(Pick(cs, g), u)
    ensures forall i :: i in g ==> i < |cs| && (cs[i].uid in Absorbed(Pick(cs, g)) <==> cs[i].uid != Survivor(Pick(cs, g)).uid)
  {
    PickDistinct(cs, g);
    AbsorbedExact(Pick(cs, g));
    hide Survivor, Absorbed, Pick, HasUid, UidsDistinct;
    forall i | i in g
      ensures i < |cs| && HasUid(Pick(cs, g), cs[i].uid)
    {
      PickHasUid(cs, g, i);
    }
  }

  lemma StampLength(st: State, p: nat, c: Contact, now: Time)
    requires p < |st.contacts|
    ensures |Stamp(st, p, c, now).contacts| == |st.contacts|
  {
  }

  lemma {:induction false} MergedMember(st: State, cs: seq<Contact>, g: seq<nat>, p: nat, i: nat, c: Contact, now: Time)
    requires g != [] && InRange(cs, g) && p < |cs| == |st.contacts| && i < |cs| && (cs[i].uid == cs[p].uid <==> i == p)
    requires cs[p].uid == Survivor(Pick(cs, g)).uid
    requires if i != p then RetiredAt(cs, c, i, Survivor(Pick(cs, g)).uid, now)
             else c == Stamp(st, p, Survivor(Pick(cs, g)), now).contacts[p]
    ensures MergedAt(cs, c, g, i, now)
  {
    hide Survivor, Pick, InRange;
  }

  lemma StampOthers(st: State, p: nat, c: Contact, now: Time)
    requires p < |st.contacts|
    ensures forall i: nat :: i < |st.contacts| && i != p ==> Stamp(st, p, c, now).contacts[i] == st.contacts[i]
  {
  }

  /** The merged group a position belongs to. */
  ghost predicate InMerged(cs: seq<Contact>, groups: seq<seq<nat>>, i: nat) {
    exists g :: g in groups && i in g && InRange(cs, g) && ShouldMerge(Pick(cs, g))
  }

  ghost predicate Effect(cs: seq<Contact>, r: seq<Contact>, groups: seq<seq<nat>>, now: Time)
    requires GroupsInRange(cs, groups)
  {
    && |r| == |cs|
    && (forall k, i: nat :: 0 <= k < |groups| && i in groups[k] && ShouldMerge(Pick(cs, groups[k])) ==>
          i < |cs| && MergedAt(cs, r[i], groups[k], i, now))
    && (forall i: nat :: i < |cs| && !InMerged(cs, groups, i) ==> r[i] == cs[i])
  }

  ghost predicate Disjoint(groups: seq<seq<nat>>) {
    && (forall k :: 0 <= k < |groups| ==> Increasing(groups[k]))
    && (forall a, b, i :: 0 <= a < b < |groups| && i in groups[a] ==> i !in groups[b])
  }

  lemma {:induction false} GroupsDisjoint(cs: seq<Contact>, N: set<nat>, groups: seq<seq<nat>>)
    requires AreGroups(cs, N, groups)
    ensures Disjoint(groups)
  {
    hide Connected;
    forall k | 0 <= k < |groups|
      ensures Increasing(groups[k])
    {
      assert groups[k] in groups;
    }
    forall a, b, i | 0 <= a < b < |groups| && i in groups[a]
      ensures i !in groups[b]
    {
      SameGroup(cs, N, groups, groups[a], groups[b], i);
    }
  }

  lemma {:induction false} SameGroup(cs: seq<Contact>, N: set<nat>, groups: seq<seq<nat>>, g: seq<nat>, h: seq<nat>, i: nat)
    requires AreGroups(cs, N, groups) && g in groups && h in groups && i in g
    ensures i in h ==> g == h
  {
    assert IsComponent(cs, N, g) && IsComponent(cs, N, h);
    hide Connected;
    if i in h {
      forall j
        ensures j in g <==> j in h
      {
        if j in N {
          assert Connected(cs, N, i, j) <==> j in g;
          assert Connected(cs, N, i, j) <==> j in h;
        }
      }
      IncreasingUnique(g, h);
    }
  }

  lemma {:induction false} DisjointPrefix(groups: seq<seq<nat>>, n: nat)
    requires Disjoint(groups) && n <= |groups|
    ensures Disjoint(groups[..n])
  {
    assert forall k :: 0 <= k < n ==> groups[..n][k] == groups[k];
  }

  lemma {:induction false} InMergedLast(cs: seq<Contact>, groups: seq<seq<nat>>, i: nat)
    requires groups != [] && GroupsInRange(cs, groups)
    ensures var g := groups[|groups| - 1];
            InMerged(cs, groups, i)
            <==> InMerged(cs, groups[..|groups| - 1], i) || (i in g && ShouldMerge(Pick(cs, g)))
  {
    hide ShouldMerge, Pick;
    var n := |groups| - 1;
    assert groups == groups[..n] + [groups[n]];
  }

  /** The whole pass: every member of a qualifying group is merged, every other contact is unchanged. */
  lemma {:induction false} PassEffect(st: State, groups: seq<seq<nat>>, now: Time)
    requires GroupsInRange(st.contacts, groups) && Disjoint(groups) && UidsDistinct(st.contacts)
    ensures Effect(st.contacts, GroupsMerged(st, st.contacts, groups, now).contacts, groups, now)
    decreases |groups|
  {
    hide ShouldMerge, Pick, MergedAt, GroupMerged;
    var cs := st.contacts;
    if groups != [] {
      var n := |groups| - 1;
      var front, g := groups[..n], groups[n];
      assert forall k :: 0 <= k < n ==> front[k] == groups[k];
      DisjointPrefix(groups, n);
      PassEffect(st, front, now);
      var before := GroupsMerged(st, cs, front, now);
      forall i | i in g
        ensures i < |cs| && before.contacts[i] == cs[i]
      {
        NotMergedBefore(cs, groups, i);
      }
      GroupEffect(before, cs, g, now);
      EffectStep(cs, before.contacts, GroupsMerged(st, cs, groups, now).contacts, groups, now);
    }
  }

  lemma {:induction false} NotMergedBefore(cs: seq<Contact>, groups: seq<seq<nat>>, i: nat)
    requires groups != [] && GroupsInRange(cs, groups) && Disjoint(groups) && i in groups[|groups| - 1]
    ensures i < |cs| && !InMerged(cs, groups[..|groups| - 1], i)
  {
    var n := |groups| - 1;
    var k :| 0 <= k < |groups[n]| && groups[n][k] == i;
    forall g | g in groups[..n]
      ensures i !in g
    {
      var a :| 0 <= a < n && groups[..n][a] == g;
      assert groups[a] == g;
    }
  }

  lemma {:induction false} EffectStep(cs: seq<Contact>, before: seq<Contact>, r: seq<Contact>,
                                      groups: seq<seq<nat>>, now: Time)
    requires groups != [] && GroupsInRange(cs, groups) && GroupsInRange(cs, groups[..|groups| - 1]) && Disjoint(groups)
    requires Effect(cs, before, groups[..|groups| - 1], now) && |r| == |cs|
    requires GroupOutcome(cs, before, r, groups[|groups| - 1], now)
    ensures Effect(cs, r, groups, now)
  {
    hide ShouldMerge, Pick, MergedAt;
    var n := |groups| - 1;
    forall k, i: nat | 0 <= k < |groups| && i in groups[k] && ShouldMerge(Pick(cs, groups[k]))
      ensures i < |cs| && MergedAt(cs, r[i], groups[k], i, now)
    {
      if k < n {
        assert groups[..n][k] == groups[k];
        assert i in groups[..n][k];
      } else {
        PickHasUid(cs, groups[n], i);
      }
    }
    forall i: nat | i < |cs| && !InMerged(cs, groups, i)
      ensures r[i] == cs[i]
    {
      InMergedLast(cs, groups, i);
    }
  }

  // ---------- What the survivor inherits ----------

  /** The concatenation has the members of its parts. */
  lemma {:induction false} FlattenMembers<T>(lists: seq<seq<T>>)
    ensures forall x :: x in Flatten(lists) <==> exists i :: 0 <= i < |lists| && x in lists[i]
    decreases |lists|
  {
    if lists != [] {
      var n := |lists| - 1;
      FlattenMembers(lists[..n]);
      forall x
        ensures x in Flatten(lists) <==> exists i :: 0 <= i < |lists| && x in lists[i]
      {
        if x in Flatten(lists[..n]) {
          var i :| 0 <= i < n && x in lists[..n][i];
          assert x in lists[i];
        }
        if i :| 0 <= i < |lists| && x in lists[i] {
          if i < n {
            assert x in lists[..n][i];
          }
        }
      }
    }
  }

  /** A union keeps the keys of all its lists, and adds none. */
  lemma {:induction false} UnionKeys<T, K>(lists: seq<seq<T>>, key: T -> Option<K>, k: K)
    ensures KeyIn(UniqueBy(Flatten(lists), key), key, Some(k))
            <==> exists i :: 0 <= i < |lists| && KeyIn(lists[i], key, Some(k))
  {
    var all := Flatten(lists);
    UniqueByExact(all, key);
    FlattenMembers(lists);
    hide UniqueBy, Flatten;
    if KeyIn(all, key, Some(k)) {
      var a :| 0 <= a < |all| && key(all[a]) == Some(k);
      assert all[a] in all;
      var i :| 0 <= i < |lists| && all[a] in lists[i];
      var b :| 0 <= b < |lists[i]| && lists[i][b] == all[a];
      assert KeyIn(lists[i], key, Some(k));
    }
    if i :| 0 <= i < |lists| && KeyIn(lists[i], key, Some(k)) {
      var b :| 0 <= b < |lists[i]| && key(lists[i][b]) == Some(k);
      var x := lists[i][b];
      assert x in lists[i] && x in Flatten(lists);
      var a :| 0 <= a < |all| && all[a] == x;
      assert KeyIn(all, key, Some(k));
    }
  }

  lemma {:induction false} EmailKeyIn(values: seq<ContactValue>, k: string)
    ensures "e:" + k in EmailKeys(values) <==> k != "" && KeyIn(values, EmailKey, Some(k))
  {
    hide NormalizeEmail;
    if "e:" + k in EmailKeys(values) {
      var v :| v in values && NormalizeEmail(v.value) != "" && "e:" + NormalizeEmail(v.value) == "e:" + k;
      assert ("e:" + k)[2..] == k && ("e:" + NormalizeEmail(v.value))[2..] == NormalizeEmail(v.value);
      var a :| 0 <= a < |values| && values[a] == v;
      assert EmailKey(values[a]) == Some(k);
    }
    if k != "" && KeyIn(values, EmailKey, Some(k)) {
      var a :| 0 <= a < |values| && EmailKey(values[a]) == Some(k);
      assert values[a] in values;
    }
  }

  lemma {:induction false} PhoneKeyIn(values: seq<ContactValue>, k: string)
    ensures "p:" + k in PhoneKeys(values) <==> k != "" && KeyIn(values, PhoneKey, Some(k))
  {
    hide NormalizePhone;
    if "p:" + k in PhoneKeys(values) {
      var v :| v in values && NormalizePhone(v.value) != "" && "p:" + NormalizePhone(v.value) == "p:" + k;
      assert ("p:" + k)[2..] == k && ("p:" + NormalizePhone(v.value))[2..] == NormalizePhone(v.value);
      var a :| 0 <= a < |values| && values[a] == v;
      assert PhoneKey(values[a]) == Some(k);
    }
    if k != "" && KeyIn(values, PhoneKey, Some(k)) {
      var a :| 0 <= a < |values| && PhoneKey(values[a]) == Some(k);
      assert values[a] in values;
    }
  }

  /** The union of the members' lists has the union of their keys. */
  lemma {:induction false} MergedEmailKeys(members: seq<Contact>, key: string)
    ensures key in EmailKeys(UniqueBy(Flatten(EmailLists(members)), EmailKey))
            <==> exists i :: 0 <= i < |members| && key in EmailKeys(members[i].card.emails)
  {
    hide UniqueBy, Flatten, NormalizeEmail;
    var lists := EmailLists(members);
    var out := UniqueBy(Flatten(lists), EmailKey);
    if "e:" <= key {
      var k := key[2..];
      assert key == "e:" + k;
      UnionKeys(lists, EmailKey, k);
      EmailKeyIn(out, k);
      forall i | 0 <= i < |members|
        ensures key in EmailKeys(members[i].card.emails) <==> k != "" && KeyIn(lists[i], EmailKey, Some(k))
      {
        EmailKeyIn(lists[i], k);
      }
    } else {
      EmailKeysPrefixed(out);
      forall i | 0 <= i < |members|
        ensures key !in EmailKeys(members[i].card.emails)
      {
        EmailKeysPrefixed(members[i].card.emails);
      }
    }
  }

  lemma EmailKeysPrefixed(values: seq<ContactValue>)
    ensures forall k :: k in EmailKeys(values) ==> "e:" <= k
  {
    hide NormalizeEmail;
  }

  lemma PhoneKeysPrefixed(values: seq<ContactValue>)
    ensures forall k :: k in PhoneKeys(values) ==> "p:" <= k
  {
    hide NormalizePhone;
  }

  lemma {:induction false} MergedPhoneKeys(members: seq<Contact>, key: string)
    ensures key in PhoneKeys(UniqueBy(Flatten(PhoneLists(members)), PhoneKey))
            <==> exists i :: 0 <= i < |members| && key in PhoneKeys(members[i].card.phones)
  {
    hide UniqueBy, Flatten, NormalizePhone;
    var lists := PhoneLists(members);
    var out := UniqueBy(Flatten(lists), PhoneKey);
    if "p:" <= key {
      var k := key[2..];
      assert key == "p:" + k;
      UnionKeys(lists, PhoneKey, k);
      PhoneKeyIn(out, k);
      forall i | 0 <= i < |members|
        ensures key in PhoneKeys(members[i].card.phones) <==> k != "" && KeyIn(lists[i], PhoneKey, Some(k))
      {
        PhoneKeyIn(lists[i], k);
      }
    } else {
      PhoneKeysPrefixed(out);
      forall i | 0 <= i < |members|
        ensures key !in PhoneKeys(members[i].card.phones)
      {
        PhoneKeysPrefixed(members[i].card.phones);
      }
    }
  }

  ghost predicate SomeHasKey(members: seq<Contact>, key: string) {
    exists i :: 0 <= i < |members| && key in KeySet(members[i])
  }

  /** A survivor can be matched by exactly the emails and phones its members could be matched by. */
  lemma {:induction false} SurvivorKeys(members: seq<Contact>, key: string)
    requires members != []
    ensures key in KeySet(Survivor(members)) <==> SomeHasKey(members, key)
  {
    MergedEmailKeys(members, key);
    MergedPhoneKeys(members, key);
    hide UniqueBy, Flatten, EmailKeys, PhoneKeys, Sort, MergedUIDs, FirstNonEmpty;
    var c := Survivor(members);
    assert KeySet(c) == EmailKeys(c.card.emails) + PhoneKeys(c.card.phones);
    if i :| 0 <= i < |members| && key in EmailKeys(members[i].card.emails) {
      assert key in KeySet(members[i]);
    }
    if i :| 0 <= i < |members| && key in PhoneKeys(members[i].card.phones) {
      assert key in KeySet(members[i]);
    }
  }

  lemma MergedScalar(members: seq<Contact>, s: Scalar)
    ensures Get(MergedCard(members), s) == FirstNonEmpty(Sort(NewerThan, members), s)
  {
    hide UniqueBy, Flatten, FirstNonEmpty, Sort;
  }

  /** A scalar of the survivor is empty only when no member has it; otherwise it is the value of a
      member that has it and that no member having it is newer than. */
  lemma {:induction false} SurvivorScalar(members: seq<Contact>, s: Scalar)
    requires members != []
    ensures var v := Get(Survivor(members).card, s);
            && (v == "" <==> forall m :: m in members ==> Get(m.card, s) == "")
            && (v != "" ==> exists m :: NewestWith(members, s, m, v))
  {
    hide Sort, FirstNonEmpty, MergedCard, MergedUIDs, Absorbed, Get, NewerThan;
    MergedScalar(members, s);
    assert Survivor(members).card == MergedCard(members);
    NewestScalar(members, s);
  }

  /** `m` is among `cs`, has the value, and nothing newer among `cs` has one. */
  ghost predicate NewestWith(cs: seq<Contact>, s: Scalar, m: Contact, v: string) {
    m in cs && Get(m.card, s) == v && forall o :: o in cs && NewerThan(o, m) ==> Get(o.card, s) == ""
  }

  lemma {:induction false} NewestScalar(members: seq<Contact>, s: Scalar)
    ensures var v := FirstNonEmpty(Sort(NewerThan, members), s);
            && (v == "" <==> forall m :: m in members ==> Get(m.card, s) == "")
            && (v != "" ==> exists m :: NewestWith(members, s, m, v))
  {
    var byNewest := Sort(NewerThan, members);
    SortMembers(NewerThan, members);
    NewerIsOrder();
    SortSorted(NewerThan, members);
    hide Sort, FirstNonEmpty, Get, NewerThan, StrictWeakOrder;
    FirstOfSorted(byNewest, s);
    hide Sorted;
    if FirstNonEmpty(byNewest, s) != "" {
      var m :| NewestWith(byNewest, s, m, FirstNonEmpty(byNewest, s));
      assert NewestWith(members, s, m, FirstNonEmpty(byNewest, s));
    }
  }

  lemma {:induction false} FirstOfSorted(cs: seq<Contact>, s: Scalar)
    requires Sorted(NewerThan, cs)
    ensures var v := FirstNonEmpty(cs, s);
            && (v == "" <==> forall m :: m in cs ==> Get(m.card, s) == "")
            && (v != "" ==> exists m :: NewestWith(cs, s, m, v))
  {
    FirstNonEmptyExact(cs, s);
    hide FirstNonEmpty, Get, NewerThan;
    var v := FirstNonEmpty(cs, s);
    if v == "" {
      forall m | m in cs
        ensures Get(m.card, s) == ""
      {
        var i :| 0 <= i < |cs| && cs[i] == m;
      }
    } else {
      var i :| 0 <= i < |cs| && Get(cs[i].card, s) == v && forall j :: 0 <= j < i ==> Get(cs[j].card, s) == "";
      assert cs[i] in cs;
      forall o | o in cs && NewerThan(o, cs[i])
        ensures Get(o.card, s) == ""
      {
        var j :| 0 <= j < |cs| && cs[j] == o;
        NewerIrreflexive(cs[i]);
        assert j < i;
      }
      assert NewestWith(cs, s, cs[i], v);
    }
  }

  lemma NewerIrreflexive(m: Contact)
    ensures !NewerThan(m, m)
  {
  }

  /** Provenance: the survivor names the absorbed and everything its members had absorbed before,
      but not itself, each once and in string order. */
  lemma {:induction false} SurvivorProvenance(members: seq<Contact>)
    requires members != []
    ensures var c := Survivor(members);
            && Distinct(c.mergedUIDs) && Sorted(Less, c.mergedUIDs)
            && forall u :: u in c.mergedUIDs
                 <==> u != "" && u != c.uid
                      && (u in Absorbed(members) || exists i :: 0 <= i < |members| && u in members[i].mergedUIDs)
  {
    hide MergedCard, OlderThan, Absorbed, Less, Flatten, Foreign;
    var c := Survivor(members);
    var lists := MergedUIDLists(members);
    var pool := Absorbed(members) + Flatten(lists);
    ForeignExact(pool, c.uid);
    var f := Foreign(pool, c.uid);
    LessIsOrder();
    SortSorted(Less, f);
    SortMembers(Less, f);
    SortKeepsDistinct(Less, f);
    FlattenMembers(lists);
    assert c.mergedUIDs == Sort(Less, f);
    hide Sort, StrictWeakOrder, Survivor;
    forall u
      ensures u in Flatten(lists) <==> exists i :: 0 <= i < |members| && u in members[i].mergedUIDs
    {
      if u in Flatten(lists) {
        var i :| 0 <= i < |lists| && u in lists[i];
        assert u in members[i].mergedUIDs;
      }
      if i :| 0 <= i < |members| && u in members[i].mergedUIDs {
        assert u in lists[i];
      }
    }
  }
}
