/** Deduplication conserves data: keys, scalars, lists and provenance end up in the survivors, and the
    report counts exactly the contacts that stopped being live. */
module DedupeConservation {
  import opened Wrappers
  import opened Text
  import opened Sorting
  import opened ContactModel
  import opened ContactMerge
  import opened DuplicateGraph
  import opened ContactStore
  import opened ContactRuns
  import opened DedupeEffect
  import opened DedupeIdempotence

  // ---------- The survivor of a group ----------

  /** `p` is the survivor's position in the merged group `g`. */
  ghost predicate SurvivesAt(cs: seq<Contact>, r: seq<Contact>, g: seq<nat>, p: nat) {
    && p in g && p < |cs| == |r| && g != [] && InRange(cs, g) && !r[p].deleted
    && r[p] == Survivor(Pick(cs, g)).(rev := r[p].rev, updatedAt := r[p].updatedAt)
  }

  lemma {:induction false} SurvivorPosition(cs: seq<Contact>, r: seq<Contact>, groups: seq<seq<nat>>, now: Time, g: seq<nat>)
    returns (p: nat)
    requires Pass(cs, r, groups, now) && Merged(cs, groups, g)
    ensures SurvivesAt(cs, r, g, p)
  {
    OneSurvivor(cs, r, groups, now, g);
    MergedGroup(cs, r, groups, now, g);
    hide Survivor, Pick, ShouldMerge, Pass, IsComponent;
    p :| p in g && !r[p].deleted;
  }

  /** Each loser is a tombstone that names its group's survivor, which is live after the pass. */
  lemma {:induction false} LosersNameSurvivor(cs: seq<Contact>, r: seq<Contact>, groups: seq<seq<nat>>, now: Time,
                                              g: seq<nat>, i: nat)
    requires Pass(cs, r, groups, now) && Merged(cs, groups, g) && i in g
    ensures i < |cs| == |r| && r[i].uid == cs[i].uid
    ensures r[i].deleted ==>
              && r[i].card == BLANK_CARD && r[i].mergedUIDs == [] && !r[i].isSelf
              && exists p: nat :: SurvivesAt(cs, r, g, p) && r[p].uid == r[i].mergedInto
    ensures !r[i].deleted ==> SurvivesAt(cs, r, g, i) && r[i].mergedInto == ""
  {
    hide Survivor, Pick, ShouldMerge, Pass, IsComponent, Merged, InRange, MergedAt, SurvivesAt, RetiredAt;
    MemberFate(cs, r, groups, now, g, i);
    FateExact(cs, r, g, i, now);
    var p := SurvivorPosition(cs, r, groups, now, g);
    SurvivorFields(cs, r, g, p);
  }

  lemma {:induction false} MemberFate(cs: seq<Contact>, r: seq<Contact>, groups: seq<seq<nat>>, now: Time,
                                      g: seq<nat>, i: nat)
    requires Pass(cs, r, groups, now) && Merged(cs, groups, g) && i in g
    ensures i < |cs| == |r| && g != [] && InRange(cs, g) && MergedAt(cs, r[i], g, i, now)
    ensures !r[i].deleted <==> cs[i].uid == Survivor(Pick(cs, g)).uid
  {
    OneSurvivor(cs, r, groups, now, g);
    MergedGroup(cs, r, groups, now, g);
    hide Survivor, Pick, ShouldMerge, Pass, IsComponent, InRange, MergedAt;
  }

  lemma {:induction false} FateExact(cs: seq<Contact>, r: seq<Contact>, g: seq<nat>, i: nat, now: Time)
    requires i in g && i < |cs| == |r| && g != [] && InRange(cs, g) && MergedAt(cs, r[i], g, i, now)
    requires !r[i].deleted <==> cs[i].uid == Survivor(Pick(cs, g)).uid
    ensures r[i].uid == cs[i].uid
    ensures r[i].deleted ==>
              && r[i].card == BLANK_CARD && r[i].mergedUIDs == [] && !r[i].isSelf
              && r[i].mergedInto == Survivor(Pick(cs, g)).uid
    ensures !r[i].deleted ==> SurvivesAt(cs, r, g, i) && r[i].mergedInto == ""
  {
    SurvivorUid(Pick(cs, g));
    hide Survivor, Pick, InRange;
  }

  lemma {:induction false} SurvivorFields(cs: seq<Contact>, r: seq<Contact>, g: seq<nat>, p: nat)
    requires SurvivesAt(cs, r, g, p)
    ensures g != [] && InRange(cs, g) && p < |r| && r[p].uid == Survivor(Pick(cs, g)).uid
  {
    hide Survivor, Pick, InRange;
  }

  lemma SurvivorUid(members: seq<Contact>)
    requires members != []
    ensures Survivor(members).mergedInto == ""
  {
    hide MergedCard, MergedUIDs, Absorbed, OlderThan, Sort;
  }

  // ---------- Keys ----------

  ghost predicate LiveHasKey(cs: seq<Contact>, key: string) {
    exists i :: 0 <= i < |cs| && !cs[i].deleted && key in KeySet(cs[i])
  }

  /** The emails and phones that the live contacts can be matched by do not change. */
  lemma {:induction false} KeysConserved(cs: seq<Contact>, r: seq<Contact>, groups: seq<seq<nat>>, now: Time, key: string)
    requires Pass(cs, r, groups, now)
    ensures LiveHasKey(cs, key) <==> LiveHasKey(r, key)
  {
    PassLength(cs, r, groups, now);
    hide Pass, KeySet;
    if LiveHasKey(cs, key) {
      var i :| 0 <= i < |cs| && !cs[i].deleted && key in KeySet(cs[i]);
      KeyKept(cs, r, groups, now, i, key);
    }
    if LiveHasKey(r, key) {
      var i :| 0 <= i < |r| && !r[i].deleted && key in KeySet(r[i]);
      KeyFound(cs, r, groups, now, i, key);
    }
  }

  lemma {:induction false} KeyKept(cs: seq<Contact>, r: seq<Contact>, groups: seq<seq<nat>>, now: Time, i: nat, key: string)
    requires Pass(cs, r, groups, now) && i < |cs| && !cs[i].deleted && key in KeySet(cs[i])
    ensures LiveHasKey(r, key)
  {
    hide Pass, KeySet, ShouldMerge, Survivor, Pick, InRange;
    Untouched(cs, r, groups, now, i);
    if InMerged(cs, groups, i) {
      var g :| g in groups && i in g && InRange(cs, g) && ShouldMerge(Pick(cs, g));
      var p := SurvivorPosition(cs, r, groups, now, g);
      SurvivorStandsByKey(cs, g, r[p]);
      assert KeyAt(cs, g, key);
    } else {
      assert r[i] == cs[i];
    }
  }

  lemma {:induction false} KeyFound(cs: seq<Contact>, r: seq<Contact>, groups: seq<seq<nat>>, now: Time, i: nat, key: string)
    requires Pass(cs, r, groups, now) && i < |r| && !r[i].deleted && key in KeySet(r[i])
    ensures LiveHasKey(cs, key)
  {
    PassLength(cs, r, groups, now);
    assert i in Live(r);
    var o := LiveStands(cs, r, groups, now, i);
    OriginsLive(cs, groups, i, o);
    hide Pass, KeySet, Origins;
    assert KeyAt(cs, o, key);
    var a :| a in o && a < |cs| && key in KeySet(cs[a]);
    assert a in Live(cs);
  }

  // ---------- Scalars, lists and provenance ----------

  /** A scalar that some member has, the survivor has. */
  lemma {:induction false} ScalarConserved(cs: seq<Contact>, r: seq<Contact>, g: seq<nat>, p: nat, i: nat, s: Scalar)
    requires SurvivesAt(cs, r, g, p) && i in g && i < |cs| && Get(cs[i].card, s) != ""
    ensures Get(r[p].card, s) != ""
  {
    var members := Pick(cs, g);
    SurvivorScalar(members, s);
    var k :| 0 <= k < |g| && g[k] == i;
    assert members[k] in members;
    hide Get, Survivor;
  }

  /** `out` has exactly the items of the members' lists. */
  ghost predicate UnionOf<T(!new)>(out: seq<T>, members: seq<Contact>, list: Contact -> seq<T>) {
    forall x :: x in out <==> exists i :: 0 <= i < |members| && x in list(members[i])
  }

  lemma {:induction false} UnionOfLists<T(!new)>(members: seq<Contact>, lists: seq<seq<T>>, list: Contact -> seq<T>)
    requires |lists| == |members| && forall i :: 0 <= i < |lists| ==> lists[i] == list(members[i])
    ensures UnionOf(UniqueBy(Flatten(lists), Itself), members, list)
  {
    hide UniqueBy, Flatten;
    var out := UniqueBy(Flatten(lists), Itself);
    forall x
      ensures x in out <==> exists i :: 0 <= i < |members| && x in list(members[i])
    {
      UnionKeys(lists, Itself, x);
      InItself(out, x);
      forall i | 0 <= i < |lists|
        ensures x in lists[i] <==> KeyIn(lists[i], Itself, Some(x))
      {
        InItself(lists[i], x);
      }
    }
  }

  lemma {:induction false} InItself<T>(s: seq<T>, x: T)
    ensures x in s <==> KeyIn(s, Itself, Some(x))
  {
    if x in s {
      var i :| 0 <= i < |s| && s[i] == x;
      assert Itself(s[i]) == Some(x);
    }
  }

  function Addresses(c: Contact): seq<Address> {
    c.card.addresses
  }

  function IMs(c: Contact): seq<IM> {
    c.card.ims
  }

  function Websites(c: Contact): seq<Link> {
    c.card.websites
  }

  function Relations(c: Contact): seq<Relation> {
    c.card.relations
  }

  function Events(c: Contact): seq<Occasion> {
    c.card.events
  }

  function CustomFields(c: Contact): seq<CustomField> {
    c.card.customFields
  }

  /** The survivor has exactly the addresses, messengers, websites, relations, events and custom
      fields of its members. */
  lemma {:induction false} ListsConserved(members: seq<Contact>)
    requires members != []
    ensures var c := Survivor(members);
            && UnionOf(Addresses(c), members, Addresses) && UnionOf(IMs(c), members, IMs)
            && UnionOf(Websites(c), members, Websites) && UnionOf(Relations(c), members, Relations)
            && UnionOf(Events(c), members, Events) && UnionOf(CustomFields(c), members, CustomFields)
  {
    hide UniqueBy, Flatten, Survivor, UnionOf, MergedCard;
    SurvivorCard(members);
    UnionOfLists(members, AddressLists(members), Addresses);
    UnionOfLists(members, IMLists(members), IMs);
    UnionOfLists(members, WebsiteLists(members), Websites);
    UnionOfLists(members, RelationLists(members), Relations);
    UnionOfLists(members, EventLists(members), Events);
    UnionOfLists(members, CustomFieldLists(members), CustomFields);
  }

  lemma SurvivorCard(members: seq<Contact>)
    requires members != []
    ensures var c := Survivor(members).card;
            && c.addresses == UniqueBy(Flatten(AddressLists(members)), Itself)
            && c.ims == UniqueBy(Flatten(IMLists(members)), Itself)
            && c.websites == UniqueBy(Flatten(WebsiteLists(members)), Itself)
            && c.relations == UniqueBy(Flatten(RelationLists(members)), Itself)
            && c.events == UniqueBy(Flatten(EventLists(members)), Itself)
            && c.customFields == UniqueBy(Flatten(CustomFieldLists(members)), Itself)
            && c.groupIDs == UniqueBy(Flatten(GroupIDLists(members)), NonBlank)
  {
    hide UniqueBy, Flatten, FirstNonEmpty, Sort, MergedUIDs, OlderThan;
  }

  /** The survivor is in exactly the (named) contact groups its members were in. */
  lemma {:induction false} GroupIDsConserved(members: seq<Contact>, id: string)
    requires members != [] && id != ""
    ensures id in Survivor(members).card.groupIDs <==> exists i :: 0 <= i < |members| && id in members[i].card.groupIDs
  {
    SurvivorCard(members);
    var lists := GroupIDLists(members);
    UnionKeys(lists, NonBlank, id);
    hide UniqueBy, Flatten, Survivor;
    InNonBlank(UniqueBy(Flatten(lists), NonBlank), id);
    forall i | 0 <= i < |members|
      ensures id in members[i].card.groupIDs <==> KeyIn(lists[i], NonBlank, Some(id))
    {
      InNonBlank(lists[i], id);
    }
  }

  lemma {:induction false} InNonBlank(s: seq<string>, x: string)
    requires x != ""
    ensures x in s <==> KeyIn(s, NonBlank, Some(x))
  {
    if x in s {
      var i :| 0 <= i < |s| && s[i] == x;
      assert NonBlank(s[i]) == Some(x);
    }
  }

  /** Provenance after the pass: the survivor names every other member and all that the members had
      absorbed before. */
  lemma {:induction false} ProvenanceConserved(cs: seq<Contact>, r: seq<Contact>, g: seq<nat>, p: nat)
    requires SurvivesAt(cs, r, g, p) && UidsDistinct(cs) && Increasing(g)
    ensures forall u :: u in r[p].mergedUIDs
              <==> u != "" && u != r[p].uid && exists i :: i in g && i < |cs| && (u == cs[i].uid || u in cs[i].mergedUIDs)
  {
    hide Survivor, Absorbed, Distinct, Sorted, UidsDistinct, Increasing, Less;
    var members := Pick(cs, g);
    PickDistinct(cs, g);
    SurvivorProvenance(members);
    AbsorbedExact(members);
    forall u
      ensures (HasUid(members, u) || exists i :: 0 <= i < |members| && u in members[i].mergedUIDs)
              <==> exists i :: i in g && i < |cs| && (u == cs[i].uid || u in cs[i].mergedUIDs)
    {
      if HasUid(members, u) {
        var k :| 0 <= k < |members| && members[k].uid == u;
        assert g[k] in g;
      }
      if k :| 0 <= k < |members| && u in members[k].mergedUIDs {
        assert g[k] in g;
      }
      if i :| i in g && i < |cs| && (u == cs[i].uid || u in cs[i].mergedUIDs) {
        var k :| 0 <= k < |g| && g[k] == i;
        assert members[k] == cs[i];
      }
    }
  }

  // ---------- The report ----------

  ghost function Positions(g: seq<nat>): (r: set<nat>)
    ensures forall i :: i in r <==> i in g
  {
    set i | i in g
  }

  lemma {:induction false} PositionsCount(g: seq<nat>)
    requires Increasing(g)
    ensures |Positions(g)| == |g|
    decreases |g|
  {
    if g == [] {
      assert Positions(g) == {};
    } else {
      IncreasingTail(g);
      PositionsCount(g[1..]);
      assert Positions(g) == Positions(g[1..]) + {g[0]};
    }
  }

  lemma {:induction false} AbsorbedLength(members: seq<Contact>)
    requires members != []
    ensures |Absorbed(members)| == |members| - 1
  {
    SortPermutes(OlderThan, members);
    SortPermutes(Less, Uids(Sort(OlderThan, members)[1..]));
    hide Sort, OlderThan, Less;
  }

  lemma SameUidSamePlace(cs: seq<Contact>, i: nat, p: nat)
    requires UidsDistinct(cs) && i < |cs| && p < |cs|
    ensures cs[i].uid == cs[p].uid <==> i == p
  {
  }

  lemma {:induction false} MergedDeleted(cs: seq<Contact>, c: Contact, g: seq<nat>, i: nat, now: Time)
    requires g != [] && InRange(cs, g) && i < |cs| && MergedAt(cs, c, g, i, now)
    requires !Survivor(Pick(cs, g)).deleted
    ensures c.deleted <==> cs[i].uid != Survivor(Pick(cs, g)).uid
  {
    hide Survivor, Pick, InRange;
  }

  /** Merging one group takes one contact less than it has members out of the live set. */
  lemma {:induction false} GroupCounts(st: State, cs: seq<Contact>, g: seq<nat>, now: Time)
    requires |g| >= 2 && InRange(cs, g) && Increasing(g) && UidsDistinct(cs) && |st.contacts| == |cs|
    requires forall i :: i in g ==> i < |cs| && st.contacts[i] == cs[i] && !cs[i].deleted
    ensures |Live(st.contacts)| == |Live(GroupMerged(st, cs, g, now).contacts)|
                                  + (if ShouldMerge(Pick(cs, g)) then |Absorbed(Pick(cs, g))| else 0)
  {
    var r := GroupMerged(st, cs, g, now).contacts;
    if ShouldMerge(Pick(cs, g)) {
      GroupEffect(st, cs, g, now);
      SurvivorLives(cs, g);
      hide GroupMerged, ShouldMerge, Survivor, Absorbed, Pick, InRange, MergedAt;
      var p :| p in g && p < |cs| && cs[p].uid == Survivor(Pick(cs, g)).uid;
      forall i: nat | i < |cs|
        ensures r[i].deleted == if i in g then i != p else st.contacts[i].deleted
      {
        if i in g {
          MergedDeleted(cs, r[i], g, i, now);
          SameUidSamePlace(cs, i, p);
        }
      }
      hide UidsDistinct;
      LiveLoses(st.contacts, r, g, p);
      AbsorbedLength(Pick(cs, g));
    }
  }

  lemma {:induction false} LiveLoses(before: seq<Contact>, r: seq<Contact>, g: seq<nat>, p: nat)
    requires |r| == |before| && Increasing(g) && p in g
    requires forall i :: i in g ==> i < |before| && !before[i].deleted
    requires forall i: nat :: i < |before| ==> r[i].deleted == if i in g then i != p else before[i].deleted
    ensures |Live(before)| == |Live(r)| + |g| - 1
  {
    PositionsCount(g);
    var lost := Positions(g) - {p};
    assert |lost| == |g| - 1;
    assert Live(before) == Live(r) + lost;
    assert Live(r) !! lost;
  }

  ghost predicate AllLive(cs: seq<Contact>, g: seq<nat>) {
    forall i :: i in g ==> i < |cs| && !cs[i].deleted
  }

  lemma {:induction false} ReportStep(cs: seq<Contact>, groups: seq<seq<nat>>)
    requires groups != [] && GroupsInRange(cs, groups) && GroupsInRange(cs, groups[..|groups| - 1])
    ensures var members := Pick(cs, groups[|groups| - 1]);
            AbsorbedCount(Merges(cs, groups))
            == AbsorbedCount(Merges(cs, groups[..|groups| - 1])) + (if ShouldMerge(members) then |Absorbed(members)| else 0)
  {
    hide ShouldMerge, Survivor, Absorbed;
    var before := Merges(cs, groups[..|groups| - 1]);
    var members := Pick(cs, groups[|groups| - 1]);
    if ShouldMerge(members) {
      var all := before + [Merge(Survivor(members).uid, Absorbed(members))];
      assert all[..|all| - 1] == before;
    } else {
      assert before + [] == before;
    }
  }

  lemma {:induction false} GroupsCount(st: State, groups: seq<seq<nat>>, now: Time)
    requires GroupsInRange(st.contacts, groups) && Disjoint(groups) && UidsDistinct(st.contacts)
    requires forall k :: 0 <= k < |groups| ==> |groups[k]| >= 2 && AllLive(st.contacts, groups[k])
    ensures |Live(st.contacts)|
         == |Live(GroupsMerged(st, st.contacts, groups, now).contacts)| + AbsorbedCount(Merges(st.contacts, groups))
    decreases |groups|
  {
    hide ShouldMerge, Pick, MergedAt, GroupMerged, Survivor, Absorbed, InRange, UidsDistinct;
    var cs := st.contacts;
    if groups != [] {
      var n := |groups| - 1;
      var front, g := groups[..n], groups[n];
      assert forall k :: 0 <= k < n ==> front[k] == groups[k];
      DisjointPrefix(groups, n);
      GroupsCount(st, front, now);
      PassEffect(st, front, now);
      var before := GroupsMerged(st, cs, front, now);
      forall i | i in g
        ensures i < |cs| && before.contacts[i] == cs[i] && !cs[i].deleted
      {
        NotMergedBefore(cs, groups, i);
      }
      GroupCounts(before, cs, g, now);
      ReportStep(cs, groups);
    }
  }

  /** The report's count is the number of contacts that stopped being live. */
  lemma {:induction false} ReportCounts(st: State, groups: seq<seq<nat>>, now: Time)
    requires UidsDistinct(st.contacts)
    requires AreGroups(st.contacts, Live(st.contacts), groups) && GroupsInRange(st.contacts, groups)
    ensures |Live(st.contacts)|
         == |Live(GroupsMerged(st, st.contacts, groups, now).contacts)| + AbsorbedCount(Merges(st.contacts, groups))
  {
    hide GroupsMerged, Merges, Connected, UidsDistinct;
    GroupsDisjoint(st.contacts, Live(st.contacts), groups);
    forall k | 0 <= k < |groups|
      ensures |groups[k]| >= 2 && AllLive(st.contacts, groups[k])
    {
      assert groups[k] in groups;
      assert IsComponent(st.contacts, Live(st.contacts), groups[k]);
    }
    GroupsCount(st, groups, now);
  }
}
