/** A deduplication pass leaves nothing for a second one, and loses nothing on the way. */
module DedupeIdempotence {
  import opened Text
  import opened Sorting
  import opened ContactModel
  import opened ContactMerge
  import opened DuplicateGraph
  import opened ContactStore
  import opened ContactRuns
  import opened DedupeEffect

  /** `r` is what a pass over the duplicate groups of `cs` makes of it. */
  ghost predicate Pass(cs: seq<Contact>, r: seq<Contact>, groups: seq<seq<nat>>, now: Time) {
    && UidsDistinct(cs)
    && AreGroups(cs, Live(cs), groups)
    && GroupsInRange(cs, groups)
    && Effect(cs, r, groups, now)
  }

  lemma {:induction false} PassHappens(st: State, groups: seq<seq<nat>>, now: Time)
    requires UidsDistinct(st.contacts) && AreGroups(st.contacts, Live(st.contacts), groups)
    ensures GroupsInRange(st.contacts, groups)
    ensures Pass(st.contacts, GroupsMerged(st, st.contacts, groups, now).contacts, groups, now)
  {
    hide AreGroups, Effect, GroupMerged;
    GroupsRange(st.contacts, groups);
    GroupsDisjoint(st.contacts, Live(st.contacts), groups);
    PassEffect(st, groups, now);
  }

  // ---------- Who is live after the pass ----------

  ghost predicate Merged(cs: seq<Contact>, groups: seq<seq<nat>>, g: seq<nat>) {
    g in groups && InRange(cs, g) && ShouldMerge(Pick(cs, g))
  }

  /** Facts about one merged group. */
  lemma {:induction false} MergedGroup(cs: seq<Contact>, r: seq<Contact>, groups: seq<seq<nat>>, now: Time, g: seq<nat>)
    requires Pass(cs, r, groups, now) && Merged(cs, groups, g)
    ensures g != [] && |r| == |cs| && IsComponent(cs, Live(cs), g)
    ensures forall i :: i in g ==> i < |cs| && !cs[i].deleted && MergedAt(cs, r[i], g, i, now)
  {
    hide Connected, MergedAt, ShouldMerge, UidsDistinct, FirstsIncrease, Pick;
    var k :| 0 <= k < |groups| && groups[k] == g;
    forall i | i in g
      ensures i < |cs| && !cs[i].deleted && MergedAt(cs, r[i], g, i, now)
    {
      assert i in Live(cs);
    }
  }

  lemma {:induction false} SurvivorLives(cs: seq<Contact>, g: seq<nat>)
    requires g != [] && InRange(cs, g) && forall i :: i in g ==> i < |cs| && !cs[i].deleted
    ensures !Survivor(Pick(cs, g)).deleted
    ensures exists p :: p in g && p < |cs| && cs[p].uid == Survivor(Pick(cs, g)).uid
  {
    var members := Pick(cs, g);
    SortPermutes(OlderThan, members);
    SortMembers(OlderThan, members);
    hide MergedCard, MergedUIDs, Absorbed, Sort;
    var oldest := Sort(OlderThan, members)[0];
    assert oldest in members;
    var k :| 0 <= k < |members| && members[k] == oldest;
    assert g[k] in g && cs[g[k]] == oldest;
  }

  /** After the pass a merged group has exactly one live member, the survivor. */
  lemma {:induction false} OneSurvivor(cs: seq<Contact>, r: seq<Contact>, groups: seq<seq<nat>>, now: Time, g: seq<nat>)
    requires Pass(cs, r, groups, now) && Merged(cs, groups, g)
    ensures g != [] && |r| == |cs|
    ensures forall i :: i in g ==> i < |cs| && (!r[i].deleted <==> cs[i].uid == Survivor(Pick(cs, g)).uid)
    ensures forall i, j :: i in g && j in g && !r[i].deleted && !r[j].deleted ==> i == j
    ensures exists p :: p in g && !r[p].deleted
  {
    MergedGroup(cs, r, groups, now, g);
    SurvivorLives(cs, g);
    hide Survivor, ShouldMerge, Pick, Effect, AreGroups, IsComponent;
  }

  /** A contact outside the merged groups is untouched. */
  lemma {:induction false} Untouched(cs: seq<Contact>, r: seq<Contact>, groups: seq<seq<nat>>, now: Time, i: nat)
    requires Pass(cs, r, groups, now) && i < |cs|
    ensures |r| == |cs| && (InMerged(cs, groups, i) || r[i] == cs[i])
  {
    hide AreGroups, InMerged, MergedAt, ShouldMerge;
  }

  // ---------- A live contact stands for its origins ----------

  ghost predicate KeyAt(cs: seq<Contact>, o: seq<nat>, key: string) {
    exists a :: a in o && a < |cs| && key in KeySet(cs[a])
  }

  ghost predicate NameAt(cs: seq<Contact>, o: seq<nat>, name: string) {
    exists a :: a in o && a < |cs| && NormalizeName(cs[a]) == name
  }

  ghost predicate BareNameAt(cs: seq<Contact>, o: seq<nat>, name: string) {
    exists a :: a in o && a < |cs| && NormalizeName(cs[a]) == name && OtherwiseEmpty(cs[a])
  }

  /** Whatever could link `c` could already link a contact at one of the positions `o`. */
  ghost predicate StandsFor(cs: seq<Contact>, o: seq<nat>, c: Contact) {
    && (forall key :: key in KeySet(c) ==> KeyAt(cs, o, key))
    && (NormalizeName(c) != "" ==> NameAt(cs, o, NormalizeName(c)))
    && (NormalizeName(c) != "" && OtherwiseEmpty(c) ==> BareNameAt(cs, o, NormalizeName(c)))
  }

  ghost predicate LinkBetween(cs: seq<Contact>, o: seq<nat>, o': seq<nat>) {
    exists a, b :: a in o && b in o' && a < |cs| && b < |cs| && Linked(cs[a], cs[b])
  }

  /** A link between two contacts is a link between what they stand for. */
  lemma {:induction false} LinkLifts(cs: seq<Contact>, o: seq<nat>, c: Contact, o': seq<nat>, c': Contact)
    requires StandsFor(cs, o, c) && StandsFor(cs, o', c') && Linked(c, c')
    ensures LinkBetween(cs, o, o')
  {
    hide KeySet, NormalizeName, OtherwiseEmpty;
    if KeySet(c) * KeySet(c') != {} {
      var key :| key in KeySet(c) * KeySet(c');
      assert KeyAt(cs, o, key) && KeyAt(cs, o', key);
      var a :| a in o && a < |cs| && key in KeySet(cs[a]);
      var b :| b in o' && b < |cs| && key in KeySet(cs[b]);
      assert key in KeySet(cs[a]) * KeySet(cs[b]);
      assert Linked(cs[a], cs[b]);
    } else {
      NameLinkLifts(cs, o, c, o', c');
    }
  }

  lemma {:induction false} NameLinkLifts(cs: seq<Contact>, o: seq<nat>, c: Contact, o': seq<nat>, c': Contact)
    requires StandsFor(cs, o, c) && StandsFor(cs, o', c')
    requires NormalizeName(c) != "" && NormalizeName(c) == NormalizeName(c') && (OtherwiseEmpty(c) || OtherwiseEmpty(c'))
    ensures LinkBetween(cs, o, o')
  {
    hide KeySet, NormalizeName, OtherwiseEmpty;
    var name := NormalizeName(c);
    if OtherwiseEmpty(c) {
      var a :| a in o && a < |cs| && NormalizeName(cs[a]) == name && OtherwiseEmpty(cs[a]);
      var b :| b in o' && b < |cs| && NormalizeName(cs[b]) == name;
      assert Linked(cs[a], cs[b]);
    } else {
      var a :| a in o && a < |cs| && NormalizeName(cs[a]) == name;
      var b :| b in o' && b < |cs| && NormalizeName(cs[b]) == name && OtherwiseEmpty(cs[b]);
      assert Linked(cs[a], cs[b]);
    }
  }

  lemma {:induction false} SelfStands(cs: seq<Contact>, i: nat)
    requires i < |cs|
    ensures StandsFor(cs, [i], cs[i])
  {
    hide KeySet, NormalizeName, OtherwiseEmpty;
    assert i in [i];
  }

  /** A survivor stands for its group, even when the unions of its emails and phones are empty
      although some member listed (blank) values. */
  lemma {:induction false} SurvivorStands(cs: seq<Contact>, g: seq<nat>, c: Contact)
    requires IsComponent(cs, Live(cs), g) && InRange(cs, g) && c.card == Survivor(Pick(cs, g)).card
    ensures StandsFor(cs, g, c)
  {
    SurvivorStandsByKey(cs, g, c);
    SurvivorStandsByName(cs, g, c);
    if NormalizeName(c) != "" && OtherwiseEmpty(c) {
      BareSurvivor(cs, g, c);
    }
  }

  lemma {:induction false} SameCardSameKeys(c: Contact, d: Contact)
    requires c.card == d.card
    ensures KeySet(c) == KeySet(d) && NormalizeName(c) == NormalizeName(d)
  {
  }

  lemma {:induction false} SurvivorStandsByKey(cs: seq<Contact>, g: seq<nat>, c: Contact)
    requires g != [] && InRange(cs, g) && c.card == Survivor(Pick(cs, g)).card
    ensures forall key :: key in KeySet(c) <==> KeyAt(cs, g, key)
  {
    var members := Pick(cs, g);
    SameCardSameKeys(c, Survivor(members));
    hide KeySet, Survivor;
    forall key
      ensures key in KeySet(c) <==> KeyAt(cs, g, key)
    {
      SurvivorKeys(members, key);
      if SomeHasKey(members, key) {
        var i :| 0 <= i < |members| && key in KeySet(members[i]);
        assert g[i] in g;
      }
      if KeyAt(cs, g, key) {
        var a :| a in g && a < |cs| && key in KeySet(cs[a]);
        var i :| 0 <= i < |g| && g[i] == a;
        assert members[i] == cs[a];
      }
    }
  }

  lemma {:induction false} SurvivorStandsByName(cs: seq<Contact>, g: seq<nat>, c: Contact)
    requires g != [] && InRange(cs, g) && c.card == Survivor(Pick(cs, g)).card
    ensures NormalizeName(c) != "" ==> NameAt(cs, g, NormalizeName(c))
  {
    var members := Pick(cs, g);
    hide Survivor, NewerThan, NormalizeName, Get;
    FormattedNameScalar(c.card);
    SurvivorScalar(members, FormattedName);
    if c.card.formattedName == "" {
      BlankName(c);
    } else {
      var m :| NewestWith(members, FormattedName, m, Get(c.card, FormattedName));
      assert m in members && Get(m.card, FormattedName) == Get(c.card, FormattedName);
      hide NewestWith;
      FormattedNameScalar(m.card);
      SameNames(c, m);
      MemberNameAt(cs, g, m);
    }
  }

  lemma {:induction false} MemberNameAt(cs: seq<Contact>, g: seq<nat>, m: Contact)
    requires InRange(cs, g) && m in Pick(cs, g)
    ensures NameAt(cs, g, NormalizeName(m))
  {
    hide NormalizeName;
    var i :| 0 <= i < |Pick(cs, g)| && Pick(cs, g)[i] == m;
    assert g[i] in g && cs[g[i]] == m;
  }

  lemma FormattedNameScalar(c: Card)
    ensures Get(c, FormattedName) == c.formattedName
  {
  }

  lemma SameNames(c: Contact, d: Contact)
    ensures c.card.formattedName == d.card.formattedName ==> NormalizeName(c) == NormalizeName(d)
  {
  }

  /** A survivor with a name and nothing else: some member had the same name and nothing else, for
      without any key only such a member could join the group. */
  lemma {:induction false} BareSurvivor(cs: seq<Contact>, g: seq<nat>, c: Contact)
    requires IsComponent(cs, Live(cs), g) && InRange(cs, g) && c.card == Survivor(Pick(cs, g)).card
    requires NormalizeName(c) != "" && OtherwiseEmpty(c)
    ensures BareNameAt(cs, g, NormalizeName(c))
  {
    SurvivorStandsByKey(cs, g, c);
    SurvivorStandsByName(cs, g, c);
    NoKeys(c);
    var name := NormalizeName(c);
    hide KeySet, NormalizeName, OtherwiseEmpty, Survivor, Pick, Linked, IsComponent;
    var a :| a in g && a < |cs| && NormalizeName(cs[a]) == name;
    assert forall key :: key in KeySet(cs[a]) ==> KeyAt(cs, g, key);
    var b := Neighbour(cs, g, a);
    hide KeyAt;
    BareLink(cs[a], cs[b]);
    if OtherwiseEmpty(cs[b]) {
      assert b in g && NormalizeName(cs[b]) == name;
    }
  }

  lemma NoKeys(c: Contact)
    requires OtherwiseEmpty(c)
    ensures forall key :: key !in KeySet(c)
  {
  }

  lemma {:induction false} BareLink(c: Contact, d: Contact)
    requires Linked(c, d) && forall key :: key !in KeySet(c)
    ensures NormalizeName(c) == NormalizeName(d) && (OtherwiseEmpty(c) || OtherwiseEmpty(d))
  {
    hide KeySet, NormalizeName, OtherwiseEmpty;
    assert KeySet(c) * KeySet(d) == {};
  }

  /** Every member of a group is linked to a member. */
  lemma {:induction false} Neighbour(cs: seq<Contact>, g: seq<nat>, a: nat) returns (b: nat)
    requires IsComponent(cs, Live(cs), g) && a in g && a < |cs|
    ensures b in g && b < |cs| && Linked(cs[a], cs[b])
  {
    hide Linked;
    var other := if g[0] == a then g[1] else g[0];
    assert other in g && other in Live(cs) && other != a;
    assert Connected(cs, Live(cs), a, other);
    var p :| Walk(cs, Live(cs), a, other, p);
    b := p[0];
    ConnectedLink(cs, Live(cs), a, b);
    assert Connected(cs, Live(cs), a, b) <==> b in g;
  }

  /** The origins of a contact that is live after the pass: its merged group, or itself. */
  ghost predicate Origins(cs: seq<Contact>, groups: seq<seq<nat>>, q: nat, o: seq<nat>) {
    q in o && (Merged(cs, groups, o) || (o == [q] && q in Live(cs)))
  }

  lemma {:induction false} LiveStands(cs: seq<Contact>, r: seq<Contact>, groups: seq<seq<nat>>, now: Time,
                                      q: nat) returns (o: seq<nat>)
    requires Pass(cs, r, groups, now) && q in Live(r)
    ensures Origins(cs, groups, q, o) && StandsFor(cs, o, r[q])
    ensures InMerged(cs, groups, q) ==> Merged(cs, groups, o)
  {
    hide StandsFor, AreGroups, ShouldMerge, Survivor, Pick, UidsDistinct, IsComponent, InRange;
    if InMerged(cs, groups, q) {
      o :| o in groups && q in o && InRange(cs, o) && ShouldMerge(Pick(cs, o));
      assert Merged(cs, groups, o);
      MergedGroup(cs, r, groups, now, o);
      OneSurvivor(cs, r, groups, now, o);
      SurvivorStands(cs, o, r[q]);
    } else {
      o := [q];
      Untouched(cs, r, groups, now, q);
      SelfStands(cs, q);
    }
  }

  // ---------- Survivors are isolated ----------

  lemma {:induction false} OriginsLive(cs: seq<Contact>, groups: seq<seq<nat>>, q: nat, o: seq<nat>)
    requires AreGroups(cs, Live(cs), groups) && Origins(cs, groups, q, o)
    ensures forall i :: i in o ==> i in Live(cs)
  {
    hide Connected, ShouldMerge, Pick;
    if o in groups {
      assert IsComponent(cs, Live(cs), o);
    }
  }

  /** After the pass a survivor is linked to no other live contact. */
  lemma {:induction false} SurvivorIsolated(cs: seq<Contact>, r: seq<Contact>, groups: seq<seq<nat>>, now: Time, g: seq<nat>,
                                            p: nat, q: nat)
    requires Pass(cs, r, groups, now) && Merged(cs, groups, g) && p in g
    requires p in Live(r) && q in Live(r) && Linked(r[p], r[q])
    ensures q == p
  {
    hide StandsFor, ShouldMerge, Pick, UidsDistinct, IsComponent, InRange, Linked, Connected, AreGroups, Effect, LinkBetween;
    var o := LiveStands(cs, r, groups, now, q);
    MergedGroup(cs, r, groups, now, g);
    OneSurvivor(cs, r, groups, now, g);
    SurvivorStands(cs, g, r[p]);
    LinkLifts(cs, g, r[p], o, r[q]);
    OriginsLive(cs, groups, q, o);
    OriginsLive(cs, groups, p, g);
    LinkedOriginsMeet(cs, groups, g, o);
    OriginsShared(cs, groups, g, o, q);
  }

  lemma {:induction false} LinkedOriginsMeet(cs: seq<Contact>, groups: seq<seq<nat>>, g: seq<nat>, o: seq<nat>)
    requires IsComponent(cs, Live(cs), g) && LinkBetween(cs, g, o)
    requires forall i :: i in o ==> i in Live(cs)
    ensures exists b :: b in o && b in g
  {
    hide Linked;
    var a, b :| a in g && b in o && a < |cs| && b < |cs| && Linked(cs[a], cs[b]);
    ConnectedLink(cs, Live(cs), a, b);
    assert Connected(cs, Live(cs), a, b) <==> b in g;
  }

  lemma {:induction false} OriginsShared(cs: seq<Contact>, groups: seq<seq<nat>>, g: seq<nat>, o: seq<nat>, q: nat)
    requires AreGroups(cs, Live(cs), groups) && Merged(cs, groups, g) && Origins(cs, groups, q, o)
    requires exists b :: b in o && b in g
    ensures q in g
  {
    hide ShouldMerge, Pick, AreGroups;
    var b :| b in o && b in g;
    if o in groups {
      SameGroup(cs, Live(cs), groups, g, o, b);
    }
  }

  /** No live contact outside the merged groups is linked to one inside. */
  lemma {:induction false} LinksStayOutside(cs: seq<Contact>, r: seq<Contact>, groups: seq<seq<nat>>, now: Time,
                                            i: nat, q: nat)
    requires Pass(cs, r, groups, now) && i in Live(r) && q in Live(r) && Linked(r[i], r[q])
    ensures InMerged(cs, groups, q) ==> InMerged(cs, groups, i)
  {
    hide Pass, Linked, ShouldMerge, Pick, InRange;
    if InMerged(cs, groups, q) {
      var g :| g in groups && q in g && InRange(cs, g) && ShouldMerge(Pick(cs, g));
      assert Merged(cs, groups, g);
      LinkedSymmetric(r[i], r[q]);
      SurvivorIsolated(cs, r, groups, now, g, q, i);
    }
  }

  // ---------- Walks before and after ----------

  lemma {:induction false} SurvivorStays(cs: seq<Contact>, r: seq<Contact>, groups: seq<seq<nat>>, now: Time, g: seq<nat>,
                                         p: nat, j: nat, w: seq<nat>)
    requires Pass(cs, r, groups, now) && Merged(cs, groups, g) && p in g && p in Live(r)
    requires Walk(r, Live(r), p, j, w)
    ensures j == p
    decreases |w|
  {
    hide Pass, Linked, Merged;
    if w != [] {
      SurvivorIsolated(cs, r, groups, now, g, p, w[0]);
      SurvivorStays(cs, r, groups, now, g, w[0], j, w[1..]);
    }
  }

  /** A walk outside the merged groups could be walked before the pass. */
  lemma {:induction false} WalkBefore(cs: seq<Contact>, r: seq<Contact>, groups: seq<seq<nat>>, now: Time, i: nat,
                                      j: nat, w: seq<nat>)
    requires Pass(cs, r, groups, now) && i in Live(r) && !InMerged(cs, groups, i)
    requires Walk(r, Live(r), i, j, w)
    ensures |r| == |cs| && Walk(cs, Live(cs), i, j, w)
    decreases |w|
  {
    PassLength(cs, r, groups, now);
    hide Pass, Linked, InMerged;
    if w != [] {
      LinksStayOutside(cs, r, groups, now, i, w[0]);
      Untouched(cs, r, groups, now, i);
      Untouched(cs, r, groups, now, w[0]);
      WalkBefore(cs, r, groups, now, w[0], j, w[1..]);
    }
  }

  lemma PassLength(cs: seq<Contact>, r: seq<Contact>, groups: seq<seq<nat>>, now: Time)
    requires Pass(cs, r, groups, now)
    ensures |r| == |cs|
  {
    hide AreGroups, ShouldMerge, MergedAt, InMerged;
  }

  /** The members of an unmerged group are untouched. */
  lemma {:induction false} UnmergedMember(cs: seq<Contact>, r: seq<Contact>, groups: seq<seq<nat>>, now: Time,
                                          g: seq<nat>, i: nat)
    requires Pass(cs, r, groups, now) && g in groups && !Merged(cs, groups, g) && i in g
    ensures i < |cs| && |r| == |cs| && !InMerged(cs, groups, i) && r[i] == cs[i] && i in Live(cs) && i in Live(r)
  {
    hide ShouldMerge, Pick, Effect, UidsDistinct, Connected, InRange;
    assert IsComponent(cs, Live(cs), g);
    assert i in Live(cs);
    forall h | h in groups && i in h
      ensures h == g
    {
      SameGroup(cs, Live(cs), groups, g, h, i);
    }
    Untouched(cs, r, groups, now, i);
  }

  /** A walk inside an unmerged group can still be walked. */
  lemma {:induction false} WalkAfter(cs: seq<Contact>, r: seq<Contact>, groups: seq<seq<nat>>, now: Time, g: seq<nat>,
                                     i: nat, j: nat, w: seq<nat>)
    requires Pass(cs, r, groups, now) && g in groups && !Merged(cs, groups, g) && i in g
    requires Walk(cs, Live(cs), i, j, w)
    ensures Walk(r, Live(r), i, j, w)
    decreases |w|
  {
    UnmergedMember(cs, r, groups, now, g, i);
    hide Linked, Merged;
    if w != [] {
      StaysInGroup(cs, groups, g, i, w[0]);
      hide Pass;
      UnmergedMember(cs, r, groups, now, g, w[0]);
      WalkAfter(cs, r, groups, now, g, w[0], j, w[1..]);
    }
  }

  lemma {:induction false} StaysInGroup(cs: seq<Contact>, groups: seq<seq<nat>>, g: seq<nat>, i: nat, q: nat)
    requires AreGroups(cs, Live(cs), groups) && g in groups && i in g
    requires i < |cs| && q in Live(cs) && Linked(cs[i], cs[q])
    ensures q in g
  {
    hide Linked;
    assert IsComponent(cs, Live(cs), g);
    ConnectedLink(cs, Live(cs), i, q);
    assert Connected(cs, Live(cs), i, q) <==> q in g;
  }

  lemma {:induction false} ConnectedBefore(cs: seq<Contact>, r: seq<Contact>, groups: seq<seq<nat>>, now: Time,
                                           i: nat, j: nat)
    requires Pass(cs, r, groups, now) && !InMerged(cs, groups, i) && Connected(r, Live(r), i, j)
    ensures Connected(cs, Live(cs), i, j)
  {
    PassLength(cs, r, groups, now);
    hide Pass, Linked, InMerged;
    var w :| Walk(r, Live(r), i, j, w);
    WalkBefore(cs, r, groups, now, i, j, w);
    Untouched(cs, r, groups, now, i);
    WalkEndsInside(cs, Live(cs), i, j, w);
  }

  lemma {:induction false} WalkEndsInside(cs: seq<Contact>, N: set<nat>, i: nat, j: nat, w: seq<nat>)
    requires Walk(cs, N, i, j, w) && i in N
    ensures j in N
    decreases |w|
  {
    hide Linked;
    if w != [] {
      WalkEndsInside(cs, N, w[0], j, w[1..]);
    }
  }

  lemma {:induction false} ConnectedAfter(cs: seq<Contact>, r: seq<Contact>, groups: seq<seq<nat>>, now: Time,
                                          g: seq<nat>, i: nat, j: nat)
    requires Pass(cs, r, groups, now) && g in groups && !Merged(cs, groups, g) && i in g && j in g
    requires Connected(cs, Live(cs), i, j)
    ensures Connected(r, Live(r), i, j)
  {
    UnmergedMember(cs, r, groups, now, g, i);
    UnmergedMember(cs, r, groups, now, g, j);
    hide Pass, Linked, Merged;
    var w :| Walk(cs, Live(cs), i, j, w);
    WalkAfter(cs, r, groups, now, g, i, j, w);
  }

  // ---------- A second pass ----------

  /** No member of a group found after the pass is a survivor. */
  lemma {:induction false} GroupOfUntouched(cs: seq<Contact>, r: seq<Contact>, groups: seq<seq<nat>>, now: Time,
                                            g: seq<nat>, i: nat)
    requires Pass(cs, r, groups, now) && IsComponent(r, Live(r), g) && i in g
    ensures !InMerged(cs, groups, i)
  {
    hide Pass, Merged, Linked, InRange, ShouldMerge, Pick;
    var other := if g[0] == i then g[1] else g[0];
    assert other in g && other in Live(r) && other != i;
    assert Connected(r, Live(r), i, other);
    var w :| Walk(r, Live(r), i, other, w);
    forall h | h in groups && InRange(cs, h) && ShouldMerge(Pick(cs, h))
      ensures i !in h
    {
      MergedIntro(cs, groups, h);
      OnlyItself(cs, r, groups, now, h, i, other, w);
    }
  }

  lemma MergedIntro(cs: seq<Contact>, groups: seq<seq<nat>>, g: seq<nat>)
    requires g in groups && InRange(cs, g) && ShouldMerge(Pick(cs, g))
    ensures Merged(cs, groups, g)
  {
  }

  lemma {:induction false} OnlyItself(cs: seq<Contact>, r: seq<Contact>, groups: seq<seq<nat>>, now: Time, h: seq<nat>,
                                      i: nat, j: nat, w: seq<nat>)
    requires Pass(cs, r, groups, now) && Merged(cs, groups, h) && i in Live(r) && Walk(r, Live(r), i, j, w)
    ensures i in h ==> j == i
  {
    hide Pass, Merged, Linked;
    if i in h {
      SurvivorStays(cs, r, groups, now, h, i, j, w);
    }
  }

  /** A group found after the pass was a group before, and did not qualify then. */
  lemma {:induction false} GroupFoundBefore(cs: seq<Contact>, r: seq<Contact>, groups: seq<seq<nat>>, now: Time, g: seq<nat>)
    requires Pass(cs, r, groups, now) && IsComponent(r, Live(r), g)
    ensures g in groups && !Merged(cs, groups, g)
  {
    PassLength(cs, r, groups, now);
    assert g[0] in g && g[1] in g && g[0] != g[1];
    GroupOfUntouched(cs, r, groups, now, g, g[0]);
    assert Connected(r, Live(r), g[0], g[1]);
    hide Connected, ShouldMerge, Pick, Effect, UidsDistinct;
    ConnectedBefore(cs, r, groups, now, g[0], g[1]);
    var h :| h in groups && g[0] in h && g[1] in h;
    assert IsComponent(cs, Live(cs), h);
    assert !Merged(cs, groups, h);
    forall j
      ensures j in g <==> j in h
    {
      if j in g {
        assert Connected(r, Live(r), g[0], j);
        ConnectedBefore(cs, r, groups, now, g[0], j);
        ConnectedInRange(cs, Live(cs), g[0], j);
      }
      if j in h {
        assert Connected(cs, Live(cs), g[0], j);
        ConnectedAfter(cs, r, groups, now, h, g[0], j);
        ConnectedInRange(r, Live(r), g[0], j);
      }
    }
    IncreasingUnique(g, h);
  }

  /** A group that did not qualify is found again after the pass. */
  lemma {:induction false} GroupFoundAgain(cs: seq<Contact>, r: seq<Contact>, groups: seq<seq<nat>>, now: Time, g: seq<nat>)
    requires Pass(cs, r, groups, now) && g in groups && !Merged(cs, groups, g)
    ensures IsComponent(r, Live(r), g)
  {
    hide Connected, ShouldMerge, Pick, Effect, UidsDistinct;
    assert IsComponent(cs, Live(cs), g);
    forall i | i in g
      ensures i in Live(r) && !InMerged(cs, groups, i)
    {
      UnmergedMember(cs, r, groups, now, g, i);
    }
    forall i, j | i in g && j in Live(r)
      ensures Connected(r, Live(r), i, j) <==> j in g
    {
      if Connected(r, Live(r), i, j) {
        ConnectedBefore(cs, r, groups, now, i, j);
        ConnectedInRange(cs, Live(cs), i, j);
      }
      if j in g {
        assert Connected(cs, Live(cs), i, j);
        ConnectedAfter(cs, r, groups, now, g, i, j);
      }
    }
  }

  /** The groups found after the pass are exactly the groups found before it that did not qualify. */
  lemma {:induction false} GroupFoundExact(cs: seq<Contact>, r: seq<Contact>, groups: seq<seq<nat>>, now: Time, g: seq<nat>)
    requires Pass(cs, r, groups, now)
    ensures IsComponent(r, Live(r), g) <==> g in groups && !Merged(cs, groups, g)
  {
    hide Pass, IsComponent, Merged;
    if IsComponent(r, Live(r), g) {
      GroupFoundBefore(cs, r, groups, now, g);
    }
    if g in groups && !Merged(cs, groups, g) {
      GroupFoundAgain(cs, r, groups, now, g);
    }
  }

  /** A second run finds no duplicates exactly when every group of the first one qualified. */
  lemma {:induction false} NothingFoundExact(cs: seq<Contact>, r: seq<Contact>, groups: seq<seq<nat>>, now: Time,
                                             groups': seq<seq<nat>>)
    requires Pass(cs, r, groups, now) && AreGroups(r, Live(r), groups')
    ensures groups' == [] <==> forall g :: g in groups ==> Merged(cs, groups, g)
  {
    hide Pass, IsComponent, Merged, Connected, FirstsIncrease;
    if groups' != [] {
      assert groups'[0] in groups';
      GroupFoundExact(cs, r, groups, now, groups'[0]);
    }
    forall g | g in groups && !Merged(cs, groups, g)
      ensures g in groups'
    {
      GroupFoundExact(cs, r, groups, now, g);
      ComponentListed(r, Live(r), groups', g);
    }
  }

  lemma {:induction false} NoneQualifies(cs: seq<Contact>, r: seq<Contact>, groups: seq<seq<nat>>, now: Time, g: seq<nat>)
    requires Pass(cs, r, groups, now) && IsComponent(r, Live(r), g) && InRange(r, g)
    ensures !ShouldMerge(Pick(r, g))
  {
    PassLength(cs, r, groups, now);
    GroupFoundBefore(cs, r, groups, now, g);
    hide ShouldMerge, Pass, IsComponent;
    forall k | 0 <= k < |g|
      ensures r[g[k]] == cs[g[k]]
    {
      assert g[k] in g;
      UnmergedMember(cs, r, groups, now, g, g[k]);
    }
    assert Pick(r, g) == Pick(cs, g);
  }

  lemma {:induction false} NothingToMerge(st: State, groups: seq<seq<nat>>, now: Time)
    requires GroupsInRange(st.contacts, groups)
    requires forall k :: 0 <= k < |groups| ==> !ShouldMerge(Pick(st.contacts, groups[k]))
    ensures GroupsMerged(st, st.contacts, groups, now) == st && Merges(st.contacts, groups) == []
    decreases |groups|
  {
    hide ShouldMerge, Pick;
    if groups != [] {
      var n := |groups| - 1;
      assert forall k :: 0 <= k < n ==> groups[..n][k] == groups[k];
      NothingToMerge(st, groups[..n], now);
    }
  }

  /** Deduplication is idempotent: whatever groups a second run finds, it merges nothing and changes
      nothing, at any later time. */
  lemma {:induction false} DedupeIdempotent(st: State, groups: seq<seq<nat>>, now: Time, groups': seq<seq<nat>>, now': Time)
    requires Inv(st) && AreGroups(st.contacts, Live(st.contacts), groups) && GroupsInRange(st.contacts, groups)
    requires var s := GroupsMerged(st, st.contacts, groups, now); AreGroups(s.contacts, Live(s.contacts), groups')
    ensures var s := GroupsMerged(st, st.contacts, groups, now);
            && GroupsInRange(s.contacts, groups')
            && GroupsMerged(s, s.contacts, groups', now') == s
            && Merges(s.contacts, groups') == []
  {
    assert UidsDistinct(st.contacts);
    PassHappens(st, groups, now);
    var s := GroupsMerged(st, st.contacts, groups, now);
    GroupsRange(s.contacts, groups');
    hide GroupsMerged, ShouldMerge, Pass, Inv, IsComponent;
    forall k | 0 <= k < |groups'|
      ensures !ShouldMerge(Pick(s.contacts, groups'[k]))
    {
      assert groups'[k] in groups';
      NoneQualifies(st.contacts, s.contacts, groups, now, groups'[k]);
    }
    NothingToMerge(s, groups', now');
  }

  // ---------- A chain that is found again ----------

  /** A contact with a one-letter name and the given emails. */
  function Named(uid: string, rev: nat, name: string, emails: seq<string>): Contact {
    Contact(uid, rev, false, 0, 0, false,
            BLANK_CARD.(formattedName := name,
                        emails := seq(|emails|, i requires 0 <= i < |emails| => ContactValue("", emails[i]))),
            [], "")
  }

  /** Three contacts of different names: the one in the middle shares an email with each of the others. */
  function Chain(): State {
    State([Named("1", 1, "a", ["x"]), Named("2", 2, "b", ["x", "y"]), Named("3", 3, "c", ["y"])], 3, 0)
  }

  lemma {:induction false} SharedEmail(c: Contact, d: Contact, i: nat, j: nat)
    requires i < |c.card.emails| && j < |d.card.emails|
    requires c.card.emails[i].value == d.card.emails[j].value && NormalizeEmail(c.card.emails[i].value) != ""
    ensures Linked(c, d)
  {
    hide NormalizeEmail;
    var v, w := c.card.emails[i], d.card.emails[j];
    assert v in c.card.emails && w in d.card.emails;
    assert "e:" + NormalizeEmail(v.value) in KeySet(c) * KeySet(d);
  }

  lemma {:induction false} LetterName(c: Contact)
    requires |c.card.formattedName| == 1 && IsLowerLetter(c.card.formattedName[0])
    ensures NormalizeName(c) == c.card.formattedName
  {
    var s := c.card.formattedName;
    FoldLetters(s);
    assert TrimLeft(s) == s && WordLength(s) == 1;
    assert s[1..] == "" && s[..1] == s && Words("") == [];
    assert Words(s) == [s] + Words("");
  }

  lemma {:induction false} ChainLinked()
    ensures var cs := Chain().contacts; Linked(cs[0], cs[1]) && Linked(cs[1], cs[2])
  {
    var cs := Chain().contacts;
    assert Trim("x") == "x" && Trim("y") == "y";
    hide Trim, Linked, KeySet;
    SharedEmail(cs[0], cs[1], 0, 0);
    SharedEmail(cs[1], cs[2], 1, 0);
  }

  lemma {:induction false} TripleGroup(cs: seq<Contact>)
    requires |cs| == 3 && Live(cs) == {0, 1, 2} && Linked(cs[0], cs[1]) && Linked(cs[1], cs[2])
    ensures AreGroups(cs, Live(cs), [[0, 1, 2]])
  {
    hide Linked, Live;
    var N, g := {0, 1, 2}, [0, 1, 2];
    ConnectedLink(cs, N, 0, 1);
    ConnectedLink(cs, N, 1, 2);
    hide Connected;
    ConnectedTrans(cs, N, 0, 1, 2);
    ConnectedTrans(cs, N, 2, 1, 0);
    forall i | i in N
      ensures i in g && Connected(cs, N, i, i)
    {
      ConnectedSelf(cs, N, i);
    }
    assert IsComponent(cs, N, g);
    assert [g][0] == g;
    forall i, j | i != j && Connected(cs, N, i, j)
      ensures i in g && j in g
    {
      ConnectedInRange(cs, N, i, j);
    }
  }

  lemma ChainLive()
    ensures |Chain().contacts| == 3 && Live(Chain().contacts) == {0, 1, 2}
  {
  }

  lemma {:induction false} ChainGroup()
    ensures AreGroups(Chain().contacts, Live(Chain().contacts), [[0, 1, 2]])
  {
    ChainLinked();
    ChainLive();
    hide Chain, Linked, AreGroups;
    TripleGroup(Chain().contacts);
  }

  lemma {:induction false} ChainNames()
    ensures NormalizeName(Chain().contacts[0]) != NormalizeName(Chain().contacts[1])
  {
    hide NormalizeName;
    LetterName(Chain().contacts[0]);
    LetterName(Chain().contacts[1]);
  }

  lemma {:induction false} ChainUnmerged()
    ensures Inv(Chain()) && !ShouldMerge(Pick(Chain().contacts, [0, 1, 2]))
  {
    ChainNames();
    hide NormalizeName;
    var cs := Chain().contacts;
    var members := Pick(cs, [0, 1, 2]);
    assert members[0] == cs[0] && members[1] == cs[1];
  }

  /** The first run merges nothing here, so a second one finds the same group. */
  lemma {:induction false} ChainFoundAgain(now: Time)
    ensures var st := Chain();
            && Inv(st)
            && AreGroups(st.contacts, Live(st.contacts), [[0, 1, 2]])
            && GroupsMerged(st, st.contacts, [[0, 1, 2]], now) == st
  {
    ChainGroup();
    ChainUnmerged();
    hide ShouldMerge, AreGroups, Inv, GroupsMerged;
    NothingToMerge(Chain(), [[0, 1, 2]], now);
  }
}
