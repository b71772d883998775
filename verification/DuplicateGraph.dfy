/** Duplicate detection: the connected components of the graph that links contacts sharing an email,
    a phone, or a name when one side has nothing else. */
module DuplicateGraph {
  import opened Wrappers
  import opened ContactModel
  import opened Sorting
  import opened UnionFind

  // ---------- Specification ----------

  /** `p` leads from `i` to `j` along links between the contacts at positions `N`. */
  ghost predicate Walk(cs: seq<Contact>, N: set<nat>, i: nat, j: nat, p: seq<nat>)
    decreases |p|
  {
    if p == [] then i == j
    else i < |cs| && p[0] in N && p[0] < |cs| && Linked(cs[i], cs[p[0]]) && Walk(cs, N, p[0], j, p[1..])
  }

  ghost predicate Connected(cs: seq<Contact>, N: set<nat>, i: nat, j: nat) {
    i in N && i < |cs| && j in N && exists p :: Walk(cs, N, i, j, p)
  }

  ghost predicate Increasing(g: seq<nat>) {
    forall a, b :: 0 <= a < b < |g| ==> g[a] < g[b]
  }

  /** `g` lists one connected component of at least two positions, in ascending order. */
  ghost predicate IsComponent(cs: seq<Contact>, N: set<nat>, g: seq<nat>) {
    && |g| >= 2 && Increasing(g)
    && (forall i :: i in g ==> i in N)
    && (forall i, j :: i in g && j in N ==> (Connected(cs, N, i, j) <==> j in g))
  }

  /** The groups are exactly the components of size at least two, ordered by first position. */
  ghost predicate AreGroups(cs: seq<Contact>, N: set<nat>, groups: seq<seq<nat>>) {
    && (forall g :: g in groups ==> IsComponent(cs, N, g))
    && (forall i, j :: i != j && Connected(cs, N, i, j) ==> exists g :: g in groups && i in g && j in g)
    && FirstsIncrease(groups)
  }

  ghost predicate FirstsIncrease(groups: seq<seq<nat>>) {
    forall a, b :: 0 <= a < b < |groups| ==> groups[a] != [] && groups[b] != [] && groups[a][0] < groups[b][0]
  }

  ghost function Below(n: nat): (r: set<nat>)
    ensures forall i :: i in r <==> 0 <= i < n
  {
    if n == 0 then {} else Below(n - 1) + {n - 1}
  }

  /** All positions of a list. */
  ghost function All(cs: seq<Contact>): set<nat> {
    Below(|cs|)
  }

  // ---------- Connectedness is an equivalence ----------

  lemma {:induction false} WalkAppend(cs: seq<Contact>, N: set<nat>, i: nat, j: nat, k: nat, p: seq<nat>, q: seq<nat>)
    requires Walk(cs, N, i, j, p) && Walk(cs, N, j, k, q)
    ensures Walk(cs, N, i, k, p + q)
    decreases |p|
  {
    hide Linked;
    if p == [] {
      assert p + q == q;
    } else {
      assert (p + q)[1..] == p[1..] + q;
      WalkAppend(cs, N, p[0], j, k, p[1..], q);
    }
  }

  lemma {:induction false} ConnectedSelf(cs: seq<Contact>, N: set<nat>, i: nat)
    requires i in N && i < |cs|
    ensures Connected(cs, N, i, i)
  {
    assert Walk(cs, N, i, i, []);
  }

  lemma {:induction false} ConnectedLink(cs: seq<Contact>, N: set<nat>, i: nat, j: nat)
    requires i in N && j in N && i < |cs| && j < |cs| && Linked(cs[i], cs[j])
    ensures Connected(cs, N, i, j) && Connected(cs, N, j, i)
  {
    LinkedSymmetric(cs[i], cs[j]);
    hide Linked;
    assert [j][1..] == [] && [i][1..] == [];
    assert Walk(cs, N, i, j, [j]);
    assert Walk(cs, N, j, i, [i]);
  }

  lemma {:induction false} ConnectedTrans(cs: seq<Contact>, N: set<nat>, i: nat, j: nat, k: nat)
    requires Connected(cs, N, i, j) && Connected(cs, N, j, k)
    ensures Connected(cs, N, i, k)
  {
    var p :| Walk(cs, N, i, j, p);
    var q :| Walk(cs, N, j, k, q);
    WalkAppend(cs, N, i, j, k, p, q);
  }

  /** The groups are determined by the graph. */
  lemma {:induction false} GroupsUnique(cs: seq<Contact>, N: set<nat>, a: seq<seq<nat>>, b: seq<seq<nat>>)
    requires AreGroups(cs, N, a) && AreGroups(cs, N, b)
    ensures a == b
  {
    forall g | g in a
      ensures g in b
    {
      assert IsComponent(cs, N, g);
      ComponentListed(cs, N, b, g);
    }
    forall g | g in b
      ensures g in a
    {
      assert IsComponent(cs, N, g);
      ComponentListed(cs, N, a, g);
    }
    FirstsDetermine(a, b);
  }

  /** Every component is listed. */
  lemma {:induction false} ComponentListed(cs: seq<Contact>, N: set<nat>, groups: seq<seq<nat>>, g: seq<nat>)
    requires AreGroups(cs, N, groups) && IsComponent(cs, N, g)
    ensures g in groups
  {
    hide Connected;
    assert g[0] in g && g[1] in g && g[0] != g[1];
    assert Connected(cs, N, g[0], g[1]);
    var h :| h in groups && g[0] in h && g[1] in h;
    assert IsComponent(cs, N, h);
    forall j
      ensures j in g <==> j in h
    {
      if j in N {
        assert Connected(cs, N, g[0], j) <==> j in g;
        assert Connected(cs, N, g[0], j) <==> j in h;
      }
    }
    IncreasingUnique(g, h);
  }

  lemma {:induction false} IncreasingTail(g: seq<nat>)
    requires Increasing(g) && g != []
    ensures Increasing(g[1..])
    ensures forall j :: j in g[1..] <==> j in g && j != g[0]
    ensures forall j :: j in g ==> g[0] <= j
  {
    assert forall a :: 0 <= a < |g[1..]| ==> g[1..][a] == g[a + 1];
    forall j | j in g && j != g[0]
      ensures j in g[1..]
    {
      var a :| 0 <= a < |g| && g[a] == j;
      assert g[1..][a - 1] == j;
    }
  }

  lemma {:induction false} IncreasingUnique(g: seq<nat>, h: seq<nat>)
    requires Increasing(g) && Increasing(h)
    requires forall j :: j in g <==> j in h
    ensures g == h
    decreases |g|
  {
    HasMember(h);
    if g != [] {
      HasMember(g);
      IncreasingTail(g);
      IncreasingTail(h);
      assert g[0] in h && h[0] in g;
      hide Increasing;
      IncreasingUnique(g[1..], h[1..]);
      assert g == [g[0]] + g[1..] && h == [h[0]] + h[1..];
    }
  }

  lemma {:induction false} FirstsTail(a: seq<seq<nat>>)
    requires FirstsIncrease(a) && a != []
    ensures FirstsIncrease(a[1..])
    ensures forall g :: g in a[1..] ==> g != [] && a[0] != [] && a[0][0] < g[0]
    ensures forall g :: g in a[1..] <==> g in a && g != a[0]
  {
    var t := a[1..];
    assert forall k :: 0 <= k < |t| ==> t[k] == a[k + 1];
    forall i, j | 0 <= i < j < |t|
      ensures t[i] != [] && t[j] != [] && t[i][0] < t[j][0]
    {
      assert a[i + 1][0] < a[j + 1][0];
    }
    forall g | g in t
      ensures g in a && g != a[0] && g != [] && a[0] != [] && a[0][0] < g[0]
    {
      var k :| 0 <= k < |t| && t[k] == g;
      assert a[k + 1] == g && a[0][0] < a[k + 1][0];
    }
    forall g | g in a && g != a[0]
      ensures g in t
    {
      var k :| 0 <= k < |a| && a[k] == g;
      assert t[k - 1] == g;
    }
  }

  lemma {:induction false} FirstsDetermine(a: seq<seq<nat>>, b: seq<seq<nat>>)
    requires FirstsIncrease(a) && FirstsIncrease(b)
    requires forall g :: g in a <==> g in b
    ensures a == b
    decreases |a|
  {
    hide FirstsIncrease;
    HasMember(b);
    if a != [] {
      HasMember(a);
      FirstsTail(a);
      FirstsTail(b);
      assert a[0] in b && b[0] in a;
      assert a[0] == b[0];
      FirstsDetermine(a[1..], b[1..]);
      assert a == [a[0]] + a[1..] && b == [b[0]] + b[1..];
    }
  }

  // ---------- Partitions between the links and the components ----------

  /** Elements of one class are connected. */
  ghost predicate Sound(cs: seq<Contact>, rep: seq<nat>) {
    |rep| == |cs| && forall i, j :: 0 <= i < |cs| && 0 <= j < |cs| && rep[i] == rep[j] ==> Connected(cs, All(cs), i, j)
  }

  /** Whatever was in one class still is. */
  ghost predicate Coarser(rep: seq<nat>, rep': seq<nat>) {
    |rep| == |rep'| && forall i, j :: 0 <= i < |rep| && 0 <= j < |rep| && rep[i] == rep[j] ==> rep'[i] == rep'[j]
  }

  /** Linked contacts are in one class. */
  ghost predicate Complete(cs: seq<Contact>, rep: seq<nat>) {
    |rep| == |cs| && forall i, j :: 0 <= i < |cs| && 0 <= j < |cs| && Linked(cs[i], cs[j]) ==> rep[i] == rep[j]
  }

  lemma {:induction false} JoinKeepsSound(cs: seq<Contact>, rep: seq<nat>, a: nat, b: nat)
    requires Sound(cs, rep) && a < |cs| && b < |cs| && Linked(cs[a], cs[b])
    ensures Sound(cs, Joined(rep, rep[a], rep[b]))
    ensures Coarser(rep, Joined(rep, rep[a], rep[b]))
    ensures Joined(rep, rep[a], rep[b])[a] == Joined(rep, rep[a], rep[b])[b]
  {
    ConnectedLink(cs, All(cs), a, b);
    hide Linked, Connected;
    var N, rep' := All(cs), Joined(rep, rep[a], rep[b]);
    forall i, j | 0 <= i < |cs| && 0 <= j < |cs| && rep'[i] == rep'[j]
      ensures Connected(cs, N, i, j)
    {
      if rep[i] != rep[j] {
        if rep[i] == rep[a] {
          ConnectedTrans(cs, N, i, a, b);
          ConnectedTrans(cs, N, i, b, j);
        } else {
          ConnectedTrans(cs, N, i, b, a);
          ConnectedTrans(cs, N, i, a, j);
        }
      }
    }
  }

  lemma {:induction false} WalkStaysInClass(cs: seq<Contact>, rep: seq<nat>, i: nat, j: nat, p: seq<nat>)
    requires Complete(cs, rep) && i < |cs| && Walk(cs, All(cs), i, j, p)
    ensures j < |cs| && rep[i] == rep[j]
    decreases |p|
  {
    hide Linked;
    if p != [] {
      WalkStaysInClass(cs, rep, p[0], j, p[1..]);
    }
  }

  /** A sound and complete partition is connectedness. */
  lemma {:induction false} ClassesAreComponents(cs: seq<Contact>, rep: seq<nat>)
    requires Sound(cs, rep) && Complete(cs, rep)
    ensures forall i, j :: 0 <= i < |cs| && 0 <= j < |cs| ==> (Connected(cs, All(cs), i, j) <==> rep[i] == rep[j])
  {
    forall i, j | 0 <= i < |cs| && 0 <= j < |cs| && Connected(cs, All(cs), i, j)
      ensures rep[i] == rep[j]
    {
      var p :| Walk(cs, All(cs), i, j, p);
      WalkStaysInClass(cs, rep, i, j, p);
    }
  }

  // ---------- Joining by keys ----------

  ghost predicate KeysIndexed(cs: seq<Contact>, n: nat, byKey: map<string, nat>, rep: seq<nat>) {
    && n <= |cs| == |rep|
    && (forall k :: k in byKey ==> byKey[k] < |cs| && k in KeySet(cs[byKey[k]]))
    && (forall i, k :: 0 <= i < n && k in KeySet(cs[i]) ==> k in byKey && rep[i] == rep[byKey[k]])
  }

  ghost predicate KeysJoined(cs: seq<Contact>, rep: seq<nat>) {
    |rep| == |cs| && forall i, j, k :: 0 <= i < |cs| && 0 <= j < |cs| && k in KeySet(cs[i]) && k in KeySet(cs[j])
                                       ==> rep[i] == rep[j]
  }

  lemma SharedKeyLinks(c: Contact, d: Contact, k: string)
    requires k in KeySet(c) && k in KeySet(d)
    ensures Linked(c, d)
  {
    assert k in KeySet(c) * KeySet(d);
  }

  method JoinKeys(cs: seq<Contact>, uf: Forest)
    requires uf.Valid() && uf.parent.Length == |cs| && Sound(cs, uf.rep)
    modifies uf, uf.parent
    ensures uf.Valid() && Sound(cs, uf.rep) && KeysJoined(cs, uf.rep)
  {
    hide Linked, KeySet, Sound;
    var byKey: map<string, nat> := map[];
    for i := 0 to |cs|
      invariant uf.Valid() && Sound(cs, uf.rep)
      invariant KeysIndexed(cs, i, byKey, uf.rep)
    {
      var keys := MatchKeys(cs[i]);
      for m := 0 to |keys|
        invariant uf.Valid() && Sound(cs, uf.rep)
        invariant KeysIndexed(cs, i, byKey, uf.rep)
        invariant forall x :: 0 <= x < m ==> keys[x] in byKey && uf.rep[i] == uf.rep[byKey[keys[x]]]
      {
        var k := keys[m];
        assert k in keys;
        if k in byKey {
          SharedKeyLinks(cs[i], cs[byKey[k]], k);
          JoinKeepsSound(cs, uf.rep, i, byKey[k]);
          uf.Union(i, byKey[k]);
        } else {
          byKey := byKey[k := i];
        }
      }
    }
    IndexedKeysJoined(cs, byKey, uf.rep);
  }

  lemma {:induction false} IndexedKeysJoined(cs: seq<Contact>, byKey: map<string, nat>, rep: seq<nat>)
    requires KeysIndexed(cs, |cs|, byKey, rep)
    ensures KeysJoined(cs, rep)
  {
    hide KeySet;
    forall i, j, k | 0 <= i < |cs| && 0 <= j < |cs| && k in KeySet(cs[i]) && k in KeySet(cs[j])
      ensures rep[i] == rep[j]
    {
      assert rep[i] == rep[byKey[k]] == rep[j];
    }
  }

  // ---------- Joining by names ----------

  ghost predicate AllNamed(cs: seq<Contact>, xs: seq<nat>, name: string) {
    forall x :: x in xs ==> x < |cs| && NormalizeName(cs[x]) == name
  }

  ghost predicate NamesIndexed(cs: seq<Contact>, n: nat, byName: map<string, seq<nat>>) {
    && n <= |cs|
    && "" !in byName
    && (forall name :: name in byName ==> AllNamed(cs, byName[name], name))
    && (forall i :: 0 <= i < n && NormalizeName(cs[i]) != "" ==>
          NormalizeName(cs[i]) in byName && i in byName[NormalizeName(cs[i])])
  }

  ghost predicate PairJoined(cs: seq<Contact>, rep: seq<nat>, x: nat, y: nat) {
    && x < |cs| == |rep| && y < |cs|
    && (OtherwiseEmpty(cs[x]) || OtherwiseEmpty(cs[y]) ==> rep[x] == rep[y])
  }

  ghost predicate NameJoined(cs: seq<Contact>, rep: seq<nat>, name: string) {
    |rep| == |cs| && forall x, y :: 0 <= x < |cs| && 0 <= y < |cs| && NormalizeName(cs[x]) == NormalizeName(cs[y]) == name
                                    ==> PairJoined(cs, rep, x, y)
  }

  method IndexNames(cs: seq<Contact>) returns (byName: map<string, seq<nat>>)
    ensures NamesIndexed(cs, |cs|, byName)
  {
    hide NormalizeName;
    byName := map[];
    for i := 0 to |cs|
      invariant NamesIndexed(cs, i, byName)
    {
      var name := NormalizeName(cs[i]);
      if name != "" {
        NamesStep(cs, i, byName);
        byName := byName[name := (if name in byName then byName[name] else []) + [i]];
      } else {
        NamesSkip(cs, i, byName);
      }
    }
  }

  lemma {:induction false} NamesSkip(cs: seq<Contact>, i: nat, byName: map<string, seq<nat>>)
    requires i < |cs| && NamesIndexed(cs, i, byName) && NormalizeName(cs[i]) == ""
    ensures NamesIndexed(cs, i + 1, byName)
  {
    hide NormalizeName;
  }

  lemma {:induction false} NamesStep(cs: seq<Contact>, i: nat, byName: map<string, seq<nat>>)
    requires i < |cs| && NamesIndexed(cs, i, byName) && NormalizeName(cs[i]) != ""
    ensures var name := NormalizeName(cs[i]);
            NamesIndexed(cs, i + 1, byName[name := (if name in byName then byName[name] else []) + [i]])
  {
    hide NormalizeName;
    var name := NormalizeName(cs[i]);
    var list := (if name in byName then byName[name] else []) + [i];
    var byName' := byName[name := list];
    assert AllNamed(cs, list, name);
    forall k | 0 <= k < i + 1 && NormalizeName(cs[k]) != ""
      ensures NormalizeName(cs[k]) in byName' && k in byName'[NormalizeName(cs[k])]
    {
      if k < i {
        assert k in byName[NormalizeName(cs[k])];
      } else {
        assert list[|list| - 1] == i;
      }
    }
  }

  lemma SharedNameLinks(c: Contact, d: Contact)
    requires NormalizeName(c) == NormalizeName(d) != "" && (OtherwiseEmpty(c) || OtherwiseEmpty(d))
    ensures Linked(c, d)
  {
  }

  /** Joins the pairs of one name list of which one side has neither email nor phone. */
  method JoinPairs(cs: seq<Contact>, uf: Forest, idxs: seq<nat>, name: string)
    requires uf.Valid() && uf.parent.Length == |cs| && Sound(cs, uf.rep) && name != ""
    requires AllNamed(cs, idxs, name)
    modifies uf, uf.parent
    ensures uf.Valid() && Sound(cs, uf.rep) && Coarser(old(uf.rep), uf.rep)
    ensures forall x, y :: x in idxs && y in idxs ==> PairJoined(cs, uf.rep, x, y)
  {
    hide Linked, NormalizeName, OtherwiseEmpty;
    for a := 0 to |idxs|
      invariant uf.Valid() && Sound(cs, uf.rep) && Coarser(old(uf.rep), uf.rep)
      invariant forall x, y :: 0 <= x < a && x < y < |idxs| ==> PairJoined(cs, uf.rep, idxs[x], idxs[y])
    {
      for b := a + 1 to |idxs|
        invariant uf.Valid() && Sound(cs, uf.rep) && Coarser(old(uf.rep), uf.rep)
        invariant forall x, y :: 0 <= x < a && x < y < |idxs| ==> PairJoined(cs, uf.rep, idxs[x], idxs[y])
        invariant forall y :: a < y < b ==> PairJoined(cs, uf.rep, idxs[a], idxs[y])
      {
        assert idxs[a] in idxs && idxs[b] in idxs;
        if OtherwiseEmpty(cs[idxs[a]]) || OtherwiseEmpty(cs[idxs[b]]) {
          SharedNameLinks(cs[idxs[a]], cs[idxs[b]]);
          JoinKeepsSound(cs, uf.rep, idxs[a], idxs[b]);
          uf.Union(idxs[a], idxs[b]);
        }
      }
    }
    AllPairs(cs, uf.rep, idxs);
  }

  lemma {:induction false} AllPairs(cs: seq<Contact>, rep: seq<nat>, idxs: seq<nat>)
    requires |rep| == |cs| && forall x :: x in idxs ==> x < |cs|
    requires forall x, y :: 0 <= x < y < |idxs| ==> PairJoined(cs, rep, idxs[x], idxs[y])
    ensures forall x, y :: x in idxs && y in idxs ==> PairJoined(cs, rep, x, y)
  {
    forall x, y | x in idxs && y in idxs
      ensures PairJoined(cs, rep, x, y)
    {
      var a :| 0 <= a < |idxs| && idxs[a] == x;
      var b :| 0 <= b < |idxs| && idxs[b] == y;
      if a < b {
        assert PairJoined(cs, rep, idxs[a], idxs[b]);
      } else if b < a {
        assert PairJoined(cs, rep, idxs[b], idxs[a]);
      }
    }
  }

  method JoinNames(cs: seq<Contact>, uf: Forest)
    requires uf.Valid() && uf.parent.Length == |cs| && Sound(cs, uf.rep) && KeysJoined(cs, uf.rep)
    modifies uf, uf.parent
    ensures uf.Valid() && Sound(cs, uf.rep) && Complete(cs, uf.rep)
  {
    hide Linked, NormalizeName, OtherwiseEmpty, KeySet;
    var byName := IndexNames(cs);
    var names := byName.Keys;
    while names != {}
      invariant uf.Valid() && Sound(cs, uf.rep) && Coarser(old(uf.rep), uf.rep)
      invariant names <= byName.Keys
      invariant forall name :: name in byName.Keys - names ==> NameJoined(cs, uf.rep, name)
      decreases |names|
    {
      var name :| name in names;
      ghost var before := uf.rep;
      var idxs := byName[name];
      assert AllNamed(cs, idxs, name);
      JoinPairs(cs, uf, idxs, name);
      forall n | n in byName.Keys - names
        ensures NameJoined(cs, uf.rep, n)
      {
        CoarserKeepsName(cs, before, uf.rep, n);
      }
      names := names - {name};
    }
    LinksJoined(cs, old(uf.rep), uf.rep, byName);
  }

  lemma {:induction false} CoarserKeepsName(cs: seq<Contact>, rep: seq<nat>, rep': seq<nat>, name: string)
    requires NameJoined(cs, rep, name) && Coarser(rep, rep')
    ensures NameJoined(cs, rep', name)
  {
    forall x, y | 0 <= x < |cs| && 0 <= y < |cs| && NormalizeName(cs[x]) == NormalizeName(cs[y]) == name
      ensures PairJoined(cs, rep', x, y)
    {
      assert PairJoined(cs, rep, x, y);
    }
  }

  lemma {:induction false} LinksJoined(cs: seq<Contact>, rep0: seq<nat>, rep: seq<nat>, byName: map<string, seq<nat>>)
    requires KeysJoined(cs, rep0) && Coarser(rep0, rep)
    requires NamesIndexed(cs, |cs|, byName)
    requires forall name :: name in byName ==> NameJoined(cs, rep, name)
    ensures Complete(cs, rep)
  {
    hide NormalizeName, KeySet, OtherwiseEmpty;
    forall i, j | 0 <= i < |cs| && 0 <= j < |cs| && Linked(cs[i], cs[j])
      ensures rep[i] == rep[j]
    {
      if KeySet(cs[i]) * KeySet(cs[j]) != {} {
        var k :| k in KeySet(cs[i]) * KeySet(cs[j]);
        assert rep0[i] == rep0[j];
      } else {
        assert NameJoined(cs, rep, NormalizeName(cs[i]));
        assert PairJoined(cs, rep, i, j);
      }
    }
  }

  // ---------- Collecting the classes ----------

  /** The members below `n` of the class of `r`, ascending. */
  ghost function Members(rep: seq<nat>, r: nat, n: nat): seq<nat>
    requires n <= |rep|
  {
    if n == 0 then [] else Members(rep, r, n - 1) + (if rep[n - 1] == r then [n - 1] else [])
  }

  lemma {:induction false} MembersExact(rep: seq<nat>, r: nat, n: nat)
    requires n <= |rep|
    ensures Increasing(Members(rep, r, n))
    ensures forall i :: i in Members(rep, r, n) <==> 0 <= i < n && rep[i] == r
    decreases n
  {
    if n > 0 {
      MembersExact(rep, r, n - 1);
      var m := Members(rep, r, n - 1);
      assert forall a :: 0 <= a < |m| ==> m[a] in m;
    }
  }

  ghost predicate Collected(rep: seq<nat>, n: nat, comps: map<nat, seq<nat>>) {
    && n <= |rep|
    && (forall r :: r in comps <==> Members(rep, r, n) != [])
    && (forall r :: r in comps ==> comps[r] == Members(rep, r, n))
  }

  function ByValue(a: nat, b: nat): bool {
    a < b
  }

  function ByFirst(a: seq<nat>, b: seq<nat>): bool {
    if a == [] || b == [] then a == [] && b != [] else a[0] < b[0]
  }

  method CollectComponents(cs: seq<Contact>, uf: Forest) returns (comps: map<nat, seq<nat>>)
    requires uf.Valid() && uf.parent.Length == |cs| == |uf.rep|
    modifies uf.parent
    ensures uf.Valid() && Collected(uf.rep, |cs|, comps)
  {
    hide Consistent, Members, Collected;
    ghost var rep := uf.rep;
    comps := map[];
    NothingCollected(rep);
    for i := 0 to |cs|
      invariant uf.Valid() && uf.rep == rep && Collected(rep, i, comps)
    {
      ghost var before := comps;
      var r := uf.Find(i);
      comps := comps[r := (if r in comps then comps[r] else []) + [i]];
      CollectStep(rep, i, before, comps);
    }
  }

  lemma NothingCollected(rep: seq<nat>)
    ensures Collected(rep, 0, map[])
  {
  }

  lemma {:induction false} CollectStep(rep: seq<nat>, i: nat, comps: map<nat, seq<nat>>, comps': map<nat, seq<nat>>)
    requires i < |rep| && Collected(rep, i, comps)
    requires comps' == comps[rep[i] := (if rep[i] in comps then comps[rep[i]] else []) + [i]]
    ensures Collected(rep, i + 1, comps')
  {
    hide Members;
    MembersStep(rep, i);
  }

  lemma {:induction false} MembersStep(rep: seq<nat>, i: nat)
    requires i < |rep|
    ensures Members(rep, rep[i], i + 1) == Members(rep, rep[i], i) + [i]
    ensures forall r :: r != rep[i] ==> Members(rep, r, i + 1) == Members(rep, r, i)
  {
    assert forall r :: r != rep[i] ==> Members(rep, r, i) + [] == Members(rep, r, i);
  }

  /** `groups` lists, each once, the classes of size at least two among the roots in `done`. */
  ghost predicate Listed(rep: seq<nat>, comps: map<nat, seq<nat>>, done: set<nat>, groups: seq<seq<nat>>) {
    && done <= comps.Keys
    && (forall g :: g in groups ==> exists r :: r in done && g == comps[r] && |g| >= 2)
    && (forall r :: r in done && |comps[r]| >= 2 ==> comps[r] in groups)
    && (forall a, b :: 0 <= a < b < |groups| ==> groups[a] != groups[b])
  }

  method FindDuplicateGroups(cs: seq<Contact>) returns (groups: seq<seq<nat>>)
    ensures AreGroups(cs, All(cs), groups)
  {
    hide Connected, Linked, Sort, Sound, Complete, AreGroups, Members, Consistent, Collected, Listed, KeysJoined, Increasing;
    var uf := new Forest(|cs|);
    SoundAtStart(cs, uf.rep);
    JoinKeys(cs, uf);
    JoinNames(cs, uf);
    ghost var rep := uf.rep;
    ConsistentLengths(uf.parent[..], uf.rep, uf.rank, uf.height);
    var comps := CollectComponents(cs, uf);
    groups := [];
    var roots := comps.Keys;
    NothingListed(rep, comps);
    while roots != {}
      invariant roots <= comps.Keys && Collected(rep, |cs|, comps)
      invariant Listed(rep, comps, comps.Keys - roots, groups)
      decreases |roots|
    {
      var r :| r in roots;
      var members := comps[r];
      CollectedMembers(rep, |cs|, comps, r);
      SortIncreasing(members);
      if |members| >= 2 {
        ListOne(rep, |cs|, comps, comps.Keys - roots, groups, r);
        groups := groups + [Sort(ByValue, members)];
      } else {
        SkipOne(rep, comps, comps.Keys - roots, groups, r);
      }
      assert comps.Keys - (roots - {r}) == (comps.Keys - roots) + {r};
      roots := roots - {r};
    }
    assert comps.Keys - {} == comps.Keys;
    SortedGroups(cs, rep, comps, groups);
    groups := Sort(ByFirst, groups);
  }

  lemma NothingListed(rep: seq<nat>, comps: map<nat, seq<nat>>)
    ensures Listed(rep, comps, comps.Keys - comps.Keys, [])
  {
  }

  lemma {:induction false} CollectedMembers(rep: seq<nat>, n: nat, comps: map<nat, seq<nat>>, r: nat)
    requires Collected(rep, n, comps) && r in comps
    ensures Increasing(comps[r])
  {
    MembersExact(rep, r, n);
  }

  lemma {:induction false} SkipOne(rep: seq<nat>, comps: map<nat, seq<nat>>, done: set<nat>, groups: seq<seq<nat>>, r: nat)
    requires Listed(rep, comps, done, groups) && r in comps && |comps[r]| < 2
    ensures Listed(rep, comps, done + {r}, groups)
  {
    forall g | g in groups
      ensures exists q :: q in done + {r} && g == comps[q] && |g| >= 2
    {
      var q :| q in done && g == comps[q] && |g| >= 2;
      assert q in done + {r};
    }
  }

  lemma SortIncreasing(g: seq<nat>)
    requires Increasing(g)
    ensures Sort(ByValue, g) == g
  {
    SortOfSorted(ByValue, g);
  }

  lemma {:induction false} SoundAtStart(cs: seq<Contact>, rep: seq<nat>)
    requires rep == seq(|cs|, i => i)
    ensures Sound(cs, rep)
  {
    hide Connected;
    forall i, j | 0 <= i < |cs| && 0 <= j < |cs| && rep[i] == rep[j]
      ensures Connected(cs, All(cs), i, j)
    {
      ConnectedSelf(cs, All(cs), i);
    }
  }

  lemma {:induction false} ClassesDiffer(rep: seq<nat>, n: nat, comps: map<nat, seq<nat>>, q: nat, r: nat)
    requires Collected(rep, n, comps) && q in comps && r in comps && q != r
    ensures comps[q] != comps[r]
  {
    MembersExact(rep, q, n);
    MembersExact(rep, r, n);
    hide Increasing;
    assert comps[r][0] in comps[r];
  }

  lemma {:induction false} ListOne(rep: seq<nat>, n: nat, comps: map<nat, seq<nat>>, done: set<nat>,
                                   groups: seq<seq<nat>>, r: nat)
    requires Collected(rep, n, comps) && Listed(rep, comps, done, groups)
    requires r in comps && r !in done && |comps[r]| >= 2
    ensures Listed(rep, comps, done + {r}, groups + [comps[r]])
  {
    hide Collected, Members, Increasing;
    forall a | 0 <= a < |groups|
      ensures groups[a] != comps[r]
    {
      assert groups[a] in groups;
      var q :| q in done && groups[a] == comps[q];
      ClassesDiffer(rep, n, comps, q, r);
    }
    var more := groups + [comps[r]];
    forall g | g in more
      ensures exists q :: q in done + {r} && g == comps[q] && |g| >= 2
    {
      if g in groups {
        var q :| q in done && g == comps[q] && |g| >= 2;
        assert q in done + {r};
      } else {
        assert r in done + {r};
      }
    }
  }

  lemma {:induction false} ListedComponent(cs: seq<Contact>, rep: seq<nat>, comps: map<nat, seq<nat>>, groups: seq<seq<nat>>,
                                           g: seq<nat>)
    requires Sound(cs, rep) && Complete(cs, rep)
    requires Collected(rep, |cs|, comps) && Listed(rep, comps, comps.Keys, groups)
    requires g in groups
    ensures IsComponent(cs, All(cs), g)
  {
    hide Connected, Sound, Complete, Increasing, Members;
    ClassesAreComponents(cs, rep);
    var r :| r in comps && g == comps[r] && |g| >= 2;
    MembersExact(rep, r, |cs|);
    assert Increasing(g);
    assert forall i :: i in g <==> 0 <= i < |cs| && rep[i] == r;
  }

  lemma {:induction false} ConnectedListed(cs: seq<Contact>, rep: seq<nat>, comps: map<nat, seq<nat>>, groups: seq<seq<nat>>,
                                           i: nat, j: nat)
    requires Sound(cs, rep) && Complete(cs, rep)
    requires Collected(rep, |cs|, comps) && Listed(rep, comps, comps.Keys, groups)
    requires i != j && Connected(cs, All(cs), i, j)
    ensures exists g :: g in groups && i in g && j in g
  {
    ClassesAreComponents(cs, rep);
    ConnectedInRange(cs, All(cs), i, j);
    hide Connected, Sound, Complete;
    var r := rep[i];
    MembersExact(rep, r, |cs|);
    var g := Members(rep, r, |cs|);
    assert i in g && j in g;
    TwoMembers(g, i, j);
    assert r in comps && comps[r] == g;
  }

  lemma {:induction false} SortedGroups(cs: seq<Contact>, rep: seq<nat>, comps: map<nat, seq<nat>>, groups: seq<seq<nat>>)
    requires Sound(cs, rep) && Complete(cs, rep)
    requires Collected(rep, |cs|, comps) && Listed(rep, comps, comps.Keys, groups)
    ensures AreGroups(cs, All(cs), Sort(ByFirst, groups))
  {
    hide Connected, Linked, Collected, Listed, Sort, Sound, Complete, IsComponent;
    var N, sorted := All(cs), Sort(ByFirst, groups);
    SortMembers(ByFirst, groups);
    forall g | g in sorted
      ensures IsComponent(cs, N, g)
    {
      ListedComponent(cs, rep, comps, groups, g);
    }
    forall i: nat, j: nat | i != j && Connected(cs, N, i, j)
      ensures exists g :: g in sorted && i in g && j in g
    {
      ConnectedListed(cs, rep, comps, groups, i, j);
    }
    FirstsSorted(rep, |cs|, comps, groups);
  }

  lemma ConnectedInRange(cs: seq<Contact>, N: set<nat>, i: nat, j: nat)
    requires Connected(cs, N, i, j)
    ensures i in N && j in N
  {
  }

  lemma TwoMembers(g: seq<nat>, i: nat, j: nat)
    requires i in g && j in g && i != j
    ensures |g| >= 2
  {
  }

  /** Two listed classes that differ start at different positions. */
  lemma {:induction false} DifferentFirsts(rep: seq<nat>, n: nat, comps: map<nat, seq<nat>>, groups: seq<seq<nat>>,
                                           g: seq<nat>, h: seq<nat>)
    requires Collected(rep, n, comps) && Listed(rep, comps, comps.Keys, groups)
    requires g in groups && h in groups && g != h
    ensures g != [] && h != [] && g[0] != h[0]
  {
    hide Increasing;
    var q :| q in comps && g == comps[q] && |g| >= 2;
    var r :| r in comps && h == comps[r] && |h| >= 2;
    MembersExact(rep, q, n);
    MembersExact(rep, r, n);
    assert g[0] in g && h[0] in h;
  }

  lemma {:induction false} FirstsSorted(rep: seq<nat>, n: nat, comps: map<nat, seq<nat>>, groups: seq<seq<nat>>)
    requires Collected(rep, n, comps) && Listed(rep, comps, comps.Keys, groups)
    ensures FirstsIncrease(Sort(ByFirst, groups))
  {
    var s := Sort(ByFirst, groups);
    SortSorted(ByFirst, groups);
    SortMembers(ByFirst, groups);
    SortKeepsDistinct(ByFirst, groups);
    hide Sort, Members, Collected, Listed;
    forall a, b | 0 <= a < b < |s|
      ensures s[a] != [] && s[b] != [] && s[a][0] < s[b][0]
    {
      assert s[a] in groups && s[b] in groups && s[a] != s[b];
      DifferentFirsts(rep, n, comps, groups, s[a], s[b]);
      assert !ByFirst(s[b], s[a]);
    }
  }
}
