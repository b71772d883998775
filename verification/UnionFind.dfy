/** Union-find with path halving over the indices of a list. */
module UnionFind {
  /** Joins the classes of the representatives `ra` and `rb`; `ra` represents the result. */
  ghost function Joined(rep: seq<nat>, ra: nat, rb: nat): (r: seq<nat>)
    ensures |r| == |rep|
  {
    seq(|rep|, i requires 0 <= i < |rep| => if rep[i] == rb then ra else rep[i])
  }

  /** Element `i` points towards the representative of its class, along strictly growing ranks. */
  ghost predicate Node(p: seq<nat>, rep: seq<nat>, rank: seq<nat>, height: nat, i: nat) {
    && |rep| == |rank| == |p| && i < |p|
    && p[i] < |p| && rep[i] < |p|
    && rep[p[i]] == rep[i]
    && p[rep[i]] == rep[i]
    && (p[i] == i <==> rep[i] == i)
    && (p[i] != i ==> rank[i] < rank[p[i]])
    && rank[i] <= height
  }

  ghost predicate Consistent(p: seq<nat>, rep: seq<nat>, rank: seq<nat>, height: nat) {
    |rep| == |rank| == |p| && forall i :: 0 <= i < |p| ==> Node(p, rep, rank, height, i)
  }

  lemma ConsistentLengths(p: seq<nat>, rep: seq<nat>, rank: seq<nat>, height: nat)
    requires Consistent(p, rep, rank, height)
    ensures |rep| == |rank| == |p|
  {
  }

  /** Halving the path at `x` changes no class. */
  lemma {:induction false} HalvingKeeps(p: seq<nat>, rep: seq<nat>, rank: seq<nat>, height: nat, x: nat)
    requires Consistent(p, rep, rank, height) && x < |p| && p[x] != x && p[x] < |p|
    ensures p[p[x]] < |p|
    ensures Consistent(p[x := p[p[x]]], rep, rank, height)
    ensures rank[x] < rank[p[p[x]]] <= height && rep[p[p[x]]] == rep[x]
  {
    assert Node(p, rep, rank, height, x) && Node(p, rep, rank, height, p[x]);
    assert Node(p, rep, rank, height, p[p[x]]);
    var q := p[x := p[p[x]]];
    forall i | 0 <= i < |q|
      ensures Node(q, rep, rank, height, i)
    {
      assert Node(p, rep, rank, height, i);
    }
  }

  /** Linking one root below another joins their two classes and no others. */
  lemma {:induction false} LinkingJoins(p: seq<nat>, rep: seq<nat>, rank: seq<nat>, height: nat, ra: nat, rb: nat)
    requires Consistent(p, rep, rank, height) && ra < |p| && rb < |p|
    requires ra != rb && p[ra] == ra && p[rb] == rb
    ensures var top := if rank[rb] < rank[ra] then rank[ra] else rank[rb] + 1;
            Consistent(p[rb := ra], Joined(rep, ra, rb), rank[ra := top], if top > height then top else height)
  {
    var top := if rank[rb] < rank[ra] then rank[ra] else rank[rb] + 1;
    var q, rep', rank', height' :=
      p[rb := ra], Joined(rep, ra, rb), rank[ra := top], if top > height then top else height;
    assert Node(p, rep, rank, height, ra) && Node(p, rep, rank, height, rb);
    forall i | 0 <= i < |q|
      ensures Node(q, rep', rank', height', i)
    {
      assert Node(p, rep, rank, height, i) && Node(p, rep, rank, height, p[i]);
    }
  }

  class Forest {
    const parent: array<nat>

    /** The representative of every element's class. */
    ghost var rep: seq<nat>
    /** Ranks grow strictly along parent links, up to `height`. */
    ghost var rank: seq<nat>
    ghost var height: nat

    ghost predicate Valid()
      reads this, parent
    {
      Consistent(parent[..], rep, rank, height)
    }

    constructor (n: nat)
      ensures Valid() && fresh(parent) && parent.Length == n
      ensures rep == seq(n, i => i)
    {
      parent := new nat[n](i => i);
      rep := seq(n, i => i);
      rank := seq(n, i => 0);
      height := 0;
      new;
      assert parent[..] == rep;
    }

    /** Returns the representative of `x`'s class and halves the path to it; no class changes. */
    method Find(x: nat) returns (r: nat)
      requires Valid() && x < parent.Length
      modifies parent
      ensures Valid()
      ensures x < |rep| && r == rep[x] && r < parent.Length && parent[r] == r
    {
      r := x;
      assert Node(parent[..], rep, rank, height, r);
      while parent[r] != r
        invariant Valid() && r < parent.Length == |rep| == |rank|
        invariant Node(parent[..], rep, rank, height, r)
        invariant rep[r] == rep[x]
        decreases height - rank[r]
      {
        HalvingKeeps(parent[..], rep, rank, height, r);
        ghost var halved := parent[..][r := parent[..][parent[r]]];
        parent[r] := parent[parent[r]];
        assert parent[..] == halved;
        r := parent[r];
        assert Node(parent[..], rep, rank, height, r);
      }
    }

    /** Joins the classes of `a` and `b`. */
    method Union(a: nat, b: nat)
      requires Valid() && a < parent.Length && b < parent.Length
      modifies this, parent
      ensures Valid() && a < |old(rep)| && b < |old(rep)|
      ensures rep == Joined(old(rep), old(rep)[a], old(rep)[b])
    {
      var ra := Find(a);
      assert Node(parent[..], rep, rank, height, ra);
      var rb := Find(b);
      assert Node(parent[..], rep, rank, height, ra);
      if ra != rb {
        LinkingJoins(parent[..], rep, rank, height, ra, rb);
        ghost var linked := parent[..][rb := ra];
        parent[rb] := ra;
        assert parent[..] == linked;
        ghost var top := if rank[rb] < rank[ra] then rank[ra] else rank[rb] + 1;
        rank := rank[ra := top];
        height := if top > height then top else height;
        rep := Joined(rep, ra, rb);
      } else {
        assert Joined(rep, ra, rb) == rep;
      }
    }
  }
}
