/**
 * The chart's `id(node)` and `bilink(root)`. Each leaf of the tree gets an
 * `outgoing` list with one `[leaf, target]` pair per name in its `imports`,
 * the target being the leaf with that id (or `undefined` when no leaf has
 * it), and an `incoming` list with every pair whose target is that leaf.
 *
 * A leaf is given by the chain of names from the top of its tree down to it
 * (what `id` walks through `parent`) and its `imports`; the leaves are
 * numbered in the order `root.leaves()` lists them. A pair is identified by
 * its source leaf and its position in that leaf's `outgoing`, so an
 * `incoming` list holds references to the very pairs of the `outgoing` lists.
 */
module Links {
  import opened Wrappers
  import opened Text
  import opened Hierarchy

  /** A leaf of the d3 tree: the names along its parent chain, top first, and its `data.imports`. */
  datatype Leaf = Leaf(chain: seq<string>, imports: Option<seq<string>>)

  /** The pair `[d, map.get(i)]`: the source leaf and the target leaf, if any. */
  datatype Link = Link(source: nat, target: Option<nat>)

  /** A reference to the pair at position `slot` of leaf `leaf`'s `outgoing`. */
  datatype Ref = Ref(leaf: nat, slot: nat)

  /** `id(node)`: the parent's id, a ".", then the node's own name; the top node's id is its name. */
  function Id(chain: seq<string>): string
    requires chain != []
  {
    if |chain| == 1 then chain[0] else Id(chain[..|chain| - 1]) + "." + chain[|chain| - 1]
  }

  /** Every leaf has a name. */
  predicate Named(leaves: seq<Leaf>)
  {
    forall k :: 0 <= k < |leaves| ==> leaves[k].chain != []
  }

  /**
   * `new Map(root.leaves().map(d => [id(d), d]))`: every id maps to a leaf
   * that has it, and when several leaves share an id the last one wins.
   */
  function IdMap(leaves: seq<Leaf>): (m: map<string, nat>)
    requires Named(leaves)
    ensures forall x :: x in m ==> m[x] < |leaves| && Id(leaves[m[x]].chain) == x
    ensures forall k :: 0 <= k < |leaves| ==> Id(leaves[k].chain) in m && k <= m[Id(leaves[k].chain)]
  {
    if leaves == [] then map[]
    else
      var n := |leaves| - 1;
      var init := leaves[..n];
      assert forall k :: 0 <= k < n ==> init[k] == leaves[k];
      IdMap(init)[Id(leaves[n].chain) := n]
  }

  /** `map.get(name)`. */
  function Lookup(m: map<string, nat>, name: string): Option<nat>
  {
    if name in m then Some(m[name]) else None
  }

  /** `d.outgoing` for leaf number `d`: one pair per import, in order, or none without `imports`. */
  function OutgoingOf(leaf: Leaf, d: nat, m: map<string, nat>): (out: seq<Link>)
    ensures |out| == if leaf.imports.Some? then |leaf.imports.value| else 0
  {
    match leaf.imports
    case None => []
    case Some(names) => seq(|names|, k requires 0 <= k < |names| => Link(d, Lookup(m, names[k])))
  }

  /** The `outgoing` lists of all leaves. */
  function Outgoing(leaves: seq<Leaf>): (outs: seq<seq<Link>>)
    requires Named(leaves)
    ensures |outs| == |leaves|
  {
    var m := IdMap(leaves);
    seq(|leaves|, d requires 0 <= d < |leaves| => OutgoingOf(leaves[d], d, m))
  }

  /** The references, in order, to the pairs of `out` (the list of leaf `d`) whose target is leaf `t`. */
  function Hits(out: seq<Link>, d: nat, t: nat): seq<Ref>
  {
    if out == [] then []
    else
      var k := |out| - 1;
      Hits(out[..k], d, t) + if out[k].target == Some(t) then [Ref(d, k)] else []
  }

  /** `t.incoming`: the pairs that target leaf `t`, by source leaf and then by position. */
  function Incoming(outs: seq<seq<Link>>, t: nat): seq<Ref>
  {
    if outs == [] then []
    else
      var d := |outs| - 1;
      Incoming(outs[..d], t) + Hits(outs[d], d, t)
  }

  /** A reference `r` comes before `q`: by source leaf, then by position. */
  predicate Before(r: Ref, q: Ref)
  {
    r.leaf < q.leaf || (r.leaf == q.leaf && r.slot < q.slot)
  }

  predicate Ordered(refs: seq<Ref>)
  {
    forall x, y :: 0 <= x < y < |refs| ==> Before(refs[x], refs[y])
  }

  /** The exact meaning of an `outgoing` pair: its target is the last leaf whose id is the imported name, or none when no leaf has that id. */
  lemma OutgoingResolves(leaves: seq<Leaf>, d: nat, k: nat)
    requires Named(leaves) && d < |leaves|
    requires leaves[d].imports.Some? && k < |leaves[d].imports.value|
    ensures var name := leaves[d].imports.value[k];
      var link := Outgoing(leaves)[d][k];
      && link.source == d
      && (link.target.None? <==> forall j :: 0 <= j < |leaves| ==> Id(leaves[j].chain) != name)
      && (link.target.Some? ==>
            && link.target.value < |leaves|
            && Id(leaves[link.target.value].chain) == name
            && forall j :: link.target.value < j < |leaves| ==> Id(leaves[j].chain) != name)
  {
    var name := leaves[d].imports.value[k];
    var m := IdMap(leaves);
    assert Outgoing(leaves)[d][k] == Link(d, Lookup(m, name));
    if name in m {
      forall j | m[name] < j < |leaves|
        ensures Id(leaves[j].chain) != name
      {
        assert j <= m[Id(leaves[j].chain)];
      }
    }
  }

  /** Hits holds exactly the references to pairs of `out` that target `t`, in increasing position. */
  lemma {:induction false} HitsExactly(out: seq<Link>, d: nat, t: nat)
    ensures forall r :: r in Hits(out, d, t) <==> r.leaf == d && r.slot < |out| && out[r.slot].target == Some(t)
    ensures forall r :: r in Hits(out, d, t) ==> r.leaf == d
    ensures Ordered(Hits(out, d, t))
  {
    if out != [] {
      var k := |out| - 1;
      HitsExactly(out[..k], d, t);
      var h := Hits(out[..k], d, t);
      var last: seq<Ref> := if out[k].target == Some(t) then [Ref(d, k)] else [];
      assert Hits(out, d, t) == h + last;
      forall x | 0 <= x < |h|
        ensures h[x].slot < k
      {
        assert h[x] in h;
      }
    }
  }

  /**
   * Membership and order of `incoming`: a reference is in `t`'s list exactly
   * when it names a pair that targets `t`; pairs with no target are in no
   * list; and the list is ordered by source leaf, then by position.
   */
  lemma {:induction false} IncomingExactly(outs: seq<seq<Link>>, t: nat)
    ensures forall r :: r in Incoming(outs, t) <==> r.leaf < |outs| && r.slot < |outs[r.leaf]| && outs[r.leaf][r.slot].target == Some(t)
    ensures Ordered(Incoming(outs, t))
  {
    if outs != [] {
      var d := |outs| - 1;
      IncomingExactly(outs[..d], t);
      HitsExactly(outs[d], d, t);
      var a := Incoming(outs[..d], t);
      var b := Hits(outs[d], d, t);
      assert Incoming(outs, t) == a + b;
      forall x | 0 <= x < |a|
        ensures a[x].leaf < d
      {
        assert a[x] in a;
      }
      forall y | 0 <= y < |b|
        ensures b[y].leaf == d
      {
        assert b[y] in b;
      }
      forall r
        ensures r in a + b <==> r.leaf < |outs| && r.slot < |outs[r.leaf]| && outs[r.leaf][r.slot].target == Some(t)
      {
        if r.leaf < d {
          assert outs[..d][r.leaf] == outs[r.leaf];
        }
      }
    }
  }

  /** Every pair of `outgoing` that has a target points at a leaf. */
  lemma OutgoingTargets(leaves: seq<Leaf>)
    requires Named(leaves)
    ensures forall d, k :: 0 <= d < |leaves| && 0 <= k < |Outgoing(leaves)[d]| && Outgoing(leaves)[d][k].target.Some? ==>
      Outgoing(leaves)[d][k].target.value < |leaves|
  {
  }

  /** The inner loop of `bilink` for leaf `d`: each pair of `out` with a target is pushed onto that target's `incoming`. */
  method PushIncoming(out: seq<Link>, d: nat, incoming: array<seq<Ref>>)
    requires forall k :: 0 <= k < |out| && out[k].target.Some? ==> out[k].target.value < incoming.Length
    modifies incoming
    ensures forall t :: 0 <= t < incoming.Length ==> incoming[t] == old(incoming[t]) + Hits(out, d, t)
  {
    for k := 0 to |out|
      invariant forall t :: 0 <= t < incoming.Length ==> incoming[t] == old(incoming[t]) + Hits(out[..k], d, t)
    {
      assert out[..k + 1][..k] == out[..k];
      var target := out[k].target;
      if target.Some? {
        var t := target.value;
        incoming[t] := incoming[t] + [Ref(d, k)];
      }
    }
    assert out[..|out|] == out;
  }

  /**
   * `bilink(root)`, on the leaves' `outgoing` and `incoming` fields. Both
   * lists are rebuilt from scratch (`incoming` is reset before anything is
   * pushed), so the result does not depend on what the fields held.
   */
  method Bilink(leaves: seq<Leaf>, outgoing: array<seq<Link>>, incoming: array<seq<Ref>>)
    requires Named(leaves)
    requires outgoing.Length == |leaves| && incoming.Length == |leaves|
    modifies outgoing, incoming
    ensures outgoing[..] == Outgoing(leaves)
    ensures forall t :: 0 <= t < |leaves| ==> incoming[t] == Incoming(outgoing[..], t)
  {
    var n := |leaves|;
    var m := IdMap(leaves);
    ghost var outs := Outgoing(leaves);
    OutgoingTargets(leaves);
    for d := 0 to n
      invariant forall k :: 0 <= k < d ==> outgoing[k] == outs[k] && incoming[k] == []
    {
      incoming[d] := [];
      outgoing[d] := OutgoingOf(leaves[d], d, m);
    }
    assert outgoing[..] == outs;
    assert forall t :: 0 <= t < n ==> incoming[t] == Incoming(outs[..0], t);
    for d := 0 to n
      invariant outgoing[..] == outs
      invariant forall t :: 0 <= t < n ==> incoming[t] == Incoming(outs[..d], t)
    {
      PushIncoming(outgoing[d], d, incoming);
      assert outs[..d + 1][..d] == outs[..d];
    }
    assert outs[..n] == outs;
  }

  /** `id` of a chain of name segments joins them with ".", so it is the full name with every delimiter turned into ".". */
  lemma {:induction false} IdOfSegments(name: string, d: char)
    ensures Id(Segments(name, d)) == ReplaceChar(name, d, '.')
    decreases |name|
  {
    var i := LastIndexOf(name, d);
    if i >= 0 {
      var init := Segments(name[..i], d);
      IdOfSegments(name[..i], d);
      assert (init + [name[i + 1..]])[..|init|] == init;
      var r := ReplaceChar(name[..i], d, '.') + "." + name[i + 1..];
      assert |r| == |name|;
      forall k | 0 <= k < |name|
        ensures r[k] == ReplaceChar(name, d, '.')[k]
      {
        if k < i {
          assert r[k] == ReplaceChar(name[..i], d, '.')[k];
        } else if k > i {
          assert r[k] == name[k];
        }
      }
    } else {
      assert ReplaceChar(name, d, '.') == name;
    }
  }

  /**
   * Round trip: in a tree built with delimiter d, the `id` of a node is its
   * full record name with every d turned into "."; with the default
   * delimiter "." it is the full record name itself.
   */
  lemma IdRoundTrip(s: Store, d: char, n: nat)
    requires Wellformed(s, d) && n < |s.nodes|
    ensures Chain(s, d, n) != []
    ensures Id(Chain(s, d, n)) == ReplaceChar(s.keys[n], d, '.')
    ensures d == '.' ==> Id(Chain(s, d, n)) == s.keys[n]
  {
    ChainIsSegments(s, d, n);
    IdOfSegments(s.keys[n], d);
    if d == '.' {
      assert ReplaceChar(s.keys[n], d, '.') == s.keys[n];
    }
  }

  /** The leaves listed by node position `ns` in a tree built by `hierarchy`. */
  ghost function LeavesOf(s: Store, d: char, ns: seq<nat>): (leaves: seq<Leaf>)
    requires Wellformed(s, d) && forall i :: 0 <= i < |ns| ==> ns[i] < |s.nodes|
    ensures |leaves| == |ns| && Named(leaves)
  {
    seq(|ns|, i requires 0 <= i < |ns| => (IdRoundTrip(s, d, ns[i]); Leaf(Chain(s, d, ns[i]), s.nodes[ns[i]].imports)))
  }

  /**
   * End to end, with the default delimiter ".": an import names a full
   * record name, and its pair targets exactly the leaf whose full name it is,
   * or nothing when no leaf has that name.
   */
  lemma TreeImportsResolve(s: Store, ns: seq<nat>, j: nat, k: nat)
    requires Wellformed(s, '.')
    requires forall i :: 0 <= i < |ns| ==> ns[i] < |s.nodes|
    requires forall a, b :: 0 <= a < b < |ns| ==> ns[a] != ns[b]
    requires j < |ns| && s.nodes[ns[j]].imports.Some? && k < |s.nodes[ns[j]].imports.value|
    ensures var name := s.nodes[ns[j]].imports.value[k];
      var target := Outgoing(LeavesOf(s, '.', ns))[j][k].target;
      && (forall i :: 0 <= i < |ns| ==> (target == Some(i) <==> s.keys[ns[i]] == name))
      && (target.None? <==> forall i :: 0 <= i < |ns| ==> s.keys[ns[i]] != name)
  {
    var leaves := LeavesOf(s, '.', ns);
    forall i | 0 <= i < |ns|
      ensures Id(leaves[i].chain) == s.keys[ns[i]]
    {
      IdRoundTrip(s, '.', ns[i]);
    }
    OutgoingResolves(leaves, j, k);
    var name := s.nodes[ns[j]].imports.value[k];
    forall a, b | 0 <= a < |ns| && 0 <= b < |ns| && s.keys[ns[a]] == name && s.keys[ns[b]] == name
      ensures a == b
    {
      assert ns[a] == s.index[name] == ns[b];
    }
  }
}
