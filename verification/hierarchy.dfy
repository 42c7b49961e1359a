/**
 * The chart's `hierarchy(data, delimiter)`: turns a flat list of records
 * with delimited names ("data.DataField") into a tree. It keeps a map from
 * full name to node, creates a group node `{name: prefix, children: []}` for
 * every missing prefix, pushes each node onto its parent's `children` and
 * rewrites the node's `name` to the part after the last delimiter.
 *
 * Records are objects that the builder mutates in place; here every node
 * lives in the heap `nodes`, addressed by its position, and `children` holds
 * positions. A record of the input has no `children` array (`None`); a group
 * starts with an empty one.
 */
module Hierarchy {
  import opened Wrappers
  import opened Text

  /** An input record: its full delimited name and its optional `imports`. */
  datatype Record = Record(name: string, imports: Option<seq<string>>)

  /** A node of the tree under construction. */
  datatype Node = Node(name: string, imports: Option<seq<string>>, children: Option<seq<nat>>)

  /** The TypeError thrown by `.children.push` when a prefix names an input record, which has no `children` array. */
  datatype BuildError = NoChildrenArray(prefix: string)

  function Last(s: seq<nat>): nat
    requires s != []
  {
    s[|s| - 1]
  }

  /** The node an input record becomes before it is placed. */
  function RecordNode(r: Record): Node
  {
    Node(r.name, r.imports, None)
  }

  /** The node `find` creates for a missing prefix. */
  function GroupNode(prefix: string): Node
  {
    Node(prefix, None, Some([]))
  }

  /** Every name that `find` visits for `name`: the name itself and each prefix cut at a delimiter. */
  function Ancestors(name: string, d: char): (names: set<string>)
    ensures name in names
    ensures forall a :: a in names ==> |a| <= |name|
    decreases |name|
  {
    var i := LastIndexOf(name, d);
    if i >= 0 then {name} + Ancestors(name[..i], d) else {name}
  }

  /** The keys of the name map once the given records are all in. */
  function KeysOf(data: seq<Record>, d: char): set<string>
  {
    if data == [] then {} else KeysOf(data[..|data| - 1], d) + Ancestors(data[|data| - 1].name, d)
  }

  lemma KeysOfSnoc(data: seq<Record>, k: nat, d: char)
    requires k < |data|
    ensures KeysOf(data[..k + 1], d) == KeysOf(data[..k], d) + Ancestors(data[k].name, d)
  {
    assert data[..k + 1][..k] == data[..k];
  }

  /** The names a node has along its path from the top of its tree: the full name cut at every delimiter. */
  function Segments(name: string, d: char): (segs: seq<string>)
    ensures |segs| >= 1
    decreases |name|
  {
    var i := LastIndexOf(name, d);
    if i >= 0 then Segments(name[..i], d) + [name[i + 1..]] else [name]
  }

  /** The builder's state as a value: the nodes, the name map, each node's full name, and the root. */
  datatype Store = Store(nodes: seq<Node>, index: map<string, nat>, keys: seq<string>, root: Option<nat>)

  /** Node `n` was renamed to the part after its last delimiter and sits in its parent's `children`. */
  ghost predicate Placed(s: Store, d: char, n: nat)
    requires n < |s.nodes| && |s.keys| == |s.nodes|
  {
    var key := s.keys[n];
    var i := LastIndexOf(key, d);
    if i >= 0 then
      && key[..i] in s.index
      && s.nodes[n].name == key[i + 1..]
      && s.index[key[..i]] < |s.nodes|
      && s.nodes[s.index[key[..i]]].children.Some?
      && n in s.nodes[s.index[key[..i]]].children.value
    else
      s.nodes[n].name == key
  }

  /** Node `c` may be a child of node `p`: the full name of `p` is that of `c` up to its last delimiter. */
  ghost predicate ChildOf(s: Store, d: char, c: nat, p: nat)
    requires p < |s.nodes| && |s.keys| == |s.nodes|
  {
    && c < |s.nodes|
    && LastIndexOf(s.keys[c], d) >= 0
    && s.keys[c][..LastIndexOf(s.keys[c], d)] == s.keys[p]
  }

  /** `root` is the last node entered whose name has no delimiter. */
  ghost predicate RootIsLast(s: Store, d: char)
    requires |s.keys| == |s.nodes|
  {
    match s.root
    case Some(r) =>
      && r < |s.nodes|
      && LastIndexOf(s.keys[r], d) < 0
      && forall n :: r < n < |s.nodes| ==> LastIndexOf(s.keys[n], d) >= 0
    case None =>
      forall n :: 0 <= n < |s.nodes| ==> LastIndexOf(s.keys[n], d) >= 0
  }

  /** Each node is in the map under its own full name, and the map holds nothing else. */
  ghost predicate IndexMatches(s: Store)
  {
    && |s.keys| == |s.nodes|
    && (forall n :: 0 <= n < |s.nodes| ==> s.keys[n] in s.index && s.index[s.keys[n]] == n)
    && (forall name :: name in s.index ==> s.index[name] < |s.nodes| && s.keys[s.index[name]] == name)
  }

  ghost predicate AllPlaced(s: Store, d: char)
    requires |s.keys| == |s.nodes|
  {
    forall n :: 0 <= n < |s.nodes| ==> Placed(s, d, n)
  }

  ghost predicate ChildrenMatch(s: Store, d: char)
    requires |s.keys| == |s.nodes|
  {
    forall p, x :: 0 <= p < |s.nodes| && s.nodes[p].children.Some? && 0 <= x < |s.nodes[p].children.value|
      ==> ChildOf(s, d, s.nodes[p].children.value[x], p)
  }

  /** Every `children` array lists its nodes in the order they were entered. */
  ghost predicate ChildrenAscend(s: Store)
  {
    forall p, x, y :: 0 <= p < |s.nodes| && s.nodes[p].children.Some? && 0 <= x < y < |s.nodes[p].children.value|
      ==> s.nodes[p].children.value[x] < s.nodes[p].children.value[y]
  }

  /** The builder's invariant. */
  ghost predicate Wellformed(s: Store, d: char)
  {
    && IndexMatches(s)
    && AllPlaced(s, d)
    && ChildrenMatch(s, d)
    && ChildrenAscend(s)
    && RootIsLast(s, d)
  }

  /** `children.push(node)` on node `p`, the node entered under `name`. */
  function PushChild(s: Store, p: nat, node: Node, name: string): Store
    requires p < |s.nodes| && s.nodes[p].children.Some?
  {
    var n := |s.nodes|;
    var parent := s.nodes[p];
    Store(s.nodes[p := parent.(children := Some(parent.children.value + [n]))] + [node],
          s.index[name := n], s.keys + [name], s.root)
  }

  /** A node without delimiter entered under `name`, which becomes the root. */
  function PushRoot(s: Store, node: Node, name: string): Store
  {
    var n := |s.nodes|;
    Store(s.nodes + [node], s.index[name := n], s.keys + [name], Some(n))
  }

  /** The map holds every prefix of every name it holds. */
  lemma {:induction false} AncestorsInIndex(s: Store, d: char, name: string)
    requires Wellformed(s, d) && name in s.index
    ensures Ancestors(name, d) <= s.index.Keys
    decreases |name|
  {
    var i := LastIndexOf(name, d);
    if i >= 0 {
      assert AllPlaced(s, d);
      assert Placed(s, d, s.index[name]);
      AncestorsInIndex(s, d, name[..i]);
    }
  }

  /** Entering a new name at the end of the heap keeps the map and the heap in step. */
  lemma EnterKeepsIndex(s: Store, t: Store, name: string)
    requires IndexMatches(s) && name !in s.index
    requires |t.nodes| == |s.nodes| + 1 && t.keys == s.keys + [name] && t.index == s.index[name := |s.nodes|]
    ensures IndexMatches(t)
  {
    var n := |s.nodes|;
    forall m | 0 <= m < |t.nodes|
      ensures t.keys[m] in t.index && t.index[t.keys[m]] == m
    {
      if m < n {
        assert t.keys[m] == s.keys[m];
      }
    }
  }

  /** Appending a new child under the node of its prefix keeps the invariant. */
  lemma PushChildWellformed(s: Store, d: char, p: nat, node: Node, name: string)
    requires Wellformed(s, d) && name !in s.index
    requires LastIndexOf(name, d) >= 0
    requires name[..LastIndexOf(name, d)] in s.index && p == s.index[name[..LastIndexOf(name, d)]]
    requires s.nodes[p].children.Some?
    requires node.name == name[LastIndexOf(name, d) + 1..]
    requires node.children.None? || node.children == Some([])
    ensures Wellformed(PushChild(s, p, node, name), d)
  {
    var t := PushChild(s, p, node, name);
    var n := |s.nodes|;
    EnterKeepsIndex(s, t, name);
    PushChildPlaced(s, d, p, node, name);
    PushChildChildren(s, d, p, node, name);
    PushChildAscend(s, d, p, node, name);
  }

  /** The pushed node is the newest, so it goes after every child already listed. */
  lemma PushChildAscend(s: Store, d: char, p: nat, node: Node, name: string)
    requires |s.keys| == |s.nodes| && ChildrenMatch(s, d) && ChildrenAscend(s)
    requires p < |s.nodes| && s.nodes[p].children.Some?
    requires node.children.None? || node.children == Some([])
    ensures ChildrenAscend(PushChild(s, p, node, name))
  {
    var t := PushChild(s, p, node, name);
    var n := |s.nodes|;
    forall q, x, y | 0 <= q < |t.nodes| && t.nodes[q].children.Some? && 0 <= x < y < |t.nodes[q].children.value|
      ensures t.nodes[q].children.value[x] < t.nodes[q].children.value[y]
    {
      assert q < n;
      if q == p && y == |s.nodes[p].children.value| {
        assert t.nodes[q].children.value[y] == n;
        assert t.nodes[q].children.value[x] == s.nodes[p].children.value[x];
        assert ChildOf(s, d, s.nodes[p].children.value[x], p);
      } else {
        assert t.nodes[q].children.value[x] == s.nodes[q].children.value[x];
        assert t.nodes[q].children.value[y] == s.nodes[q].children.value[y];
      }
    }
  }

  lemma PushChildPlaced(s: Store, d: char, p: nat, node: Node, name: string)
    requires Wellformed(s, d) && name !in s.index
    requires LastIndexOf(name, d) >= 0
    requires name[..LastIndexOf(name, d)] in s.index && p == s.index[name[..LastIndexOf(name, d)]]
    requires s.nodes[p].children.Some?
    requires node.name == name[LastIndexOf(name, d) + 1..]
    ensures |PushChild(s, p, node, name).keys| == |PushChild(s, p, node, name).nodes|
    ensures AllPlaced(PushChild(s, p, node, name), d)
  {
    var t := PushChild(s, p, node, name);
    forall m | 0 <= m < |t.nodes|
      ensures Placed(t, d, m)
    {
      if m < |s.nodes| {
        assert Placed(s, d, m);
        PushChildPlacedOld(s, d, p, node, name, m);
      } else {
        PushChildPlacedNew(s, d, p, node, name);
      }
    }
  }

  /** A node already placed stays placed: its parent only gained a child. */
  lemma PushChildPlacedOld(s: Store, d: char, p: nat, node: Node, name: string, m: nat)
    requires |s.keys| == |s.nodes| && p < |s.nodes| && name !in s.index
    requires s.nodes[p].children.Some?
    requires m < |s.nodes| && Placed(s, d, m)
    ensures Placed(PushChild(s, p, node, name), d, m)
  {
    var t := PushChild(s, p, node, name);
    var key := s.keys[m];
    assert t.keys[m] == key;
    assert t.nodes[m].name == s.nodes[m].name;
    var i := LastIndexOf(key, d);
    if i >= 0 {
      var q := s.index[key[..i]];
      assert t.index[key[..i]] == q;
      assert s.nodes[q].children.value <= t.nodes[q].children.value;
    }
  }

  /** The new node is placed: it carries the last part of its name and is the last child of its prefix. */
  lemma PushChildPlacedNew(s: Store, d: char, p: nat, node: Node, name: string)
    requires |s.keys| == |s.nodes| && p < |s.nodes|
    requires LastIndexOf(name, d) >= 0
    requires name[..LastIndexOf(name, d)] in s.index && p == s.index[name[..LastIndexOf(name, d)]]
    requires s.nodes[p].children.Some?
    requires node.name == name[LastIndexOf(name, d) + 1..]
    ensures Placed(PushChild(s, p, node, name), d, |s.nodes|)
  {
    var t := PushChild(s, p, node, name);
    var n := |s.nodes|;
    assert t.keys[n] == name;
    assert t.nodes[n] == node;
    assert t.nodes[p].children.value == s.nodes[p].children.value + [n];
  }

  lemma PushChildChildren(s: Store, d: char, p: nat, node: Node, name: string)
    requires Wellformed(s, d) && name !in s.index
    requires LastIndexOf(name, d) >= 0
    requires name[..LastIndexOf(name, d)] in s.index && p == s.index[name[..LastIndexOf(name, d)]]
    requires s.nodes[p].children.Some?
    requires node.children.None? || node.children == Some([])
    ensures |PushChild(s, p, node, name).keys| == |PushChild(s, p, node, name).nodes|
    ensures ChildrenMatch(PushChild(s, p, node, name), d)
  {
    var t := PushChild(s, p, node, name);
    var n := |s.nodes|;
    forall q, x | 0 <= q < |t.nodes| && t.nodes[q].children.Some? && 0 <= x < |t.nodes[q].children.value|
      ensures ChildOf(t, d, t.nodes[q].children.value[x], q)
    {
      assert q < n;
      if q == p && x == |s.nodes[p].children.value| {
        assert t.nodes[q].children.value[x] == n;
        assert t.keys[n] == name;
      } else {
        assert t.nodes[q].children.value[x] == s.nodes[q].children.value[x];
        assert ChildOf(s, d, s.nodes[q].children.value[x], q);
      }
    }
  }

  /** Appending a new node without delimiter, as the root, keeps the invariant. */
  lemma PushRootWellformed(s: Store, d: char, node: Node, name: string)
    requires Wellformed(s, d) && name !in s.index
    requires LastIndexOf(name, d) < 0 && node.name == name
    requires node.children.None? || node.children == Some([])
    ensures Wellformed(PushRoot(s, node, name), d)
  {
    var t := PushRoot(s, node, name);
    EnterKeepsIndex(s, t, name);
    PushRootPlaced(s, d, node, name);
    PushRootChildren(s, d, node, name);
  }

  lemma PushRootPlaced(s: Store, d: char, node: Node, name: string)
    requires |s.keys| == |s.nodes| && AllPlaced(s, d) && name !in s.index
    requires LastIndexOf(name, d) < 0 && node.name == name
    ensures |PushRoot(s, node, name).keys| == |PushRoot(s, node, name).nodes|
    ensures AllPlaced(PushRoot(s, node, name), d)
  {
    var t := PushRoot(s, node, name);
    var n := |s.nodes|;
    assert t.keys[n] == name;
    forall m | 0 <= m < |t.nodes|
      ensures Placed(t, d, m)
    {
      if m < n {
        assert Placed(s, d, m);
        assert t.keys[m] == s.keys[m];
      }
    }
  }

  /** The old `children` arrays are untouched and the new node's is empty or absent. */
  lemma PushRootChildren(s: Store, d: char, node: Node, name: string)
    requires |s.keys| == |s.nodes| && ChildrenMatch(s, d) && ChildrenAscend(s)
    requires node.children.None? || node.children == Some([])
    ensures |PushRoot(s, node, name).keys| == |PushRoot(s, node, name).nodes|
    ensures ChildrenMatch(PushRoot(s, node, name), d) && ChildrenAscend(PushRoot(s, node, name))
  {
    var t := PushRoot(s, node, name);
    var n := |s.nodes|;
    forall q, x | 0 <= q < |t.nodes| && t.nodes[q].children.Some? && 0 <= x < |t.nodes[q].children.value|
      ensures ChildOf(t, d, t.nodes[q].children.value[x], q)
    {
      assert q < n;
      assert ChildOf(s, d, s.nodes[q].children.value[x], q);
    }
    assert ChildrenAscend(t) by {
      assert forall q :: 0 <= q < n ==> t.nodes[q] == s.nodes[q];
    }
  }

  /** Entering `name` after all of its prefix's ancestors adds exactly the ancestors of `name`. */
  lemma EnterAddsAncestors(s: Store, mid: Store, t: Store, d: char, name: string)
    requires LastIndexOf(name, d) >= 0
    requires mid.index.Keys == s.index.Keys + Ancestors(name[..LastIndexOf(name, d)], d)
    requires t.index.Keys == mid.index.Keys + {name}
    ensures t.index.Keys == s.index.Keys + Ancestors(name, d)
  {
  }

  /** A name missing before its prefix was found is still missing: the prefix only brought in names shorter than it. */
  lemma StillMissing(s: Store, mid: Store, d: char, name: string)
    requires name !in s.index && LastIndexOf(name, d) >= 0
    requires mid.index.Keys == s.index.Keys + Ancestors(name[..LastIndexOf(name, d)], d)
    ensures name !in mid.index
  {
    assert name !in Ancestors(name[..LastIndexOf(name, d)], d);
  }

  /**
   * The last step of entering `rec` under its prefix: `mid` is the store once
   * the prefix has been found, as node `p`; pushing the renamed node onto
   * `p` enters `rec` as `Entered` says and adds exactly the ancestors of its
   * name.
   */
  lemma PushChildStep(s: Store, mid: Store, d: char, p: nat, rec: Node)
    requires p < |mid.nodes| && Extends(s, mid)
    requires rec.name !in s.index && LastIndexOf(rec.name, d) >= 0
    requires rec.children.None? || rec.children == Some([])
    requires var prefix := rec.name[..LastIndexOf(rec.name, d)];
      && mid.index.Keys == s.index.Keys + Ancestors(prefix, d)
      && prefix in mid.index && p == mid.index[prefix]
      && (prefix in s.index ==> mid == s)
    requires mid.nodes[p].children.Some?
    ensures rec.name !in mid.index
    ensures Entered(s, PushChild(mid, p, rec.(name := rec.name[LastIndexOf(rec.name, d) + 1..]), rec.name), d, rec, |mid.nodes|)
    ensures PushChild(mid, p, rec.(name := rec.name[LastIndexOf(rec.name, d) + 1..]), rec.name).index.Keys == s.index.Keys + Ancestors(rec.name, d)
    ensures PushChild(mid, p, rec.(name := rec.name[LastIndexOf(rec.name, d) + 1..]), rec.name).index[rec.name] == |mid.nodes|
  {
    var name := rec.name;
    var i := LastIndexOf(name, d);
    var prefix := name[..i];
    var node := rec.(name := name[i + 1..]);
    var t := PushChild(mid, p, node, name);
    StillMissing(s, mid, d, name);
    assert Entered(s, t, d, rec, |mid.nodes|) by {
      PushChildEntered(s, mid, d, p, rec, name);
    }
    assert t.index.Keys == s.index.Keys + Ancestors(name, d) by {
      EnterAddsAncestors(s, mid, t, d, name);
    }
  }

  /** The node for the prefix of node `n`'s full name: its parent in the tree. */
  ghost function Parent(s: Store, d: char, n: nat): (p: nat)
    requires Wellformed(s, d) && n < |s.nodes| && LastIndexOf(s.keys[n], d) >= 0
    ensures p < |s.nodes| && |s.keys[p]| < |s.keys[n]|
  {
    assert Placed(s, d, n);
    s.index[s.keys[n][..LastIndexOf(s.keys[n], d)]]
  }

  /** The names along the parent chain, from the top of the tree down to node `n`. */
  ghost function Chain(s: Store, d: char, n: nat): (names: seq<string>)
    requires Wellformed(s, d) && n < |s.nodes|
    decreases |s.keys[n]|
  {
    if LastIndexOf(s.keys[n], d) >= 0 then Chain(s, d, Parent(s, d, n)) + [s.nodes[n].name]
    else [s.nodes[n].name]
  }

  /** The top of node `n`'s tree: the ancestor whose full name has no delimiter. */
  ghost function TopOf(s: Store, d: char, n: nat): (t: nat)
    requires Wellformed(s, d) && n < |s.nodes|
    ensures t < |s.nodes| && LastIndexOf(s.keys[t], d) < 0
    decreases |s.keys[n]|
  {
    if LastIndexOf(s.keys[n], d) >= 0 then TopOf(s, d, Parent(s, d, n)) else n
  }

  /** Node `n` is in the tree under node `r`: `r` is on its parent chain. */
  ghost predicate InTree(s: Store, d: char, n: nat, r: nat)
    requires Wellformed(s, d) && n < |s.nodes|
    decreases |s.keys[n]|
  {
    n == r || (LastIndexOf(s.keys[n], d) >= 0 && InTree(s, d, Parent(s, d, n), r))
  }

  /**
   * The `children` arrays and the parent relation agree: a node's children
   * are exactly the nodes whose parent it is.
   */
  lemma ChildrenAreParentOf(s: Store, d: char, p: nat, c: nat)
    requires Wellformed(s, d) && p < |s.nodes| && c < |s.nodes|
    ensures s.nodes[p].children.Some? && c in s.nodes[p].children.value
        <==> LastIndexOf(s.keys[c], d) >= 0 && Parent(s, d, c) == p
  {
    if s.nodes[p].children.Some? && c in s.nodes[p].children.value {
      var x :| 0 <= x < |s.nodes[p].children.value| && s.nodes[p].children.value[x] == c;
      assert ChildOf(s, d, c, p);
    }
    if LastIndexOf(s.keys[c], d) >= 0 && Parent(s, d, c) == p {
      assert Placed(s, d, c);
    }
  }

  /**
   * A node's `children` list the nodes whose parent it is, each once, in the
   * order they were entered: the order of the `push` calls.
   */
  lemma ChildrenInEntryOrder(s: Store, d: char, p: nat)
    requires Wellformed(s, d) && p < |s.nodes| && s.nodes[p].children.Some?
    ensures forall x, y :: 0 <= x < y < |s.nodes[p].children.value| ==> s.nodes[p].children.value[x] < s.nodes[p].children.value[y]
    ensures forall c: nat :: c in s.nodes[p].children.value <==>
      c < |s.nodes| && LastIndexOf(s.keys[c], d) >= 0 && Parent(s, d, c) == p
  {
    forall c | c in s.nodes[p].children.value
      ensures c < |s.nodes|
    {
      var x :| 0 <= x < |s.nodes[p].children.value| && s.nodes[p].children.value[x] == c;
      assert ChildOf(s, d, c, p);
    }
    forall c: nat | c < |s.nodes|
      ensures c in s.nodes[p].children.value <==> LastIndexOf(s.keys[c], d) >= 0 && Parent(s, d, c) == p
    {
      ChildrenAreParentOf(s, d, p, c);
    }
  }

  /** A node's chain of names is its full name cut at every delimiter. */
  lemma {:induction false} ChainIsSegments(s: Store, d: char, n: nat)
    requires Wellformed(s, d) && n < |s.nodes|
    ensures Chain(s, d, n) == Segments(s.keys[n], d)
    decreases |s.keys[n]|
  {
    assert Placed(s, d, n);
    if LastIndexOf(s.keys[n], d) >= 0 {
      ChainIsSegments(s, d, Parent(s, d, n));
    }
  }

  /**
   * The tree under the root holds exactly the nodes whose top is the root;
   * every other top, and all of its tree, is an earlier node that the root
   * does not reach.
   */
  lemma {:induction false} InTreeIffTop(s: Store, d: char, n: nat, r: nat)
    requires Wellformed(s, d) && n < |s.nodes| && r < |s.nodes| && LastIndexOf(s.keys[r], d) < 0
    ensures InTree(s, d, n, r) <==> TopOf(s, d, n) == r
    decreases |s.keys[n]|
  {
    if LastIndexOf(s.keys[n], d) >= 0 {
      InTreeIffTop(s, d, Parent(s, d, n), r);
    }
  }

  /** Tops other than the root came earlier, and the root reaches none of their trees. */
  lemma EarlierTopsUnreachable(s: Store, d: char, m: nat, n: nat)
    requires Wellformed(s, d) && s.root.Some?
    requires m < |s.nodes| && LastIndexOf(s.keys[m], d) < 0 && Some(m) != s.root
    requires n < |s.nodes| && TopOf(s, d, n) == m
    ensures m < s.root.value
    ensures !InTree(s, d, n, s.root.value)
  {
    InTreeIffTop(s, d, n, s.root.value);
  }

  /** Two versions of a node agree on everything but the contents of `children`. */
  predicate SameNode(a: Node, b: Node)
  {
    a.name == b.name && a.imports == b.imports && (a.children.None? <==> b.children.None?)
  }

  /** `t` grew from `s`: nodes were only appended, and none already there changed its name, imports or kind. */
  ghost predicate Extends(s: Store, t: Store)
  {
    && |s.nodes| <= |t.nodes|
    && |s.keys| <= |t.keys|
    && t.keys[..|s.keys|] == s.keys
    && forall n :: 0 <= n < |s.nodes| ==> SameNode(s.nodes[n], t.nodes[n])
  }

  lemma ExtendsTransitive(s: Store, t: Store, u: Store)
    requires Extends(s, t) && Extends(t, u)
    ensures Extends(s, u)
  {
    assert u.keys[..|s.keys|] == u.keys[..|t.keys|][..|s.keys|];
  }

  /**
   * What entering `rec` as node `n` did, from `s` to `t`: `n` is the newest
   * node. With the delimiter at last position i, it carries the part of the
   * name after i and is the last child of the node for `name[..i]`,
   * appended to that node's existing children, with the root unchanged,
   * when the prefix was already there. With no delimiter it is `rec` itself, and
   * the new root.
   */
  ghost predicate Entered(s: Store, t: Store, d: char, rec: Node, n: nat)
  {
    var i := LastIndexOf(rec.name, d);
    && n == |t.nodes| - 1
    && (i >= 0 ==>
          && t.nodes[n] == rec.(name := rec.name[i + 1..])
          && rec.name[..i] in t.index
          && t.index[rec.name[..i]] < |t.nodes|
          && t.nodes[t.index[rec.name[..i]]].children.Some?
          && t.nodes[t.index[rec.name[..i]]].children.value != []
          && Last(t.nodes[t.index[rec.name[..i]]].children.value) == n
          && (rec.name[..i] in s.index && s.index[rec.name[..i]] < |s.nodes| && s.nodes[s.index[rec.name[..i]]].children.Some? ==>
                && t.nodes[t.index[rec.name[..i]]].children.value == s.nodes[s.index[rec.name[..i]]].children.value + [n]
                && t.root == s.root))
    && (i < 0 ==> t.nodes[n] == rec && t.root == Some(n))
  }

  /** Pushing a new child under its prefix node enters it as `Entered` says. */
  lemma PushChildEntered(s: Store, mid: Store, d: char, p: nat, rec: Node, name: string)
    requires rec.name == name && LastIndexOf(name, d) >= 0
    requires p < |mid.nodes| && name[..LastIndexOf(name, d)] in mid.index && p == mid.index[name[..LastIndexOf(name, d)]]
    requires mid.nodes[p].children.Some?
    requires name[..LastIndexOf(name, d)] in s.index ==> mid == s
    ensures Entered(s, PushChild(mid, p, rec.(name := name[LastIndexOf(name, d) + 1..]), name), d, rec, |mid.nodes|)
  {
    var i := LastIndexOf(name, d);
    var node := rec.(name := name[i + 1..]);
    var t := PushChild(mid, p, node, name);
    var n := |mid.nodes|;
    assert t.index[name[..i]] == p by {
      assert name[..i] != name;
    }
    assert t.nodes[n] == node;
    assert t.nodes[p].children.value == mid.nodes[p].children.value + [n];
  }

  /** Pushing a new node without delimiter enters it as the root. */
  lemma PushRootEntered(s: Store, d: char, rec: Node, name: string)
    requires rec.name == name && LastIndexOf(name, d) < 0
    ensures Entered(s, PushRoot(s, rec, name), d, rec, |s.nodes|)
  {
  }

  /** Record `rec` sits in the store as its own node: under its full name, with its `imports` and without a `children` array. */
  ghost predicate Holds(s: Store, rec: Record)
  {
    && rec.name in s.index
    && s.index[rec.name] < |s.nodes|
    && s.nodes[s.index[rec.name]].imports == rec.imports
    && s.nodes[s.index[rec.name]].children.None?
  }

  /** Growing the store keeps every name at its node, and so keeps every record that holds. */
  lemma ExtendsKeepsHolds(s: Store, t: Store, rec: Record)
    requires IndexMatches(s) && IndexMatches(t) && Extends(s, t) && Holds(s, rec)
    ensures Holds(t, rec)
  {
    var m := s.index[rec.name];
    assert t.keys[m] == t.keys[..|s.keys|][m] == s.keys[m];
    assert SameNode(s.nodes[m], t.nodes[m]);
  }

  /** A record entered as a new node holds: the node keeps its `imports` and has no `children` array. */
  lemma EnteredHolds(s: Store, t: Store, d: char, rec: Record, n: nat)
    requires Entered(s, t, d, RecordNode(rec), n)
    requires rec.name in t.index && t.index[rec.name] == n
    ensures Holds(t, rec)
  {
  }

  /** Growing the store keeps every name at the node it had. */
  lemma ExtendsKeepsIndex(s: Store, t: Store, name: string)
    requires IndexMatches(s) && IndexMatches(t) && Extends(s, t) && name in s.index
    ensures name in t.index && t.index[name] == s.index[name]
  {
    var m := s.index[name];
    assert t.keys[m] == t.keys[..|s.keys|][m] == s.keys[m];
  }

  /** Name `a` holds a group node that `find` created: no `imports`, and a `children` array. */
  ghost predicate IsGroup(s: Store, a: string)
  {
    && a in s.index && s.index[a] < |s.nodes|
    && s.nodes[s.index[a]].imports.None?
    && s.nodes[s.index[a]].children.Some?
  }

  /** Growing the store keeps every group a group. */
  lemma ExtendsKeepsGroup(s: Store, t: Store, a: string)
    requires IndexMatches(s) && IndexMatches(t) && Extends(s, t) && IsGroup(s, a)
    ensures IsGroup(t, a)
  {
    ExtendsKeepsIndex(s, t, a);
    assert SameNode(s.nodes[s.index[a]], t.nodes[t.index[a]]);
  }

  /**
   * `a` stops `find` from entering `name`: it is a proper prefix of `name`
   * whose node has no `children` array, so pushing onto it throws.
   */
  ghost predicate BlockedBy(s: Store, d: char, name: string, a: string)
  {
    && a in Ancestors(name, d) && a != name
    && a in s.index && s.index[a] < |s.nodes|
    && s.nodes[s.index[a]].children.None?
  }

  /** `find` fails on `name`: the name is new and some proper prefix of it blocks it. */
  ghost predicate Blocked(s: Store, d: char, name: string)
  {
    name !in s.index && exists a :: BlockedBy(s, d, name, a)
  }

  /** A prefix that blocks the prefix of `name` blocks `name` too. */
  lemma BlockedUp(s: Store, d: char, name: string, a: string)
    requires LastIndexOf(name, d) >= 0
    requires BlockedBy(s, d, name[..LastIndexOf(name, d)], a)
    ensures BlockedBy(s, d, name, a)
  {
  }

  /** Every proper prefix of a name in the map holds a node with a `children` array. */
  lemma {:induction false} PrefixesHaveChildren(s: Store, d: char, name: string)
    requires Wellformed(s, d) && name in s.index
    ensures forall a :: a in Ancestors(name, d) && a != name ==> a in s.index && s.index[a] < |s.nodes| && s.nodes[s.index[a]].children.Some?
    decreases |name|
  {
    var i := LastIndexOf(name, d);
    if i >= 0 {
      assert AllPlaced(s, d);
      assert Placed(s, d, s.index[name]);
      PrefixesHaveChildren(s, d, name[..i]);
    }
  }

  /**
   * Once the prefix of `name` has been found as a node with a `children`
   * array, nothing blocks `name`: the prefix was either already in the map,
   * where all of its own prefixes have `children`, or new and not blocked.
   */
  lemma EnterUnblocked(s: Store, mid: Store, d: char, name: string, p: nat)
    requires Wellformed(s, d) && LastIndexOf(name, d) >= 0
    requires var prefix := name[..LastIndexOf(name, d)];
      && (prefix in s.index ==> mid == s)
      && (prefix !in s.index ==> !Blocked(s, d, prefix))
      && prefix in mid.index && p == mid.index[prefix] && p < |mid.nodes| && mid.nodes[p].children.Some?
    ensures forall a :: !BlockedBy(s, d, name, a)
  {
    var prefix := name[..LastIndexOf(name, d)];
    if prefix in s.index {
      PrefixesHaveChildren(s, d, prefix);
    }
    forall a | a in Ancestors(name, d) && a != name && a in s.index && s.index[a] < |s.nodes|
      ensures s.nodes[s.index[a]].children.Some?
    {
      if a != prefix && prefix !in s.index {
        assert !BlockedBy(s, d, prefix, a);
      }
    }
  }

  /** Record `j` brought a new name: no earlier record had put it in the map. */
  ghost predicate NewAt(data: seq<Record>, d: char, j: int)
  {
    0 <= j < |data| && data[j].name !in KeysOf(data[..j], d)
  }

  /** The names of the first `k` records that were new at their turn: the names held by record nodes. */
  ghost function RecordKeys(data: seq<Record>, d: char, k: nat): set<string>
    requires k <= |data|
  {
    if k == 0 then {} else RecordKeys(data, d, k - 1) + (if NewAt(data, d, k - 1) then {data[k - 1].name} else {})
  }

  lemma {:induction false} RecordKeysWitness(data: seq<Record>, d: char, k: nat, a: string) returns (j: nat)
    requires k <= |data| && a in RecordKeys(data, d, k)
    ensures j < k && NewAt(data, d, j) && data[j].name == a
  {
    if a in RecordKeys(data, d, k - 1) {
      j := RecordKeysWitness(data, d, k - 1, a);
    } else {
      j := k - 1;
    }
  }

  lemma {:induction false} RecordKeysHas(data: seq<Record>, d: char, k: nat, j: nat)
    requires k <= |data| && j < k && NewAt(data, d, j)
    ensures data[j].name in RecordKeys(data, d, k)
  {
    if j < k - 1 {
      RecordKeysHas(data, d, k - 1, j);
    }
  }

  lemma RecordKeysMember(data: seq<Record>, d: char, k: nat, a: string)
    requires k <= |data|
    ensures a in RecordKeys(data, d, k) <==> exists j :: 0 <= j < k && NewAt(data, d, j) && data[j].name == a
  {
    if a in RecordKeys(data, d, k) {
      var j := RecordKeysWitness(data, d, k, a);
    }
    forall j | 0 <= j < k && NewAt(data, d, j) && data[j].name == a
      ensures a in RecordKeys(data, d, k)
    {
      RecordKeysHas(data, d, k, j);
    }
  }

  /** Record `j`, new at its turn, names a proper prefix of the name of the later record `m`. */
  ghost predicate Clash(data: seq<Record>, d: char, j: int, m: int)
  {
    && NewAt(data, d, j) && j < m < |data|
    && data[j].name != data[m].name && data[j].name in Ancestors(data[m].name, d)
  }

  /**
   * After the first `k` records went in without error, `find` fails on
   * record `k` exactly when an earlier record clashes with it, and what
   * blocks it is the name of such a record.
   */
  lemma BlockedIffClash(s: Store, d: char, data: seq<Record>, k: nat)
    requires Wellformed(s, d) && Progress(s, d, data, k) && k < |data|
    ensures Blocked(s, d, data[k].name) <==> exists j :: Clash(data, d, j, k)
    ensures forall a :: Blocked(s, d, data[k].name) && BlockedBy(s, d, data[k].name, a) ==> exists j :: Clash(data, d, j, k) && data[j].name == a
  {
    var name := data[k].name;
    forall a | BlockedBy(s, d, name, a)
      ensures exists j :: Clash(data, d, j, k) && data[j].name == a
    {
      RecordKeysMember(data, d, k, a);
      var j :| 0 <= j < k && NewAt(data, d, j) && data[j].name == a;
      assert Clash(data, d, j, k);
    }
    forall j | Clash(data, d, j, k)
      ensures Blocked(s, d, name)
    {
      assert Holds(s, data[j]);
      if name in s.index {
        PrefixesHaveChildren(s, d, name);
      }
      assert BlockedBy(s, d, name, data[j].name);
    }
  }

  class Builder {
    const delimiter: char
    /** The nodes, in the order they entered the map. */
    var nodes: seq<Node>
    /** The map from full name to node. */
    var index: map<string, nat>
    /** The most recent node whose name has no delimiter. */
    var root: Option<nat>
    /** The full name under which each node entered the map. */
    ghost var keys: seq<string>

    constructor (delimiter: char)
      ensures this.delimiter == delimiter
      ensures nodes == [] && index == map[] && root == None && keys == []
      ensures Valid()
    {
      this.delimiter := delimiter;
      nodes := [];
      index := map[];
      root := None;
      keys := [];
    }

    ghost function State(): Store
      reads this
    {
      Store(nodes, index, keys, root)
    }

    ghost predicate Valid()
      reads this
    {
      Wellformed(State(), delimiter)
    }

    /** `find(parent).children.push(node)` for a node entered under `name`. */
    method Attach(p: nat, node: Node, name: string) returns (r: Result<nat, BuildError>)
      requires p < |nodes| && nodes[p].children.Some? && |keys| == |nodes|
      modifies this
      ensures State() == PushChild(old(State()), p, node, name) && r == Ok(old(|nodes|))
      ensures Extends(old(State()), State())
    {
      var n := |nodes|;
      var parent := nodes[p];
      nodes := nodes[p := parent.(children := Some(parent.children.value + [n]))] + [node];
      keys := keys + [name];
      index := index[name := n];
      assert keys[..n] == old(keys);
      r := Ok(n);
    }

    /** `map.set(name, node)` and `root = node` for a node without delimiter. */
    method AttachRoot(node: Node, name: string) returns (r: Result<nat, BuildError>)
      requires |keys| == |nodes|
      modifies this
      ensures State() == PushRoot(old(State()), node, name) && r == Ok(old(|nodes|))
      ensures Extends(old(State()), State())
    {
      var n := |nodes|;
      nodes := nodes + [node];
      keys := keys + [name];
      index := index[name := n];
      root := Some(n);
      assert keys[..n] == old(keys);
      r := Ok(n);
    }

    /**
     * `find(rec)`. A name already in the map is returned as it is, with
     * nothing inserted or merged. Otherwise the record is entered under its
     * full name, as `Entered` says: under its parent group (created empty
     * when missing) when the name holds the delimiter, as the root when it
     * does not. The map then also holds every prefix of the name. Pushing
     * onto a prefix that names an input record fails, as that record has no
     * `children` array. (The source enters the name in the map before it
     * looks up the prefix; the prefix is strictly shorter, so the order
     * cannot be observed.)
     */
    method Find(rec: Node) returns (r: Result<nat, BuildError>)
      requires Valid()
      requires rec.children.None? || rec.children == Some([])
      modifies this
      ensures Valid()
      ensures Extends(old(State()), State())
      ensures rec.name in old(index) ==> r == Ok(old(index)[rec.name]) && State() == old(State())
      ensures r.Ok? ==> index.Keys == old(index).Keys + Ancestors(rec.name, delimiter) && index[rec.name] == r.value
      ensures r.Ok? && rec.name !in old(index) ==> Entered(old(State()), State(), delimiter, rec, r.value)
      ensures r.Ok? ==> forall a :: a in index && a !in old(index) && a != rec.name ==> IsGroup(State(), a)
      ensures r.Err? <==> Blocked(old(State()), delimiter, rec.name)
      ensures r.Err? ==> BlockedBy(old(State()), delimiter, rec.name, r.error.prefix) && State() == old(State())
      decreases |rec.name|, 1
    {
      var name := rec.name;
      if name in index {
        AncestorsInIndex(State(), delimiter, name);
        assert index.Keys + Ancestors(name, delimiter) == index.Keys;
        return Ok(index[name]);
      }
      var i := LastIndexOf(name, delimiter);
      if i >= 0 {
        r := Enter(rec, i);
      } else {
        ghost var before := State();
        PushRootWellformed(State(), delimiter, rec, name);
        PushRootEntered(before, delimiter, rec, name);
        assert Ancestors(name, delimiter) == {name};
        r := AttachRoot(rec, name);
        assert index.Keys == before.index.Keys + {name};
      }
    }

    /** The part of `find` for a missing name whose last delimiter is at `i`: find the prefix, then push onto it. */
    method Enter(rec: Node, i: int) returns (r: Result<nat, BuildError>)
      requires Valid() && rec.name !in index
      requires rec.children.None? || rec.children == Some([])
      requires i == LastIndexOf(rec.name, delimiter) && i >= 0
      modifies this
      ensures Valid()
      ensures Extends(old(State()), State())
      ensures r.Ok? ==> index.Keys == old(index).Keys + Ancestors(rec.name, delimiter) && index[rec.name] == r.value
      ensures r.Ok? ==> Entered(old(State()), State(), delimiter, rec, r.value)
      ensures r.Ok? ==> forall a :: a in index && a !in old(index) && a != rec.name ==> IsGroup(State(), a)
      ensures r.Err? <==> Blocked(old(State()), delimiter, rec.name)
      ensures r.Err? ==> BlockedBy(old(State()), delimiter, rec.name, r.error.prefix) && State() == old(State())
      decreases |rec.name|, 0
    {
      var name := rec.name;
      ghost var before := State();
      var prefix := name[..i];
      var found := Find(GroupNode(prefix));
      if found.Err? {
        BlockedUp(before, delimiter, name, found.error.prefix);
        r := found;
      } else if nodes[found.value].children.None? {
        assert prefix in before.index;
        assert BlockedBy(before, delimiter, name, prefix);
        r := Err(NoChildrenArray(prefix));
      } else {
        ghost var mid := State();
        EnterUnblocked(before, mid, delimiter, name, found.value);
        assert IsGroup(mid, prefix) || prefix in before.index;
        r := PushUnder(rec, found.value, before);
        forall a | a in index && a !in before.index && a != name
          ensures IsGroup(State(), a)
        {
          assert a in mid.index;
          assert IsGroup(mid, a);
        }
      }
    }

    /**
     * `find(parent).children.push(data)` and `data.name = suffix`, once the
     * prefix of `rec`'s name has been found as node `p`; `before` is the
     * state in which the entering of `rec` began.
     */
    method PushUnder(rec: Node, p: nat, ghost before: Store) returns (r: Result<nat, BuildError>)
      requires Valid() && Extends(before, State())
      requires rec.name !in before.index && LastIndexOf(rec.name, delimiter) >= 0
      requires rec.children.None? || rec.children == Some([])
      requires var prefix := rec.name[..LastIndexOf(rec.name, delimiter)];
        && index.Keys == before.index.Keys + Ancestors(prefix, delimiter)
        && prefix in index && p == index[prefix]
        && (prefix in before.index ==> State() == before)
      requires p < |nodes| && nodes[p].children.Some?
      modifies this
      ensures Valid()
      ensures Extends(before, State())
      ensures r.Ok? && index.Keys == before.index.Keys + Ancestors(rec.name, delimiter) && index[rec.name] == r.value
      ensures Entered(before, State(), delimiter, rec, r.value)
      ensures forall a :: IsGroup(old(State()), a) ==> IsGroup(State(), a)
    {
      var name := rec.name;
      var node := rec.(name := name[LastIndexOf(name, delimiter) + 1..]);
      ghost var mid := State();
      ghost var t := PushChild(mid, p, node, name);
      PushChildStep(before, mid, delimiter, p, rec);
      PushChildWellformed(mid, delimiter, p, node, name);
      r := Attach(p, node, name);
      assert State() == t;
      ExtendsTransitive(before, mid, t);
      forall a | IsGroup(mid, a)
        ensures IsGroup(State(), a)
      {
        ExtendsKeepsGroup(mid, State(), a);
      }
    }

    /**
     * `find(record)` for one input record, as the `forEach` callback: the map
     * gains exactly the record's name and its prefixes, every record that
     * held still holds, and the record holds when its name was new.
     */
    method Insert(rec: Record) returns (r: Result<nat, BuildError>)
      requires Valid()
      modifies this
      ensures Valid()
      ensures r.Ok? ==> index.Keys == old(index).Keys + Ancestors(rec.name, delimiter)
      ensures r.Ok? ==> forall q :: Holds(old(State()), q) ==> Holds(State(), q)
      ensures r.Ok? && rec.name !in old(index) ==> Holds(State(), rec) && index[rec.name] == |nodes| - 1
      ensures r.Ok? ==> forall a :: a in old(index) ==> index[a] == old(index)[a]
      ensures r.Ok? ==> forall a :: IsGroup(old(State()), a) ==> IsGroup(State(), a)
      ensures r.Ok? ==> forall a :: a in index && a !in old(index) && a != rec.name ==> IsGroup(State(), a)
      ensures r.Err? <==> Blocked(old(State()), delimiter, rec.name)
      ensures r.Err? ==> BlockedBy(old(State()), delimiter, rec.name, r.error.prefix) && State() == old(State())
    {
      ghost var before := State();
      r := Find(RecordNode(rec));
      if r.Ok? {
        forall q | Holds(before, q)
          ensures Holds(State(), q)
        {
          ExtendsKeepsHolds(before, State(), q);
        }
        forall a | a in before.index
          ensures index[a] == before.index[a]
        {
          ExtendsKeepsIndex(before, State(), a);
        }
        forall a | IsGroup(before, a)
          ensures IsGroup(State(), a)
        {
          ExtendsKeepsGroup(before, State(), a);
        }
        if rec.name !in before.index {
          EnteredHolds(before, State(), delimiter, rec, r.value);
        }
      }
    }
  }

  /** Each record new at its turn, among the first `k`, sits in the store as its own node. */
  ghost predicate RecordsHeld(s: Store, d: char, data: seq<Record>, k: nat)
  {
    forall j :: 0 <= j < k && NewAt(data, d, j) ==> Holds(s, data[j])
  }

  /** Records new at their turn, among the first `k`, entered the heap in their order. */
  ghost predicate RecordsInOrder(s: Store, d: char, data: seq<Record>, k: nat)
  {
    forall j, m :: j < m < k && NewAt(data, d, j) && NewAt(data, d, m)
      ==> data[j].name in s.index && data[m].name in s.index && s.index[data[j].name] < s.index[data[m].name]
  }

  /** Every name that no record among the first `k` brought holds a group node. */
  ghost predicate OthersAreGroups(s: Store, d: char, data: seq<Record>, k: nat)
    requires k <= |data|
  {
    forall a :: a in s.index && a !in RecordKeys(data, d, k) ==> IsGroup(s, a)
  }

  /**
   * What holds once the first `k` records went in without error: the map
   * holds their names and prefixes; each record new at its turn holds, and
   * such records entered the heap in their order; every other name holds a
   * group; and no record so far clashed with an earlier one.
   */
  ghost predicate Progress(s: Store, d: char, data: seq<Record>, k: nat)
  {
    && k <= |data|
    && s.index.Keys == KeysOf(data[..k], d)
    && RecordsHeld(s, d, data, k)
    && RecordsInOrder(s, d, data, k)
    && OthersAreGroups(s, d, data, k)
    && (forall j, m :: m < k ==> !Clash(data, d, j, m))
  }

  /** A name already in the map sits below the node just entered. */
  lemma BelowNewest(s: Store, t: Store, a: string, name: string)
    requires IndexMatches(t) && a in s.index && name !in s.index
    requires a in t.index && name in t.index && t.index[name] == |t.nodes| - 1
    ensures t.index[a] < t.index[name]
  {
    assert t.keys[t.index[a]] == a != name;
  }

  /** Records new at their turn keep their heap order when record `k` goes in. */
  lemma StepOrder(s: Store, t: Store, d: char, data: seq<Record>, k: nat)
    requires IndexMatches(t) && k < |data|
    requires s.index.Keys == KeysOf(data[..k], d)
    requires RecordsHeld(s, d, data, k)
    requires RecordsInOrder(s, d, data, k)
    requires forall a :: a in s.index ==> a in t.index && t.index[a] == s.index[a]
    requires NewAt(data, d, k) ==> data[k].name in t.index && t.index[data[k].name] == |t.nodes| - 1
    ensures RecordsInOrder(t, d, data, k + 1)
  {
    forall j, m | j < m < k + 1 && NewAt(data, d, j) && NewAt(data, d, m)
      ensures data[j].name in t.index && data[m].name in t.index && t.index[data[j].name] < t.index[data[m].name]
    {
      var a := data[j].name;
      assert Holds(s, data[j]);
      if m == k {
        BelowNewest(s, t, a, data[k].name);
      } else {
        assert s.index[a] < s.index[data[m].name];
      }
    }
  }

  /** Every name that is not a record's stays a group when record `k` goes in. */
  lemma StepGroups(s: Store, t: Store, d: char, data: seq<Record>, k: nat)
    requires k < |data|
    requires s.index.Keys == KeysOf(data[..k], d)
    requires OthersAreGroups(s, d, data, k)
    requires t.index.Keys == s.index.Keys + Ancestors(data[k].name, d)
    requires forall a :: IsGroup(s, a) ==> IsGroup(t, a)
    requires forall a :: a in t.index && a !in s.index && a != data[k].name ==> IsGroup(t, a)
    ensures OthersAreGroups(t, d, data, k + 1)
  {
    forall a | a in t.index && a !in RecordKeys(data, d, k + 1)
      ensures IsGroup(t, a)
    {
      if a in s.index {
        assert IsGroup(s, a);
      }
    }
  }

  /** Entering record `k` without error, as `Insert` does, takes `Progress` from `k` to `k + 1`. */
  lemma ProgressStep(s: Store, t: Store, d: char, data: seq<Record>, k: nat)
    requires Progress(s, d, data, k) && k < |data| && IndexMatches(t)
    requires forall j :: !Clash(data, d, j, k)
    requires t.index.Keys == s.index.Keys + Ancestors(data[k].name, d)
    requires forall q :: Holds(s, q) ==> Holds(t, q)
    requires data[k].name !in s.index ==> Holds(t, data[k]) && t.index[data[k].name] == |t.nodes| - 1
    requires forall a :: a in s.index ==> t.index[a] == s.index[a]
    requires forall a :: IsGroup(s, a) ==> IsGroup(t, a)
    requires forall a :: a in t.index && a !in s.index && a != data[k].name ==> IsGroup(t, a)
    ensures Progress(t, d, data, k + 1)
  {
    KeysOfSnoc(data, k, d);
    StepHolds(s, t, d, data, k);
    StepOrder(s, t, d, data, k);
    StepGroups(s, t, d, data, k);
  }

  /** Records that held still hold, and record `k` holds when it was new. */
  lemma StepHolds(s: Store, t: Store, d: char, data: seq<Record>, k: nat)
    requires k < |data|
    requires RecordsHeld(s, d, data, k)
    requires s.index.Keys == KeysOf(data[..k], d)
    requires forall q :: Holds(s, q) ==> Holds(t, q)
    requires data[k].name !in s.index ==> Holds(t, data[k])
    ensures RecordsHeld(t, d, data, k + 1)
  {
    forall j | 0 <= j < k + 1 && NewAt(data, d, j)
      ensures Holds(t, data[j])
    {
      if j < k {
        assert Holds(s, data[j]);
      }
    }
  }

  /** `Progress` over all the records, spelled out. */
  lemma ProgressDone(s: Store, d: char, data: seq<Record>)
    requires Progress(s, d, data, |data|)
    ensures s.index.Keys == KeysOf(data, d)
    ensures forall k :: NewAt(data, d, k) ==> Holds(s, data[k])
    ensures forall j, k :: j < k && NewAt(data, d, j) && NewAt(data, d, k)
                        ==> data[j].name in s.index && data[k].name in s.index && s.index[data[j].name] < s.index[data[k].name]
    ensures forall a :: a in s.index && a !in RecordKeys(data, d, |data|) ==> IsGroup(s, a)
    ensures forall j, k :: !Clash(data, d, j, k)
  {
    assert data[..|data|] == data;
  }

  /**
   * The `forEach` callback on record `k`, once the records before it went
   * in without error: it fails exactly when an earlier record clashes with
   * record `k`, and leaves the builder as it was; otherwise `Progress`
   * reaches `k + 1`.
   */
  method InsertAt(b: Builder, data: seq<Record>, k: nat) returns (r: Result<nat, BuildError>)
    requires b.Valid() && k < |data| && Progress(b.State(), b.delimiter, data, k)
    modifies b
    ensures b.Valid()
    ensures r.Ok? ==> Progress(b.State(), b.delimiter, data, k + 1)
    ensures r.Err? <==> exists j :: Clash(data, b.delimiter, j, k)
    ensures r.Err? ==> exists j :: Clash(data, b.delimiter, j, k) && r.error.prefix == data[j].name
    ensures r.Err? ==> b.State() == old(b.State()) && BlockedBy(b.State(), b.delimiter, data[k].name, r.error.prefix)
  {
    ghost var before := b.State();
    BlockedIffClash(before, b.delimiter, data, k);
    r := b.Insert(data[k]);
    if r.Ok? {
      ProgressStep(before, b.State(), b.delimiter, data, k);
    } else {
      assert BlockedBy(before, b.delimiter, data[k].name, r.error.prefix);
    }
  }

  /**
   * `hierarchy(data, delimiter)`: enters every record in order and returns
   * the root. The map ends up keyed by every record name and every prefix
   * of one. A record whose name was not yet in the map when its turn came
   * sits in the tree as its own node, and such records entered the heap in
   * their order in `data`; every other name holds a group node. A later
   * record with a name already there (a duplicate, or a prefix that was
   * created as a group) is left out of the tree. The call fails exactly
   * when a record names a proper prefix of a later record's name and was
   * new at its turn: that record has no `children` array to push onto.
   */
  method Hierarchy(data: seq<Record>, delimiter: char) returns (b: Builder, r: Result<Option<nat>, BuildError>)
    ensures b.delimiter == delimiter && b.Valid()
    ensures r.Ok? ==> r.value == b.root && b.index.Keys == KeysOf(data, delimiter)
    ensures r.Ok? ==> forall k :: NewAt(data, delimiter, k) ==> Holds(b.State(), data[k])
    ensures r.Ok? ==> forall j, k :: j < k && NewAt(data, delimiter, j) && NewAt(data, delimiter, k)
                        ==> data[j].name in b.index && data[k].name in b.index && b.index[data[j].name] < b.index[data[k].name]
    ensures r.Ok? ==> forall a :: a in b.index && a !in RecordKeys(data, delimiter, |data|) ==> IsGroup(b.State(), a)
    ensures r.Err? <==> exists j, k :: Clash(data, delimiter, j, k)
    ensures r.Err? ==> exists j, k :: Clash(data, delimiter, j, k) && r.error.prefix == data[j].name
    ensures r.Err? ==> r.error.prefix in b.index && b.index[r.error.prefix] < |b.nodes| && b.nodes[b.index[r.error.prefix]].children.None?
  {
    b := new Builder(delimiter);
    var k := 0;
    r := Ok(None);
    assert data[..0] == [];
    while k < |data| && r.Ok?
      invariant 0 <= k <= |data|
      invariant b.delimiter == delimiter && b.Valid()
      invariant r.Ok? ==> Progress(b.State(), delimiter, data, k)
      invariant r.Err? ==> exists j, m :: Clash(data, delimiter, j, m) && r.error.prefix == data[j].name
      invariant r.Err? ==> r.error.prefix in b.index && b.index[r.error.prefix] < |b.nodes| && b.nodes[b.index[r.error.prefix]].children.None?
      decreases |data| - k, if r.Ok? then 1 else 0
    {
      var found := InsertAt(b, data, k);
      if found.Err? {
        r := Err(found.error);
      } else {
        k := k + 1;
      }
    }
    if r.Ok? {
      ProgressDone(b.State(), delimiter, data);
      r := Ok(b.root);
    }
  }
}
