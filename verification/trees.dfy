/** Permission trees as values, the searches every component shares, and the
    object graph the two-pass tree builders produce. */
module Trees {
  import opened Rows

  datatype Option<T> = None | Some(value: T)

  /** A tree node: `key` is the permission id, `title` the displayed name,
      `code` and `op` the `code` and `operation` properties ("" when absent),
      `fields` the spread copy of the row it came from. */
  datatype Node = Node(key: string, title: string, code: string, op: string, fields: Row, children: seq<Node>)

  /** The keys of a forest's top-level nodes. */
  function Keys(f: seq<Node>): (ks: seq<string>)
    ensures |ks| == |f| && forall i :: 0 <= i < |f| ==> ks[i] == f[i].key
  {
    if f == [] then [] else [f[0].key] + Keys(f[1..])
  }

  /** Every key of a forest in pre-order: `getAllKeys` in the tree view. */
  function AllKeys(f: seq<Node>): seq<string>
  {
    if f == [] then [] else [f[0].key] + AllKeys(f[0].children) + AllKeys(f[1..])
  }

  /** Every node of a forest in pre-order. */
  function AllNodes(f: seq<Node>): (ns: seq<Node>)
    ensures |ns| == |AllKeys(f)|
  {
    if f == [] then [] else [f[0]] + AllNodes(f[0].children) + AllNodes(f[1..])
  }

  /** No key occurs twice. */
  ghost predicate NoDup(s: seq<string>)
  {
    forall x | x in s :: multiset(s)[x] == 1
  }

  lemma AllKeysAppend(a: seq<Node>, b: seq<Node>)
    ensures AllKeys(a + b) == AllKeys(a) + AllKeys(b)
  {
    if a == [] {
      assert a + b == b;
    } else {
      assert (a + b)[0] == a[0] && (a + b)[1..] == a[1..] + b;
      AllKeysAppend(a[1..], b);
    }
  }

  lemma AllKeysSingle(n: Node)
    ensures AllKeys([n]) == [n.key] + AllKeys(n.children)
  {
    assert [n][1..] == [];
  }

  lemma AllNodesSingle(n: Node)
    ensures AllNodes([n]) == [n] + AllNodes(n.children)
  {
    assert [n][1..] == [];
  }

  lemma AllNodesAppend(a: seq<Node>, b: seq<Node>)
    ensures AllNodes(a + b) == AllNodes(a) + AllNodes(b)
  {
    if a == [] {
      assert a + b == b;
    } else {
      assert (a + b)[0] == a[0] && (a + b)[1..] == a[1..] + b;
      AllNodesAppend(a[1..], b);
    }
  }

  /** The first node with key k in pre-order: `findNode` in the tree view.
      It finds a node exactly when k is one of the forest's keys. */
  function FindNode(f: seq<Node>, k: string): (r: Option<Node>)
    ensures r.Some? ==> r.value.key == k
    ensures r.Some? <==> k in AllKeys(f)
  {
    if f == [] then None
    else if f[0].key == k then Some(f[0])
    else match FindNode(f[0].children, k)
      case Some(n) => Some(n)
      case None => FindNode(f[1..], k)
  }

  /** A node found by key is one of the forest's nodes. */
  lemma {:induction false} FindNodeIn(f: seq<Node>, k: string)
    requires FindNode(f, k).Some?
    ensures FindNode(f, k).value in AllNodes(f)
  {
    if f[0].key != k {
      if FindNode(f[0].children, k).Some? {
        FindNodeIn(f[0].children, k);
      } else {
        FindNodeIn(f[1..], k);
      }
    }
  }

  /** With unique keys, the node found by key is the one node carrying it. */
  lemma {:induction false} FindNodeUnique(f: seq<Node>, x: Node)
    requires NoDup(AllKeys(f)) && x in AllNodes(f)
    ensures FindNode(f, x.key) == Some(x)
  {
    NoDupSplit(AllKeys(f), [f[0].key], AllKeys(f[0].children), AllKeys(f[1..]));
    if x == f[0] {
    } else if x in AllNodes(f[0].children) {
      NodeKeyIn(f[0].children, x);
      FindNodeUnique(f[0].children, x);
    } else {
      NodeKeyIn(f[1..], x);
      FindNodeUnique(f[1..], x);
    }
  }

  /** The key of a node of the forest is a key of the forest. */
  lemma {:induction false} NodeKeyIn(f: seq<Node>, x: Node)
    requires x in AllNodes(f)
    ensures x.key in AllKeys(f)
  {
    if x != f[0] {
      if x in AllNodes(f[0].children) {
        NodeKeyIn(f[0].children, x);
      } else {
        NodeKeyIn(f[1..], x);
      }
    }
  }

  /** The three parts of a duplicate-free sequence are duplicate-free and
      share no element. */
  lemma NoDupSplit(s: seq<string>, a: seq<string>, b: seq<string>, c: seq<string>)
    requires s == a + b + c && NoDup(s)
    ensures NoDup(a) && NoDup(b) && NoDup(c)
    ensures forall x | x in a :: x !in b && x !in c
    ensures forall x | x in b :: x !in c
  {
    assert multiset(s) == multiset(a) + multiset(b) + multiset(c);
    forall x | x in a ensures multiset(a)[x] == 1 && x !in b && x !in c {
      assert x in s;
    }
    forall x | x in b ensures multiset(b)[x] == 1 && x !in c {
      assert x in s;
    }
    forall x | x in c ensures multiset(c)[x] == 1 {
      assert x in s;
    }
  }

  /** How many nodes of the forest carry key y; it is positive exactly when
      y is one of the forest's keys. */
  function Count(f: seq<Node>, y: string): (c: nat)
    ensures c > 0 <==> y in AllKeys(f)
  {
    if f == [] then 0
    else (if f[0].key == y then 1 else 0) + Count(f[0].children, y) + Count(f[1..], y)
  }

  lemma CountPrepend(n: Node, f: seq<Node>, y: string)
    ensures Count([n] + f, y) == (if n.key == y then 1 else 0) + Count(n.children, y) + Count(f, y)
  {
    assert ([n] + f)[0] == n && ([n] + f)[1..] == f;
  }

  lemma CountSingle(n: Node, y: string)
    ensures Count([n], y) == (if n.key == y then 1 else 0) + Count(n.children, y)
  {
    assert [n][1..] == [];
  }

  lemma {:induction false} CountAppend(a: seq<Node>, b: seq<Node>, y: string)
    ensures Count(a + b, y) == Count(a, y) + Count(b, y)
  {
    if a == [] {
      assert a + b == b;
    } else {
      assert (a + b)[0] == a[0] && (a + b)[1..] == a[1..] + b;
      CountAppend(a[1..], b, y);
    }
  }

  lemma AllNodesPrepend(n: Node, f: seq<Node>)
    ensures AllNodes([n] + f) == [n] + AllNodes(n.children) + AllNodes(f)
  {
    assert ([n] + f)[0] == n && ([n] + f)[1..] == f;
  }

  /** A top-level tree of a forest is one of its nodes. */
  lemma {:induction false} AllNodesMember(f: seq<Node>, c: Node)
    requires c in f
    ensures c in AllNodes(f)
  {
    if c != f[0] {
      assert c in f[1..];
      AllNodesMember(f[1..], c);
    }
  }

  /** A node below a node of the forest is a node of the forest. */
  lemma {:induction false} NodesBelow(f: seq<Node>, n: Node, m: Node)
    requires n in AllNodes(f) && m in AllNodes(n.children)
    ensures m in AllNodes(f)
  {
    if n != f[0] {
      if n in AllNodes(f[0].children) {
        NodesBelow(f[0].children, n, m);
      } else {
        NodesBelow(f[1..], n, m);
      }
    }
  }

  /** A child of a node of the forest is a node of the forest. */
  lemma ChildIn(f: seq<Node>, n: Node, c: Node)
    requires n in AllNodes(f) && c in n.children
    ensures c in AllNodes(f)
  {
    AllNodesMember(n.children, c);
    NodesBelow(f, n, c);
  }

  /** A node whose key occurs once in the forest is the node found by it. */
  lemma {:induction false} FindNodeOnce(f: seq<Node>, x: Node)
    requires x in AllNodes(f) && Count(f, x.key) == 1
    ensures FindNode(f, x.key) == Some(x)
  {
    if x != f[0] {
      if x in AllNodes(f[0].children) {
        NodeKeyIn(f[0].children, x);
        FindNodeOnce(f[0].children, x);
      } else {
        NodeKeyIn(f[1..], x);
        FindNodeOnce(f[1..], x);
      }
    }
  }

  /** The object graph a two-pass builder leaves behind: `nodes` is its id
      map of childless node objects, `children` holds each object's child
      list as keys, a key standing for the object it names in `nodes`. */
  datatype Graph = Graph(nodes: map<string, Node>, children: map<string, seq<string>>)

  function ChildKeys(g: Graph, k: string): seq<string>
  {
    if k in g.children then g.children[k] else []
  }

  /** Every node object sits in the id map under its own key. */
  ghost predicate WellKeyed(g: Graph)
  {
    forall k | k in g.nodes :: g.nodes[k].key == k
  }

  /** A key that some object's child list holds. */
  ghost predicate Placed(g: Graph, x: string)
  {
    exists p :: p in g.children && x in g.children[p]
  }

  /** The tree the object with key k stands for: its children are the
      objects of its child list, unfolded in turn. `visited` holds the keys
      on the path from the root; a key met again there closes a cycle and
      is left out, which never happens on a path that starts at a root
      because every object has at most one parent. */
  function UnfoldNode(g: Graph, k: string, visited: set<string>): Node
    requires k in g.nodes && k !in visited
    decreases g.nodes.Keys - visited, 0, 0
  {
    g.nodes[k].(children := UnfoldSeq(g, ChildKeys(g, k), visited + {k}))
  }

  function UnfoldSeq(g: Graph, ks: seq<string>, visited: set<string>): seq<Node>
    decreases g.nodes.Keys - visited, 1, |ks|
  {
    if ks == [] then []
    else (if ks[0] in g.nodes && ks[0] !in visited then [UnfoldNode(g, ks[0], visited)] else [])
         + UnfoldSeq(g, ks[1..], visited)
  }

  /** Unfolding a list of keys that all name objects off the path gives one
      tree per key, in the same order. */
  lemma {:induction false} UnfoldTop(g: Graph, ks: seq<string>, visited: set<string>)
    requires WellKeyed(g)
    requires forall k | k in ks :: k in g.nodes && k !in visited
    ensures Keys(UnfoldSeq(g, ks, visited)) == ks
    decreases |ks|
  {
    if ks != [] {
      UnfoldTop(g, ks[1..], visited);
    }
  }

  /** Every key in an unfolding is one of the starting keys or sits in some
      object's child list: the unfolding invents no nodes. */
  lemma {:induction false} UnfoldSeqKeys(g: Graph, ks: seq<string>, visited: set<string>, x: string)
    requires WellKeyed(g) && x in AllKeys(UnfoldSeq(g, ks, visited))
    ensures x in ks || Placed(g, x)
    decreases g.nodes.Keys - visited, 1, |ks|
  {
    var head := if ks[0] in g.nodes && ks[0] !in visited then [UnfoldNode(g, ks[0], visited)] else [];
    AllKeysAppend(head, UnfoldSeq(g, ks[1..], visited));
    if x in AllKeys(head) {
      UnfoldNodeKeys(g, ks[0], visited, x);
    } else {
      UnfoldSeqKeys(g, ks[1..], visited, x);
    }
  }

  lemma {:induction false} UnfoldNodeKeys(g: Graph, k: string, visited: set<string>, x: string)
    requires WellKeyed(g) && k in g.nodes && k !in visited
    requires x in AllKeys([UnfoldNode(g, k, visited)])
    ensures x == k || Placed(g, x)
    decreases g.nodes.Keys - visited, 0, 0
  {
    var n := UnfoldNode(g, k, visited);
    AllKeysSingle(n);
    if x != n.key {
      UnfoldSeqKeys(g, ChildKeys(g, k), visited + {k}, x);
      if x in ChildKeys(g, k) {
        assert k in g.children && x in g.children[k];
      }
    }
  }

  /** Every node of an unfolding is an object of the id map with its
      children filled in: the unfolding changes no other property. */
  lemma {:induction false} UnfoldSeqNodes(g: Graph, ks: seq<string>, visited: set<string>, x: Node)
    requires WellKeyed(g) && x in AllNodes(UnfoldSeq(g, ks, visited))
    ensures x.key in g.nodes && x.(children := []) == g.nodes[x.key].(children := [])
    decreases g.nodes.Keys - visited, 1, |ks|
  {
    var head := if ks[0] in g.nodes && ks[0] !in visited then [UnfoldNode(g, ks[0], visited)] else [];
    AllNodesAppend(head, UnfoldSeq(g, ks[1..], visited));
    if x in AllNodes(head) {
      UnfoldNodeNodes(g, ks[0], visited, x);
    } else {
      UnfoldSeqNodes(g, ks[1..], visited, x);
    }
  }

  lemma {:induction false} UnfoldNodeNodes(g: Graph, k: string, visited: set<string>, x: Node)
    requires WellKeyed(g) && k in g.nodes && k !in visited
    requires x in AllNodes([UnfoldNode(g, k, visited)])
    ensures x.key in g.nodes && x.(children := []) == g.nodes[x.key].(children := [])
    decreases g.nodes.Keys - visited, 0, 0
  {
    var n := UnfoldNode(g, k, visited);
    AllNodesSingle(n);
    if x != n {
      UnfoldSeqNodes(g, ChildKeys(g, k), visited + {k}, x);
    }
  }

  /* ---------------------------------------------------------------------
     Every object is unfolded once, when its parent links end at a root
     --------------------------------------------------------------------- */

  /** Key a lies on the chain of parent links that starts at x (x itself
      included). `par` maps a key to its parent's key; `rank` must fall
      along each link, which is what makes the chain finite. */
  ghost predicate Above(par: map<string, string>, rank: string -> nat, a: string, x: string)
    decreases rank(x)
  {
    a == x || (x in par && rank(par[x]) < rank(x) && Above(par, rank, a, par[x]))
  }

  /** The last key on x's chain of parent links. */
  ghost function Top(par: map<string, string>, rank: string -> nat, x: string): string
    decreases rank(x)
  {
    if x in par && rank(par[x]) < rank(x) then Top(par, rank, par[x]) else x
  }

  /** The object graph a two-pass builder leaves when every object has at
      most one parent: `par` holds each placed key's parent, every child
      list holds exactly the keys whose parent it belongs to, once each,
      the roots are unplaced objects listed once, and `rank` falls from
      child to parent, so that the parent links have no cycle. */
  ghost predicate Parented(g: Graph, par: map<string, string>, rank: string -> nat, roots: seq<string>)
  {
    && WellKeyed(g)
    && (forall x | x in par :: x in g.nodes && par[x] in g.nodes && rank(par[x]) < rank(x))
    && (forall p, x :: multiset(ChildKeys(g, p))[x] == if x in par && par[x] == p then 1 else 0)
    && (forall x | x in roots :: x in g.nodes && x !in par && multiset(roots)[x] == 1)
  }

  /** How many of the keys ks lie on x's chain of parent links. */
  ghost function OnChain(par: map<string, string>, rank: string -> nat, ks: seq<string>, x: string): nat
  {
    if ks == [] then 0
    else (if Above(par, rank, ks[0], x) then 1 else 0) + OnChain(par, rank, ks[1..], x)
  }

  lemma {:induction false} AboveRank(par: map<string, string>, rank: string -> nat, a: string, x: string)
    requires Above(par, rank, a, x)
    ensures rank(a) <= rank(x)
    decreases rank(x)
  {
    if a != x {
      AboveRank(par, rank, a, par[x]);
    }
  }

  lemma {:induction false} AboveTrans(par: map<string, string>, rank: string -> nat, a: string, b: string, x: string)
    requires Above(par, rank, a, b) && Above(par, rank, b, x)
    ensures Above(par, rank, a, x)
    decreases rank(x)
  {
    if b != x {
      AboveTrans(par, rank, a, b, par[x]);
    }
  }

  /** Two keys on one chain: one of them lies above the other. */
  lemma {:induction false} AboveLinear(par: map<string, string>, rank: string -> nat, a: string, b: string, x: string)
    requires Above(par, rank, a, x) && Above(par, rank, b, x)
    ensures Above(par, rank, a, b) || Above(par, rank, b, a)
    decreases rank(x)
  {
    if a != x && b != x {
      AboveLinear(par, rank, a, b, par[x]);
    }
  }

  lemma {:induction false} TopAbove(par: map<string, string>, rank: string -> nat, x: string)
    ensures Above(par, rank, Top(par, rank, x), x)
    ensures !(Top(par, rank, x) in par && rank(par[Top(par, rank, x)]) < rank(Top(par, rank, x)))
    decreases rank(x)
  {
    if x in par && rank(par[x]) < rank(x) {
      TopAbove(par, rank, par[x]);
      AboveTrans(par, rank, Top(par, rank, x), par[x], x);
    }
  }

  /** The top of an object's chain is an object. */
  lemma {:induction false} TopNode(g: Graph, par: map<string, string>, rank: string -> nat, roots: seq<string>, x: string)
    requires Parented(g, par, rank, roots) && x in g.nodes
    ensures Top(par, rank, x) in g.nodes
    decreases rank(x)
  {
    if x in par {
      TopNode(g, par, rank, roots, par[x]);
    }
  }

  /** When at most c0 among ks lies on x's chain, the keys of ks on the
      chain are the copies of c0. */
  lemma {:induction false} OnChainOne(par: map<string, string>, rank: string -> nat, ks: seq<string>, x: string, c0: string)
    requires forall c | c in ks && Above(par, rank, c, x) :: c == c0
    ensures OnChain(par, rank, ks, x) == if Above(par, rank, c0, x) then multiset(ks)[c0] else 0
  {
    if ks != [] {
      assert ks == [ks[0]] + ks[1..];
      assert multiset(ks)[c0] == (if ks[0] == c0 then 1 else 0) + multiset(ks[1..])[c0];
      OnChainOne(par, rank, ks[1..], x, c0);
    }
  }

  /** A key in k's child list has k as its parent. */
  lemma ChildParent(g: Graph, par: map<string, string>, rank: string -> nat, roots: seq<string>, k: string, c: string)
    requires Parented(g, par, rank, roots) && c in ChildKeys(g, k)
    ensures c in par && par[c] == k && c in g.nodes && rank(k) < rank(c)
  {
    assert multiset(ChildKeys(g, k))[c] > 0;
  }

  /** The child list of k holds one key on x's chain when k lies strictly
      above x, and none otherwise. */
  lemma ChildrenOnChain(g: Graph, par: map<string, string>, rank: string -> nat, roots: seq<string>, k: string, x: string)
    requires Parented(g, par, rank, roots)
    ensures OnChain(par, rank, ChildKeys(g, k), x) == if x != k && Above(par, rank, k, x) then 1 else 0
  {
    if x != k && Above(par, rank, k, x) {
      ChildOnChain(g, par, rank, roots, k, x);
    } else {
      NoChildOnChain(g, par, rank, roots, k, x);
    }
  }

  lemma ChildOnChain(g: Graph, par: map<string, string>, rank: string -> nat, roots: seq<string>, k: string, x: string)
    requires Parented(g, par, rank, roots) && x != k && Above(par, rank, k, x)
    ensures OnChain(par, rank, ChildKeys(g, k), x) == 1
  {
    var cs := ChildKeys(g, k);
    var c0 := Below(par, rank, k, x);
    forall c | c in cs && Above(par, rank, c, x) ensures c == c0 {
      ChildParent(g, par, rank, roots, k, c);
      AboveLinear(par, rank, c, c0, x);
      if Above(par, rank, c, c0) && c != c0 {
        AboveRank(par, rank, c, par[c0]);
      } else if Above(par, rank, c0, c) && c != c0 {
        AboveRank(par, rank, c0, par[c]);
      }
    }
    OnChainOne(par, rank, cs, x, c0);
    assert multiset(cs)[c0] == 1;
  }

  lemma NoChildOnChain(g: Graph, par: map<string, string>, rank: string -> nat, roots: seq<string>, k: string, x: string)
    requires Parented(g, par, rank, roots) && !(x != k && Above(par, rank, k, x))
    ensures OnChain(par, rank, ChildKeys(g, k), x) == 0
  {
    var cs := ChildKeys(g, k);
    forall c | c in cs && Above(par, rank, c, x) ensures false {
      ChildParent(g, par, rank, roots, k, c);
      assert Above(par, rank, k, c);
      AboveTrans(par, rank, k, c, x);
      AboveRank(par, rank, c, x);
    }
    OnChainOne(par, rank, cs, x, k);
    if k in cs {
      ChildParent(g, par, rank, roots, k, k);
    }
  }

  /** The key just below k on x's chain: a child of k that lies above x. */
  lemma {:induction false} Below(par: map<string, string>, rank: string -> nat, k: string, x: string) returns (c: string)
    requires x != k && Above(par, rank, k, x)
    ensures c in par && par[c] == k && Above(par, rank, c, x)
    decreases rank(x)
  {
    if par[x] == k {
      c := x;
    } else {
      c := Below(par, rank, k, par[x]);
      AboveTrans(par, rank, c, par[x], x);
    }
  }

  /** Unfolding an object off the path of ranks below it holds x once when
      the object lies on x's chain, and not at all otherwise. */
  lemma {:induction false} UnfoldNodeCount(g: Graph, par: map<string, string>, rank: string -> nat, roots: seq<string>,
                                           k: string, visited: set<string>, x: string)
    requires Parented(g, par, rank, roots) && k in g.nodes
    requires forall v | v in visited :: rank(v) < rank(k)
    ensures Count([UnfoldNode(g, k, visited)], x) == if Above(par, rank, k, x) then 1 else 0
    decreases g.nodes.Keys - visited, 0, 0
  {
    var cs := ChildKeys(g, k);
    CountSingle(UnfoldNode(g, k, visited), x);
    forall c | c in cs ensures c in g.nodes && forall v | v in visited + {k} :: rank(v) < rank(c) {
      ChildParent(g, par, rank, roots, k, c);
    }
    UnfoldSeqCount(g, par, rank, roots, cs, visited + {k}, x);
    ChildrenOnChain(g, par, rank, roots, k, x);
  }

  lemma {:induction false} UnfoldSeqCount(g: Graph, par: map<string, string>, rank: string -> nat, roots: seq<string>,
                                          ks: seq<string>, visited: set<string>, x: string)
    requires Parented(g, par, rank, roots)
    requires forall c | c in ks :: c in g.nodes && forall v | v in visited :: rank(v) < rank(c)
    ensures Count(UnfoldSeq(g, ks, visited), x) == OnChain(par, rank, ks, x)
    decreases g.nodes.Keys - visited, 1, |ks|
  {
    if ks != [] {
      var k := ks[0];
      assert k in g.nodes && k !in visited;
      CountAppend([UnfoldNode(g, k, visited)], UnfoldSeq(g, ks[1..], visited), x);
      UnfoldNodeCount(g, par, rank, roots, k, visited, x);
      UnfoldSeqCount(g, par, rank, roots, ks[1..], visited, x);
    }
  }

  /** Unfolding the roots holds x exactly once when x's chain of parent
      links ends at a root, and not at all otherwise: no object is
      unfolded twice, and none that hangs below a root is left out. */
  lemma UnfoldRooted(g: Graph, par: map<string, string>, rank: string -> nat, roots: seq<string>, x: string)
    requires Parented(g, par, rank, roots)
    ensures Count(UnfoldSeq(g, roots, {}), x) == if Top(par, rank, x) in roots then 1 else 0
  {
    var t := Top(par, rank, x);
    UnfoldSeqCount(g, par, rank, roots, roots, {}, x);
    TopAbove(par, rank, x);
    forall c | c in roots && Above(par, rank, c, x) ensures c == t {
      AboveLinear(par, rank, c, t, x);
    }
    OnChainOne(par, rank, roots, x, t);
    if t !in roots {
      assert multiset(roots)[t] == 0;
    }
  }
}
