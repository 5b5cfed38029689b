/** The tree editor component (src/components/TreeDisplay.js): the live
    forest `data`, the list `deletedNodes` of deleted subtrees, each with
    the key of the parent it was deleted from, and the operations that
    rearrange them: drag-and-drop, delete, restore and retitle. Keys are
    compared with `===`; numbers and strings are not told apart. */
module TreeDisplay {
  import opened Trees

  /** The key of the unified root a restored node falls back to. */
  const WRAPPER_KEY := "2"
  const DELETED_ROOT := "deleted-root"
  const DELETED_TITLE := "已删除"

  /** One entry of `deletedNodes`: a removed subtree and the parent key it
      was removed from (`null` becomes None). */
  datatype Deleted = Deleted(node: Node, originParentKey: Option<string>)

  /** The subtrees of the deleted area, in entry order. */
  function EntryNodes(es: seq<Deleted>): (ns: seq<Node>)
    ensures |ns| == |es| && forall i :: 0 <= i < |es| ==> ns[i] == es[i].node
  {
    if es == [] then [] else [es[0].node] + EntryNodes(es[1..])
  }

  lemma EntryNodesPrepend(e: Deleted, es: seq<Deleted>)
    ensures EntryNodes([e] + es) == [e.node] + EntryNodes(es)
  {
    assert ([e] + es)[1..] == es;
  }

  lemma EntryNodesAppend(es: seq<Deleted>, e: Deleted)
    ensures EntryNodes(es + [e]) == EntryNodes(es) + [e.node]
  {
  }

  /* ---------------------------------------------------------------------
     onDrop
     --------------------------------------------------------------------- */

  /** The resolved drop event: the dragged and target keys, whether the
      drop went into a gap between nodes, whether the target is expanded
      and has children, and the drop position relative to the target (-1
      before it, 0 on it, 1 after it). */
  datatype DropInfo = DropInfo(dragKey: string, dropKey: string, dropToGap: bool,
                               targetExpandedWithChildren: bool, relPos: int)

  /** `loop` with the splice callback for the dragged key: on each level the
      first node with key k is cut out and the scan of that level stops;
      the nodes before it are searched in turn. The node handed back is the
      last one cut out. */
  function LoopRemove(f: seq<Node>, k: string): (r: (seq<Node>, Option<Node>))
    ensures r.1.Some? <==> k in AllKeys(f)
    ensures r.1.Some? ==> r.1.value.key == k
  {
    if f == [] then ([], None)
    else if f[0].key == k then (f[1..], Some(f[0]))
    else
      var (c, r1) := LoopRemove(f[0].children, k);
      var (rest, r2) := LoopRemove(f[1..], k);
      ([f[0].(children := c)] + rest, if r2.Some? then r2 else r1)
  }

  /** `loop` with the callback that puts x in front of the target's
      children. */
  function LoopPrepend(f: seq<Node>, k: string, x: Node): seq<Node>
  {
    if f == [] then []
    else if f[0].key == k then [f[0].(children := [x] + f[0].children)] + f[1..]
    else [f[0].(children := LoopPrepend(f[0].children, k, x))] + LoopPrepend(f[1..], k, x)
  }

  /** `loop` with the callback that records the target's array and index,
      followed by the splice of x just before (or just after) the target. */
  function InsertSibling(f: seq<Node>, k: string, x: Node, before: bool): seq<Node>
  {
    if f == [] then []
    else if f[0].key == k then (if before then [x, f[0]] else [f[0], x]) + f[1..]
    else [f[0].(children := InsertSibling(f[0].children, k, x, before))] + InsertSibling(f[1..], k, x, before)
  }

  /** Whether the drop puts the dragged node in front of the target's
      children: a drop onto the node, or a gap drop just below an expanded
      target that has children. */
  predicate IntoTarget(info: DropInfo)
  {
    !info.dropToGap || (info.targetExpandedWithChildren && info.relPos == 1)
  }

  /** The forest after `onDrop`. */
  function Dropped(f: seq<Node>, info: DropInfo): seq<Node>
    requires info.dragKey in AllKeys(f)
  {
    var (rest, dragObj) := LoopRemove(f, info.dragKey);
    if IntoTarget(info) then LoopPrepend(rest, info.dropKey, dragObj.value)
    else InsertSibling(rest, info.dropKey, dragObj.value, info.relPos == -1)
  }

  /** Key a sits immediately before key b in the list s. */
  ghost predicate Adjacent(s: seq<Node>, a: string, b: string)
  {
    exists j :: 0 <= j < |s| - 1 && s[j].key == a && s[j + 1].key == b
  }

  /** Key a sits immediately before key b in some list of siblings: the
      top level or the children of some node. */
  ghost predicate Precedes(f: seq<Node>, a: string, b: string)
  {
    Adjacent(f, a, b) || exists n :: n in AllNodes(f) && Adjacent(n.children, a, b)
  }

  lemma {:induction false} LoopRemoveAbsent(f: seq<Node>, k: string)
    requires Count(f, k) == 0
    ensures LoopRemove(f, k) == (f, None)
  {
    if f != [] {
      LoopRemoveAbsent(f[0].children, k);
      LoopRemoveAbsent(f[1..], k);
      assert f == [f[0].(children := f[0].children)] + f[1..];
    }
  }

  /** When the dragged key occurs once, the node cut out is the tree with
      that key. */
  lemma {:induction false} LoopRemoveFound(f: seq<Node>, k: string)
    requires Count(f, k) == 1
    ensures LoopRemove(f, k).1 == FindNode(f, k)
  {
    if f[0].key != k {
      if Count(f[0].children, k) == 1 {
        LoopRemoveFound(f[0].children, k);
        LoopRemoveAbsent(f[1..], k);
      } else {
        LoopRemoveAbsent(f[0].children, k);
        LoopRemoveFound(f[1..], k);
      }
    }
  }

  /** When the dragged key occurs once, every key occurs in the rest and in
      the cut-out tree together as often as before. */
  lemma {:induction false} LoopRemoveCount(f: seq<Node>, k: string, y: string)
    requires Count(f, k) == 1
    ensures Count(f, y) == Count(LoopRemove(f, k).0, y) + Count([LoopRemove(f, k).1.value], y)
  {
    var t := f[0];
    if t.key == k {
      CountSingle(t, y);
    } else if Count(t.children, k) == 1 {
      LoopRemoveCount(t.children, k, y);
      LoopRemoveAbsent(f[1..], k);
      var c := LoopRemove(t.children, k).0;
      assert LoopRemove(f, k) == ([t.(children := c)] + f[1..], LoopRemove(t.children, k).1);
      CountPrepend(t.(children := c), f[1..], y);
    } else {
      LoopRemoveAbsent(t.children, k);
      LoopRemoveCount(f[1..], k, y);
      var rest := LoopRemove(f[1..], k).0;
      assert t.(children := t.children) == t;
      assert LoopRemove(f, k) == ([t] + rest, LoopRemove(f[1..], k).1);
      CountPrepend(t, rest, y);
    }
  }

  lemma {:induction false} LoopPrependAbsent(f: seq<Node>, k: string, x: Node)
    requires Count(f, k) == 0
    ensures LoopPrepend(f, k, x) == f
  {
    if f != [] {
      LoopPrependAbsent(f[0].children, k, x);
      LoopPrependAbsent(f[1..], k, x);
      assert f == [f[0].(children := f[0].children)] + f[1..];
    }
  }

  /** When the target key occurs once, putting x in front of its children
      adds exactly x's keys. */
  lemma {:induction false} LoopPrependCount(f: seq<Node>, k: string, x: Node, y: string)
    requires Count(f, k) == 1
    ensures Count(LoopPrepend(f, k, x), y) == Count(f, y) + Count([x], y)
  {
    var t := f[0];
    CountSingle(x, y);
    if t.key == k {
      var t' := t.(children := [x] + t.children);
      assert LoopPrepend(f, k, x) == [t'] + f[1..];
      CountPrepend(t', f[1..], y);
      CountPrepend(x, t.children, y);
    } else if Count(t.children, k) == 1 {
      LoopPrependCount(t.children, k, x, y);
      LoopPrependAbsent(f[1..], k, x);
      var t' := t.(children := LoopPrepend(t.children, k, x));
      assert LoopPrepend(f, k, x) == [t'] + f[1..];
      CountPrepend(t', f[1..], y);
    } else {
      LoopPrependAbsent(t.children, k, x);
      LoopPrependCount(f[1..], k, x, y);
      assert t.(children := t.children) == t;
      assert LoopPrepend(f, k, x) == [t] + LoopPrepend(f[1..], k, x);
      CountPrepend(t, LoopPrepend(f[1..], k, x), y);
    }
  }

  /** The node found by the target key, with x put in front of its
      children, is a node of the result. */
  lemma {:induction false} LoopPrependPlaced(f: seq<Node>, k: string, x: Node)
    requires k in AllKeys(f)
    ensures FindNode(f, k).value.(children := [x] + FindNode(f, k).value.children) in AllNodes(LoopPrepend(f, k, x))
  {
    var t := f[0];
    var r := LoopPrepend(f, k, x);
    if t.key == k {
      var t' := t.(children := [x] + t.children);
      assert r == [t'] + f[1..];
      AllNodesPrepend(t', f[1..]);
    } else {
      var t' := t.(children := LoopPrepend(t.children, k, x));
      assert r == [t'] + LoopPrepend(f[1..], k, x);
      AllNodesPrepend(t', LoopPrepend(f[1..], k, x));
      if FindNode(t.children, k).Some? {
        LoopPrependPlaced(t.children, k, x);
      } else {
        LoopPrependPlaced(f[1..], k, x);
      }
    }
  }

  lemma {:induction false} InsertSiblingAbsent(f: seq<Node>, k: string, x: Node, before: bool)
    requires Count(f, k) == 0
    ensures InsertSibling(f, k, x, before) == f
  {
    if f != [] {
      InsertSiblingAbsent(f[0].children, k, x, before);
      InsertSiblingAbsent(f[1..], k, x, before);
      assert f == [f[0].(children := f[0].children)] + f[1..];
    }
  }

  /** When the target key occurs once, inserting x next to it adds exactly
      x's keys. */
  lemma {:induction false} InsertSiblingCount(f: seq<Node>, k: string, x: Node, before: bool, y: string)
    requires Count(f, k) == 1
    ensures Count(InsertSibling(f, k, x, before), y) == Count(f, y) + Count([x], y)
  {
    var t := f[0];
    CountSingle(x, y);
    if t.key == k {
      InsertHereCount(f, k, x, before, y);
    } else if Count(t.children, k) == 1 {
      InsertSiblingCount(t.children, k, x, before, y);
      InsertSiblingAbsent(f[1..], k, x, before);
      var t' := t.(children := InsertSibling(t.children, k, x, before));
      assert InsertSibling(f, k, x, before) == [t'] + f[1..];
      CountPrepend(t', f[1..], y);
    } else {
      InsertSiblingAbsent(t.children, k, x, before);
      InsertSiblingCount(f[1..], k, x, before, y);
      assert t.(children := t.children) == t;
      assert InsertSibling(f, k, x, before) == [t] + InsertSibling(f[1..], k, x, before);
      CountPrepend(t, InsertSibling(f[1..], k, x, before), y);
    }
  }

  lemma InsertHereCount(f: seq<Node>, k: string, x: Node, before: bool, y: string)
    requires f != [] && f[0].key == k
    ensures Count(InsertSibling(f, k, x, before), y) == Count(f, y) + Count([x], y)
  {
    var t := f[0];
    CountSingle(x, y);
    CountPrepend(t, f[1..], y);
    assert f == [t] + f[1..];
    if before {
      assert InsertSibling(f, k, x, before) == [x] + f;
      CountPrepend(x, f, y);
    } else {
      assert InsertSibling(f, k, x, before) == [t] + ([x] + f[1..]);
      CountPrepend(t, [x] + f[1..], y);
      CountPrepend(x, f[1..], y);
    }
  }

  /** Inserting x next to a key of the forest puts x among the result's
      nodes, immediately before (or after) a node with that key. */
  lemma {:induction false} InsertSiblingPlaced(f: seq<Node>, k: string, x: Node, before: bool)
    requires k in AllKeys(f)
    ensures x in AllNodes(InsertSibling(f, k, x, before))
    ensures Precedes(InsertSibling(f, k, x, before), if before then x.key else k, if before then k else x.key)
  {
    var a, b := if before then x.key else k, if before then k else x.key;
    var t := f[0];
    var r := InsertSibling(f, k, x, before);
    if t.key == k {
      assert r[0] == (if before then x else t) && r[1] == (if before then t else x);
      assert Adjacent(r, a, b);
      AllNodesMember(r, x);
    } else {
      var t' := t.(children := InsertSibling(t.children, k, x, before));
      var rest := InsertSibling(f[1..], k, x, before);
      assert r == [t'] + rest;
      AllNodesPrepend(t', rest);
      if k in AllKeys(t.children) {
        InsertSiblingPlaced(t.children, k, x, before);
        PrecedesUnder(r, t', a, b);
      } else {
        InsertSiblingPlaced(f[1..], k, x, before);
        PrecedesTail(t', rest, a, b);
      }
    }
  }

  /** An adjacency among the children of a top-level tree is an adjacency
      of the forest. */
  lemma PrecedesUnder(f: seq<Node>, n: Node, a: string, b: string)
    requires n in f && Precedes(n.children, a, b)
    ensures Precedes(f, a, b)
  {
    AllNodesMember(f, n);
    if !Adjacent(n.children, a, b) {
      var m :| m in AllNodes(n.children) && Adjacent(m.children, a, b);
      NodesBelow(f, n, m);
    }
  }

  /** An adjacency in the rest of a forest is an adjacency of the forest. */
  lemma PrecedesTail(t: Node, rest: seq<Node>, a: string, b: string)
    requires Precedes(rest, a, b)
    ensures Precedes([t] + rest, a, b)
  {
    var f := [t] + rest;
    AllNodesPrepend(t, rest);
    if Adjacent(rest, a, b) {
      var j :| 0 <= j < |rest| - 1 && rest[j].key == a && rest[j + 1].key == b;
      assert f[j + 1] == rest[j] && f[j + 2] == rest[j + 1];
    } else {
      var m :| m in AllNodes(rest) && Adjacent(m.children, a, b);
      assert m in AllNodes(f);
    }
  }

  /** A drop conserves keys: when the dragged and the target key occur once
      and the target lies outside the dragged subtree, every key occurs as
      often after the drop as before. */
  lemma {:induction false} DropKeys(f: seq<Node>, info: DropInfo, y: string)
    requires Count(f, info.dragKey) == 1 && Count(f, info.dropKey) == 1
    requires info.dropKey !in AllKeys([FindNode(f, info.dragKey).value])
    ensures Count(Dropped(f, info), y) == Count(f, y)
  {
    var (rest, dragObj) := LoopRemove(f, info.dragKey);
    LoopRemoveFound(f, info.dragKey);
    LoopRemoveCount(f, info.dragKey, info.dropKey);
    LoopRemoveCount(f, info.dragKey, y);
    if IntoTarget(info) {
      LoopPrependCount(rest, info.dropKey, dragObj.value, y);
    } else {
      InsertSiblingCount(rest, info.dropKey, dragObj.value, info.relPos == -1, y);
    }
  }

  /** Where the dragged subtree lands: unchanged, as the first child of the
      target for a drop onto it (or just below an expanded target with
      children), otherwise immediately before the target (position -1) or
      immediately after it. */
  lemma {:induction false} DropPlaced(f: seq<Node>, info: DropInfo)
    requires Count(f, info.dragKey) == 1 && Count(f, info.dropKey) == 1
    requires info.dropKey !in AllKeys([FindNode(f, info.dragKey).value])
    ensures FindNode(Dropped(f, info), info.dragKey) == FindNode(f, info.dragKey)
    ensures IntoTarget(info) ==>
              FindNode(Dropped(f, info), info.dropKey).Some?
              && FindNode(Dropped(f, info), info.dropKey).value.children != []
              && FindNode(Dropped(f, info), info.dropKey).value.children[0] == FindNode(f, info.dragKey).value
    ensures !IntoTarget(info) && info.relPos == -1 ==> Precedes(Dropped(f, info), info.dragKey, info.dropKey)
    ensures !IntoTarget(info) && info.relPos != -1 ==> Precedes(Dropped(f, info), info.dropKey, info.dragKey)
  {
    var g := Dropped(f, info);
    var (rest, dragObj) := LoopRemove(f, info.dragKey);
    var d := dragObj.value;
    LoopRemoveFound(f, info.dragKey);
    LoopRemoveCount(f, info.dragKey, info.dropKey);
    DropKeys(f, info, info.dragKey);
    DropKeys(f, info, info.dropKey);
    if IntoTarget(info) {
      LoopPrependPlaced(rest, info.dropKey, d);
      var t := FindNode(rest, info.dropKey).value;
      var t' := t.(children := [d] + t.children);
      FindNodeOnce(g, t');
      ChildIn(g, t', d);
    } else {
      InsertSiblingPlaced(rest, info.dropKey, d, info.relPos == -1);
    }
    FindNodeOnce(g, d);
  }

  /** A drop onto a node that is not in the live tree (one shown in the
      deleted area, say) loses the dragged subtree: it is cut out and put
      nowhere, so each key occurs as often as before less its occurrences
      in the dragged subtree. */
  lemma {:induction false} DropLost(f: seq<Node>, info: DropInfo, y: string)
    requires Count(f, info.dragKey) == 1 && Count(f, info.dropKey) == 0 && IntoTarget(info)
    ensures Count(Dropped(f, info), y) + Count([FindNode(f, info.dragKey).value], y) == Count(f, y)
    ensures Count(Dropped(f, info), info.dragKey) == 0
  {
    var (rest, dragObj) := LoopRemove(f, info.dragKey);
    LoopRemoveFound(f, info.dragKey);
    LoopRemoveCount(f, info.dragKey, info.dropKey);
    LoopPrependAbsent(rest, info.dropKey, dragObj.value);
    LoopRemoveCount(f, info.dragKey, y);
    LoopRemoveCount(f, info.dragKey, info.dragKey);
    CountSingle(dragObj.value, info.dragKey);
  }

  /* ---------------------------------------------------------------------
     handleDelete
     --------------------------------------------------------------------- */

  /** `removeNode`: every node with key k is filtered out (the subtree of a
      removed node is not searched), kept nodes have their children
      filtered in turn; the node handed back is the last one removed. */
  function RemoveNode(f: seq<Node>, k: string): (r: (seq<Node>, Option<Node>))
    ensures r.1.Some? <==> k in AllKeys(f)
    ensures r.1.Some? ==> r.1.value.key == k
  {
    if f == [] then ([], None)
    else
      var (rest, r2) := RemoveNode(f[1..], k);
      if f[0].key == k then (rest, if r2.Some? then r2 else Some(f[0]))
      else
        var (c, r1) := RemoveNode(f[0].children, k);
        ([f[0].(children := c)] + rest, if r2.Some? then r2 else r1)
  }

  /** After `removeNode` no node carries the key. */
  lemma {:induction false} RemoveNodeGone(f: seq<Node>, k: string)
    ensures Count(RemoveNode(f, k).0, k) == 0
  {
    if f != [] {
      RemoveNodeGone(f[1..], k);
      if f[0].key != k {
        RemoveNodeGone(f[0].children, k);
        CountPrepend(f[0].(children := RemoveNode(f[0].children, k).0), RemoveNode(f[1..], k).0, k);
      }
    }
  }

  lemma {:induction false} RemoveNodeAbsent(f: seq<Node>, k: string)
    requires Count(f, k) == 0
    ensures RemoveNode(f, k) == (f, None)
  {
    if f != [] {
      RemoveNodeAbsent(f[0].children, k);
      RemoveNodeAbsent(f[1..], k);
      assert f == [f[0].(children := f[0].children)] + f[1..];
    }
  }

  /** When the key occurs once, the removed node is the tree with that key,
      and every key occurs in the rest and in the removed tree together as
      often as before. */
  lemma {:induction false} RemoveNodeCount(f: seq<Node>, k: string, y: string)
    requires Count(f, k) == 1
    ensures RemoveNode(f, k).1 == FindNode(f, k)
    ensures Count(f, y) == Count(RemoveNode(f, k).0, y) + Count([RemoveNode(f, k).1.value], y)
  {
    var t := f[0];
    if t.key == k {
      RemoveNodeAbsent(f[1..], k);
      CountSingle(t, y);
    } else if Count(t.children, k) == 1 {
      RemoveNodeCount(t.children, k, y);
      RemoveNodeAbsent(f[1..], k);
      var c := RemoveNode(t.children, k).0;
      assert RemoveNode(f, k) == ([t.(children := c)] + f[1..], RemoveNode(t.children, k).1);
      CountPrepend(t.(children := c), f[1..], y);
    } else {
      RemoveNodeAbsent(t.children, k);
      RemoveNodeCount(f[1..], k, y);
      var rest := RemoveNode(f[1..], k).0;
      assert t.(children := t.children) == t;
      assert RemoveNode(f, k) == ([t] + rest, RemoveNode(f[1..], k).1);
      CountPrepend(t, rest, y);
    }
  }

  /* ---------------------------------------------------------------------
     handleRestore
     --------------------------------------------------------------------- */

  /** The nodes of s whose key is not k: the `filter` on a parent's
      children. */
  function Filter(s: seq<Node>, k: string): (r: seq<Node>)
    ensures forall n :: n in r <==> n in s && n.key != k
  {
    if s == [] then [] else (if s[0].key == k then [] else [s[0]]) + Filter(s[1..], k)
  }

  lemma {:induction false} FilterAbsent(s: seq<Node>, k: string)
    requires Count(s, k) == 0
    ensures Filter(s, k) == s
  {
    if s != [] {
      FilterAbsent(s[1..], k);
      assert s == [s[0]] + s[1..];
    }
  }

  /** Filtering out the one sibling with key k takes away exactly that
      sibling's subtree: every key occurs as often as before less its
      occurrences under the sibling. */
  lemma {:induction false} FilterCount(s: seq<Node>, k: string, j: int, y: string)
    requires 0 <= j < |s| && s[j].key == k && Count(s, k) == 1
    ensures Count(Filter(s, k), y) + Count([s[j]], y) == Count(s, y)
  {
    assert s == [s[0]] + s[1..];
    CountPrepend(s[0], s[1..], k);
    CountPrepend(s[0], s[1..], y);
    if j == 0 {
      FilterAbsent(s[1..], k);
      assert Filter(s, k) == s[1..];
      CountSingle(s[0], y);
    } else {
      assert s[j] in s[1..];
      AllNodesMember(s[1..], s[j]);
      NodeKeyIn(s[1..], s[j]);
      assert s[1..][j - 1] == s[j];
      FilterCount(s[1..], k, j - 1, y);
      assert Filter(s, k) == [s[0]] + Filter(s[1..], k);
      CountPrepend(s[0], Filter(s[1..], k), y);
    }
  }

  /** `findAndRemove` on the entries a node's children are wrapped in, each
      recording the node's key pk as its parent: the first entry in
      pre-order with key k is removed from its parent's children and handed
      back. */
  function FindAndRemoveIn(ns: seq<Node>, pk: string, k: string): (r: (seq<Node>, Option<Deleted>))
    ensures r.1.Some? <==> k in AllKeys(ns)
    ensures r.1.Some? ==> r.1.value.node.key == k
  {
    if ns == [] then ([], None)
    else if ns[0].key == k then (ns[1..], Some(Deleted(ns[0], Some(pk))))
    else
      var (inner, r) := if ns[0].children != [] then FindAndRemoveIn(ns[0].children, ns[0].key, k) else ([], None);
      if r.Some? then ([ns[0].(children := Filter(inner, k))] + ns[1..], r)
      else
        var (rest, r2) := FindAndRemoveIn(ns[1..], pk, k);
        ([ns[0]] + rest, r2)
  }

  /** `findAndRemove` on the deleted area: a top-level entry with key k is
      spliced out; a deeper node is removed from its parent's children and
      handed back with that parent's key as its recorded parent. */
  function FindAndRemove(es: seq<Deleted>, k: string): (r: (seq<Deleted>, Option<Deleted>))
    ensures r.1.Some? <==> k in AllKeys(EntryNodes(es))
    ensures r.1.Some? ==> r.1.value.node.key == k
  {
    if es == [] then ([], None)
    else
      var n := es[0].node;
      assert EntryNodes(es) == [n] + EntryNodes(es[1..]);
      if n.key == k then (es[1..], Some(es[0]))
      else
        var (inner, r) := if n.children != [] then FindAndRemoveIn(n.children, n.key, k) else ([], None);
        if r.Some? then ([es[0].(node := n.(children := Filter(inner, k)))] + es[1..], r)
        else
          var (rest, r2) := FindAndRemove(es[1..], k);
          ([es[0]] + rest, r2)
  }

  lemma {:induction false} FindAndRemoveInAbsent(ns: seq<Node>, pk: string, k: string)
    requires Count(ns, k) == 0
    ensures FindAndRemoveIn(ns, pk, k) == (ns, None)
  {
    if ns != [] {
      FindAndRemoveInAbsent(ns[1..], pk, k);
      assert ns == [ns[0]] + ns[1..];
    }
  }

  /** When the key occurs once, the node handed back is the tree with that
      key, and every key occurs in the rest and in that tree together as
      often as before. */
  lemma {:induction false} FindAndRemoveInCount(ns: seq<Node>, pk: string, k: string, y: string)
    requires Count(ns, k) == 1
    ensures FindAndRemoveIn(ns, pk, k).1.value.node == FindNode(ns, k).value
    ensures Count(ns, y) == Count(FindAndRemoveIn(ns, pk, k).0, y) + Count([FindAndRemoveIn(ns, pk, k).1.value.node], y)
  {
    var t := ns[0];
    if t.key == k {
      CountSingle(t, y);
    } else if Count(t.children, k) == 1 {
      FindAndRemoveInCount(t.children, t.key, k, y);
      FindAndRemoveInCount(t.children, t.key, k, k);
      var (inner, r) := FindAndRemoveIn(t.children, t.key, k);
      CountSingle(r.value.node, k);
      FilterAbsent(inner, k);
      assert FindAndRemoveIn(ns, pk, k) == ([t.(children := inner)] + ns[1..], r);
      CountPrepend(t.(children := inner), ns[1..], y);
    } else {
      FindAndRemoveInCount(ns[1..], pk, k, y);
      assert FindAndRemoveIn(ns, pk, k) == ([t] + FindAndRemoveIn(ns[1..], pk, k).0, FindAndRemoveIn(ns[1..], pk, k).1);
      CountPrepend(t, FindAndRemoveIn(ns[1..], pk, k).0, y);
    }
  }

  /** When the key occurs once in the deleted area, restoring conserves
      keys: they occur in the remaining entries and in the handed-back
      subtree together as often as before. */
  lemma {:induction false} FindAndRemoveCount(es: seq<Deleted>, k: string, y: string)
    requires Count(EntryNodes(es), k) == 1
    ensures Count(EntryNodes(es), y) == Count(EntryNodes(FindAndRemove(es, k).0), y) + Count([FindAndRemove(es, k).1.value.node], y)
  {
    var n := es[0].node;
    var (rest, found) := FindAndRemove(es, k);
    assert EntryNodes(es) == [n] + EntryNodes(es[1..]);
    CountPrepend(n, EntryNodes(es[1..]), y);
    CountPrepend(n, EntryNodes(es[1..]), k);
    if n.key == k {
      CountSingle(n, y);
    } else if Count(n.children, k) == 1 {
      FindAndRemoveInCount(n.children, n.key, k, y);
      FindAndRemoveInCount(n.children, n.key, k, k);
      var (inner, r) := FindAndRemoveIn(n.children, n.key, k);
      CountSingle(r.value.node, k);
      FilterAbsent(inner, k);
      var e := es[0].(node := n.(children := inner));
      assert rest == [e] + es[1..];
      EntryNodesPrepend(e, es[1..]);
      CountPrepend(e.node, EntryNodes(es[1..]), y);
    } else {
      FindAndRemoveInAbsent(n.children, n.key, k);
      FindAndRemoveCount(es[1..], k, y);
      var rest' := FindAndRemove(es[1..], k).0;
      assert rest == [es[0]] + rest';
      EntryNodesPrepend(es[0], rest');
      CountPrepend(n, EntryNodes(rest'), y);
    }
  }

  /** A node hung directly under node p of the forest, recorded with p's
      key as its parent. */
  ghost predicate HungUnder(f: seq<Node>, e: Deleted)
  {
    exists p :: p in AllNodes(f) && e.node in p.children && e.originParentKey == Some(p.key)
  }

  /** The recorded parent of a node found among children wrapped with
      parent key pk is pk itself, or the key of the node it hangs under. */
  lemma {:induction false} FindAndRemoveInOrigin(ns: seq<Node>, pk: string, k: string)
    requires k in AllKeys(ns)
    ensures var e := FindAndRemoveIn(ns, pk, k).1.value;
            (e.node in ns && e.originParentKey == Some(pk)) || HungUnder(ns, e)
  {
    var t := ns[0];
    var e := FindAndRemoveIn(ns, pk, k).1.value;
    AllNodesPrepend(t, ns[1..]);
    assert ns == [t] + ns[1..];
    if t.key != k {
      if t.children != [] && k in AllKeys(t.children) {
        FindAndRemoveInOrigin(t.children, t.key, k);
        if e.node in t.children && e.originParentKey == Some(t.key) {
          assert t in AllNodes(ns);
        } else {
          var p :| p in AllNodes(t.children) && e.node in p.children && e.originParentKey == Some(p.key);
          assert p in AllNodes(ns);
        }
      } else {
        FindAndRemoveInOrigin(ns[1..], pk, k);
        if !(e.node in ns[1..] && e.originParentKey == Some(pk)) {
          var p :| p in AllNodes(ns[1..]) && e.node in p.children && e.originParentKey == Some(p.key);
          assert p in AllNodes(ns);
        }
      }
    }
  }

  /** The entry handed back by `findAndRemove` is a top-level entry of the
      deleted area, or a deeper node recorded with the key of the node it
      hung under. */
  lemma {:induction false} FindAndRemoveOrigin(es: seq<Deleted>, k: string)
    requires k in AllKeys(EntryNodes(es))
    ensures FindAndRemove(es, k).1.value in es || HungUnder(EntryNodes(es), FindAndRemove(es, k).1.value)
  {
    var n := es[0].node;
    var e := FindAndRemove(es, k).1.value;
    assert EntryNodes(es) == [n] + EntryNodes(es[1..]);
    AllNodesPrepend(n, EntryNodes(es[1..]));
    if n.key != k {
      if n.children != [] && k in AllKeys(n.children) {
        FindAndRemoveInOrigin(n.children, n.key, k);
        if e.node in n.children && e.originParentKey == Some(n.key) {
          assert n in AllNodes(EntryNodes(es));
        } else {
          var p :| p in AllNodes(n.children) && e.node in p.children && e.originParentKey == Some(p.key);
          assert p in AllNodes(EntryNodes(es));
        }
      } else {
        FindAndRemoveOrigin(es[1..], k);
        if e !in es[1..] {
          var p :| p in AllNodes(EntryNodes(es[1..])) && e.node in p.children && e.originParentKey == Some(p.key);
          assert p in AllNodes(EntryNodes(es));
        }
      }
    }
  }

  /** The parent a restored node goes back under: its recorded parent when
      that is still in the tree, else the unified root "2" when present,
      else none, which means the end of the top level. */
  function ResolveParent(f: seq<Node>, pk: Option<string>): (p: Option<string>)
    ensures p.Some? ==> p.value in AllKeys(f)
    ensures pk.Some? && pk.value in AllKeys(f) ==> p == pk
    ensures (pk.None? || pk.value !in AllKeys(f)) ==> p == (if WRAPPER_KEY in AllKeys(f) then Some(WRAPPER_KEY) else None)
  {
    if pk.Some? && FindNode(f, pk.value).Some? then pk
    else
      var root2 := FindNode(f, WRAPPER_KEY);
      if root2.Some? then Some(root2.value.key) else None
  }

  /** `insertNode` under parent key p: every node with key p not already
      below such a node gets x as its last child. */
  function InsertUnder(f: seq<Node>, p: string, x: Node): seq<Node>
  {
    if f == [] then []
    else [if f[0].key == p then f[0].(children := f[0].children + [x])
          else f[0].(children := InsertUnder(f[0].children, p, x))]
         + InsertUnder(f[1..], p, x)
  }

  /** `insertNode`: with no parent key (or an empty one) x goes to the end
      of the top level. */
  function InsertNode(f: seq<Node>, p: Option<string>, x: Node): seq<Node>
  {
    if p.None? || p.value == "" then f + [x] else InsertUnder(f, p.value, x)
  }

  lemma {:induction false} InsertUnderAbsent(f: seq<Node>, p: string, x: Node)
    requires Count(f, p) == 0
    ensures InsertUnder(f, p, x) == f
  {
    if f != [] {
      InsertUnderAbsent(f[0].children, p, x);
      InsertUnderAbsent(f[1..], p, x);
      assert f == [f[0].(children := f[0].children)] + f[1..];
    }
  }

  /** When the parent key occurs once, inserting under it adds exactly x's
      keys. */
  lemma {:induction false} InsertUnderCount(f: seq<Node>, p: string, x: Node, y: string)
    requires Count(f, p) == 1
    ensures Count(InsertUnder(f, p, x), y) == Count(f, y) + Count([x], y)
  {
    var t := f[0];
    if t.key == p {
      InsertUnderAbsent(f[1..], p, x);
      var t' := t.(children := t.children + [x]);
      assert InsertUnder(f, p, x) == [t'] + f[1..];
      CountPrepend(t', f[1..], y);
      CountAppend(t.children, [x], y);
    } else if Count(t.children, p) == 1 {
      InsertUnderCount(t.children, p, x, y);
      InsertUnderAbsent(f[1..], p, x);
      var t' := t.(children := InsertUnder(t.children, p, x));
      assert InsertUnder(f, p, x) == [t'] + f[1..];
      CountPrepend(t', f[1..], y);
    } else {
      InsertUnderAbsent(t.children, p, x);
      InsertUnderCount(f[1..], p, x, y);
      assert t.(children := t.children) == t;
      assert InsertUnder(f, p, x) == [t] + InsertUnder(f[1..], p, x);
      CountPrepend(t, InsertUnder(f[1..], p, x), y);
    }
  }

  /** The node found by the parent key, with x as its new last child, is a
      node of the result. */
  lemma {:induction false} InsertUnderPlaced(f: seq<Node>, p: string, x: Node)
    requires p in AllKeys(f)
    ensures FindNode(f, p).value.(children := FindNode(f, p).value.children + [x]) in AllNodes(InsertUnder(f, p, x))
  {
    var t := f[0];
    var t' := if t.key == p then t.(children := t.children + [x]) else t.(children := InsertUnder(t.children, p, x));
    assert InsertUnder(f, p, x) == [t'] + InsertUnder(f[1..], p, x);
    AllNodesPrepend(t', InsertUnder(f[1..], p, x));
    if t.key != p {
      if FindNode(t.children, p).Some? {
        InsertUnderPlaced(t.children, p, x);
      } else {
        InsertUnderPlaced(f[1..], p, x);
      }
    }
  }

  /** Where a restored subtree lands: as the last child of the resolved
      parent, or at the end of the top level when there is none. */
  lemma RestorePlaced(f: seq<Node>, pk: Option<string>, x: Node)
    ensures var p := ResolveParent(f, pk);
            if p.Some? && p.value != "" then
              FindNode(f, p.value).value.(children := FindNode(f, p.value).value.children + [x]) in AllNodes(InsertNode(f, p, x))
            else InsertNode(f, p, x) == f + [x]
  {
    var p := ResolveParent(f, pk);
    if p.Some? && p.value != "" {
      InsertUnderPlaced(f, p.value, x);
    }
  }

  /* ---------------------------------------------------------------------
     handleEdit
     --------------------------------------------------------------------- */

  /** `updateTitle`: every node with key k not below another such node gets
      the new title; nothing else changes. */
  function UpdateTitle(f: seq<Node>, k: string, value: string): seq<Node>
  {
    if f == [] then []
    else [if f[0].key == k then f[0].(title := value)
          else f[0].(children := UpdateTitle(f[0].children, k, value))]
         + UpdateTitle(f[1..], k, value)
  }

  /** Retitling keeps every key in place. */
  lemma {:induction false} UpdateTitleKeys(f: seq<Node>, k: string, value: string)
    ensures AllKeys(UpdateTitle(f, k, value)) == AllKeys(f)
  {
    if f != [] {
      var t := f[0];
      var t' := if t.key == k then t.(title := value) else t.(children := UpdateTitle(t.children, k, value));
      UpdateTitleKeys(t.children, k, value);
      UpdateTitleKeys(f[1..], k, value);
      assert UpdateTitle(f, k, value) == [t'] + UpdateTitle(f[1..], k, value);
      assert AllKeys([t'] + UpdateTitle(f[1..], k, value)) == [t'.key] + AllKeys(t'.children) + AllKeys(UpdateTitle(f[1..], k, value)) by {
        assert ([t'] + UpdateTitle(f[1..], k, value))[1..] == UpdateTitle(f[1..], k, value);
      }
    }
  }

  /** The forest with every title blanked: its shape, keys, codes,
      operations and fields, and nothing else. */
  function Untitled(f: seq<Node>): (r: seq<Node>)
    ensures |r| == |f|
  {
    if f == [] then []
    else [f[0].(title := "", children := Untitled(f[0].children))] + Untitled(f[1..])
  }

  /** Retitling changes titles only: every node keeps its place, its
      children in order and everything but its title. */
  lemma {:induction false} UpdateTitleShape(f: seq<Node>, k: string, value: string)
    ensures Untitled(UpdateTitle(f, k, value)) == Untitled(f)
  {
    if f != [] {
      var t := f[0];
      var t' := if t.key == k then t.(title := value) else t.(children := UpdateTitle(t.children, k, value));
      var u := UpdateTitle(f, k, value);
      assert u == [t'] + UpdateTitle(f[1..], k, value);
      assert u[0] == t' && u[1..] == UpdateTitle(f[1..], k, value);
      UpdateTitleShape(t.children, k, value);
      UpdateTitleShape(f[1..], k, value);
    }
  }

  /** Retitling keeps every key's count. */
  lemma {:induction false} UpdateTitleCount(f: seq<Node>, k: string, value: string, y: string)
    ensures Count(UpdateTitle(f, k, value), y) == Count(f, y)
  {
    if f != [] {
      var t := f[0];
      var t' := if t.key == k then t.(title := value) else t.(children := UpdateTitle(t.children, k, value));
      UpdateTitleCount(t.children, k, value, y);
      UpdateTitleCount(f[1..], k, value, y);
      assert UpdateTitle(f, k, value) == [t'] + UpdateTitle(f[1..], k, value);
      CountPrepend(t', UpdateTitle(f[1..], k, value), y);
    }
  }

  /** The node found by the edited key carries the new title and is
      otherwise unchanged. */
  lemma {:induction false} UpdateTitleFound(f: seq<Node>, k: string, value: string)
    requires k in AllKeys(f)
    ensures FindNode(UpdateTitle(f, k, value), k) == Some(FindNode(f, k).value.(title := value))
  {
    var t := f[0];
    var rest := UpdateTitle(f[1..], k, value);
    if t.key == k {
      assert UpdateTitle(f, k, value) == [t.(title := value)] + rest;
    } else {
      var t' := t.(children := UpdateTitle(t.children, k, value));
      assert UpdateTitle(f, k, value) == [t'] + rest;
      assert ([t'] + rest)[1..] == rest;
      UpdateTitleKeys(t.children, k, value);
      if k in AllKeys(t.children) {
        UpdateTitleFound(t.children, k, value);
      } else {
        UpdateTitleFound(f[1..], k, value);
      }
    }
  }

  /** Every other key still finds a node with the same title, code,
      operation and fields. */
  lemma {:induction false} UpdateTitleOthers(f: seq<Node>, k: string, value: string, other: string)
    requires other != k && other in AllKeys(f)
    ensures FindNode(UpdateTitle(f, k, value), other).Some?
    ensures FindNode(UpdateTitle(f, k, value), other).value.(children := []) == FindNode(f, other).value.(children := [])
  {
    var t := f[0];
    var rest := UpdateTitle(f[1..], k, value);
    var t' := if t.key == k then t.(title := value) else t.(children := UpdateTitle(t.children, k, value));
    assert UpdateTitle(f, k, value) == [t'] + rest;
    assert ([t'] + rest)[1..] == rest;
    UpdateTitleKeys(f, k, value);
    UpdateTitleKeys(t.children, k, value);
    if t.key != other {
      if other in AllKeys(t.children) {
        if t.key != k {
          UpdateTitleOthers(t.children, k, value, other);
        }
      } else {
        UpdateTitleOthers(f[1..], k, value, other);
      }
    }
  }

  /* ---------------------------------------------------------------------
     The component state
     --------------------------------------------------------------------- */

  class TreeDisplay {
    var data: seq<Node>
    var deletedNodes: seq<Deleted>

    /** How often key y occurs in the live tree and in the deleted area. */
    ghost function Held(y: string): nat
      reads this
    {
      Count(data, y) + Count(EntryNodes(deletedNodes), y)
    }

    /** Every key sits at most once in the live tree and the deleted area
        together. */
    ghost predicate Unique()
      reads this
    {
      forall y :: Held(y) <= 1
    }

    /** The component as first rendered with the imported tree. */
    constructor (treeData: seq<Node>)
      ensures data == treeData && deletedNodes == []
    {
      data := treeData;
      deletedNodes := [];
    }

    /** The effect that runs when the parent hands over a new tree: the
        live tree is replaced, the deleted area is kept. */
    method Load(treeData: seq<Node>)
      modifies this
      ensures data == treeData && deletedNodes == old(deletedNodes)
    {
      data := treeData;
    }

    /** `getFullTreeData`: the live tree, followed, when anything has been
        deleted, by a "deleted-root" node whose children are the deleted
        subtrees. */
    function GetFullTreeData(): (r: seq<Node>)
      reads this
      ensures deletedNodes == [] ==> r == data
      ensures deletedNodes != [] ==> |r| == |data| + 1 && r[..|data|] == data
      ensures deletedNodes != [] ==> r[|data|].key == DELETED_ROOT && r[|data|].title == DELETED_TITLE
                                     && r[|data|].children == EntryNodes(deletedNodes)
    {
      if deletedNodes == [] then data
      else data + [Node(DELETED_ROOT, DELETED_TITLE, "", "", map[], EntryNodes(deletedNodes))]
    }

    /** `onDrop`: the dragged subtree is cut out and put back as the
        target's first child or next to the target. The target may be a
        node outside the live tree (the deleted area is shown in the same
        tree): a drop onto it then loses the dragged subtree, and a gap
        drop next to it throws, since no list holding the target is
        found; the throw comes before the new tree is stored. */
    method OnDrop(info: DropInfo) returns (thrown: bool)
      requires Count(data, info.dragKey) == 1 && Count(data, info.dropKey) <= 1
      requires info.dropKey !in AllKeys([FindNode(data, info.dragKey).value])
      modifies this
      ensures thrown <==> Count(old(data), info.dropKey) == 0 && !IntoTarget(info)
      ensures data == (if thrown then old(data) else Dropped(old(data), info)) && deletedNodes == old(deletedNodes)
      ensures Count(old(data), info.dropKey) == 1 ==>
                (forall y :: Held(y) == old(Held(y)))
                && FindNode(data, info.dragKey) == FindNode(old(data), info.dragKey)
      ensures Count(old(data), info.dropKey) == 1 && IntoTarget(info) ==>
                FindNode(data, info.dropKey).Some? && FindNode(data, info.dropKey).value.children != []
                && FindNode(data, info.dropKey).value.children[0] == FindNode(old(data), info.dragKey).value
      ensures Count(old(data), info.dropKey) == 1 && !IntoTarget(info) && info.relPos == -1 ==>
                Precedes(data, info.dragKey, info.dropKey)
      ensures Count(old(data), info.dropKey) == 1 && !IntoTarget(info) && info.relPos != -1 ==>
                Precedes(data, info.dropKey, info.dragKey)
      ensures Count(old(data), info.dropKey) == 0 && IntoTarget(info) ==>
                Count(data, info.dragKey) == 0
                && forall y :: Held(y) + Count([FindNode(old(data), info.dragKey).value], y) == old(Held(y))
    {
      var (newData, dragObj) := LoopRemove(data, info.dragKey);
      ghost var before := data;
      LoopRemoveFound(before, info.dragKey);
      LoopRemoveCount(before, info.dragKey, info.dropKey);
      if IntoTarget(info) {
        newData := LoopPrepend(newData, info.dropKey, dragObj.value);
      } else {
        if info.dropKey !in AllKeys(newData) {
          return true;
        }
        newData := InsertSibling(newData, info.dropKey, dragObj.value, info.relPos == -1);
      }
      thrown := false;
      data := newData;
      if Count(before, info.dropKey) == 1 {
        forall y ensures Count(data, y) == Count(before, y) {
          DropKeys(before, info, y);
        }
        DropPlaced(before, info);
      } else {
        forall y ensures Count(data, y) + Count([FindNode(before, info.dragKey).value], y) == Count(before, y) {
          DropLost(before, info, y);
        }
        DropLost(before, info, info.dragKey);
      }
    }

    /** `handleDelete`: every node with the key leaves the live tree; when
        one was removed, the last removed subtree is recorded with the
        given parent key at the end of the deleted area. */
    method HandleDelete(key: string, parentKey: Option<string>)
      modifies this
      ensures var (rest, removed) := RemoveNode(old(data), key);
              if removed.Some? then data == rest && deletedNodes == old(deletedNodes) + [Deleted(removed.value, parentKey)]
              else data == old(data) && deletedNodes == old(deletedNodes)
      ensures key !in AllKeys(data)
      ensures Count(old(data), key) == 1 ==>
                deletedNodes == old(deletedNodes) + [Deleted(FindNode(old(data), key).value, parentKey)]
      ensures old(Unique()) ==> Unique() && forall y :: Held(y) == old(Held(y))
    {
      var (newData, removedNode) := RemoveNode(data, key);
      RemoveNodeGone(data, key);
      if Count(data, key) == 1 {
        RemoveNodeCount(data, key, key);
      }
      if removedNode.Some? {
        ghost var before, beforeDeleted := data, deletedNodes;
        deletedNodes := deletedNodes + [Deleted(removedNode.value, parentKey)];
        data := newData;
        if old(Unique()) {
          assert old(Held(key)) <= 1;
          forall y ensures Held(y) == old(Held(y)) {
            RemoveNodeCount(before, key, y);
            EntryNodesAppend(beforeDeleted, Deleted(removedNode.value, parentKey));
            CountAppend(EntryNodes(beforeDeleted), [removedNode.value], y);
          }
        }
      }
    }

    /** `handleRestore`: the subtree with the key leaves the deleted area
        and goes back as the last child of its recorded parent, of the
        unified root when that parent is gone, or at the end of the top
        level; a key not in the deleted area changes nothing. */
    method HandleRestore(key: string)
      modifies this
      ensures var (rest, found) := FindAndRemove(old(deletedNodes), key);
              if found.Some? then
                data == InsertNode(old(data), ResolveParent(old(data), found.value.originParentKey), found.value.node)
                && deletedNodes == rest
              else data == old(data) && deletedNodes == old(deletedNodes)
      ensures var found := FindAndRemove(old(deletedNodes), key).1;
              found.Some? ==>
                var p := ResolveParent(old(data), found.value.originParentKey);
                if p.Some? && p.value != "" then
                  FindNode(old(data), p.value).value.(children := FindNode(old(data), p.value).value.children + [found.value.node]) in AllNodes(data)
                else data == old(data) + [found.value.node]
      ensures old(Unique()) ==> Unique() && forall y :: Held(y) == old(Held(y))
    {
      var (deletedCopy, found) := FindAndRemove(deletedNodes, key);
      if found.None? {
        return;
      }
      var node := found.value.node;
      var parentKey := ResolveParent(data, found.value.originParentKey);
      ghost var before, beforeDeleted := data, deletedNodes;
      RestorePlaced(data, found.value.originParentKey, node);
      data := InsertNode(data, parentKey, node);
      deletedNodes := deletedCopy;
      if old(Unique()) {
        assert old(Held(key)) <= 1;
        if parentKey.Some? && parentKey.value != "" {
          assert old(Held(parentKey.value)) <= 1;
        }
        forall y ensures Held(y) == old(Held(y)) {
          FindAndRemoveCount(beforeDeleted, key, y);
          if parentKey.Some? && parentKey.value != "" {
            InsertUnderCount(before, parentKey.value, node, y);
          } else {
            CountAppend(before, [node], y);
          }
        }
      }
    }

    /** `handleEdit`: the node with the key gets the new title. */
    method HandleEdit(key: string, value: string)
      modifies this
      ensures data == UpdateTitle(old(data), key, value) && deletedNodes == old(deletedNodes)
      ensures AllKeys(data) == AllKeys(old(data)) && Untitled(data) == Untitled(old(data))
      ensures key in AllKeys(old(data)) ==> FindNode(data, key) == Some(FindNode(old(data), key).value.(title := value))
      ensures forall y :: Held(y) == old(Held(y))
    {
      ghost var before := data;
      data := UpdateTitle(data, key, value);
      UpdateTitleKeys(before, key, value);
      UpdateTitleShape(before, key, value);
      if key in AllKeys(before) {
        UpdateTitleFound(before, key, value);
      }
      forall y ensures Count(data, y) == Count(before, y) {
        UpdateTitleCount(before, key, value, y);
      }
    }
  }
}
