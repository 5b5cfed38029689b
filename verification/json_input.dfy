/** The first-import tree builder of the upload component
    (src/components/JsonInput.js, `convertToTree`): flat rows keyed by
    permission id and parent id become a forest, in two passes over the
    rows, and several roots are gathered under a synthesised root with key 2. */
module JsonInput {
  import opened Rows
  import opened Trees

  const WRAPPER_KEY := "2"
  const WRAPPER_TITLE := "菜单权限"

  /** The ids of the rows. */
  function IdSet(rows: seq<Row>): set<string>
  {
    set r | r in rows :: Id(r)
  }

  /** A row hangs under its parent when its parent id is non-empty and is
      the id of some row; every other row is a root. */
  predicate Attached(ids: set<string>, r: Row)
  {
    Field(r, PARENT) != "" && Field(r, PARENT) in ids
  }

  /** The node object pass 1 makes of a row: the row's fields, key = id,
      title = name, no children yet. */
  function Template(r: Row): Node
  {
    Node(Id(r), Field(r, NAME), "", "", r, [])
  }

  /** The id map after pass 1: a later row with the same id replaces an
      earlier one. */
  function NodeMap(rows: seq<Row>): (m: map<string, Node>)
    ensures m.Keys == IdSet(rows)
    ensures forall k | k in m :: m[k].key == k
  {
    if rows == [] then map[]
    else
      var init := rows[..|rows| - 1];
      var last := rows[|rows| - 1];
      assert rows == init + [last];
      NodeMap(init)[Id(last) := Template(last)]
  }

  function IsRoot(ids: set<string>): Row -> bool
  {
    r => !Attached(ids, r)
  }

  function IsChildOf(ids: set<string>, p: string): Row -> bool
  {
    r => Attached(ids, r) && Field(r, PARENT) == p
  }

  /** The ids pass 2 pushes onto `roots`, in row order. */
  function RootIds(rows: seq<Row>, ids: set<string>): seq<string>
  {
    Select(rows, IsRoot(ids))
  }

  /** The ids pass 2 pushes onto the children of the object with key p. */
  function ChildIds(rows: seq<Row>, ids: set<string>, p: string): seq<string>
  {
    Select(rows, IsChildOf(ids, p))
  }

  /** Every object's child list once pass 2 has seen `rows`. */
  function ChildLists(rows: seq<Row>, ids: set<string>): map<string, seq<string>>
  {
    map p | p in ids :: ChildIds(rows, ids, p)
  }

  /** Every object's child list after pass 2. */
  function ChildMap(rows: seq<Row>): map<string, seq<string>>
  {
    ChildLists(rows, IdSet(rows))
  }

  /** `data.find(row => row.权限id === 2 || row.权限id === "2")`. */
  predicate HasWrapperId(rows: seq<Row>)
  {
    exists r | r in rows :: Id(r) == WRAPPER_KEY
  }

  /** The synthesised root that gathers several roots. */
  function Wrapper(roots: seq<Node>): Node
  {
    Node(WRAPPER_KEY, WRAPPER_TITLE, "", "",
         map[ID := WRAPPER_KEY, NAME := WRAPPER_TITLE, PARENT := "0", PARENT_NAME := ""], roots)
  }

  /** The forest `convertToTree` returns. */
  function Converted(rows: seq<Row>): seq<Node>
  {
    var roots := RootIds(rows, IdSet(rows));
    var top := UnfoldSeq(Graph(NodeMap(rows), ChildMap(rows)), roots, {});
    if |roots| > 1 && !HasWrapperId(rows) then [Wrapper(top)] else top
  }

  /** `convertToTree`: pass 1 fills the id map, pass 2 appends each row to
      its parent's children or to the roots. */
  method ConvertToTree(rows: seq<Row>) returns (forest: seq<Node>)
    ensures forest == Converted(rows)
  {
    var nodes: map<string, Node> := map[];
    var children: map<string, seq<string>> := map[];
    var i := 0;
    while i < |rows|
      invariant 0 <= i <= |rows|
      invariant nodes == NodeMap(rows[..i])
      invariant children == ChildLists([], IdSet(rows[..i]))
    {
      Pass1Step(rows, i);
      nodes := nodes[Id(rows[i]) := Template(rows[i])];
      children := children[Id(rows[i]) := []];
      assert nodes == NodeMap(rows[..i + 1]) && children == ChildLists([], IdSet(rows[..i + 1]));
      i := i + 1;
    }
    assert rows[..i] == rows;
    ghost var ids := IdSet(rows);
    var roots: seq<string> := [];
    i := 0;
    while i < |rows|
      invariant 0 <= i <= |rows|
      invariant nodes == NodeMap(rows) && children == ChildLists(rows[..i], ids)
      invariant roots == RootIds(rows[..i], ids)
    {
      var parentId := Field(rows[i], PARENT);
      Pass2Step(rows, i, ids);
      if parentId != "" && parentId in nodes {
        children := children[parentId := children[parentId] + [Id(rows[i])]];
      } else {
        roots := roots + [Id(rows[i])];
      }
      assert children == ChildLists(rows[..i + 1], ids) && roots == RootIds(rows[..i + 1], ids);
      i := i + 1;
    }
    assert rows[..i] == rows;
    var top := UnfoldSeq(Graph(nodes, children), roots, {});
    if |roots| > 1 {
      var exist2 := HasWrapperId(rows);
      if !exist2 {
        return [Wrapper(top)];
      }
    }
    forest := top;
  }

  /** One step of pass 1: a row enters the id map, with an empty child list. */
  lemma Pass1Step(all: seq<Row>, i: int)
    requires 0 <= i < |all|
    ensures NodeMap(all[..i + 1]) == NodeMap(all[..i])[Id(all[i]) := Template(all[i])]
    ensures ChildLists([], IdSet(all[..i + 1])) == ChildLists([], IdSet(all[..i]))[Id(all[i]) := []]
  {
    assert all[..i + 1][..i] == all[..i];
    assert all[..i + 1] == all[..i] + [all[i]];
    assert IdSet(all[..i + 1]) == IdSet(all[..i]) + {Id(all[i])};
  }

  /** One step of pass 2: a row either joins its parent's child list or the
      roots. */
  lemma Pass2Step(all: seq<Row>, i: int, ids: set<string>)
    requires 0 <= i < |all|
    ensures var rows, r := all[..i], all[i];
            RootIds(all[..i + 1], ids) == RootIds(rows, ids) + (if Attached(ids, r) then [] else [Id(r)])
    ensures var rows, r := all[..i], all[i];
            ChildLists(all[..i + 1], ids)
            == (if Attached(ids, r) then ChildLists(rows, ids)[Field(r, PARENT) := ChildIds(rows, ids, Field(r, PARENT)) + [Id(r)]]
                else ChildLists(rows, ids))
  {
    var rows, r := all[..i], all[i];
    assert all[..i + 1] == rows + [r];
    SelectSnoc(rows, IsRoot(ids), r);
    var m := ChildLists(rows, ids);
    var m' := ChildLists(rows + [r], ids);
    forall p | p in ids
      ensures m'[p] == m[p] + (if Attached(ids, r) && Field(r, PARENT) == p then [Id(r)] else [])
    {
      SelectSnoc(rows, IsChildOf(ids, p), r);
    }
    if Attached(ids, r) {
      var p0 := Field(r, PARENT);
      var want := m[p0 := m[p0] + [Id(r)]];
      assert m'.Keys == want.Keys;
      assert forall p | p in ids :: m'[p] == want[p];
    } else {
      assert m'.Keys == m.Keys;
      assert forall p | p in ids :: m'[p] == m[p];
    }
  }

  /** Each row becomes, in the id map, the node whose key is its id and
      whose title is its name (ids unique). */
  lemma {:induction false} NodePerRow(rows: seq<Row>, i: int)
    requires UniqueIds(rows) && 0 <= i < |rows|
    ensures Id(rows[i]) in NodeMap(rows)
    ensures NodeMap(rows)[Id(rows[i])] == Template(rows[i])
    ensures NodeMap(rows)[Id(rows[i])].title == Field(rows[i], NAME)
  {
    var n := |rows| - 1;
    var init := rows[..n];
    assert NodeMap(rows) == NodeMap(init)[Id(rows[n]) := Template(rows[n])];
    if i < n {
      assert init[i] == rows[i] && Id(rows[i]) != Id(rows[n]);
      UniqueIdsPrefix(rows, n);
      NodePerRow(init, i);
    }
  }

  /** Every row is placed exactly once: a row that does not hang under a
      row is a root and in no child list; a row that hangs under its
      parent is in that parent's child list once, and nowhere else. */
  lemma PlacedOnce(rows: seq<Row>, i: int, p: string)
    requires UniqueIds(rows) && 0 <= i < |rows|
    ensures var ids := IdSet(rows);
            var id := Id(rows[i]);
            if Attached(ids, rows[i]) then
              id !in RootIds(rows, ids)
              && multiset(ChildIds(rows, ids, Field(rows[i], PARENT)))[id] == 1
              && (p != Field(rows[i], PARENT) ==> id !in ChildIds(rows, ids, p))
            else
              multiset(RootIds(rows, ids))[id] == 1 && id !in ChildIds(rows, ids, p)
  {
    var ids := IdSet(rows);
    SelectOnce(rows, IsRoot(ids), i);
    SelectOnce(rows, IsChildOf(ids, p), i);
    SelectOnce(rows, IsChildOf(ids, Field(rows[i], PARENT)), i);
  }

  /** Roots keep input-row order. */
  lemma RootOrder(rows: seq<Row>, i: int, j: int)
    requires 0 <= i < j < |rows|
    requires !Attached(IdSet(rows), rows[i]) && !Attached(IdSet(rows), rows[j])
    ensures exists a, b :: 0 <= a < b < |RootIds(rows, IdSet(rows))|
              && RootIds(rows, IdSet(rows))[a] == Id(rows[i]) && RootIds(rows, IdSet(rows))[b] == Id(rows[j])
  {
    SelectOrder(rows, IsRoot(IdSet(rows)), i, j);
    var rs := RootIds(rows, IdSet(rows));
    var a, b :| 0 <= a < b < |rs| && rs[a] == Id(rows[i]) && rs[b] == Id(rows[j]);
  }

  /** The children of a node keep input-row order. */
  lemma ChildOrder(rows: seq<Row>, i: int, j: int)
    requires 0 <= i < j < |rows|
    requires Attached(IdSet(rows), rows[i]) && Attached(IdSet(rows), rows[j])
    requires Field(rows[i], PARENT) == Field(rows[j], PARENT)
    ensures var cs := ChildIds(rows, IdSet(rows), Field(rows[i], PARENT));
            exists a, b :: 0 <= a < b < |cs| && cs[a] == Id(rows[i]) && cs[b] == Id(rows[j])
  {
    SelectOrder(rows, IsChildOf(IdSet(rows), Field(rows[i], PARENT)), i, j);
    var cs := ChildIds(rows, IdSet(rows), Field(rows[i], PARENT));
    var a, b :| 0 <= a < b < |cs| && cs[a] == Id(rows[i]) && cs[b] == Id(rows[j]);
  }

  /** The top of the result: with more than one root and no row with id 2
      a single root with key 2, title 菜单权限 and the roots, in order, as
      children; otherwise the roots themselves (none for no rows). */
  lemma ConvertedTop(rows: seq<Row>)
    ensures var roots := RootIds(rows, IdSet(rows));
            if |roots| > 1 && !HasWrapperId(rows) then
              |Converted(rows)| == 1 && Converted(rows)[0].key == WRAPPER_KEY
              && Converted(rows)[0].title == WRAPPER_TITLE
              && Keys(Converted(rows)[0].children) == roots
            else
              Keys(Converted(rows)) == roots
    ensures rows == [] ==> Converted(rows) == []
  {
    var ids := IdSet(rows);
    var roots := RootIds(rows, ids);
    forall k | k in roots ensures k in NodeMap(rows) {
      SelectMember(rows, IsRoot(ids), k);
    }
    UnfoldTop(Graph(NodeMap(rows), ChildMap(rows)), roots, {});
  }

  /** No node is invented: every key of the result is a row id or the
      synthesised root's, and every node other than that root is the node
      pass 1 made of its row, with its children attached (ids unique). */
  lemma ConvertedNodes(rows: seq<Row>, x: Node)
    requires UniqueIds(rows) && x in AllNodes(Converted(rows))
    ensures x.key == WRAPPER_KEY || x.key in IdSet(rows)
    ensures x.key != WRAPPER_KEY || HasWrapperId(rows) ==>
              exists i :: 0 <= i < |rows| && x.(children := []) == Template(rows[i])
  {
    var ids := IdSet(rows);
    var roots := RootIds(rows, ids);
    var g := Graph(NodeMap(rows), ChildMap(rows));
    var top := UnfoldSeq(g, roots, {});
    if x in AllNodes(top) {
      UnfoldSeqNodes(g, roots, {}, x);
      var k := x.key;
      assert k in ids;
      var i :| 0 <= i < |rows| && rows[i] in rows && Id(rows[i]) == k;
      NodePerRow(rows, i);
    } else {
      assert |roots| > 1 && !HasWrapperId(rows);
      AllNodesSingle(Wrapper(top));
      assert x == Wrapper(top);
    }
  }

  /** The parent link of each row that hangs under a row, by id. */
  function ParentMap(rows: seq<Row>): map<string, string>
  {
    var m := NodeMap(rows);
    map x | x in m && Attached(IdSet(rows), m[x].fields) :: Field(m[x].fields, PARENT)
  }

  /** `rank` falls from every row that hangs under a row to that parent:
      the parent ids form no cycle. */
  ghost predicate Acyclic(rows: seq<Row>, rank: string -> nat)
  {
    forall j | 0 <= j < |rows| && Attached(IdSet(rows), rows[j]) :: rank(Field(rows[j], PARENT)) < rank(Id(rows[j]))
  }

  /** With unique ids, a row's id is in the parent map exactly when the
      row hangs under a row, and maps to its parent id. */
  lemma ParentMapAt(rows: seq<Row>, i: int)
    requires UniqueIds(rows) && 0 <= i < |rows|
    ensures var par := ParentMap(rows);
            (Id(rows[i]) in par <==> Attached(IdSet(rows), rows[i]))
            && (Id(rows[i]) in par ==> par[Id(rows[i])] == Field(rows[i], PARENT))
  {
    NodePerRow(rows, i);
  }

  lemma ParentLinks(rows: seq<Row>, rank: string -> nat)
    requires UniqueIds(rows) && Acyclic(rows, rank)
    ensures var par := ParentMap(rows);
            forall x | x in par :: x in NodeMap(rows) && par[x] in NodeMap(rows) && rank(par[x]) < rank(x)
  {
    var par := ParentMap(rows);
    forall x | x in par ensures x in NodeMap(rows) && par[x] in NodeMap(rows) && rank(par[x]) < rank(x) {
      var i :| 0 <= i < |rows| && rows[i] in rows && Id(rows[i]) == x;
      ParentMapAt(rows, i);
    }
  }

  lemma ChildLinks(rows: seq<Row>)
    requires UniqueIds(rows)
    ensures var g := Graph(NodeMap(rows), ChildMap(rows));
            var par := ParentMap(rows);
            forall p, x :: multiset(ChildKeys(g, p))[x] == if x in par && par[x] == p then 1 else 0
  {
    forall p, x {
      ChildLink(rows, p, x);
    }
  }

  /** With unique ids, the child list of p holds x once when x is the id of
      a row that hangs under p, and not at all otherwise. */
  lemma ChildLink(rows: seq<Row>, p: string, x: string)
    requires UniqueIds(rows)
    ensures multiset(ChildKeys(Graph(NodeMap(rows), ChildMap(rows)), p))[x]
            == if x in ParentMap(rows) && ParentMap(rows)[x] == p then 1 else 0
  {
    var ids := IdSet(rows);
    var cs := ChildKeys(Graph(NodeMap(rows), ChildMap(rows)), p);
    assert cs == if p in ids then ChildIds(rows, ids, p) else [];
    if x in ids {
      var i :| 0 <= i < |rows| && rows[i] in rows && Id(rows[i]) == x;
      ParentMapAt(rows, i);
      SelectOnce(rows, IsChildOf(ids, p), i);
    } else {
      assert x !in ParentMap(rows);
      if p in ids {
        SelectMember(rows, IsChildOf(ids, p), x);
      }
    }
  }

  lemma RootLinks(rows: seq<Row>)
    requires UniqueIds(rows)
    ensures var roots := RootIds(rows, IdSet(rows));
            forall x | x in roots :: x in NodeMap(rows) && x !in ParentMap(rows) && multiset(roots)[x] == 1
  {
    var ids := IdSet(rows);
    var roots := RootIds(rows, ids);
    forall x | x in roots ensures x in NodeMap(rows) && x !in ParentMap(rows) && multiset(roots)[x] == 1 {
      SelectMember(rows, IsRoot(ids), x);
      var i :| 0 <= i < |rows| && IsRoot(ids)(rows[i]) && Id(rows[i]) == x;
      ParentMapAt(rows, i);
      SelectOnce(rows, IsRoot(ids), i);
    }
  }

  /** With unique ids and no parent cycle, the id map and child lists are
      a forest of parent links whose roots are the rows under no row. */
  lemma ConvertedParented(rows: seq<Row>, rank: string -> nat)
    requires UniqueIds(rows) && Acyclic(rows, rank)
    ensures Parented(Graph(NodeMap(rows), ChildMap(rows)), ParentMap(rows), rank, RootIds(rows, IdSet(rows)))
  {
    ParentLinks(rows, rank);
    ChildLinks(rows);
    RootLinks(rows);
  }

  /** Following the parent ids up from any row ends at a root. */
  lemma ChainEndsAtRoot(rows: seq<Row>, rank: string -> nat, i: int)
    requires UniqueIds(rows) && Acyclic(rows, rank) && 0 <= i < |rows|
    ensures Top(ParentMap(rows), rank, Id(rows[i])) in RootIds(rows, IdSet(rows))
  {
    var ids := IdSet(rows);
    var roots := RootIds(rows, ids);
    var g := Graph(NodeMap(rows), ChildMap(rows));
    var par := ParentMap(rows);
    var x := Id(rows[i]);
    ConvertedParented(rows, rank);
    assert rows[i] in rows;
    TopNode(g, par, rank, roots, x);
    TopAbove(par, rank, x);
    var t := Top(par, rank, x);
    var j :| 0 <= j < |rows| && rows[j] in rows && Id(rows[j]) == t;
    ParentMapAt(rows, j);
    SelectMember(rows, IsRoot(ids), t);
  }

  /** Every row appears exactly once in the result, when ids are unique and
      the parent ids form no cycle: a row that hangs under no row is a root,
      and any other row is reached from a root through its parents. */
  lemma RowPlaced(rows: seq<Row>, rank: string -> nat, i: int)
    requires UniqueIds(rows) && Acyclic(rows, rank) && 0 <= i < |rows|
    ensures Count(Converted(rows), Id(rows[i])) == 1
  {
    RowUnfolded(rows, rank, i);
    assert rows[i] in rows;
    WrapperCount(rows, Id(rows[i]));
  }

  /** The unfolding of the roots holds every row's id once. */
  lemma RowUnfolded(rows: seq<Row>, rank: string -> nat, i: int)
    requires UniqueIds(rows) && Acyclic(rows, rank) && 0 <= i < |rows|
    ensures Count(UnfoldSeq(Graph(NodeMap(rows), ChildMap(rows)), RootIds(rows, IdSet(rows)), {}), Id(rows[i])) == 1
  {
    ConvertedParented(rows, rank);
    UnfoldRooted(Graph(NodeMap(rows), ChildMap(rows)), ParentMap(rows), rank, RootIds(rows, IdSet(rows)), Id(rows[i]));
    ChainEndsAtRoot(rows, rank, i);
  }

  /** The synthesised root adds no occurrence of a key other than 2, and
      none at all when a row has id 2. */
  lemma WrapperCount(rows: seq<Row>, x: string)
    requires x != WRAPPER_KEY || HasWrapperId(rows)
    ensures Count(Converted(rows), x) == Count(UnfoldSeq(Graph(NodeMap(rows), ChildMap(rows)), RootIds(rows, IdSet(rows)), {}), x)
  {
    var top := UnfoldSeq(Graph(NodeMap(rows), ChildMap(rows)), RootIds(rows, IdSet(rows)), {});
    CountSingle(Wrapper(top), x);
  }
}
