/** The tree logic test (src/__tests__/TreeLogic.test.js): its own copy of
    the re-import builder, the two sample sheets it feeds that copy, the
    shapes it checks, and the edit handler that keeps an existing
    operation mark. */
module TreeLogicTest {
  import opened Rows
  import opened Trees
  import ManualTest

  /* ---------------------------------------------------------------------
     The test's builder
     --------------------------------------------------------------------- */

  /** The test builder's pass-1 callback for one row: in export mode the
      non-empty new columns override name, parent and code and a row
      marked deleted or replaced is set aside; any other row enters the id
      map with no children, and becomes a root when its parent is empty. */
  method VisitItem(item: Row, hasExportColumns: bool,
                   map_: map<string, Node>, children: map<string, seq<string>>,
                   result: seq<string>, deletedNodes: seq<Node>, replacedNodes: seq<Node>)
    returns (map': map<string, Node>, children': map<string, seq<string>>,
             result': seq<string>, deletedNodes': seq<Node>, replacedNodes': seq<Node>)
    ensures map' == if ManualTest.IsNormalRow(item, hasExportColumns)
                    then map_[Id(item) := ManualTest.NormalNode(item, hasExportColumns)] else map_
    ensures children' == if ManualTest.IsNormalRow(item, hasExportColumns) then children[Id(item) := []] else children
    ensures result' == result + if ManualTest.IsTopRow(hasExportColumns)(item) then [Id(item)] else []
    ensures deletedNodes' == deletedNodes + if ManualTest.IsDeletedRow(item, hasExportColumns)
                                           then [ManualTest.DeletedNode(item, hasExportColumns)] else []
    ensures replacedNodes' == replacedNodes + if ManualTest.IsReplacedRow(item, hasExportColumns)
                                             then [ManualTest.ReplacedNode(item, hasExportColumns)] else []
  {
    map', children', result', deletedNodes', replacedNodes' := map_, children, result, deletedNodes, replacedNodes;
    var nodeTitle := Field(item, NAME);
    var parentId := Field(item, PARENT);
    var code := Field(item, CODE);
    if hasExportColumns {
      if Field(item, NEW_NAME) != "" {
        nodeTitle := Field(item, NEW_NAME);
      }
      if Field(item, NEW_PARENT) != "" {
        parentId := Field(item, NEW_PARENT);
      }
      if Field(item, NEW_CODE) != "" {
        code := Field(item, NEW_CODE);
      }
      if Field(item, OP) == OP_DELETE {
        deletedNodes' := deletedNodes + [Node(Id(item), nodeTitle, "", OP_DELETE, item, [])];
        return;
      }
      if Field(item, OP) == OP_REPLACE {
        replacedNodes' := replacedNodes + [Node(Id(item), nodeTitle, code, OP_REPLACE, item, [])];
        return;
      }
    }
    var node := Node(Id(item), nodeTitle, code, "", item, []);
    if hasExportColumns && Field(item, OP) != "" {
      node := node.(op := Field(item, OP));
    }
    map' := map_[Id(item) := node];
    children' := children[Id(item) := []];
    if parentId == "" {
      result' := result + [Id(item)];
    }
  }

  /** Pass 1 of the test's builder: the row callback over every row. */
  method FirstPass(data: seq<Row>, hasExportColumns: bool)
    returns (map_: map<string, Node>, children: map<string, seq<string>>,
             roots: seq<string>, deletedNodes: seq<Node>, replacedNodes: seq<Node>)
    ensures ManualTest.Pass1State(data, hasExportColumns, map_, children, roots, deletedNodes, replacedNodes)
  {
    map_, children, roots, deletedNodes, replacedNodes := map[], map[], [], [], [];
    var i := 0;
    while i < |data|
      invariant 0 <= i <= |data|
      invariant ManualTest.Pass1State(data[..i], hasExportColumns, map_, children, roots, deletedNodes, replacedNodes)
    {
      ghost var map0, children0, roots0, deleted0, replaced0 := map_, children, roots, deletedNodes, replacedNodes;
      map_, children, roots, deletedNodes, replacedNodes :=
        VisitItem(data[i], hasExportColumns, map_, children, roots, deletedNodes, replacedNodes);
      ManualTest.Pass1Next(data, i, hasExportColumns, map0, children0, roots0, deleted0, replaced0,
                           map_, children, roots, deletedNodes, replacedNodes);
      i := i + 1;
    }
    assert data[..i] == data;
  }

  /** Pass 2 of the test's builder: every row whose effective parent and
      itself are in the id map is appended to the parent's children. */
  method SecondPass(data: seq<Row>, hasExportColumns: bool, map_: map<string, Node>, children0: map<string, seq<string>>)
    returns (children: map<string, seq<string>>)
    requires map_ == ManualTest.NormalMap(data, hasExportColumns)
    requires children0 == ManualTest.NoChildren(ManualTest.NormalIds(data, hasExportColumns))
    ensures children == ManualTest.ChildLists(data, ManualTest.NormalIds(data, hasExportColumns), hasExportColumns)
  {
    ghost var ids := ManualTest.NormalIds(data, hasExportColumns);
    children := children0;
    ManualTest.ChildListsNone(data[..0], ids, hasExportColumns);
    var i := 0;
    assert children == ManualTest.ChildLists(data[..i], ids, hasExportColumns);
    while i < |data|
      invariant 0 <= i <= |data|
      invariant children == ManualTest.ChildLists(data[..i], ids, hasExportColumns)
    {
      var item := data[i];
      ManualTest.Pass2Step(data, i, ids, hasExportColumns);
      var parentId := if hasExportColumns && Field(item, NEW_PARENT) != "" then Field(item, NEW_PARENT) else Field(item, PARENT);
      assert parentId == ManualTest.EffParent(item, hasExportColumns);
      if parentId != "" && parentId in map_ && Id(item) in map_ {
        children := children[parentId := children[parentId] + [Id(item)]];
      }
      assert children == ManualTest.ChildLists(data[..i + 1], ids, hasExportColumns);
      i := i + 1;
      assert children == ManualTest.ChildLists(data[..i], ids, hasExportColumns);
    }
    assert data[..i] == data;
  }

  /** The test's `buildTree`: it decides export mode itself, then pass 1
      makes a node of every ordinary row and sets deleted and replaced rows
      aside, pass 2 attaches children, and the groups are appended. It
      builds the same forest as the manual test tool's builder. */
  method BuildTree(data: seq<Row>, isExported: bool) returns (result: seq<Node>)
    ensures result == ManualTest.Built(data, isExported)
  {
    var hasExportColumns := isExported || (|data| > 0 && NEW_NAME in data[0] && NEW_PARENT in data[0]
                                           && NEW_CODE in data[0] && OP in data[0]);
    assert hasExportColumns == ManualTest.ExportMode(data, isExported);
    var map_, children, roots, deletedNodes, replacedNodes := FirstPass(data, hasExportColumns);
    children := SecondPass(data, hasExportColumns, map_, children);
    assert Graph(map_, children) == ManualTest.BuiltGraph(data, hasExportColumns);
    result := UnfoldSeq(Graph(map_, children), roots, {});
    ghost var groups := [];
    if |deletedNodes| > 0 {
      result := result + [ManualTest.Group(ManualTest.DELETED_ROOT, ManualTest.DELETED_TITLE, deletedNodes)];
      groups := [ManualTest.Group(ManualTest.DELETED_ROOT, ManualTest.DELETED_TITLE, deletedNodes)];
    }
    if |replacedNodes| > 0 {
      result := result + [ManualTest.Group(ManualTest.REPLACED_ROOT, ManualTest.REPLACED_TITLE, replacedNodes)];
      groups := groups + [ManualTest.Group(ManualTest.REPLACED_ROOT, ManualTest.REPLACED_TITLE, replacedNodes)];
    }
    assert groups == ManualTest.Groups(data, hasExportColumns);
    assert result == UnfoldSeq(ManualTest.BuiltGraph(data, hasExportColumns), ManualTest.TopIds(data, hasExportColumns), {})
                     + ManualTest.Groups(data, hasExportColumns);
    BuiltUnfolded(data, isExported, hasExportColumns);
  }

  /** The builder's forest in terms of the export mode it settled on. */
  lemma BuiltUnfolded(data: seq<Row>, isExported: bool, ex: bool)
    requires ex == ManualTest.ExportMode(data, isExported)
    ensures ManualTest.Built(data, isExported)
            == UnfoldSeq(ManualTest.BuiltGraph(data, ex), ManualTest.TopIds(data, ex), {}) + ManualTest.Groups(data, ex)
  {
  }

  /* ---------------------------------------------------------------------
     The sample sheets
     --------------------------------------------------------------------- */

  /** A sheet row with the nine original columns. */
  function Original(code: string, name: string, id: string, parentName: string, parent: string, path: string,
                    hasChildren: string): Row
  {
    map[CODE := code, NAME := name, KIND := "菜单", ID := id, PARENT_NAME := parentName, PARENT := parent,
        PATH := path, HAS_CHILDREN := hasChildren, SITE := "后台"]
  }

  /** A sheet row as an export writes it: the four new columns in front of
      the nine original ones. */
  function Exported(newName: string, newParent: string, newCode: string, op: string, original: Row): Row
  {
    original[NEW_NAME := newName][NEW_PARENT := newParent][NEW_CODE := newCode][OP := op]
  }

  const SYSTEM := Original("sys:001", "系统管理", "1", "", "", "/system", "是")
  const USERS := Original("sys:002", "用户管理", "2", "系统管理", "1", "/system/users", "否")
  const ROLES := Original("sys:003", "角色管理", "3", "系统管理", "1", "/system/roles", "否")
  const PERMISSIONS := Original("sys:004", "权限管理", "4", "系统管理", "1", "/system/permissions", "否")

  /** The original sheet: a root and two children. */
  const ORIGINAL_SHEET := [SYSTEM, USERS, ROLES]

  /** The exported sheet: the root renamed, one row moved under a row that
      is itself deleted, one row replaced, one row deleted. */
  const EXPORTED_SHEET := [
    Exported("系统设置", "", "", OP_EDIT, SYSTEM),
    Exported("", "4", "", OP_MOVE, USERS),
    Exported("", "", "perm:001", OP_REPLACE, ROLES),
    Exported("", "", "", OP_DELETE, PERMISSIONS)
  ]

  lemma OriginalFields(code: string, name: string, id: string, parentName: string, parent: string, path: string,
                       hasChildren: string)
    ensures var r := Original(code, name, id, parentName, parent, path, hasChildren);
            Id(r) == id && Field(r, NAME) == name && Field(r, PARENT) == parent && Field(r, CODE) == code
            && NEW_NAME !in r && Field(r, NEW_NAME) == "" && Field(r, NEW_PARENT) == "" && Field(r, OP) == ""
  {
  }

  lemma ExportedFields(newName: string, newParent: string, newCode: string, op: string, original: Row)
    ensures var r := Exported(newName, newParent, newCode, op, original);
            Id(r) == Id(original) && Field(r, NAME) == Field(original, NAME)
            && Field(r, PARENT) == Field(original, PARENT)
            && Field(r, NEW_NAME) == newName && Field(r, NEW_PARENT) == newParent && Field(r, OP) == op
  {
  }

  lemma Select3(a: Row, b: Row, c: Row, keep: Row -> bool)
    ensures Select([a, b, c], keep)
            == (if keep(a) then [Id(a)] else []) + (if keep(b) then [Id(b)] else []) + (if keep(c) then [Id(c)] else [])
  {
    var sa := if keep(a) then [Id(a)] else [];
    var sb := if keep(b) then [Id(b)] else [];
    var sc := if keep(c) then [Id(c)] else [];
    assert [a, b, c][..2] == [a, b] && [a, b][..1] == [a] && [a][..0] == [];
    assert Select([a], keep) == sa;
    assert Select([a, b], keep) == sa + sb;
    assert Select([a, b, c], keep) == (sa + sb) + sc;
  }

  lemma Select4(a: Row, b: Row, c: Row, d: Row, keep: Row -> bool)
    ensures Select([a, b, c, d], keep)
            == (if keep(a) then [Id(a)] else []) + (if keep(b) then [Id(b)] else [])
               + (if keep(c) then [Id(c)] else []) + (if keep(d) then [Id(d)] else [])
  {
    assert [a, b, c, d] == [a, b, c] + [d];
    Select3(a, b, c, keep);
    SelectSnoc([a, b, c], keep, d);
  }

  /** Of three plain rows, only the one with no parent is a root. */
  lemma PlainTop(a: Row, b: Row, c: Row)
    requires Id(a) != "" && Field(a, PARENT) == "" && Field(b, PARENT) == Id(a) && Field(c, PARENT) == Id(a)
    ensures ManualTest.TopIds([a, b, c], false) == [Id(a)]
  {
    Select3(a, b, c, ManualTest.IsTopRow(false));
  }

  /** Outside export mode every row enters the id map. */
  lemma PlainIds(a: Row, b: Row, c: Row)
    ensures var ids := ManualTest.NormalIds([a, b, c], false);
            Id(a) in ids && Id(b) in ids && Id(c) in ids
  {
    var rows := [a, b, c];
    assert rows[0] == a && rows[1] == b && rows[2] == c;
    ManualTest.NormalIdsMember(rows, false, Id(a));
    ManualTest.NormalIdsMember(rows, false, Id(b));
    ManualTest.NormalIdsMember(rows, false, Id(c));
  }

  /** Two rows naming the root as parent become its children, in order. */
  lemma PlainChildren(a: Row, b: Row, c: Row)
    requires Id(a) != "" && Field(a, PARENT) == "" && Field(b, PARENT) == Id(a) && Field(c, PARENT) == Id(a)
    ensures ManualTest.ChildIds([a, b, c], ManualTest.NormalIds([a, b, c], false), false, Id(a)) == [Id(b), Id(c)]
  {
    PlainIds(a, b, c);
    Select3(a, b, c, ManualTest.IsChildRow(ManualTest.NormalIds([a, b, c], false), false, Id(a)));
  }

  /** The plain rows build exactly the root's tree. */
  lemma PlainBuilt(a: Row, b: Row, c: Row)
    requires !ManualTest.HasExportColumns(a)
    requires Id(a) != "" && Field(a, PARENT) == "" && Field(b, PARENT) == Id(a) && Field(c, PARENT) == Id(a)
    ensures var g := ManualTest.BuiltGraph([a, b, c], false);
            Id(a) in g.nodes && ManualTest.Built([a, b, c], false) == [UnfoldNode(g, Id(a), {})]
  {
    var rows := [a, b, c];
    var g := ManualTest.BuiltGraph(rows, false);
    PlainTop(a, b, c);
    PlainIds(a, b, c);
    ManualTest.PlainImport(rows, false);
    assert UnfoldSeq(g, [Id(a)], {}) == [UnfoldNode(g, Id(a), {})];
  }

  /** The root's tree has the two rows naming it as its children. */
  lemma PlainRootChildren(a: Row, b: Row, c: Row)
    requires Id(a) != "" && Field(a, PARENT) == "" && Field(b, PARENT) == Id(a) && Field(c, PARENT) == Id(a)
    requires Id(a) != Id(b) && Id(a) != Id(c)
    ensures var g := ManualTest.BuiltGraph([a, b, c], false);
            Id(a) in g.nodes && |UnfoldNode(g, Id(a), {}).children| == 2
  {
    var g := ManualTest.BuiltGraph([a, b, c], false);
    var visited: set<string> := {};
    PlainIds(a, b, c);
    PlainChildren(a, b, c);
    var root := UnfoldNode(g, Id(a), visited);
    assert ChildKeys(g, Id(a)) == [Id(b), Id(c)];
    assert root.children == UnfoldSeq(g, [Id(b), Id(c)], visited + {Id(a)});
    UnfoldTop(g, [Id(b), Id(c)], visited + {Id(a)});
    assert |root.children| == |Keys(root.children)|;
  }

  /** Three plain rows, a root and two rows naming it as parent, build
      one tree whose root has two children. */
  lemma RootAndTwoChildren(a: Row, b: Row, c: Row)
    requires !ManualTest.HasExportColumns(a)
    requires Id(a) != "" && Field(a, PARENT) == "" && Field(b, PARENT) == Id(a) && Field(c, PARENT) == Id(a)
    requires Id(a) != Id(b) && Id(a) != Id(c)
    ensures var t := ManualTest.Built([a, b, c], false);
            |t| == 1 && t[0].key == Id(a) && |t[0].children| == 2
  {
    PlainBuilt(a, b, c);
    PlainRootChildren(a, b, c);
  }

  /** The original sheet builds one root with two children. */
  lemma OriginalSheetTree()
    ensures var t := ManualTest.Built(ORIGINAL_SHEET, false);
            |t| == 1 && |t[0].children| == 2
  {
    OriginalFields("sys:001", "系统管理", "1", "", "", "/system", "是");
    OriginalFields("sys:002", "用户管理", "2", "系统管理", "1", "/system/users", "否");
    OriginalFields("sys:003", "角色管理", "3", "系统管理", "1", "/system/roles", "否");
    RootAndTwoChildren(SYSTEM, USERS, ROLES);
  }

  /** Of the four exported rows only the renamed one is a root: the moved
      row has a new parent, the other two are set aside. */
  lemma ExportTop(e1: Row, e2: Row, e3: Row, e4: Row)
    requires Field(e1, OP) != OP_DELETE && Field(e1, OP) != OP_REPLACE
    requires Field(e1, NEW_PARENT) == "" && Field(e1, PARENT) == ""
    requires Field(e2, NEW_PARENT) != ""
    requires Field(e3, OP) == OP_REPLACE && Field(e4, OP) == OP_DELETE
    ensures ManualTest.TopIds([e1, e2, e3, e4], true) == [Id(e1)]
  {
    Select4(e1, e2, e3, e4, ManualTest.IsTopRow(true));
  }

  /** One row is set aside in each group. */
  lemma ExportGroups(e1: Row, e2: Row, e3: Row, e4: Row)
    requires Field(e1, OP) != OP_DELETE && Field(e1, OP) != OP_REPLACE
    requires Field(e2, OP) != OP_DELETE && Field(e2, OP) != OP_REPLACE
    requires Field(e3, OP) == OP_REPLACE && Field(e4, OP) == OP_DELETE
    ensures var gs := ManualTest.Groups([e1, e2, e3, e4], true);
            |gs| == 2 && gs[0].key == ManualTest.DELETED_ROOT && |gs[0].children| == 1
            && gs[1].key == ManualTest.REPLACED_ROOT && |gs[1].children| == 1
  {
    var rows := [e1, e2, e3, e4];
    Select4(e1, e2, e3, e4, ManualTest.IsDeleted(true));
    Select4(e1, e2, e3, e4, ManualTest.IsReplaced(true));
    ManualTest.DeletedNodesShape(rows, true);
    ManualTest.ReplacedNodesShape(rows, true);
    var del := ManualTest.DeletedNodes(rows, true);
    var rep := ManualTest.ReplacedNodes(rows, true);
    assert |del| == |Keys(del)| == 1;
    assert |rep| == |Keys(rep)| == 1;
  }

  /** The renamed row's node carries its new name. */
  lemma ExportRootNode(e1: Row, e2: Row, e3: Row, e4: Row)
    requires Field(e1, OP) != OP_DELETE && Field(e1, OP) != OP_REPLACE && Field(e1, NEW_NAME) != ""
    requires Field(e3, OP) == OP_REPLACE && Field(e4, OP) == OP_DELETE && Id(e1) != Id(e2)
    ensures var nodes := ManualTest.NormalMap([e1, e2, e3, e4], true);
            Id(e1) in nodes && nodes[Id(e1)].title == Field(e1, NEW_NAME)
  {
    NormalMapSnoc([], e1, true);
    NormalMapSnoc([e1], e2, true);
    NormalMapSnoc([e1, e2], e3, true);
    NormalMapSnoc([e1, e2, e3], e4, true);
    assert [e1] == [] + [e1] && [e1, e2] == [e1] + [e2] && [e1, e2, e3] == [e1, e2] + [e3];
    assert [e1, e2, e3, e4] == [e1, e2, e3] + [e4];
  }

  /** Pass 1's id map after one more row. */
  lemma NormalMapSnoc(rows: seq<Row>, r: Row, ex: bool)
    ensures ManualTest.NormalMap(rows + [r], ex)
            == if ManualTest.IsNormalRow(r, ex) then ManualTest.NormalMap(rows, ex)[Id(r) := ManualTest.NormalNode(r, ex)]
               else ManualTest.NormalMap(rows, ex)
  {
    assert (rows + [r])[..|rows|] == rows;
  }

  /** The exported rows build the renamed root's tree, then the groups. */
  lemma ExportBuilt(e1: Row, e2: Row, e3: Row, e4: Row)
    requires Field(e1, OP) != OP_DELETE && Field(e1, OP) != OP_REPLACE
    requires Field(e1, NEW_PARENT) == "" && Field(e1, PARENT) == ""
    requires Field(e1, NEW_NAME) != "" && Field(e2, NEW_PARENT) != "" && Id(e1) != Id(e2)
    requires Field(e3, OP) == OP_REPLACE && Field(e4, OP) == OP_DELETE
    ensures var g := ManualTest.BuiltGraph([e1, e2, e3, e4], true);
            Id(e1) in g.nodes
            && ManualTest.Built([e1, e2, e3, e4], true) == [UnfoldNode(g, Id(e1), {})] + ManualTest.Groups([e1, e2, e3, e4], true)
  {
    var rows := [e1, e2, e3, e4];
    var g := ManualTest.BuiltGraph(rows, true);
    ExportTop(e1, e2, e3, e4);
    ExportRootNode(e1, e2, e3, e4);
    BuiltUnfolded(rows, true, true);
    assert UnfoldSeq(g, [Id(e1)], {}) == [UnfoldNode(g, Id(e1), {})];
  }

  /** Four exported rows: a root with a new name, a row moved under a new
      parent, a replaced row and a deleted row, build the renamed root,
      then the deleted group and the replaced group, one row each. */
  lemma RenamedMovedReplacedDeleted(e1: Row, e2: Row, e3: Row, e4: Row)
    requires Field(e1, OP) != OP_DELETE && Field(e1, OP) != OP_REPLACE
    requires Field(e1, NEW_PARENT) == "" && Field(e1, PARENT) == "" && Field(e1, NEW_NAME) != ""
    requires Field(e2, OP) != OP_DELETE && Field(e2, OP) != OP_REPLACE && Field(e2, NEW_PARENT) != ""
    requires Field(e3, OP) == OP_REPLACE && Field(e4, OP) == OP_DELETE && Id(e1) != Id(e2)
    ensures var t := ManualTest.Built([e1, e2, e3, e4], true);
            && |t| == 3
            && t[0].key == Id(e1) && t[0].title == Field(e1, NEW_NAME)
            && t[1].key == ManualTest.DELETED_ROOT && |t[1].children| == 1
            && t[2].key == ManualTest.REPLACED_ROOT && |t[2].children| == 1
  {
    ExportBuilt(e1, e2, e3, e4);
    ExportRootNode(e1, e2, e3, e4);
    ExportGroups(e1, e2, e3, e4);
  }

  /** The exported sheet builds the renamed root, then the deleted group
      and the replaced group, each holding one row; the row moved under the
      deleted row is dropped. */
  lemma ExportedSheetTree()
    ensures var t := ManualTest.Built(EXPORTED_SHEET, true);
            && |t| == 3
            && t[0].title == "系统设置"
            && t[0].key != ManualTest.DELETED_ROOT && t[0].key != ManualTest.REPLACED_ROOT
            && t[1].key == ManualTest.DELETED_ROOT && |t[1].children| == 1
            && t[2].key == ManualTest.REPLACED_ROOT && |t[2].children| == 1
  {
    OriginalFields("sys:001", "系统管理", "1", "", "", "/system", "是");
    ExportedFields("系统设置", "", "", OP_EDIT, SYSTEM);
    ExportedFields("", "4", "", OP_MOVE, USERS);
    ExportedFields("", "", "perm:001", OP_REPLACE, ROLES);
    ExportedFields("", "", "", OP_DELETE, PERMISSIONS);
    RenamedMovedReplacedDeleted(EXPORTED_SHEET[0], EXPORTED_SHEET[1], EXPORTED_SHEET[2], EXPORTED_SHEET[3]);
    assert EXPORTED_SHEET == [EXPORTED_SHEET[0], EXPORTED_SHEET[1], EXPORTED_SHEET[2], EXPORTED_SHEET[3]];
  }

  /* ---------------------------------------------------------------------
     Editing a moved node
     --------------------------------------------------------------------- */

  /** The node the test's `handleEdit` hands back: the new title, an
      existing operation mark kept, 修改 only on an unmarked node, and
      nothing else changed. */
  function Edited(node: Node, newTitle: string): (r: Node)
    ensures r.title == newTitle
    ensures r.op == if node.op != "" then node.op else OP_EDIT
    ensures r.(title := node.title, op := node.op) == node
  {
    node.(op := if node.op == "" then OP_EDIT else node.op, title := newTitle)
  }

  /** The test's `handleEdit`, assignment by assignment: the mark is set
      only when missing, then the title is replaced. */
  method HandleEdit(node: Node, newTitle: string) returns (edited: Node)
    ensures edited == Edited(node, newTitle)
  {
    edited := node;
    if edited.op == "" {
      edited := edited.(op := OP_EDIT);
    }
    edited := edited.(title := newTitle);
  }

  /** The row of the edit scenario: already moved under 4 and renamed. */
  const MOVED_ROW := Exported("用户管理（新）", "4", "", OP_MOVE, USERS)

  /** Editing the moved node keeps its 移动 mark and takes the new title. */
  lemma EditMovedNode()
    ensures var node := Node(Id(MOVED_ROW), Field(MOVED_ROW, NAME), "", Field(MOVED_ROW, OP), MOVED_ROW, []);
            var edited := Edited(node, "用户管理（编辑后）");
            edited.op == OP_MOVE && edited.title == "用户管理（编辑后）"
  {
  }
}
