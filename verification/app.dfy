/** The page component (src/App.js): the session's imported rows
    (`flatData`), their column names, and the classifier that, after every
    change to the tree, marks each imported row as deleted, renamed and/or
    moved by comparing the live tree with the row's original name and
    parent; and the export of those rows with three extra columns. */
module App {
  import opened Rows
  import opened Trees
  import TreeDisplay
  import JsonInput
  import ManualTest

  /** The parent id the classifier gives top-level nodes and rows with no
      parent. */
  const ROOT_PARENT := "0"
  /** The separator of `actions.join(",")`. */
  const SEP := ","

  /** One row of `flatData`: the imported row's cells and the bookkeeping
      properties the page adds (`_originParentId`, `_originName`,
      `_newName`, `_newParentId`, `_action`; "" when absent). */
  datatype FlatRow = FlatRow(fields: Row, originParentId: string, originName: string,
                             newName: string, newParentId: string, action: string)

  /** What the tree `walk` records for a key: its parent id, normalised,
      and its title. */
  datatype Info = Info(parentId: string, title: string)

  /** Empty parent ids read as the root parent "0". */
  function Norm(pid: string): (n: string)
    ensures n != ""
    ensures pid == "" ==> n == ROOT_PARENT
    ensures pid != "" ==> n == pid
  {
    if pid == "" then ROOT_PARENT else pid
  }

  /* ---------------------------------------------------------------------
     handleExcelParsed
     --------------------------------------------------------------------- */

  /** One uploaded row as `handleExcelParsed` stores it: its cells, its
      original parent id and its original name. */
  function Seed(r: Row): FlatRow
  {
    FlatRow(r, Field(r, PARENT), Field(r, NAME), "", "", "")
  }

  /** The uploaded rows as stored, in order. */
  function SeedRows(data: seq<Row>): (rows: seq<FlatRow>)
    ensures |rows| == |data|
    ensures forall i :: 0 <= i < |data| ==> rows[i].fields == data[i] && rows[i] == Seed(data[i])
  {
    if data == [] then [] else [Seed(data[0])] + SeedRows(data[1..])
  }

  /* ---------------------------------------------------------------------
     collectDeletedKeys
     --------------------------------------------------------------------- */

  /** The non-empty keys of a forest in pre-order: the inner `walk` of
      `collectDeletedKeys`. */
  function KeysOf(f: seq<Node>): seq<string>
  {
    if f == [] then []
    else (if f[0].key != "" then [f[0].key] else []) + KeysOf(f[0].children) + KeysOf(f[1..])
  }

  /** The keys one deleted entry contributes: none when its node has no
      key, else its key followed by those of its descendants. */
  function EntryKeys(e: TreeDisplay.Deleted): seq<string>
  {
    if e.node.key != "" then [e.node.key] + KeysOf(e.node.children) else []
  }

  /** The keys `collectDeletedKeys` returns, entry by entry. */
  function DeletedKeyList(es: seq<TreeDisplay.Deleted>): seq<string>
  {
    if es == [] then [] else DeletedKeyList(es[..|es| - 1]) + EntryKeys(es[|es| - 1])
  }

  lemma {:induction false} KeysOfAppend(a: seq<Node>, b: seq<Node>)
    ensures KeysOf(a + b) == KeysOf(a) + KeysOf(b)
  {
    if a == [] {
      assert a + b == b;
    } else {
      assert (a + b)[0] == a[0] && (a + b)[1..] == a[1..] + b;
      KeysOfAppend(a[1..], b);
    }
  }

  lemma KeysOfSingle(n: Node)
    ensures KeysOf([n]) == (if n.key != "" then [n.key] else []) + KeysOf(n.children)
  {
    assert [n][1..] == [];
  }

  /** The walk gathers exactly the non-empty keys of the forest. */
  lemma {:induction false} KeysOfMember(f: seq<Node>, k: string)
    ensures k in KeysOf(f) <==> k != "" && k in AllKeys(f)
  {
    if f != [] {
      KeysOfMember(f[0].children, k);
      KeysOfMember(f[1..], k);
    }
  }

  /** An entry whose node has a non-empty key and holds k in its subtree. */
  predicate InEntry(e: TreeDisplay.Deleted, k: string)
  {
    e.node.key != "" && k in AllKeys([e.node])
  }

  lemma EntryKeysMember(e: TreeDisplay.Deleted, k: string)
    ensures k in EntryKeys(e) <==> k != "" && InEntry(e, k)
  {
    AllKeysSingle(e.node);
    KeysOfMember(e.node.children, k);
  }

  /** A key is collected exactly when it is non-empty and belongs to the
      subtree of an entry whose own key is non-empty: every deleted node
      and all its descendants. */
  lemma {:induction false} DeletedKeysMember(es: seq<TreeDisplay.Deleted>, k: string)
    ensures k in DeletedKeyList(es) <==> k != "" && exists i :: 0 <= i < |es| && InEntry(es[i], k)
  {
    if es != [] {
      var n := |es| - 1;
      var init := es[..n];
      DeletedKeysMember(init, k);
      EntryKeysMember(es[n], k);
      assert DeletedKeyList(es) == DeletedKeyList(init) + EntryKeys(es[n]);
      if k in DeletedKeyList(init) {
        var i :| 0 <= i < |init| && InEntry(init[i], k);
        assert es[i] == init[i];
      }
      if k != "" && exists i :: 0 <= i < |es| && InEntry(es[i], k) {
        var i :| 0 <= i < |es| && InEntry(es[i], k);
        if i < n {
          assert init[i] == es[i];
        }
      }
    }
  }

  /** Appending one node to a forest appends its key, when non-empty, and
      its descendants' keys: the step of the walk's loop. */
  lemma KeysOfSnoc(prefix: seq<Node>, child: Node)
    ensures KeysOf(prefix + [child]) == KeysOf(prefix) + (if child.key != "" then [child.key] else []) + KeysOf(child.children)
  {
    var here := if child.key != "" then [child.key] else [];
    KeysOfAppend(prefix, [child]);
    KeysOfSingle(child);
    assert KeysOf(prefix) + (here + KeysOf(child.children)) == KeysOf(prefix) + here + KeysOf(child.children);
  }

  /** The inner `walk`: each child's key when non-empty, then its
      descendants' keys. */
  method WalkKeys(children: seq<Node>) returns (subKeys: seq<string>)
    ensures subKeys == KeysOf(children)
    decreases children
  {
    subKeys := [];
    var i := 0;
    while i < |children|
      invariant 0 <= i <= |children|
      invariant subKeys == KeysOf(children[..i])
    {
      var child := children[i];
      if child.key != "" {
        subKeys := subKeys + [child.key];
      }
      if |child.children| > 0 {
        var more := WalkKeys(child.children);
        subKeys := subKeys + more;
      }
      assert children[..i + 1] == children[..i] + [child];
      KeysOfSnoc(children[..i], child);
      i := i + 1;
    }
    assert children[..i] == children;
  }

  /** `collectDeletedKeys`. */
  method CollectDeletedKeys(deletedNodes: seq<TreeDisplay.Deleted>) returns (keys: seq<string>)
    ensures keys == DeletedKeyList(deletedNodes)
  {
    keys := [];
    var i := 0;
    while i < |deletedNodes|
      invariant 0 <= i <= |deletedNodes|
      invariant keys == DeletedKeyList(deletedNodes[..i])
    {
      var item := deletedNodes[i];
      if item.node.key != "" {
        keys := keys + [item.node.key];
        if |item.node.children| > 0 {
          var sub := WalkKeys(item.node.children);
          keys := keys + sub;
        }
      }
      assert deletedNodes[..i + 1][..i] == deletedNodes[..i];
      i := i + 1;
    }
    assert deletedNodes[..i] == deletedNodes;
  }

  /** `Array.from(new Set(keys))`: every key once, in first-occurrence
      order. */
  function Dedup(s: seq<string>): (r: seq<string>)
    ensures forall x :: x in r <==> x in s
    ensures forall i, j :: 0 <= i < j < |r| ==> r[i] != r[j]
  {
    if s == [] then []
    else
      var init := s[..|s| - 1];
      assert s == init + [s[|s| - 1]];
      var d := Dedup(init);
      if s[|s| - 1] in d then d else d + [s[|s| - 1]]
  }

  /** Dedup keeps first-occurrence order: a key met for the first time at
      position j comes after every key met before it. */
  lemma {:induction false} DedupOrder(s: seq<string>, i: int, j: int)
    requires 0 <= i < j < |s| && s[j] !in s[..j]
    ensures exists p, q :: 0 <= p < q < |Dedup(s)| && Dedup(s)[p] == s[i] && Dedup(s)[q] == s[j]
  {
    var n := |s| - 1;
    var init := s[..n];
    assert s == init + [s[n]];
    var d := Dedup(init);
    assert init[i] == s[i];
    if j == n {
      assert init == s[..j];
      assert s[i] in init;
      var p :| 0 <= p < |d| && d[p] == s[i];
      assert Dedup(s) == d + [s[n]];
      assert Dedup(s)[p] == s[i] && Dedup(s)[|d|] == s[j];
    } else {
      assert init[j] == s[j] && init[..j] == s[..j];
      DedupOrder(init, i, j);
      var p, q :| 0 <= p < q < |d| && d[p] == s[i] && d[q] == s[j];
      assert Dedup(s)[p] == d[p] && Dedup(s)[q] == d[q];
    }
  }

  /* ---------------------------------------------------------------------
     The tree walk
     --------------------------------------------------------------------- */

  /** The map the tree `walk` leaves behind, starting from m: every node
      records its parent's key, normalised, and its title; a key met again
      later in pre-order overwrites the earlier record. */
  function TreeMapOf(f: seq<Node>, pid: string, m: map<string, Info>): map<string, Info>
  {
    if f == [] then m
    else TreeMapOf(f[1..], pid, TreeMapOf(f[0].children, f[0].key, m[f[0].key := Info(Norm(pid), f[0].title)]))
  }

  /** The walk records exactly the keys of the forest. */
  lemma {:induction false} TreeMapDomain(f: seq<Node>, pid: string, m: map<string, Info>, k: string)
    ensures k in TreeMapOf(f, pid, m) <==> k in m || k in AllKeys(f)
  {
    if f != [] {
      var m' := m[f[0].key := Info(Norm(pid), f[0].title)];
      TreeMapDomain(f[0].children, f[0].key, m', k);
      TreeMapDomain(f[1..], pid, TreeMapOf(f[0].children, f[0].key, m'), k);
    }
  }

  /** Every parent id the walk records is non-empty. */
  lemma {:induction false} TreeMapNormal(f: seq<Node>, pid: string, m: map<string, Info>, k: string)
    requires forall j | j in m :: m[j].parentId != ""
    ensures k in TreeMapOf(f, pid, m) ==> TreeMapOf(f, pid, m)[k].parentId != ""
  {
    if f != [] {
      var m' := m[f[0].key := Info(Norm(pid), f[0].title)];
      forall j | j in TreeMapOf(f[0].children, f[0].key, m')
        ensures TreeMapOf(f[0].children, f[0].key, m')[j].parentId != ""
      {
        TreeMapNormal(f[0].children, f[0].key, m', j);
      }
      TreeMapNormal(f[1..], pid, TreeMapOf(f[0].children, f[0].key, m'), k);
    }
  }

  /** A key the forest lacks keeps its earlier record. */
  lemma {:induction false} TreeMapKeep(f: seq<Node>, pid: string, m: map<string, Info>, k: string)
    requires Count(f, k) == 0 && k in m
    ensures k in TreeMapOf(f, pid, m) && TreeMapOf(f, pid, m)[k] == m[k]
  {
    if f != [] {
      var m' := m[f[0].key := Info(Norm(pid), f[0].title)];
      TreeMapKeep(f[0].children, f[0].key, m', k);
      TreeMapKeep(f[1..], pid, TreeMapOf(f[0].children, f[0].key, m'), k);
    }
  }

  /** A top-level node whose key occurs once is recorded with the walk's
      parent id, normalised, and its own title. */
  lemma {:induction false} TreeMapTop(f: seq<Node>, pid: string, m: map<string, Info>, i: int)
    requires 0 <= i < |f| && Count(f, f[i].key) == 1
    ensures f[i].key in TreeMapOf(f, pid, m) && TreeMapOf(f, pid, m)[f[i].key] == Info(Norm(pid), f[i].title)
  {
    var k := f[i].key;
    var m' := m[f[0].key := Info(Norm(pid), f[0].title)];
    var m'' := TreeMapOf(f[0].children, f[0].key, m');
    if i == 0 {
      TreeMapKeep(f[0].children, f[0].key, m', k);
      TreeMapKeep(f[1..], pid, m'', k);
    } else {
      assert f[1..][i - 1] == f[i];
      AllNodesMember(f[1..], f[i]);
      NodeKeyIn(f[1..], f[i]);
      TreeMapTop(f[1..], pid, m'', i - 1);
    }
  }

  /** A child node whose key occurs once is recorded with its parent's key,
      normalised, and its own title. */
  lemma {:induction false} TreeMapChild(f: seq<Node>, pid: string, m: map<string, Info>, p: Node, x: Node)
    requires p in AllNodes(f) && x in p.children && Count(f, x.key) == 1
    ensures x.key in TreeMapOf(f, pid, m) && TreeMapOf(f, pid, m)[x.key] == Info(Norm(p.key), x.title)
  {
    var k := x.key;
    var t := f[0];
    var m' := m[t.key := Info(Norm(pid), t.title)];
    var m'' := TreeMapOf(t.children, t.key, m');
    ChildIn(f, p, x);
    if p == t {
      var j :| 0 <= j < |t.children| && t.children[j] == x;
      AllNodesMember(t.children, x);
      NodeKeyIn(t.children, x);
      TreeMapTop(t.children, t.key, m', j);
      TreeMapKeep(f[1..], pid, m'', k);
    } else if p in AllNodes(t.children) {
      ChildIn(t.children, p, x);
      NodeKeyIn(t.children, x);
      TreeMapChild(t.children, t.key, m', p, x);
      TreeMapKeep(f[1..], pid, m'', k);
    } else {
      ChildIn(f[1..], p, x);
      NodeKeyIn(f[1..], x);
      TreeMapChild(f[1..], pid, m'', p, x);
    }
  }

  /** The tree `walk`: each node records its normalised parent id and its
      title, then its children are walked with its key as their parent. */
  method Walk(nodes: seq<Node>, parentId: string, treeMap: map<string, Info>) returns (result: map<string, Info>)
    ensures result == TreeMapOf(nodes, parentId, treeMap)
    decreases nodes
  {
    result := treeMap;
    var i := 0;
    assert nodes[i..] == nodes;
    while i < |nodes|
      invariant 0 <= i <= |nodes|
      invariant TreeMapOf(nodes[i..], parentId, result) == TreeMapOf(nodes, parentId, treeMap)
    {
      var node := nodes[i];
      var pid := Norm(parentId);
      result := result[node.key := Info(pid, node.title)];
      if |node.children| > 0 {
        result := Walk(node.children, node.key, result);
      }
      assert nodes[i..][0] == node && nodes[i..][1..] == nodes[i + 1..];
      i := i + 1;
    }
  }

  /* ---------------------------------------------------------------------
     Classification
     --------------------------------------------------------------------- */

  /** `actions.join(",")`. */
  function Join(parts: seq<string>, sep: string): string
  {
    if parts == [] then ""
    else if |parts| == 1 then parts[0]
    else parts[0] + sep + Join(parts[1..], sep)
  }

  /** The action label of a row that was renamed and/or moved. */
  function ActionOf(renamed: bool, moved: bool): (a: string)
    ensures a == if renamed && moved then OP_RENAME + SEP + OP_MOVE
                 else if renamed then OP_RENAME
                 else if moved then OP_MOVE
                 else ""
  {
    var parts := (if renamed then [OP_RENAME] else []) + (if moved then [OP_MOVE] else []);
    assert renamed && moved ==> parts == [OP_RENAME, OP_MOVE] && parts[1..] == [OP_MOVE]
                                && Join(parts, SEP) == OP_RENAME + SEP + Join([OP_MOVE], SEP);
    assert renamed != moved ==> |parts| == 1;
    Join(parts, SEP)
  }

  /** One row of the `flatData.map` in `handleTreeChange`. */
  function Classify(row: FlatRow, deleted: seq<string>, tm: map<string, Info>): (r: FlatRow)
    ensures r.fields == row.fields && r.originParentId == row.originParentId && r.originName == row.originName
    ensures r.action in {"", OP_RENAME, OP_MOVE, OP_RENAME + SEP + OP_MOVE, OP_DELETE}
  {
    var key := Id(row.fields);
    if key in deleted then row.(newName := "", newParentId := "", action := OP_DELETE)
    else if key in tm then
      var info := tm[key];
      var newName := if info.title != "" && info.title != row.originName then info.title else "";
      var newParentId := if info.parentId != Norm(row.originParentId) then info.parentId else "";
      row.(newName := newName, newParentId := newParentId, action := ActionOf(newName != "", newParentId != ""))
    else row.(newName := "", newParentId := "", action := "")
  }

  /** The whole `flatData.map`: one classified row per row, in order, with
      every original cell kept. */
  function ClassifyRows(rows: seq<FlatRow>, deleted: seq<string>, tm: map<string, Info>): (rs: seq<FlatRow>)
    ensures |rs| == |rows|
    ensures forall i :: 0 <= i < |rows| ==> rs[i].fields == rows[i].fields && rs[i] == Classify(rows[i], deleted, tm)
  {
    if rows == [] then [] else [Classify(rows[0], deleted, tm)] + ClassifyRows(rows[1..], deleted, tm)
  }

  /** A deleted row gets action 删除 and no new name or parent. */
  lemma ClassifyDeleted(row: FlatRow, deleted: seq<string>, tm: map<string, Info>)
    requires Id(row.fields) in deleted
    ensures var r := Classify(row, deleted, tm);
            r.newName == "" && r.newParentId == "" && r.action == OP_DELETE
  {
  }

  /** A row that is neither deleted nor in the tree gets all three columns
      blank. */
  lemma ClassifyMissing(row: FlatRow, deleted: seq<string>, tm: map<string, Info>)
    requires Id(row.fields) !in deleted && Id(row.fields) !in tm
    ensures var r := Classify(row, deleted, tm);
            r.newName == "" && r.newParentId == "" && r.action == ""
  {
  }

  /** A row in the tree and not deleted: the new name is set exactly when
      the tree title is non-empty and differs from the original name, the
      new parent exactly when the recorded parent differs from the
      normalised original parent, and the action names what was set,
      改名 first. */
  lemma ClassifyLive(row: FlatRow, deleted: seq<string>, tm: map<string, Info>)
    requires Id(row.fields) !in deleted && Id(row.fields) in tm
    requires tm[Id(row.fields)].parentId != ""
    ensures var r := Classify(row, deleted, tm);
            var info := tm[Id(row.fields)];
            (r.newName != "" <==> info.title != "" && info.title != row.originName)
            && (r.newName != "" ==> r.newName == info.title)
            && (r.newParentId != "" <==> info.parentId != Norm(row.originParentId))
            && (r.newParentId != "" ==> r.newParentId == info.parentId)
            && (r.action == "" <==> r.newName == "" && r.newParentId == "")
            && (r.action == OP_RENAME <==> r.newName != "" && r.newParentId == "")
            && (r.action == OP_MOVE <==> r.newName == "" && r.newParentId != "")
            && (r.action == OP_RENAME + SEP + OP_MOVE <==> r.newName != "" && r.newParentId != "")
  {
  }

  /** A freshly uploaded row whose node still sits under its original
      parent with its original name is classified as unchanged. */
  lemma SeedUnchanged(r: Row, deleted: seq<string>, tm: map<string, Info>)
    requires Id(r) !in deleted && Id(r) in tm
    requires tm[Id(r)] == Info(Norm(Field(r, PARENT)), Field(r, NAME))
    ensures Classify(Seed(r), deleted, tm) == Seed(r)
  {
  }

  /** Every non-empty key in the subtree of a deleted entry with a
      non-empty key marks its row 删除. */
  lemma DeletedSubtreeMarked(es: seq<TreeDisplay.Deleted>, i: int, row: FlatRow, tm: map<string, Info>)
    requires 0 <= i < |es| && es[i].node.key != ""
    requires Id(row.fields) != "" && Id(row.fields) in AllKeys([es[i].node])
    ensures Classify(row, DeletedKeyList(es), tm).action == OP_DELETE
  {
    DeletedKeysMember(es, Id(row.fields));
  }

  /** With several roots gathered under the synthesised root 2 at first
      import, the walk records 2 as the parent of every root row, which
      the classifier compares with the row's own (normalised) parent: such
      rows come out as moved, although nobody moved them. */
  lemma WrapperRootsMoved(rows: seq<Row>, r: Row, deleted: seq<string>)
    requires |JsonInput.RootIds(rows, JsonInput.IdSet(rows))| > 1 && !JsonInput.HasWrapperId(rows)
    requires Id(r) in JsonInput.RootIds(rows, JsonInput.IdSet(rows))
    requires Count(JsonInput.Converted(rows), Id(r)) == 1
    requires Id(r) !in deleted && Norm(Field(r, PARENT)) != JsonInput.WRAPPER_KEY
    ensures var c := Classify(Seed(r), deleted, TreeMapOf(JsonInput.Converted(rows), ROOT_PARENT, map[]));
            c.newParentId == JsonInput.WRAPPER_KEY && c.action in {OP_MOVE, OP_RENAME + SEP + OP_MOVE}
  {
    var f := JsonInput.Converted(rows);
    JsonInput.ConvertedTop(rows);
    var w := f[0];
    var roots := JsonInput.RootIds(rows, JsonInput.IdSet(rows));
    var j :| 0 <= j < |roots| && roots[j] == Id(r);
    var x := w.children[j];
    assert x.key == Id(r);
    AllNodesMember(f, w);
    TreeMapChild(f, ROOT_PARENT, map[], w, x);
    var tm := TreeMapOf(f, ROOT_PARENT, map[]);
    assert tm[Id(r)].parentId == JsonInput.WRAPPER_KEY;
    ClassifyLive(Seed(r), deleted, tm);
  }

  /* ---------------------------------------------------------------------
     downloadExcel
     --------------------------------------------------------------------- */

  /** `columns.forEach(col => result[col] = row[col])`: each listed column
      is copied from the row, a later copy overwriting an earlier value. */
  function Fill(acc: Row, fields: Row, cols: seq<string>): (r: Row)
    ensures r.Keys == acc.Keys + set c | c in cols
    ensures forall c | c in cols :: r[c] == Field(fields, c)
    ensures forall c | c in acc && c !in cols :: r[c] == acc[c]
    decreases cols
  {
    if cols == [] then acc else Fill(acc[cols[0] := Field(fields, cols[0])], fields, cols[1..])
  }

  /** One exported row: the three new columns, then every loaded column
      copied from the row. */
  function ExportRow(row: FlatRow, columns: seq<string>): Row
  {
    Fill(map[NEW_NAME := row.newName, NEW_PARENT := row.newParentId, OP := row.action], row.fields, columns)
  }

  /** An exported row holds exactly the header's columns; each loaded
      column carries the row's own cell, and a new column the page does not
      also load carries the classification. */
  lemma ExportRowCells(row: FlatRow, columns: seq<string>)
    ensures ExportRow(row, columns).Keys == {NEW_NAME, NEW_PARENT, OP} + set c | c in columns
    ensures forall c | c in columns :: ExportRow(row, columns)[c] == Field(row.fields, c)
    ensures NEW_NAME !in columns ==> ExportRow(row, columns)[NEW_NAME] == row.newName
    ensures NEW_PARENT !in columns ==> ExportRow(row, columns)[NEW_PARENT] == row.newParentId
    ensures OP !in columns ==> ExportRow(row, columns)[OP] == row.action
  {
  }

  function ExportRows(rows: seq<FlatRow>, columns: seq<string>): (rs: seq<Row>)
    ensures |rs| == |rows|
    ensures forall i :: 0 <= i < |rows| ==> rs[i] == ExportRow(rows[i], columns)
  {
    if rows == [] then [] else [ExportRow(rows[0], columns)] + ExportRows(rows[1..], columns)
  }

  /** The page's export carries no 权限码（新） column unless the loaded
      sheet had one, so the re-import builder does not recognise it as an
      export. */
  lemma ExportNotReimportFormat(rows: seq<FlatRow>, columns: seq<string>)
    requires NEW_CODE !in columns
    ensures !ManualTest.ExportMode(ExportRows(rows, columns), false)
  {
    if rows != [] {
      ExportRowCells(rows[0], columns);
      assert NEW_CODE !in ExportRows(rows, columns)[0];
    }
  }

  /* ---------------------------------------------------------------------
     The page state
     --------------------------------------------------------------------- */

  class App {
    var treeData: seq<Node>
    var flatData: seq<FlatRow>
    var columns: seq<string>
    var deletedKeys: seq<string>

    /** The page before anything is loaded (no tree is shown as []). */
    constructor ()
      ensures treeData == [] && flatData == [] && columns == [] && deletedKeys == []
    {
      treeData := [];
      flatData := [];
      columns := [];
      deletedKeys := [];
    }

    /** `handleExcelParsed`: the rows and columns of the first upload are
        kept; later uploads leave them alone. */
    method HandleExcelParsed(data: seq<Row>, cols: seq<string>)
      modifies this
      ensures flatData == if old(flatData) == [] then SeedRows(data) else old(flatData)
      ensures columns == if old(columns) == [] then cols else old(columns)
      ensures treeData == old(treeData) && deletedKeys == old(deletedKeys)
    {
      if |flatData| == 0 {
        flatData := SeedRows(data);
      }
      if |columns| == 0 {
        columns := cols;
      }
    }

    /** `handleTreeChange`: the new tree is kept, the deleted keys are
        collected, and, once rows and columns are loaded, every row is
        classified against the new tree. */
    method HandleTreeChange(newData: seq<Node>, deletedNodes: seq<TreeDisplay.Deleted>)
      modifies this
      ensures treeData == newData && columns == old(columns)
      ensures deletedKeys == Dedup(DeletedKeyList(deletedNodes))
      ensures flatData == if old(flatData) != [] && old(columns) != []
                          then ClassifyRows(old(flatData), DeletedKeyList(deletedNodes), TreeMapOf(newData, ROOT_PARENT, map[]))
                          else old(flatData)
    {
      treeData := newData;
      var keys := CollectDeletedKeys(deletedNodes);
      deletedKeys := Dedup(keys);
      if |flatData| > 0 && |columns| > 0 {
        var treeMap := Walk(newData, ROOT_PARENT, map[]);
        flatData := ClassifyRows(flatData, keys, treeMap);
      }
    }

    /** `downloadExcel`: refused with no rows or no columns; otherwise the
        header is the three new columns followed by the loaded ones, and
        one row per stored row, in order. */
    method DownloadExcel() returns (r: Option<(seq<string>, seq<Row>)>)
      ensures r.None? <==> flatData == [] || columns == []
      ensures r.Some? ==> r.value.0 == [NEW_NAME, NEW_PARENT, OP] + columns
      ensures r.Some? ==> |r.value.1| == |flatData|
                          && forall i :: 0 <= i < |flatData| ==> r.value.1[i] == ExportRow(flatData[i], columns)
    {
      if |flatData| == 0 || |columns| == 0 {
        return None;
      }
      var exportColumns := [NEW_NAME, NEW_PARENT, OP] + columns;
      var exportData := ExportRows(flatData, columns);
      return Some((exportColumns, exportData));
    }
  }
}
