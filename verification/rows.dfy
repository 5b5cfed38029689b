/** Rows of the permission sheet as they come out of the spreadsheet reader:
    one map from column name to cell text per row. A missing column reads as
    the empty string, which is also how every falsy cell is treated below. */
module Rows {

  type Row = map<string, string>

  // The sheet's own column names.
  const ID := "权限id"
  const NAME := "权限名称"
  const PARENT := "父级权限id"
  const CODE := "权限码"
  const PARENT_NAME := "父级权限名称"
  const KIND := "权限类型"
  const PATH := "权限路径"
  const HAS_CHILDREN := "是否有子节点"
  const SITE := "站点"

  // The columns an export adds in front of the original ones.
  const NEW_NAME := "权限名称（新）"
  const NEW_PARENT := "父级权限id（新）"
  const NEW_CODE := "权限码（新）"
  const OP := "操作"

  // The operation labels written to the OP column.
  const OP_DELETE := "删除"
  const OP_REPLACE := "替换"
  const OP_RENAME := "改名"
  const OP_MOVE := "移动"
  const OP_EDIT := "修改"

  /** The text of one cell; a column the row lacks reads as "". */
  function Field(r: Row, col: string): string
  {
    if col in r then r[col] else ""
  }

  /** The permission id of a row. */
  function Id(r: Row): string
  {
    Field(r, ID)
  }

  /** No two rows share a permission id. */
  ghost predicate UniqueIds(rows: seq<Row>)
  {
    forall i, j :: 0 <= i < j < |rows| ==> Id(rows[i]) != Id(rows[j])
  }

  /** A prefix of rows with unique ids has unique ids. */
  lemma UniqueIdsPrefix(rows: seq<Row>, n: int)
    requires UniqueIds(rows) && 0 <= n <= |rows|
    ensures UniqueIds(rows[..n])
  {
    forall a, b | 0 <= a < b < n ensures Id(rows[..n][a]) != Id(rows[..n][b]) {
      assert rows[..n][a] == rows[a] && rows[..n][b] == rows[b];
    }
  }

  /** The ids of the rows that `keep` accepts, in row order: what a
      `forEach` over the rows pushes when it pushes the ids it accepts. */
  function Select(rows: seq<Row>, keep: Row -> bool): (ids: seq<string>)
    ensures |ids| <= |rows|
  {
    if rows == [] then []
    else Select(rows[..|rows| - 1], keep) + (if keep(rows[|rows| - 1]) then [Id(rows[|rows| - 1])] else [])
  }

  /** The selected ids are exactly the ids of accepted rows. */
  lemma {:induction false} SelectMember(rows: seq<Row>, keep: Row -> bool, x: string)
    ensures x in Select(rows, keep) <==> exists i :: 0 <= i < |rows| && keep(rows[i]) && Id(rows[i]) == x
  {
    if rows != [] {
      var init := rows[..|rows| - 1];
      SelectMember(init, keep, x);
      if x in Select(rows, keep) && x !in Select(init, keep) {
        assert keep(rows[|rows| - 1]) && Id(rows[|rows| - 1]) == x;
      }
      if exists i :: 0 <= i < |rows| && keep(rows[i]) && Id(rows[i]) == x {
        var i :| 0 <= i < |rows| && keep(rows[i]) && Id(rows[i]) == x;
        if i < |rows| - 1 {
          assert init[i] == rows[i];
        }
      }
    }
  }

  /** With unique ids, an accepted row's id is selected exactly once and a
      rejected row's id not at all. */
  lemma {:induction false} SelectOnce(rows: seq<Row>, keep: Row -> bool, i: int)
    requires UniqueIds(rows) && 0 <= i < |rows|
    ensures multiset(Select(rows, keep))[Id(rows[i])] == if keep(rows[i]) then 1 else 0
  {
    var n := |rows| - 1;
    var init := rows[..n];
    UniqueIdsPrefix(rows, n);
    if i == n {
      forall j | 0 <= j < |init| ensures Id(init[j]) != Id(rows[i]) {
        assert init[j] == rows[j];
      }
      SelectMember(init, keep, Id(rows[i]));
    } else {
      assert init[i] == rows[i];
      SelectOnce(init, keep, i);
    }
  }

  /** Selection keeps row order: of two accepted rows, the earlier one's id
      comes first. */
  lemma {:induction false} SelectOrder(rows: seq<Row>, keep: Row -> bool, i: int, j: int)
    requires 0 <= i < j < |rows| && keep(rows[i]) && keep(rows[j])
    ensures exists a, b :: 0 <= a < b < |Select(rows, keep)|
                          && Select(rows, keep)[a] == Id(rows[i]) && Select(rows, keep)[b] == Id(rows[j])
  {
    var n := |rows| - 1;
    var init := rows[..n];
    assert init[i] == rows[i];
    if j == n {
      SelectMember(init, keep, Id(rows[i]));
      var s := Select(init, keep);
      var a :| 0 <= a < |s| && s[a] == Id(rows[i]);
      assert Select(rows, keep)[a] == Id(rows[i]);
      assert Select(rows, keep)[|s|] == Id(rows[j]);
    } else {
      assert init[j] == rows[j];
      SelectOrder(init, keep, i, j);
      var s := Select(init, keep);
      var a, b :| 0 <= a < b < |s| && s[a] == Id(rows[i]) && s[b] == Id(rows[j]);
      assert Select(rows, keep)[a] == s[a] && Select(rows, keep)[b] == s[b];
    }
  }

  /** Extending the rows by one extends the selection by that row's id, if
      accepted: the step a `forEach` loop takes. */
  lemma SelectSnoc(rows: seq<Row>, keep: Row -> bool, r: Row)
    ensures Select(rows + [r], keep) == Select(rows, keep) + (if keep(r) then [Id(r)] else [])
  {
    assert (rows + [r])[..|rows|] == rows;
  }
}
