/**
 * The editable tree behind the properties view: `TreeItem` nodes holding a
 * row of cells, per-cell editable flags, an ordered child list and a parent
 * pointer, and `CustomTreeModel`, the item model over a root item whose cells
 * are the column headers. Cells hold text, or nothing where a column or row
 * was inserted empty.
 */
module TreeModel {
  import opened Wrappers
  import opened Lists

  /** The value of a subtree: each node's cells, flags and children, without the parent pointers. */
  datatype Tree = Tree(cells: seq<Option<string>>, editable: seq<bool>, children: seq<Tree>)

  /** `[None] * k`: Python repeats a list a negative number of times as the empty list. */
  function Nones(k: int): (r: seq<Option<string>>)
    ensures |r| == if k > 0 then k else 0
    ensures forall i :: 0 <= i < |r| ==> r[i].None?
  {
    if k <= 0 then [] else Nones(k - 1) + [None]
  }

  /** `[False for _ in range(n)]` */
  function Falses(n: nat): (r: seq<bool>)
    ensures |r| == n && forall i :: 0 <= i < n ==> !r[i]
  {
    if n == 0 then [] else Falses(n - 1) + [false]
  }

  /** A new item of `insertChildren`: `columns` empty cells, no flag set, no children. */
  function Blank(columns: int): Tree {
    Tree(Nones(columns), Falses(|Nones(columns)|), [])
  }

  function Blanks(n: nat, columns: int): seq<Tree> {
    seq(n, _ => Blank(columns))
  }

  // ---------------------------------------------------------------------
  // insertColumns / removeColumns on the value of a subtree
  // ---------------------------------------------------------------------

  /**
   * `insertColumns(position, columns)`: a node whose guard rejects the
   * position is left alone with its whole subtree; otherwise `columns` empty
   * cells go in at the position and every child is visited in turn.
   */
  function InsertColumnsTree(t: Tree, position: int, columns: int): (r: Tree)
    decreases t
  {
    if position < 0 || position > |t.cells| then t
    else
      Tree(InsertedAt(t.cells, position, Nones(columns)), t.editable,
           seq(|t.children|, i requires 0 <= i < |t.children| => InsertColumnsTree(t.children[i], position, columns)))
  }

  /**
   * `removeColumns(position, columns)`: a node whose guard rejects the
   * position is left alone with its whole subtree and reports False. Otherwise
   * `del cells[position]` runs `columns` times; when that runs off the end it
   * raises `IndexError` with the cells cut back to the position and no child
   * visited. Then the children are visited in order; the first `IndexError`
   * among them propagates, leaving the later children alone.
   */
  function RemoveColumnsTree(t: Tree, position: int, columns: int): (r: (Tree, Result<bool>))
    decreases t, |t.children| + 1
  {
    if position < 0 || position > |t.cells| then (t, Ok(false))
    else if columns > 0 && position + columns > |t.cells| then (t.(cells := t.cells[..position]), Err(IndexError))
    else
      var cells := if columns > 0 then RemovedAt(t.cells, position, columns) else t.cells;
      var visited := RemoveColumnsFrom(t, 0, position, columns);
      (Tree(cells, t.editable, visited.0), if visited.1.Some? then Err(visited.1.value) else Ok(true))
  }

  /** The children of `t` from index `i` on after the loop of `removeColumns` reaches `i`, and the exception it stopped with. */
  function RemoveColumnsFrom(t: Tree, i: nat, position: int, columns: int): (r: (seq<Tree>, Option<Error>))
    requires i <= |t.children|
    ensures |r.0| == |t.children| - i
    decreases t, |t.children| - i
  {
    if i == |t.children| then ([], None)
    else
      var visited := RemoveColumnsTree(t.children[i], position, columns);
      if visited.1.Err? then ([visited.0] + t.children[i + 1..], Some(visited.1.error))
      else
        var rest := RemoveColumnsFrom(t, i + 1, position, columns);
        ([visited.0] + rest.0, rest.1)
  }

  /** One turn of the loop over the children in `removeColumns`. */
  lemma RemoveColumnsStep(t: Tree, i: nat, position: int, columns: int)
    requires i < |t.children|
    ensures var visited := RemoveColumnsTree(t.children[i], position, columns);
      var from := RemoveColumnsFrom(t, i, position, columns);
      && from.0[0] == visited.0
      && (visited.1.Err? ==> from.0[1..] == t.children[i + 1..] && from.1 == Some(visited.1.error))
      && (visited.1.Ok? ==>
            from.0[1..] == RemoveColumnsFrom(t, i + 1, position, columns).0 &&
            from.1 == RemoveColumnsFrom(t, i + 1, position, columns).1)
  {
  }

  /** What a successful `insertColumns` does at the node it is called on: the cell count grows by `columns`, the new cells are empty, the flags are not adjusted. */
  lemma InsertColumnsCount(t: Tree, position: int, columns: int)
    requires 0 <= position <= |t.cells|
    ensures var r := InsertColumnsTree(t, position, columns);
      && |r.cells| == |t.cells| + (if columns > 0 then columns else 0)
      && r.cells[..position] == t.cells[..position]
      && r.cells[|r.cells| - (|t.cells| - position)..] == t.cells[position..]
      && (forall c :: position <= c < |r.cells| - (|t.cells| - position) ==> r.cells[c].None?)
      && r.editable == t.editable && |r.children| == |t.children|
  {
    var r := InsertColumnsTree(t, position, columns);
    var k := if columns > 0 then columns else 0;
    assert r.cells == t.cells[..position] + Nones(columns) + t.cells[position..];
    assert r.cells[..position] == t.cells[..position];
    assert r.cells[position + k..] == t.cells[position..];
    forall c | position <= c < position + k ensures r.cells[c].None? {
      assert r.cells[c] == Nones(columns)[c - position];
    }
  }

  /** Error outcomes of `removeColumns`: only `IndexError`, and at the node itself exactly when the deletions run off the end. */
  lemma {:induction false} RemoveColumnsOutcome(t: Tree, position: int, columns: int)
    ensures var r := RemoveColumnsTree(t, position, columns);
      && (r.1 == Ok(false) <==> position < 0 || position > |t.cells|)
      && (r.1.Err? ==> r.1.error == IndexError)
      && (0 <= position <= |t.cells| && columns > 0 && position + columns > |t.cells| ==>
            r.1.Err? && r.0.cells == t.cells[..position] && r.0.children == t.children)
      && (r.1 == Ok(true) ==> |r.0.cells| == |t.cells| - (if columns > 0 then columns else 0))
    decreases t, 1
  {
    if 0 <= position <= |t.cells| && !(columns > 0 && position + columns > |t.cells|) {
      RemoveColumnsFromOutcome(t, 0, position, columns);
    }
  }

  lemma {:induction false} RemoveColumnsFromOutcome(t: Tree, i: nat, position: int, columns: int)
    requires i <= |t.children|
    ensures var r := RemoveColumnsFrom(t, i, position, columns); r.1.Some? ==> r.1.value == IndexError
    decreases t, 0, |t.children| - i
  {
    if i < |t.children| {
      RemoveColumnsOutcome(t.children[i], position, columns);
      RemoveColumnsFromOutcome(t, i + 1, position, columns);
    }
  }

  /**
   * `removeColumns` undoes `insertColumns` at the same position and count:
   * every node that took the empty cells loses exactly them, every node the
   * guard stopped is stopped again, and nothing raises.
   */
  lemma {:induction false} RemoveAfterInsertColumns(t: Tree, position: int, columns: int)
    ensures RemoveColumnsTree(InsertColumnsTree(t, position, columns), position, columns)
      == (t, Ok(0 <= position <= |t.cells|))
    decreases t, 1
  {
    if 0 <= position <= |t.cells| {
      var u := InsertColumnsTree(t, position, columns);
      InsertColumnsCount(t, position, columns);
      if columns > 0 {
        RemoveInserted(t.cells, position, Nones(columns));
      } else {
        assert u.cells == t.cells;
      }
      RemoveAfterInsertFrom(t, 0, position, columns);
      assert t.children[0..] == t.children;
    }
  }

  lemma {:induction false} RemoveAfterInsertFrom(t: Tree, i: nat, position: int, columns: int)
    requires 0 <= position <= |t.cells| && i <= |t.children|
    ensures RemoveColumnsFrom(InsertColumnsTree(t, position, columns), i, position, columns) == (t.children[i..], None)
    decreases t, 0, |t.children| - i
  {
    var u := InsertColumnsTree(t, position, columns);
    assert |u.children| == |t.children|;
    if i < |t.children| {
      assert u.children[i] == InsertColumnsTree(t.children[i], position, columns);
      RemoveAfterInsertColumns(t.children[i], position, columns);
      RemoveAfterInsertFrom(t, i + 1, position, columns);
      assert t.children[i..] == [t.children[i]] + t.children[i + 1..];
    }
  }

  // ---------------------------------------------------------------------
  // TreeItem
  // ---------------------------------------------------------------------

  /**
   * A node of the tree. `Repr` is the node and everything below it; `Valid`
   * is the shape every tree built through these operations keeps: the
   * subtrees of the children are disjoint, none contains the node, and each
   * child's parent pointer is the node.
   */
  class TreeItem {
    var cells: seq<Option<string>>
    var editable: seq<bool>
    var children: seq<TreeItem>
    var parent: TreeItem?
    ghost var Repr: set<TreeItem>
    /** The value of the subtree rooted here. */
    ghost var model: Tree

    ghost predicate Valid()
      reads this, Repr
      decreases Repr, 1
    {
      && Shaped()
      && model.cells == cells && model.editable == editable && |model.children| == |children|
      && (forall i :: 0 <= i < |children| ==> children[i].model == model.children[i])
    }

    /** The shape part of `Valid`, which holds again as soon as the children are valid, whatever `model` says here. */
    ghost predicate Shaped()
      reads this, Repr
      decreases Repr, 0
    {
      && this in Repr
      && (forall i :: 0 <= i < |children| ==>
            && children[i] in Repr && children[i] in children[i].Repr && children[i].Repr <= Repr && this !in children[i].Repr
            && children[i].parent == this && children[i].Valid())
      && (forall i, j :: 0 <= i < j < |children| ==> children[i].Repr !! children[j].Repr)
    }

    /** `TreeItem(dataItems, parent)`: all flags False, no children; the parent does not list the new item. */
    constructor(cells: seq<Option<string>>, parent: TreeItem?)
      ensures Valid() && Repr == {this}
      ensures this.cells == cells && editable == Falses(|cells|) && children == [] && this.parent == parent
      ensures model == Tree(cells, Falses(|cells|), [])
    {
      this.cells := cells;
      editable := Falses(|cells|);
      children := [];
      this.parent := parent;
      Repr := {this};
      model := Tree(cells, Falses(|cells|), []);
    }

    /** `data(column)`: None when the guard rejects the column, `IndexError` at the column equal to the count. */
    function Data(column: int): (r: Result<Option<string>>)
      reads this
      ensures r.Err? <==> column == |cells|
      ensures r.Err? ==> r.error == IndexError
      ensures 0 <= column < |cells| ==> r == Ok(cells[column])
      ensures column < 0 || column > |cells| ==> r == Ok(None)
    {
      match Guard(column, |cells|)
      case Rejected => Ok(None)
      case PastEnd => Err(IndexError)
      case At(c) => Ok(cells[c])
    }

    /** `isEditable(column)`, guarded by the flag count, which `insertColumns` does not adjust. */
    function IsEditable(column: int): (r: Result<bool>)
      reads this
      ensures r.Err? <==> column == |editable|
      ensures r.Err? ==> r.error == IndexError
      ensures 0 <= column < |editable| ==> r == Ok(editable[column])
      ensures column < 0 || column > |editable| ==> r == Ok(false)
    {
      match Guard(column, |editable|)
      case Rejected => Ok(false)
      case PastEnd => Err(IndexError)
      case At(c) => Ok(editable[c])
    }

    /** `child(row)`: None when the guard rejects the row. */
    function Child(row: int): (r: Result<Option<TreeItem>>)
      reads this
      ensures r.Err? <==> row == |children|
      ensures r.Err? ==> r.error == IndexError
      ensures 0 <= row < |children| ==> r == Ok(Some(children[row]))
      ensures row < 0 || row > |children| ==> r == Ok(None)
    {
      match Guard(row, |children|)
      case Rejected => Ok(None)
      case PastEnd => Err(IndexError)
      case At(i) => Ok(Some(children[i]))
    }

    /** `childIndex(item)`: the first position of the item among the children, `ValueError` when absent. */
    function ChildIndex(item: TreeItem): (r: Result<nat>)
      reads this
      ensures r.Ok? <==> item in children
      ensures r.Err? ==> r.error == ValueError
      ensures r.Ok? ==> r.value < |children| && children[r.value] == item && item !in children[..r.value]
    {
      IndexOf(children, item)
    }

    /** `row()`: 0 without a parent, else the position among the parent's children. */
    function Row(): (r: Result<nat>)
      reads this, parent
      ensures parent == null ==> r == Ok(0)
      ensures parent != null ==> (r.Ok? <==> this in parent.children)
      ensures parent != null && r.Ok? ==>
        r.value < |parent.children| && parent.children[r.value] == this && this !in parent.children[..r.value]
    {
      if parent == null then Ok(0) else parent.ChildIndex(this)
    }

    /** In a valid tree every child's `row()` is its position. */
    lemma RowOfChild(i: nat)
      requires Valid() && i < |children|
      ensures children[i].Row() == Ok(i)
    {
      forall a, b | 0 <= a < b < |children| ensures children[a] != children[b] {
        assert children[a] in children[a].Repr;
      }
      IndexOfDistinct(children, i);
    }

    /** `setData(column, data)`: True and only that cell changed when the column is in range. */
    method SetData(column: int, data: string) returns (r: Result<bool>)
      requires Valid()
      modifies this
      ensures r.Err? <==> column == |old(cells)|
      ensures r.Err? ==> r.error == IndexError
      ensures r == Ok(true) <==> 0 <= column < |old(cells)|
      ensures r == Ok(true) ==> cells == old(cells)[column := Some(data)] && Data(column) == Ok(Some(data))
      ensures r != Ok(true) ==> cells == old(cells)
      ensures editable == old(editable) && children == old(children) && parent == old(parent) && Repr == old(Repr)
      ensures Valid() && model == old(model).(cells := cells)
    {
      match Guard(column, |cells|)
      case Rejected => r := Ok(false);
      case PastEnd => r := Err(IndexError);
      case At(c) =>
        cells := cells[c := Some(data)];
        model := model.(cells := cells);
        r := Ok(true);
    }

    /** `setEditable(column, isEditable)`: True and only that flag changed when the column is in range. */
    method SetEditable(column: int, isEditable: bool) returns (r: Result<bool>)
      requires Valid()
      modifies this
      ensures r.Err? <==> column == |old(editable)|
      ensures r.Err? ==> r.error == IndexError
      ensures r == Ok(true) <==> 0 <= column < |old(editable)|
      ensures r == Ok(true) ==> editable == old(editable)[column := isEditable] && IsEditable(column) == Ok(isEditable)
      ensures r != Ok(true) ==> editable == old(editable)
      ensures cells == old(cells) && children == old(children) && parent == old(parent) && Repr == old(Repr)
      ensures Valid() && model == old(model).(editable := editable)
    {
      match Guard(column, |editable|)
      case Rejected => r := Ok(false);
      case PastEnd => r := Err(IndexError);
      case At(c) =>
        editable := editable[c := isEditable];
        model := model.(editable := editable);
        r := Ok(true);
    }

    /** `addChild(item)`: the item's parent becomes this node and it goes last among the children. */
    method AddChild(item: TreeItem)
      requires Valid() && item.Valid() && Repr !! item.Repr
      modifies this, item
      ensures children == old(children) + [item] && item.parent == this
      ensures cells == old(cells) && editable == old(editable) && parent == old(parent)
      ensures Repr == old(Repr) + item.Repr
      ensures Valid() && model == old(model).(children := old(model).children + [item.model])
      ensures item.model == old(item.model) && item.Repr == old(item.Repr)
      ensures item.Row() == Ok(|old(children)|)
    {
      item.parent := this;
      children := children + [item];
      Repr := Repr + item.Repr;
      model := model.(children := model.children + [item.model]);
      assert item.Valid();
      RowOfChild(|children| - 1);
    }

    /** The cell loop of `insertColumns`: `cells.insert(position, None)`, `columns` times. */
    static method InsertNones(cells: seq<Option<string>>, position: nat, columns: int) returns (r: seq<Option<string>>)
      requires position <= |cells|
      ensures r == InsertedAt(cells, position, Nones(columns))
    {
      r := cells;
      var k := 0;
      assert r == InsertedAt(cells, position, Nones(0));
      while k < columns
        invariant 0 <= k && (k == 0 || k <= columns)
        invariant r == InsertedAt(cells, position, Nones(k))
      {
        assert [None] + Nones(k) == Nones(k + 1);
        r := r[..position] + [None] + r[position..];
        k := k + 1;
      }
      assert Nones(k) == Nones(columns);
    }

    /**
     * `insertColumns(position, columns)`: the empty cells go in here and then,
     * recursively, in every child; a node whose guard rejects the position
     * stops the recursion below it.
     */
    method InsertColumns(position: int, columns: int) returns (r: bool)
      requires Valid()
      modifies Repr
      ensures r <==> 0 <= position <= |old(cells)|
      ensures Valid() && Repr == old(Repr) && children == old(children) && parent == old(parent)
      ensures model == InsertColumnsTree(old(model), position, columns)
      decreases Repr, 2
    {
      if position < 0 || position > |cells| {
        return false;
      }
      ghost var m := model;
      cells := InsertNones(cells, position, columns);
      InsertColumnsBelow(position, columns);
      model := InsertColumnsTree(m, position, columns);
      r := true;
    }

    /** The loop of `insertColumns` over the children. */
    method InsertColumnsBelow(position: int, columns: int)
      requires Shaped()
      modifies Repr - {this}
      ensures Shaped()
      ensures forall j :: 0 <= j < |children| ==> children[j].model == InsertColumnsTree(old(children[j].model), position, columns)
      decreases Repr, 1
    {
      var i := 0;
      while i < |children|
        invariant 0 <= i <= |children| && Shaped()
        invariant forall j :: 0 <= j < i ==> children[j].model == InsertColumnsTree(old(children[j].model), position, columns)
        invariant forall j :: i <= j < |children| ==> children[j].model == old(children[j].model)
      {
        InsertColumnsChild(i, position, columns);
        i := i + 1;
      }
    }

    /** One turn of that loop: the columns inserted below child `i`, the other children untouched. */
    method InsertColumnsChild(i: nat, position: int, columns: int)
      requires Shaped() && i < |children|
      modifies children[i].Repr
      ensures Shaped()
      ensures children[i].model == InsertColumnsTree(old(children[i].model), position, columns)
      ensures forall j :: 0 <= j < |children| && j != i ==> children[j].model == old(children[j].model)
      decreases Repr, 0
    {
      var child := children[i];
      assert forall j :: 0 <= j < |children| && j != i ==> children[j].Repr !! child.Repr && children[j] in children[j].Repr;
      var _ := child.InsertColumns(position, columns);
      forall j | 0 <= j < |children| && j != i
        ensures children[j].Valid()
      {
      }
    }

    /**
     * `del xs[position]`, `count` times, as `removeColumns` does to the cells
     * and `removeChildren` to the children; `overran` is the `IndexError` of
     * the deletion that finds nothing, by which time the list is cut back to
     * the position.
     */
    static method DeleteAt<T>(xs: seq<T>, position: nat, count: int) returns (r: seq<T>, overran: bool)
      requires position <= |xs|
      ensures overran <==> count > 0 && position + count > |xs|
      ensures overran ==> r == xs[..position]
      ensures !overran ==> r == if count > 0 then RemovedAt(xs, position, count) else xs
    {
      r := xs;
      var k := 0;
      while k < count
        invariant 0 <= k && (k == 0 || k <= count) && position + k <= |xs|
        invariant r == xs[..position] + xs[position + k..]
      {
        if position == |r| {
          return r, true;
        }
        r := r[..position] + r[position + 1..];
        k := k + 1;
      }
      assert xs[..position] + xs[position..] == xs;
      overran := false;
    }

    /**
     * `removeColumns(position, columns)`: the cells go here and then,
     * recursively, in every child, up to the first `IndexError`, which leaves
     * the nodes after it untouched.
     */
    method RemoveColumns(position: int, columns: int) returns (r: Result<bool>)
      requires Valid()
      modifies Repr
      ensures Valid() && Repr == old(Repr) && children == old(children) && parent == old(parent)
      ensures (model, r) == RemoveColumnsTree(old(model), position, columns)
      decreases Repr, 2
    {
      if position < 0 || position > |cells| {
        return Ok(false);
      }
      ghost var m := model;
      var kept, overran := DeleteAt(cells, position, columns);
      SetCells(kept, m.(cells := kept));
      if overran {
        return Err(IndexError);
      }
      var e := RemoveColumnsBelow(position, columns, m);
      SetCells(kept, Tree(kept, m.editable, RemoveColumnsFrom(m, 0, position, columns).0));
      r := if e.Some? then Err(e.value) else Ok(true);
    }

    /** Installs new cells at this node, and `t` as the subtree value, once the children's values agree with it. */
    method SetCells(cells': seq<Option<string>>, ghost t: Tree)
      requires Shaped() && t.cells == cells' && t.editable == editable && |t.children| == |children|
      requires forall i :: 0 <= i < |children| ==> children[i].model == t.children[i]
      modifies this
      ensures Valid() && cells == cells' && model == t
      ensures children == old(children) && editable == old(editable) && parent == old(parent) && Repr == old(Repr)
    {
      cells := cells';
      model := t;
    }

    /** The loop of `removeColumns` over the children, whose subtree values were `t`'s children. */
    method RemoveColumnsBelow(position: int, columns: int, ghost t: Tree) returns (e: Option<Error>)
      requires Shaped() && |t.children| == |children|
      requires forall j :: 0 <= j < |children| ==> children[j].model == t.children[j]
      modifies Repr - {this}
      ensures Shaped()
      ensures e == RemoveColumnsFrom(t, 0, position, columns).1
      ensures forall j :: 0 <= j < |children| ==> children[j].model == RemoveColumnsFrom(t, 0, position, columns).0[j]
      decreases Repr, 1
    {
      ghost var all := RemoveColumnsFrom(t, 0, position, columns);
      var i := 0;
      while i < |children|
        invariant 0 <= i <= |children| && Shaped()
        invariant all.0[i..] == RemoveColumnsFrom(t, i, position, columns).0
        invariant all.1 == RemoveColumnsFrom(t, i, position, columns).1
        invariant forall j :: 0 <= j < i ==> children[j].model == all.0[j]
        invariant forall j :: i <= j < |children| ==> children[j].model == t.children[j]
      {
        var r := RemoveColumnsChild(i, position, columns);
        RemoveColumnsStep(t, i, position, columns);
        assert all.0[i] == all.0[i..][0] && all.0[i + 1..] == all.0[i..][1..];
        if r.Err? {
          forall j | i < j < |children| ensures children[j].model == all.0[j] {
            assert all.0[j] == all.0[i + 1..][j - i - 1];
          }
          return Some(r.error);
        }
        i := i + 1;
      }
      e := None;
    }

    /** One turn of that loop: the columns removed below child `i`, the other children untouched. */
    method RemoveColumnsChild(i: nat, position: int, columns: int) returns (r: Result<bool>)
      requires Shaped() && i < |children|
      modifies children[i].Repr
      ensures Shaped()
      ensures (children[i].model, r) == RemoveColumnsTree(old(children[i].model), position, columns)
      ensures forall j :: 0 <= j < |children| && j != i ==> children[j].model == old(children[j].model)
      decreases Repr, 0
    {
      var child := children[i];
      assert forall j :: 0 <= j < |children| && j != i ==> children[j].Repr !! child.Repr && children[j] in children[j].Repr;
      r := child.RemoveColumns(position, columns);
      forall j | 0 <= j < |children| && j != i
        ensures children[j].Valid()
      {
      }
    }

    /**
     * `removeChildren(position, count)`: False when the guard rejects the
     * position; otherwise `del children[position]`, `count` times, which
     * raises `IndexError` once the children past the position run out.  The
     * removed items keep their parent pointer.
     */
    method RemoveChildren(position: int, count: int) returns (r: Result<bool>)
      requires Valid()
      modifies this
      ensures r == Ok(false) <==> position < 0 || position > |old(children)|
      ensures r == Ok(true) <==> 0 <= position <= |old(children)| && (count <= 0 || position + count <= |old(children)|)
      ensures r.Err? <==> 0 <= position <= |old(children)| && count > 0 && position + count > |old(children)|
      ensures r.Err? ==> r.error == IndexError
      ensures r == Ok(false) ==> children == old(children) && model == old(model)
      ensures r.Err? ==> children == old(children)[..position] && model == old(model).(children := old(model).children[..position])
      ensures r == Ok(true) && count > 0 ==>
        children == RemovedAt(old(children), position, count) &&
        model == old(model).(children := RemovedAt(old(model).children, position, count))
      ensures r == Ok(true) && count <= 0 ==> children == old(children) && model == old(model)
      ensures Valid() && Repr == old(Repr) && cells == old(cells) && editable == old(editable) && parent == old(parent)
    {
      if position < 0 || position > |children| {
        return Ok(false);
      }
      var kept, overran := DeleteAt(children, position, count);
      if overran {
        KeepChildren(kept, position, |children| - position);
        r := Err(IndexError);
      } else if count > 0 {
        KeepChildren(kept, position, count);
        r := Ok(true);
      } else {
        r := Ok(true);
      }
    }

    /** Installs `kept`, the children without the `count` from `position` on, and the matching subtree values. */
    method KeepChildren(kept: seq<TreeItem>, position: nat, count: nat)
      requires Valid() && position + count <= |children| && kept == RemovedAt(children, position, count)
      modifies this
      ensures children == kept && model == old(model).(children := RemovedAt(old(model).children, position, count))
      ensures Valid() && Repr == old(Repr) && cells == old(cells) && editable == old(editable) && parent == old(parent)
    {
      ghost var m := model;
      KeptDisjoint(children, position, count);
      RemovedAtIndex(children, position, count);
      RemovedAtIndex(m.children, position, count);
      children := kept;
      model := m.(children := RemovedAt(m.children, position, count));
    }

    /** Dropping some children keeps the remaining subtrees disjoint. */
    static lemma KeptDisjoint(before: seq<TreeItem>, position: nat, count: nat)
      requires position + count <= |before|
      requires forall a, b :: 0 <= a < b < |before| ==> before[a].Repr !! before[b].Repr
      ensures forall a, b :: 0 <= a < b < |before| - count ==>
        RemovedAt(before, position, count)[a].Repr !! RemovedAt(before, position, count)[b].Repr
    {
      var after := RemovedAt(before, position, count);
      RemovedAtIndex(before, position, count);
      forall a, b | 0 <= a < b < |after| ensures after[a].Repr !! after[b].Repr {
        assert after[a] == before[if a < position then a else a + count];
        assert after[b] == before[if b < position then b else b + count];
      }
    }

    /** `removeChild(item)`: `list.remove`, the first occurrence goes, `ValueError` when there is none. */
    method RemoveChild(item: TreeItem) returns (r: Result<()>)
      requires Valid()
      modifies this
      ensures r.Ok? <==> item in old(children)
      ensures r.Err? ==> r.error == ValueError && children == old(children) && model == old(model)
      ensures r.Ok? ==> var k := old(ChildIndex(item)).value;
        && children == RemovedAt(old(children), k, 1)
        && model == old(model).(children := RemovedAt(old(model).children, k, 1))
        && item !in children
      ensures Valid() && Repr == old(Repr) && cells == old(cells) && editable == old(editable) && parent == old(parent)
    {
      var k := ChildIndex(item);
      if k.Err? {
        return Err(ValueError);
      }
      ghost var before := children;
      forall a, b | 0 <= a < b < |children| ensures children[a] != children[b] {
        assert children[a] in children[a].Repr;
      }
      KeepChildren(RemovedAt(children, k.value, 1), k.value, 1);
      RemovedAtIndex(before, k.value, 1);
      forall i | 0 <= i < |children| ensures children[i] != item {
        assert children[i] == before[if i < k.value then i else i + 1];
      }
      r := Ok(());
    }

    /**
     * `insertChildren(position, count, columns)`: False when the guard
     * rejects the position; otherwise `count` new items, each with `columns`
     * empty cells and this node as parent, inserted one by one at the
     * position.
     */
    method InsertChildren(position: int, count: int, columns: int) returns (r: bool)
      requires Valid()
      modifies this
      ensures r <==> 0 <= position <= |old(children)|
      ensures !r ==> children == old(children) && model == old(model) && Repr == old(Repr)
      ensures r ==> var n := if count > 0 then count else 0;
        && |children| == |old(children)| + n
        && children[..position] == old(children)[..position] && children[position + n..] == old(children)[position..]
        && (forall j :: position <= j < position + n ==>
              fresh(children[j]) && children[j].parent == this && children[j].model == Blank(columns))
        && model == old(model).(children := InsertedAt(old(model).children, position, Blanks(n, columns)))
      ensures Valid() && fresh(Repr - old(Repr)) && old(Repr) <= Repr
      ensures cells == old(cells) && editable == old(editable) && parent == old(parent)
    {
      if position < 0 || position > |children| {
        return false;
      }
      var news := NewItems(count, columns, this);
      SpliceChildren(position, news, Blank(columns), set j | 0 <= j < |news| :: news[j]);
      r := true;
    }

    /** The items `insertChildren` creates, newest first, as repeated insertion at one position leaves them. */
    static method NewItems(count: int, columns: int, parent: TreeItem) returns (news: seq<TreeItem>)
      ensures |news| == if count > 0 then count else 0
      ensures forall j :: 0 <= j < |news| ==>
        && fresh(news[j]) && news[j].Valid() && news[j].Repr == {news[j]}
        && news[j].parent == parent && news[j].model == Blank(columns)
      ensures forall a, b :: 0 <= a < b < |news| ==> news[a] != news[b]
    {
      news := [];
      var k := 0;
      while k < count
        invariant 0 <= k && (k == 0 || k <= count) && |news| == k
        invariant forall j :: 0 <= j < k ==>
          && fresh(news[j]) && news[j].Valid() && news[j].Repr == {news[j]}
          && news[j].parent == parent && news[j].model == Blank(columns)
        invariant forall a, b :: 0 <= a < b < k ==> news[a] != news[b]
      {
        var item := new TreeItem(Nones(columns), parent);
        news := [item] + news;
        k := k + 1;
      }
    }

    /** Splicing single-object subtrees from outside `repr` into children whose subtrees lie inside it keeps the subtrees disjoint. */
    static lemma SplicedDisjoint(before: seq<TreeItem>, news: seq<TreeItem>, position: nat, repr: set<TreeItem>)
      requires position <= |before|
      requires forall i :: 0 <= i < |before| ==> before[i].Repr <= repr
      requires forall a, b :: 0 <= a < b < |before| ==> before[a].Repr !! before[b].Repr
      requires forall j :: 0 <= j < |news| ==> news[j] !in repr && news[j].Repr == {news[j]}
      requires forall a, b :: 0 <= a < b < |news| ==> news[a] != news[b]
      ensures forall a, b :: 0 <= a < b < |before| + |news| ==>
        InsertedAt(before, position, news)[a].Repr !! InsertedAt(before, position, news)[b].Repr
    {
      var after := InsertedAt(before, position, news);
      InsertedAtIndex(before, position, news);
      forall a, b | 0 <= a < b < |after| ensures after[a].Repr !! after[b].Repr {
        var n := |news|;
        if position <= a < position + n && position <= b < position + n {
          assert after[a] == news[a - position] && after[b] == news[b - position];
        } else if position <= a < position + n {
          assert after[b] == before[if b < position then b else b - n];
        } else if position <= b < position + n {
          assert after[a] == before[if a < position then a else a - n];
        }
      }
    }

    /** Items outside this subtree, each a leaf whose parent is this node, spliced in at `position`. */
    method SpliceChildren(position: nat, news: seq<TreeItem>, ghost leaf: Tree, ghost added: set<TreeItem>)
      requires Valid() && position <= |children|
      requires forall j :: 0 <= j < |news| ==>
        && news[j] !in Repr && news[j] in added && news[j].Valid() && news[j].Repr == {news[j]}
        && news[j].parent == this && news[j].model == leaf
      requires forall a, b :: 0 <= a < b < |news| ==> news[a] != news[b]
      modifies this
      ensures children == InsertedAt(old(children), position, news)
      ensures model == old(model).(children := InsertedAt(old(model).children, position, seq(|news|, _ => leaf)))
      ensures Repr == old(Repr) + added
      ensures Valid() && cells == old(cells) && editable == old(editable) && parent == old(parent)
    {
      ghost var before := children;
      ghost var m := model;
      SplicedDisjoint(children, news, position, Repr);
      children := InsertedAt(children, position, news);
      Repr := Repr + added;
      model := m.(children := InsertedAt(m.children, position, seq(|news|, _ => leaf)));
      InsertedAtIndex(before, position, news);
      InsertedAtIndex(m.children, position, seq(|news|, _ => leaf));
      forall i | 0 <= i < |children|
        ensures children[i] in Repr && children[i] in children[i].Repr && children[i].Repr <= Repr && this !in children[i].Repr
        ensures children[i].parent == this && children[i].Valid() && children[i].model == model.children[i]
      {
        if position <= i < position + |news| {
          assert children[i] == news[i - position];
        }
      }
    }
  }

  /**
   * The structural part of `CustomTreeModel`: the root item holds the
   * header cells, its children are the top-level rows.
   */
  class CustomTreeModel {
    const root: TreeItem

    constructor(headers: TreeItem)
      ensures root == headers
    {
      root := headers;
    }

    /**
     * `setItems(treeItems)`: every row is removed, then each item is added
     * to the root in order.  The removed rows keep their parent pointer.
     */
    method SetItems(items: seq<TreeItem>)
      requires root.Valid()
      requires forall i :: 0 <= i < |items| ==> items[i].Valid() && root.Repr !! items[i].Repr
      requires forall i, j :: 0 <= i < j < |items| ==> items[i].Repr !! items[j].Repr
      modifies root, set x | x in items
      ensures root.children == items && root.Valid()
      ensures root.cells == old(root.cells) && root.editable == old(root.editable)
      ensures |root.model.children| == |items|
      ensures forall i :: 0 <= i < |items| ==> root.model.children[i] == old(items[i].model) && items[i].parent == root
    {
      var _ := root.RemoveChildren(0, |root.children|);
      assert root.children == [];
      var i := 0;
      while i < |items|
        invariant 0 <= i <= |items| && root.Valid() && root.children == items[..i]
        invariant root.cells == old(root.cells) && root.editable == old(root.editable)
        invariant |root.model.children| == i
        invariant forall j :: 0 <= j < i ==> root.model.children[j] == old(items[j].model)
        invariant forall j :: i <= j < |items| ==>
          && items[j].Valid() && root.Repr !! items[j].Repr
          && items[j].Repr == old(items[j].Repr) && items[j].model == old(items[j].model)
      {
        AddRow(items, i);
        i := i + 1;
      }
      assert items[..i] == items;
    }

    /** One turn of the loop of `setItems`: `items[i]` added to the root, the items after it untouched. */
    method AddRow(items: seq<TreeItem>, i: nat)
      requires i < |items| && root.Valid() && root.children == items[..i]
      requires forall j :: i <= j < |items| ==> items[j].Valid() && root.Repr !! items[j].Repr
      requires forall j, k :: i <= j < k < |items| ==> items[j].Repr !! items[k].Repr
      modifies root, items[i]
      ensures root.Valid() && root.children == items[..i + 1]
      ensures root.cells == old(root.cells) && root.editable == old(root.editable)
      ensures root.model.children == old(root.model.children) + [old(items[i].model)]
      ensures forall j :: i < j < |items| ==>
        && items[j].Valid() && root.Repr !! items[j].Repr
        && items[j].Repr == old(items[j].Repr) && items[j].model == old(items[j].model)
    {
      var item := items[i];
      assert forall j :: i < j < |items| ==> root !in items[j].Repr && item !in items[j].Repr by {
        assert item.Valid();
        assert root in root.Repr && item in item.Repr;
      }
      root.AddChild(item);
      assert root.children == items[..i + 1];
    }

    /**
     * `removeRow(row)`: `removeChildren(row, 1)` on the root with its status
     * dropped; the row equal to the row count raises `IndexError`.
     */
    method RemoveRow(row: int) returns (r: Result<()>)
      requires root.Valid()
      modifies root
      ensures r.Err? <==> row == |old(root.children)|
      ensures r.Err? ==> r.error == IndexError && root.children == old(root.children)
      ensures 0 <= row < |old(root.children)| ==> root.children == RemovedAt(old(root.children), row, 1)
      ensures row < 0 || row > |old(root.children)| ==> root.children == old(root.children)
      ensures root.Valid() && root.cells == old(root.cells)
    {
      var status := root.RemoveChildren(row, 1);
      r := if status.Err? then Err(status.error) else Ok(());
    }

    /**
     * `removeColumns(column, count)`: the columns go from the root and every
     * row below it; then, whatever the status, a root left without columns
     * loses all its rows.  An `IndexError` from the root stops it before the
     * rows are looked at.
     */
    method RemoveColumns(column: int, count: int) returns (r: Result<bool>)
      requires root.Valid()
      modifies root.Repr
      ensures root.Valid()
      ensures var (t, status) := RemoveColumnsTree(old(root.model), column, count);
        && r == status
        && root.model == if r.Ok? && t.cells == [] then t.(children := []) else t
    {
      r := root.RemoveColumns(column, count);
      if r.Err? {
        return;
      }
      if |root.cells| == 0 {
        var _ := root.RemoveChildren(0, |root.children|);
        assert root.children == [];
      }
    }
  }
}
