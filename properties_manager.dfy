/**
 * The older, read-mostly tree of the properties view: a `TreeItem` with a
 * row of text cells, an ordered child list and a parent pointer, and
 * `MyTreeModel`, whose column count is fixed by the header item it is built
 * with.
 */
module PropertiesManager {
  import opened Wrappers
  import opened Lists

  class TreeItem {
    var cells: seq<string>
    var children: seq<TreeItem>
    var parent: TreeItem?

    /** `TreeItem(dataItems, parent)`: no children; the parent does not list the new item. */
    constructor(cells: seq<string>, parent: TreeItem?)
      ensures this.cells == cells && children == [] && this.parent == parent
    {
      this.cells := cells;
      children := [];
      this.parent := parent;
    }

    /** `child(row)`: None when the guard rejects the row, `IndexError` at the row equal to the count. */
    function Child(row: int): (r: Result<Option<TreeItem>>)
      reads this
      ensures r.Err? <==> row == |children|
      ensures r.Err? ==> r.error == IndexError
      ensures 0 <= row < |children| ==> r == Ok(Some(children[row]))
      ensures row < 0 || row > |children| ==> r == Ok(None)
    {
      match Guard(row, |children|)
      case Rejected => Ok(None)
      case PastEnd => Err(IndexError)
      case At(i) => Ok(Some(children[i]))
    }

    function ChildCount(): nat
      reads this
    {
      |children|
    }

    function ColumnCount(): nat
      reads this
    {
      |cells|
    }

    /** `childIndex(item)`: the first position of the item, `ValueError` when it is not a child. */
    function ChildIndex(item: TreeItem): (r: Result<nat>)
      reads this
      ensures r.Ok? <==> item in children
      ensures r.Err? ==> r.error == ValueError
      ensures r.Ok? ==> r.value < |children| && children[r.value] == item && item !in children[..r.value]
    {
      IndexOf(children, item)
    }

    /** `row()`: 0 without a parent, else the first position among the parent's children. */
    function Row(): (r: Result<nat>)
      reads this, parent
      ensures parent == null ==> r == Ok(0)
      ensures parent != null ==> (r.Ok? <==> this in parent.children)
      ensures parent != null && r.Ok? ==>
        r.value < |parent.children| && parent.children[r.value] == this && this !in parent.children[..r.value]
    {
      if parent == null then Ok(0) else parent.ChildIndex(this)
    }

    /** `data(column)`: None when the guard rejects the column, `IndexError` at the column equal to the count. */
    function Data(column: int): (r: Result<Option<string>>)
      reads this
      ensures r.Err? <==> column == |cells|
      ensures r.Err? ==> r.error == IndexError
      ensures 0 <= column < |cells| ==> r == Ok(Some(cells[column]))
      ensures column < 0 || column > |cells| ==> r == Ok(None)
    {
      match Guard(column, |cells|)
      case Rejected => Ok(None)
      case PastEnd => Err(IndexError)
      case At(c) => Ok(Some(cells[c]))
    }

    /** `setData(column, data)`: True and only that cell changed when the column is in range. */
    method SetData(column: int, data: string) returns (r: Result<bool>)
      modifies this
      ensures r.Err? <==> column == |old(cells)|
      ensures r.Err? ==> r.error == IndexError
      ensures r == Ok(true) <==> 0 <= column < |old(cells)|
      ensures r == Ok(true) ==> cells == old(cells)[column := data] && Data(column) == Ok(Some(data))
      ensures r != Ok(true) ==> cells == old(cells)
      ensures children == old(children) && parent == old(parent)
    {
      match Guard(column, |cells|)
      case Rejected => r := Ok(false);
      case PastEnd => r := Err(IndexError);
      case At(c) =>
        cells := cells[c := data];
        r := Ok(true);
    }

    function ParentItem(): TreeItem?
      reads this
    {
      parent
    }

    method SetParentItem(item: TreeItem?)
      modifies this
      ensures parent == item && cells == old(cells) && children == old(children)
    {
      parent := item;
    }

    /**
     * `addChild(item)`: the item's parent becomes this node and it goes last
     * among the children.  Nothing stops an item from being added twice, or
     * to itself; its row is then its first position.
     */
    method AddChild(item: TreeItem)
      modifies this, item
      ensures children == old(children) + [item] && item.parent == this
      ensures cells == old(cells) && item.cells == old(item.cells)
      ensures item != this ==> parent == old(parent) && item.children == old(item.children)
      ensures ChildCount() == old(ChildCount()) + 1
      ensures item.Row().Ok?
      ensures item !in old(children) ==> item.Row() == Ok(|old(children)|)
      ensures item in old(children) ==> item.Row() == old(ChildIndex(item))
    {
      item.SetParentItem(this);
      children := children + [item];
      assert children[|children| - 1] == item;
      assert children[..|old(children)|] == old(children);
    }
  }

  /** The flags Qt gives an index: what `QAbstractItemModel.flags` returns, plus editability. */
  datatype ItemFlags = ItemFlags(selectable: bool, enabled: bool, editable: bool)

  const NoItemFlags := ItemFlags(false, false, false)
  const DefaultFlags := ItemFlags(true, true, false)

  class MyTreeModel {
    const root: TreeItem
    const numColumns: nat

    /** The column count is taken from the header item once, here. */
    constructor(headers: TreeItem)
      ensures root == headers && numColumns == headers.ColumnCount()
    {
      root := headers;
      numColumns := |headers.cells|;
    }

    /** `columnCount()`: the count taken at construction, whatever the header item holds now. */
    function ColumnCount(): nat
    {
      numColumns
    }

    /**
     * `setTreeItems(treeItems)`: the root's child list is emptied, then each
     * item is checked to have the model's column count and added.  The
     * first item that does not fails the `assert`, after the items before it
     * were added.  The removed children keep their parent pointer; the root's
     * cells, every item's children (but the root's) and the parent of every
     * item not yet reached stay as they were.
     */
    method SetTreeItems(items: seq<TreeItem>) returns (r: Result<()>)
      modifies root, set x | x in items
      ensures r.Ok? <==> forall j :: 0 <= j < |items| ==> |items[j].cells| == numColumns
      ensures r.Ok? ==> root.children == items
      ensures r.Err? ==> r.error == AssertionError
      ensures r.Err? ==> exists k :: (0 <= k < |items| && |items[k].cells| != numColumns && root.children == items[..k] &&
        (forall j :: 0 <= j < k ==> |items[j].cells| == numColumns) &&
        (forall j :: k <= j < |items| && items[j] !in items[..k] ==> items[j].parent == old(items[j].parent)))
      ensures forall j :: 0 <= j < |root.children| ==> root.children[j].parent == root
      ensures forall j :: 0 <= j < |items| ==> items[j].cells == old(items[j].cells)
      ensures root.cells == old(root.cells)
      ensures root !in items ==> root.parent == old(root.parent)
      ensures forall j :: 0 <= j < |items| && items[j] != root ==> items[j].children == old(items[j].children)
    {
      root.children := [];
      var i := 0;
      while i < |items|
        invariant 0 <= i <= |items| && root.children == items[..i]
        invariant forall j :: 0 <= j < i ==> |items[j].cells| == numColumns && items[j].parent == root
        invariant forall j :: 0 <= j < |items| ==> items[j].cells == old(items[j].cells)
        invariant root.cells == old(root.cells)
        invariant root !in items[..i] ==> root.parent == old(root.parent)
        invariant forall j :: 0 <= j < |items| && items[j] != root ==> items[j].children == old(items[j].children)
        invariant forall j :: i <= j < |items| && items[j] !in items[..i] ==> items[j].parent == old(items[j].parent)
      {
        if |items[i].cells| != numColumns {
          return Err(AssertionError);
        }
        AddItem(items, i);
        i := i + 1;
      }
      assert items[..i] == items;
      r := Ok(());
    }

    /** One turn of that loop, once the column count has been checked: `items[i]` added to the root. */
    method AddItem(items: seq<TreeItem>, i: nat)
      requires i < |items| && root.children == items[..i]
      requires forall j :: 0 <= j < i ==> items[j].parent == root
      modifies root, items[i]
      ensures root.children == items[..i + 1]
      ensures forall j :: 0 <= j <= i ==> items[j].parent == root
      ensures forall j :: 0 <= j < |items| ==> items[j].cells == old(items[j].cells)
      ensures root.cells == old(root.cells)
      ensures items[i] != root ==> root.parent == old(root.parent)
      ensures forall j :: 0 <= j < |items| && items[j] != root ==> items[j].children == old(items[j].children)
      ensures forall j :: 0 <= j < |items| && items[j] != items[i] ==> items[j].parent == old(items[j].parent)
    {
      root.AddChild(items[i]);
      assert root.children == items[..i + 1];
    }

    /**
     * `flags(index)`: no flags for the invalid index, the default flags for
     * every valid one; the column test after the `return` is never reached.
     */
    function Flags(valid: bool, column: int): (r: ItemFlags)
      ensures r == NoItemFlags <==> !valid
      ensures valid ==> r == DefaultFlags
      ensures !r.editable
    {
      if !valid then NoItemFlags else DefaultFlags
    }
  }
}
