/**
 * The queue properties pane: a queue's attributes and tags laid out as a
 * two-group tree, "Attributes" then "Tags", each row a name and a value.
 */
module PropertiesPane {
  import opened Wrappers
  import opened Dicts
  import opened TreeModel
  import Queues

  /** `_PROPS_EDITABLE`: which attribute values may be edited; none yet. */
  const PROPS_EDITABLE: map<string, bool> := map[
    "ApproximateNumberOfMessages" := false,
    "ApproximateNumberOfMessagesDelayed" := false,
    "ApproximateNumberOfMessagesNotVisible" := false,
    "ContentBasedDeduplication" := false,
    "CreatedTimestamp" := false,
    "DeduplicationScope" := false,
    "DelaySeconds" := false,
    "FifoQueue" := false,
    "FifoThroughputLimit" := false,
    "KmsDataKeyReusePeriodSeconds" := false,
    "KmsMasterKeyId" := false,
    "LastModifiedTimestamp" := false,
    "MaximumMessageSize" := false,
    "MessageRetentionPeriod" := false,
    "Policy" := false,
    "QueueArn" := false,
    "ReceiveMessageWaitTimeSeconds" := false,
    "RedriveAllowPolicy" := false,
    "RedrivePolicy" := false,
    "SqsManagedSseEnabled" := false,
    "VisibilityTimeout" := false
  ]

  const EMPTY: string := "<Empty>"
  const UNKNOWN: string := "<Unknown>"

  /** `Columns.propValue`. */
  const VALUE_COLUMN := 1

  /** Every attribute name of the dict has an entry in the editable table. */
  predicate Known(attrs: Dict<string, Option<string>>) {
    forall i :: 0 <= i < |attrs| ==> attrs[i].0 in PROPS_EDITABLE
  }

  /** `value or SpecialValues.unknown`: a missing or empty value shows as "<Unknown>". */
  function ValueOrUnknown(value: Option<string>): (r: string)
    ensures r != ""
    ensures value.Some? && value.value != "" ==> r == value.value
    ensures value.None? || value.value == "" ==> r == UNKNOWN
  {
    if value.None? || value.value == "" then UNKNOWN else value.value
  }

  /** A group header: the title, and "" when the group has rows, "<Empty>" when it has none. */
  function Group(title: string, nonEmpty: bool, rows: seq<Tree>): Tree {
    Tree([Some(title), Some(if nonEmpty then "" else EMPTY)], [false, false], rows)
  }

  function AttrRow(name: string, value: Option<string>): Tree
    requires name in PROPS_EDITABLE
  {
    Tree([Some(name), Some(ValueOrUnknown(value))], [false, PROPS_EDITABLE[name]], [])
  }

  function AttrRows(attrs: Dict<string, Option<string>>): seq<Tree>
    requires Known(attrs)
  {
    seq(|attrs|, i requires 0 <= i < |attrs| => AttrRow(attrs[i].0, attrs[i].1))
  }

  function TagRow(name: string, value: string): Tree {
    Tree([Some(name), Some(value)], [false, false], [])
  }

  function TagRows(tags: Dict<string, string>): seq<Tree> {
    seq(|tags|, i requires 0 <= i < |tags| => TagRow(tags[i].0, tags[i].1))
  }

  /** The "Attributes" group `setItems` builds. */
  function AttrsTree(attrs: Dict<string, Option<string>>): Tree
    requires Known(attrs)
  {
    Group("Attributes", attrs != [], AttrRows(attrs))
  }

  /** The "Tags" group `setItems` builds. */
  function TagsTree(tags: Dict<string, string>): Tree {
    Group("Tags", tags != [], TagRows(tags))
  }

  /** No cell of the subtree is editable. */
  ghost predicate NoneEditable(t: Tree) {
    && (forall i :: 0 <= i < |t.editable| ==> !t.editable[i])
    && (forall i :: 0 <= i < |t.children| ==> NoneEditable(t.children[i]))
  }

  /** Every entry of the editable table is False. */
  lemma NoEditableProperty(name: string)
    requires name in PROPS_EDITABLE
    ensures !PROPS_EDITABLE[name]
  {
  }

  /**
   * The tree `setItems` builds has two top-level rows, each with the title
   * in the name column, one child per entry in dict order, names in the
   * name column and values, a missing or empty attribute value shown as
   * "<Unknown>", in the value column.
   */
  lemma PaneLayout(attrs: Dict<string, Option<string>>, tags: Dict<string, string>)
    requires Known(attrs)
    ensures AttrsTree(attrs).cells[0] == Some("Attributes") && TagsTree(tags).cells[0] == Some("Tags")
    ensures AttrsTree(attrs).cells[1] == Some(if attrs == [] then EMPTY else "")
    ensures TagsTree(tags).cells[1] == Some(if tags == [] then EMPTY else "")
    ensures |AttrsTree(attrs).children| == |attrs| && |TagsTree(tags).children| == |tags|
    ensures forall i :: 0 <= i < |attrs| ==>
      AttrsTree(attrs).children[i].cells == [Some(attrs[i].0), Some(ValueOrUnknown(attrs[i].1))]
    ensures forall i :: 0 <= i < |tags| ==>
      TagsTree(tags).children[i].cells == [Some(tags[i].0), Some(tags[i].1)]
  {
  }

  /** Since the editable table holds only False, nothing in the built tree is editable. */
  lemma {:induction false} NothingEditable(attrs: Dict<string, Option<string>>, tags: Dict<string, string>)
    requires Known(attrs)
    ensures NoneEditable(AttrsTree(attrs)) && NoneEditable(TagsTree(tags))
  {
    var a := AttrsTree(attrs);
    forall i | 0 <= i < |a.children| ensures NoneEditable(a.children[i]) {
      NoEditableProperty(attrs[i].0);
      assert a.children[i].children == [];
    }
    var t := TagsTree(tags);
    forall i | 0 <= i < |t.children| ensures NoneEditable(t.children[i]) {
      assert t.children[i].children == [];
    }
  }

  /** The attributes `_get_queue_attributes` returns are all in the editable table, so showing them never raises `KeyError`. */
  lemma QueueAttributesKnown(service: map<string, string>)
    ensures var attrs := Queues.QueueAttributes(service);
      Known(seq(|attrs|, i requires 0 <= i < |attrs| => (attrs[i].0, Some(attrs[i].1))))
  {
    var attrs := Queues.QueueAttributes(service);
    assert forall n :: n in Queues.QUEUE_ATTRS ==> n in PROPS_EDITABLE;
    forall i | 0 <= i < |attrs| ensures attrs[i].0 in PROPS_EDITABLE {
      assert attrs[i].0 == KeysOf(attrs)[i] == Queues.QUEUE_ATTRS[i];
    }
  }

  class MQPropertiesPane {
    const model: CustomTreeModel

    /** `initUI`: a model whose header item holds the two column titles. */
    constructor()
      ensures model.root.Valid() && model.root.cells == [Some("Property name"), Some("Value")]
      ensures model.root.children == []
    {
      var headers := new TreeItem([Some("Property name"), Some("Value")], null);
      model := new CustomTreeModel(headers);
    }

    /**
     * `setItems(queueAttrs, queueTags)`: the "Attributes" group, then the
     * "Tags" group, become the model's rows.  An attribute name missing
     * from the editable table raises `KeyError` before the model is touched.
     */
    method SetItems(attrs: Dict<string, Option<string>>, tags: Dict<string, string>) returns (r: Result<()>)
      requires model.root.Valid()
      modifies model.root
      ensures r.Ok? <==> Known(attrs)
      ensures r.Err? ==> r.error == KeyError && model.root.children == old(model.root.children)
      ensures r.Err? ==> model.root.model == old(model.root.model)
      ensures r.Ok? ==> model.root.model.children == [AttrsTree(attrs), TagsTree(tags)]
      ensures model.root.Valid() && model.root.cells == old(model.root.cells)
    {
      var itemAttrs := AttributesItem(attrs);
      if itemAttrs.Err? {
        return Err(itemAttrs.error);
      }
      var itemTags := TagsItem(tags);
      model.SetItems([itemAttrs.value, itemTags]);
      r := Ok(());
    }

    /** The first loop of `setItems`: the "Attributes" group with one row per attribute. */
    static method AttributesItem(attrs: Dict<string, Option<string>>) returns (r: Result<TreeItem>)
      ensures r.Ok? <==> Known(attrs)
      ensures r.Err? ==> r.error == KeyError
      ensures r.Ok? ==> fresh(r.value.Repr) && r.value.Valid() && r.value.model == AttrsTree(attrs)
    {
      var group := new TreeItem([Some("Attributes"), Some(if attrs != [] then "" else EMPTY)], null);
      assert Falses(2) == [false, false];
      var i := 0;
      while i < |attrs|
        invariant 0 <= i <= |attrs| && Known(attrs[..i])
        invariant group.Valid() && fresh(group.Repr)
        invariant group.model == Group("Attributes", attrs != [], AttrRows(attrs[..i]))
      {
        var (name, value) := attrs[i];
        if name !in PROPS_EDITABLE {
          return Err(KeyError);
        }
        AddRow(group, [Some(name), Some(ValueOrUnknown(value))], PROPS_EDITABLE[name]);
        assert AttrRows(attrs[..i + 1]) == AttrRows(attrs[..i]) + [AttrRow(name, value)];
        i := i + 1;
      }
      assert attrs[..i] == attrs;
      r := Ok(group);
    }

    /** One turn of either loop: a new two-cell item, its value column editable or not, added last to the group. */
    static method AddRow(group: TreeItem, cells: seq<Option<string>>, isEditable: bool)
      requires group.Valid() && |cells| == 2
      modifies group
      ensures group.Valid() && old(group.Repr) <= group.Repr && fresh(group.Repr - old(group.Repr))
      ensures group.model == old(group.model).(children := old(group.model).children + [Tree(cells, [false, isEditable], [])])
    {
      var item := new TreeItem(cells, null);
      assert Falses(2) == [false, false];
      var flagged := item.SetEditable(VALUE_COLUMN, isEditable);
      assert flagged.Ok? && flagged.value;
      assert item.model == Tree(cells, [false, isEditable], []);
      group.AddChild(item);
    }

    /** The second loop of `setItems`: the "Tags" group with one row per tag, none editable. */
    static method TagsItem(tags: Dict<string, string>) returns (r: TreeItem)
      ensures fresh(r.Repr) && r.Valid() && r.model == TagsTree(tags)
    {
      r := new TreeItem([Some("Tags"), Some(if tags != [] then "" else EMPTY)], null);
      assert Falses(2) == [false, false];
      var i := 0;
      while i < |tags|
        invariant 0 <= i <= |tags|
        invariant r.Valid() && fresh(r.Repr)
        invariant r.model == Group("Tags", tags != [], TagRows(tags[..i]))
      {
        var (name, value) := tags[i];
        AddRow(r, [Some(name), Some(value)], false);
        assert TagRows(tags[..i + 1]) == TagRows(tags[..i]) + [TagRow(name, value)];
        i := i + 1;
      }
      assert tags[..i] == tags;
    }
  }
}
