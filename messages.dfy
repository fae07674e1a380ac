/**
 * The message record the harvester publishes and the disk cache stores
 * (class `Message` of sqs_gui/app/receiver.py).
 */
module Messages {
  import opened Wrappers
  import opened Dicts

  newtype byte = x: int | 0 <= x < 256

  type Id = string

  /** A `BinaryValue` is raw bytes as received, and text once it has been through the cache. */
  datatype Blob = Bytes(bytes: seq<byte>) | Text(text: string)

  /**
   * One message attribute: the `DataType`, `StringValue` and `BinaryValue`
   * keys of its dict, None where the key is absent.
   */
  datatype AttrEntry = AttrEntry(dataType: Option<string>, stringValue: Option<string>, binaryValue: Option<Blob>)

  datatype Message = Message(
    id: Id,
    body: string,
    md5OfBody: string,
    attributes: Option<Dict<string, AttrEntry>>,
    md5OfAttributes: Option<string>,
    sysAttributes: map<string, string>,
    receiptHandle: string)

  /** The identifiers carried by a sequence of messages. */
  function IdsOf(ms: seq<Message>): (r: set<Id>)
    ensures forall i :: 0 <= i < |ms| ==> ms[i].id in r
    ensures forall id :: id in r ==> exists i :: 0 <= i < |ms| && ms[i].id == id
  {
    set i | 0 <= i < |ms| :: ms[i].id
  }

  /** No identifier occurs twice. */
  ghost predicate UniqueIds(ms: seq<Message>) {
    forall i, j :: 0 <= i < j < |ms| ==> ms[i].id != ms[j].id
  }

  lemma IdsOfSingleton(m: Message)
    ensures IdsOf([m]) == {m.id}
  {
    assert [m][0] == m;
  }

  lemma IdsOfConcat(a: seq<Message>, b: seq<Message>)
    ensures IdsOf(a + b) == IdsOf(a) + IdsOf(b)
  {
    var ab := a + b;
    forall id | id in IdsOf(ab) ensures id in IdsOf(a) + IdsOf(b) {
      var i :| 0 <= i < |ab| && ab[i].id == id;
      if i >= |a| { assert b[i - |a|].id == id; }
    }
    forall id | id in IdsOf(a) + IdsOf(b) ensures id in IdsOf(ab) {
      if id in IdsOf(a) {
        var i :| 0 <= i < |a| && a[i].id == id;
        assert ab[i].id == id;
      } else {
        var j :| 0 <= j < |b| && b[j].id == id;
        assert ab[|a| + j].id == id;
      }
    }
  }
}
