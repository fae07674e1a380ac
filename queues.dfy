/**
 * Queue metadata normalisation (sqs_gui/app/queues.py): the queue name taken
 * from its ARN, and the service's attribute dict projected onto a fixed key list.
 */
module Queues {
  import opened Wrappers
  import opened Dicts

  const UNKNOWN: string := "<Unknown>"

  /** `_QUEUE_ATTRS`: the attributes shown for every queue, in display order. */
  const QUEUE_ATTRS: seq<string> := [
    "ApproximateNumberOfMessages",
    "ApproximateNumberOfMessagesDelayed",
    "ApproximateNumberOfMessagesNotVisible",
    "ContentBasedDeduplication",
    "CreatedTimestamp",
    "DeduplicationScope",
    "DelaySeconds",
    "FifoQueue",
    "FifoThroughputLimit",
    "KmsDataKeyReusePeriodSeconds",
    "KmsMasterKeyId",
    "LastModifiedTimestamp",
    "MaximumMessageSize",
    "MessageRetentionPeriod",
    "Policy",
    "QueueArn",
    "ReceiveMessageWaitTimeSeconds",
    "RedriveAllowPolicy",
    "RedrivePolicy",
    "SqsManagedSseEnabled",
    "VisibilityTimeout"
  ]

  /** `s.split(":")[-1]`: the text after the last ':', or all of `s` when it has none. */
  function LastField(s: string): (r: string)
    ensures ':' !in r
    ensures |r| <= |s| && r == s[|s| - |r|..]
    ensures |r| < |s| ==> s[|s| - |r| - 1] == ':'
    decreases |s|
  {
    if s == [] then []
    else if s[|s| - 1] == ':' then []
    else
      var init, c := s[..|s| - 1], s[|s| - 1];
      assert s == init + [c];
      var r0 := LastField(init);
      SuffixSnoc(init, r0, c);
      r0 + [c]
  }

  /** A suffix that follows a ':' (or is everything) stays one when a character is appended to both. */
  lemma SuffixSnoc(init: string, r0: string, c: char)
    requires |r0| <= |init| && r0 == init[|init| - |r0|..]
    requires |r0| < |init| ==> init[|init| - |r0| - 1] == ':'
    ensures var s, r := init + [c], r0 + [c];
      |r| <= |s| && r == s[|s| - |r|..] && (|r| < |s| ==> s[|s| - |r| - 1] == ':')
  {
    var s, r := init + [c], r0 + [c];
    assert s[|s| - |r|..] == init[|init| - |r0|..] + [c];
    if |r| < |s| {
      assert s[|s| - |r| - 1] == init[|init| - |r0| - 1];
    }
  }

  /** The field after the last separator is exactly the tail that follows it. */
  lemma {:induction false} LastFieldAfterColon(prefix: string, tail: string)
    requires ':' !in tail
    ensures LastField(prefix + [':'] + tail) == tail
  {
    var s := prefix + [':'] + tail;
    var r := LastField(s);
    assert s[|s| - |tail| - 1] == ':';
    assert r == s[|s| - |r|..] == tail;
  }

  /**
   * `_get_queue_name` as last defined in the class (it overrides the earlier
   * definition): the text after the last ':' of `QueueArn`, "<Unknown>" without one.
   */
  function QueueName(attrs: map<string, string>): (r: string)
    ensures ':' !in r
    ensures "QueueArn" !in attrs ==> r == UNKNOWN
    ensures "QueueArn" in attrs ==>
      var arn := attrs["QueueArn"];
      |r| <= |arn| && r == arn[|arn| - |r|..] && (|r| == |arn| || arn[|arn| - |r| - 1] == ':')
  {
    if "QueueArn" in attrs then LastField(attrs["QueueArn"])
    else
      LastFieldAfterColon([], UNKNOWN);
      assert [] + [':'] + UNKNOWN == ":<Unknown>";
      LastField(":<Unknown>")
  }

  /** `_get_queue_attributes`: one entry per name of `_QUEUE_ATTRS`, in that order. */
  function QueueAttributes(service: map<string, string>): (r: Dict<string, string>)
    ensures KeysOf(r) == QUEUE_ATTRS
    ensures forall i :: 0 <= i < |r| ==>
      r[i].1 == (if QUEUE_ATTRS[i] in service then service[QUEUE_ATTRS[i]] else UNKNOWN)
  {
    seq(|QUEUE_ATTRS|, i requires 0 <= i < |QUEUE_ATTRS| =>
      (QUEUE_ATTRS[i], if QUEUE_ATTRS[i] in service then service[QUEUE_ATTRS[i]] else UNKNOWN))
  }

  lemma QueueAttrsDistinct()
    ensures forall i, j :: 0 <= i < j < |QUEUE_ATTRS| ==> QUEUE_ATTRS[i] != QUEUE_ATTRS[j]
  {
  }

  /**
   * Read as a dict, the projection maps every listed name to the service's value
   * or "<Unknown>", and nothing else: extra service attributes are dropped.
   */
  lemma AttributesAsDict(service: map<string, string>, name: string)
    ensures var attrs := QueueAttributes(service);
      && (name in QUEUE_ATTRS <==> Get(attrs, name).Some?)
      && (name in QUEUE_ATTRS ==>
            Get(attrs, name) == Some(if name in service then service[name] else UNKNOWN))
  {
    var attrs := QueueAttributes(service);
    QueueAttrsDistinct();
    assert DistinctKeys(attrs) by {
      forall i, j | 0 <= i < j < |attrs| ensures attrs[i].0 != attrs[j].0 {
        assert attrs[i].0 == KeysOf(attrs)[i] && attrs[j].0 == KeysOf(attrs)[j];
      }
    }
    if name in QUEUE_ATTRS {
      var i :| 0 <= i < |QUEUE_ATTRS| && QUEUE_ATTRS[i] == name;
      assert attrs[i].0 == KeysOf(attrs)[i];
      GetAt(attrs, i);
    }
  }

  /** `QueueInfo`; the dump date is the caller's clock reading. */
  datatype QueueInfo = QueueInfo(
    url: string,
    name: string,
    numMessages: string,
    dumpDate: int,
    tags: Dict<string, string>,
    attributes: Dict<string, string>)

  /** `MessageQueue`: the queue's URL and the name fixed when it is constructed. */
  datatype MessageQueue = MessageQueue(url: string, queueName: string) {
    /** The `name` property. */
    function Name(): string { queueName }
  }

  function NewMessageQueue(url: string, attrs: map<string, string>): (q: MessageQueue)
    ensures q.url == url
    ensures ':' !in q.Name()
    ensures "QueueArn" !in attrs ==> q.Name() == UNKNOWN
    ensures "QueueArn" in attrs ==> q.Name() == LastField(attrs["QueueArn"])
  {
    MessageQueue(url, QueueName(attrs))
  }

  /**
   * `info`: the service's attributes and tags are inputs (they come from network
   * calls); `numMessages` is the "ApproximateNumberOfMessages" entry, which is
   * always there because that name heads `_QUEUE_ATTRS`.
   */
  function Info(q: MessageQueue, service: map<string, string>, tags: Dict<string, string>, now: int): (r: QueueInfo)
    ensures r.name == q.Name() && r.url == q.url && r.tags == tags && r.dumpDate == now
    ensures r.numMessages ==
      if "ApproximateNumberOfMessages" in service then service["ApproximateNumberOfMessages"] else UNKNOWN
    ensures KeysOf(r.attributes) == QUEUE_ATTRS
    ensures forall i :: 0 <= i < |r.attributes| ==>
      r.attributes[i].1 == (if QUEUE_ATTRS[i] in service then service[QUEUE_ATTRS[i]] else UNKNOWN)
  {
    var attributes := QueueAttributes(service);
    AttributesAsDict(service, "ApproximateNumberOfMessages");
    var numMessages := Get(attributes, "ApproximateNumberOfMessages").value;
    QueueInfo(q.url, q.queueName, numMessages, now, tags, attributes)
  }
}
