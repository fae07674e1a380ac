# SQS GUI core, modelled in Dafny

This project models the non-UI core of the SQS desktop browser `sqs-gui`:

- **Queue metadata** (`queues.dfy`, module `Queues`). A queue's name is taken from its ARN. The service's attribute dict is projected onto the fixed `_QUEUE_ATTRS` key list, with `"<Unknown>"` for missing values. The `info` record is assembled from these.
- **The message harvester** (`receiver.dfy`, module `Receiver`). `SQSMessageIterator` checks its worker count. Its worker threads deduplicate every polled batch against a shared id set under the lock, and publish new messages to the output queue. Each worker stops on the shutdown flag, on an empty batch, or on the count condition. The checker thread waits, sets the flag, joins the workers and pushes the end marker. `__next__` hands out messages until that marker. The pure part is a fold, `DeliverBatch`, with a reference definition `FirstSeen`. The class `MessageIterator` carries the state, and ghost fields record what was emitted and delivered.
- **The disk cache** (`storage.dfy`, module `Storage`). This covers:
  - the per-platform data directory;
  - `serialize`/`deserialize`, which Base85-encode binary attribute values;
  - the storage thread that drains the save queue into one file per message id;
  - the tolerant `loadMessages`.

  Base85, UTF-8 and JSON/pydantic are given as a `Codec` of function values. `Lossless` states what the round trip needs of them. The work directory is a map from file name to text.
- **The editable tree model** (`tree_model.dfy`, module `TreeModel`). `TreeItem` has cells, per-cell editable flags, children and a parent pointer. It is a class with a ghost footprint `Repr` and a ghost value `model : Tree` of its subtree. The recursive column operations are specified by functions on `Tree`. `CustomTreeModel` covers `setItems`, `removeRow` and `removeColumns` on the root item.
- **The older properties tree** (`properties_manager.dfy`, module `PropertiesManager`). Its `TreeItem` has no editable flags. `MyTreeModel` fixes its column count at construction and asserts it in `setTreeItems`.
- **The properties pane** (`properties_pane.dfy`, module `PropertiesPane`). `setItems` lays out the "Attributes" and "Tags" groups.
- **Shared definitions** (`common.dfy`, `messages.dfy`):
  - `Option`/`Result` and the Python exceptions raised;
  - ordered dicts as sequences of pairs;
  - the Python index guard `i < 0 or i > len`: at `i == len` it lets an `IndexError` through, and it is modelled as the three-way `Slot`;
  - the `Message` record.

Where the source's behaviour differs from what its comments and annotations suggest, the model follows the code:

- The comment at `sqs_gui/app/receiver.py:188-189` speaks of the "first N messages". The count is tested only after a whole batch, so a harvest can publish more than `count` messages (`Receiver.CountMayOvershoot`).
- The count is the size of the shared id set (`sqs_gui/app/receiver.py:191`), so the ids of the exclude set count toward it (`Receiver.ExcludedCountTowardCount`).
- `Message.attributes` is typed as a dict of dicts (`sqs_gui/app/receiver.py:51`) and the received binary values are bytes. `deserialize` decodes a binary value back to `str` (`sqs_gui/app/storage.py:88`), so a cached message comes back in its "stored" form (`Storage.StoredMessage`), not identical.
- `CustomTreeModel.removeRow` is annotated `-> bool` (`sqs_gui/app/components/tree_model.py:301`) but returns nothing.
- `queues.py` defines `_get_queue_name` twice (`sqs_gui/app/queues.py:93-95` and `111-113`). The second definition, with the `"<Unknown>"` default, is the one in effect.

## Model

| member | source | states |
|---|---|---|
| Lists.Guard | sqs_gui/app/components/tree_model.py:28-33 | the guard `index < 0 or index > len` rejects exactly those indices, lets `index == len` through to an `IndexError`, and gives a real position otherwise |
| Lists.IndexOf | sqs_gui/app/components/tree_model.py:123-124 | `list.index`: Ok exactly when the element occurs, then its first position; `ValueError` otherwise |
| Lists.RemoveInserted | sqs_gui/app/components/tree_model.py:69-89 | deleting `count` items at a position right after inserting them there gives the list back |
| Queues.LastField | sqs_gui/app/queues.py:113 | `split(":")[-1]` is a suffix with no ':' that is either the whole string or preceded by ':' |
| Queues.LastFieldAfterColon | sqs_gui/app/queues.py:113 | the last field of `prefix + ":" + tail` is `tail` when `tail` has no ':' |
| Queues.QueueName | sqs_gui/app/queues.py:111-113 | the name is the ARN's text after its last ':', and "<Unknown>" when the queue has no `QueueArn` |
| Queues.QueueAttributes | sqs_gui/app/queues.py:102-109 | the keys are exactly `_QUEUE_ATTRS` in order; each value is the service's value or "<Unknown>" |
| Queues.QueueAttrsDistinct | sqs_gui/app/queues.py:47-69 | the attribute key list has no duplicate |
| Queues.AttributesAsDict | sqs_gui/app/queues.py:109 | read as a dict, the projection holds a name iff it is listed, with the service's value or "<Unknown>"; other service attributes are dropped |
| Queues.NewMessageQueue | sqs_gui/app/queues.py:85-91 | the queue keeps its url; its name is the last ':'-field of the ARN, and "<Unknown>" without an ARN |
| Queues.Info | sqs_gui/app/queues.py:119-131 | the info carries the queue's name, url, tags and date; `numMessages` is the service's count or "<Unknown>"; the attributes are `_QUEUE_ATTRS` in order, each with the service's value or "<Unknown>" |
| Receiver.WorkerCount | sqs_gui/app/receiver.py:86-90 | a given count is used when positive and is a `ValueError` otherwise; with none, the CPU count is used, or 2 when it is unknown or 0 |
| Receiver.DeliverBatchEffect | sqs_gui/app/receiver.py:166-186 | handling a batch adds all its ids to the set and appends what it publishes to the queue |
| Receiver.DeliverBatchConcat | sqs_gui/app/receiver.py:166-186 | handling two batches in turn is handling their concatenation |
| Receiver.PublishedConcat | sqs_gui/app/receiver.py:168-186 | publishing `a + b` publishes `a`, then what of `b` is new once `a`'s ids are known |
| Receiver.PublishedIsFirstSeen | sqs_gui/app/receiver.py:168-186 | the worker's fold publishes exactly the first occurrence of every id that is not yet known, in batch order |
| Receiver.FirstSeenFromBatch | sqs_gui/app/receiver.py:168-186 | every published message comes from the batch |
| Receiver.FirstSeenIds | sqs_gui/app/receiver.py:168-186 | the published ids are the batch's ids minus the known ones |
| Receiver.FirstSeenUnique | sqs_gui/app/receiver.py:168-186 | no id is published twice |
| Receiver.PublishedUnique | sqs_gui/app/receiver.py:168-186 | what a batch publishes is id-unique, carries exactly its new ids, and is taken from the batch |
| Receiver.SeenIsSkipped | sqs_gui/app/receiver.py:171-172 | a message whose id is known changes nothing |
| Receiver.Worker | sqs_gui/app/receiver.py:143-192 | a worker never makes more polls than it is given |
| Receiver.WorkerExit | sqs_gui/app/receiver.py:143-192 | a worker exits on the flag iff it is set, before polling; on an empty last batch; or after a non-empty batch that meets the count condition; or it is still running when the polls run out, its last batch non-empty and the count unmet. Its effect is that of its polled batches in order |
| Receiver.WorkerRunsUntilStop | sqs_gui/app/receiver.py:143-192 | before its last poll every batch was non-empty and left the count condition unmet |
| Receiver.AllIgnoresCount | sqs_gui/app/receiver.py:190 | under `all` a worker never stops on the count |
| Receiver.ExcludedCountTowardCount | sqs_gui/app/receiver.py:190-192 | when the set already holds `count` ids, the first non-empty batch stops the worker |
| Receiver.CountMayOvershoot | sqs_gui/app/receiver.py:166-192 | a batch publishes all its new messages before the count is tested |
| Receiver.PublishKeepsDedup | sqs_gui/app/receiver.py:168-186 | after each batch, the id set is the exclude set plus the emitted ids, emitted ids are unique, and none is excluded |
| Receiver.PublishKeepsQueue | sqs_gui/app/receiver.py:186 | queueing a batch's new messages keeps "delivered, then pending, is everything emitted" |
| Receiver.EndKeepsQueue | sqs_gui/app/receiver.py:210 | the end marker is pushed once and stays last |
| Receiver.TakeKeepsQueue | sqs_gui/app/receiver.py:110-117 | taking a message moves it to the delivered ones; taking the marker means everything emitted was delivered |
| Receiver.DeliveredUnique | sqs_gui/app/receiver.py:110-117 | the consumer receives a prefix of the emitted messages, with no id twice and no excluded id |
| Receiver.IdSet.constructor | sqs_gui/app/receiver.py:84 | the exclude set holds the caller's ids |
| Receiver.MessageIterator.constructor | sqs_gui/app/receiver.py:92-104 | one unstarted thread per worker, an empty output queue, the flag clear, and the caller's exclude set shared, not copied |
| Receiver.MessageIterator.Create | sqs_gui/app/receiver.py:78-104 | `ValueError` iff the settled worker count is not positive; otherwise exactly that many unstarted workers, the given conditions, the flag clear, nothing emitted or delivered, and the caller's exclude set shared |
| Receiver.MessageIterator.Start | sqs_gui/app/receiver.py:119-124 | the workers start in order; starting a thread a second time is a `RuntimeError` at the first worker already started, with the threads before it started and the rest unchanged |
| Receiver.IterTwice | sqs_gui/app/receiver.py:106-108 | a second `iter()` on an iterator whose first one succeeded raises `RuntimeError` and leaves every worker running |
| Receiver.MessageIterator.DedupBatch | sqs_gui/app/receiver.py:166-186 | the loop over a batch adds the batch's ids to the set and queues exactly what `Published` says |
| Receiver.MessageIterator.WorkerLoop | sqs_gui/app/receiver.py:143-192 | the worker loop ends with the exit, poll count, id set and queue that `Worker` gives |
| Receiver.MessageIterator.RunWorker | sqs_gui/app/receiver.py:135-192 | a run of one worker keeps the dedup and queue invariants, and appends what `Worker` publishes |
| Receiver.MessageIterator.CompleteIteration | sqs_gui/app/receiver.py:143-192 | a worker joined after shutdown publishes its in-flight batch; it exits on the flag if it had not polled, on the empty batch, or, after a non-empty one, on the count exactly when the count test succeeds and on the flag otherwise |
| Receiver.MessageIterator.JoinWorkers | sqs_gui/app/receiver.py:206-208 | joining publishes the in-flight batches in worker order; every worker exits as `CompleteIteration` says, its count test seeing the ids of the batches joined before it |
| Receiver.MessageIterator.Finish | sqs_gui/app/receiver.py:206-210 | after the flag and the joins, the single end marker follows everything emitted, every worker exited as in `JoinWorkers`, and the invariants hold |
| Receiver.MessageIterator.Next | sqs_gui/app/receiver.py:110-117 | `__next__` returns the head message, or stops at the marker once everything emitted was delivered |
| Receiver.ReceiveMessages | sqs_gui/app/receiver.py:213-227 | the iterator runs over the caller's exclude set, or over the one default set when the argument is omitted |
| Receiver.DefaultExcludeShared | sqs_gui/app/receiver.py:213-227 | two `receiveMessages` calls that omit the exclude set share its one default set (line 218): everything the first emitted is excluded from the second |
| Receiver.MessageIterator.CheckerWait | sqs_gui/app/receiver.py:198-204 | the checker sleeps at most `round(timeout/0.5)` times; it stops early exactly at the first test that found every worker dead |
| Storage.DataDir | sqs_gui/app/storage.py:34-48 | `ValueError` exactly off win32, linux and darwin; otherwise home, the platform folders, "SqsGui" and the queue name |
| Storage.DataDirInjective | sqs_gui/app/storage.py:34-48 | two queues or platforms never share a directory under one home |
| Storage.MapEntries | sqs_gui/app/storage.py:74-76 | the value loop rewrites every value and keeps the keys; its error is that of the first failing entry |
| Storage.RewriteValues | sqs_gui/app/storage.py:86-88 | the in-place value loop computes `MapEntries` |
| Storage.EntryRoundTrip | sqs_gui/app/storage.py:75-88 | a storable attribute encodes to text, and decodes to its stored form |
| Storage.SerializeRoundTrip | sqs_gui/app/storage.py:70-90 | a cacheable message serializes, and deserializes to its stored form |
| Storage.SerializeTwiceFails | sqs_gui/app/storage.py:73-78 | once a binary attribute was encoded in place, serializing again raises `TypeError` |
| Storage.Drain | sqs_gui/app/storage.py:92-102 | the thread consumes a prefix of the queue; it exits if the queue holds a marker; with the flag set it takes one item and writes nothing |
| Storage.DrainUpToMarker | sqs_gui/app/storage.py:92-102 | everything ahead of the first marker is written in order, and what follows the marker is left |
| Storage.WriteAllKeys | sqs_gui/app/storage.py:100-102 | a file exists after writing iff it existed or some message has its name; untouched files keep their text |
| Storage.WriteAllLast | sqs_gui/app/storage.py:100-102 | a message's file holds its serialization when no later message has its id |
| Storage.Loaded | sqs_gui/app/storage.py:104-119 | loading never yields more messages than files |
| Storage.LoadedOne | sqs_gui/app/storage.py:108-112 | one file gives its message when it deserializes, and nothing otherwise |
| Storage.LoadedConcat | sqs_gui/app/storage.py:114-117 | loading two listings in turn is loading their concatenation |
| Storage.LoadedSkipsFailure | sqs_gui/app/storage.py:108-117 | a file that fails to deserialize is skipped, and the files after it still load |
| Storage.LoadedAll | sqs_gui/app/storage.py:104-119 | when every file deserializes, each yields its message, in listing order |
| Storage.SaveThenLoad | sqs_gui/app/storage.py:92-119 | distinct cacheable messages, written and then loaded by id, come back in order in their stored form |
| Storage.Serialize | sqs_gui/app/storage.py:70-78 | `serialize` computes `Serialized` |
| Storage.Deserialize | sqs_gui/app/storage.py:80-90 | `deserialize` computes `Deserialized` |
| Storage.MessageDiskStorage.constructor | sqs_gui/app/storage.py:27-32 | an empty queue, the flag clear, and a thread not started |
| Storage.MessageDiskStorage.Create | sqs_gui/app/storage.py:27-32 | `ValueError` iff `getDataDir` raises; otherwise the work directory is the queue's data directory |
| Storage.MessageDiskStorage.SaveMessage | sqs_gui/app/storage.py:50-51 | the message joins the back of the queue |
| Storage.MessageDiskStorage.StopReceivingJobs | sqs_gui/app/storage.py:56-57 | the end marker joins the back of the queue |
| Storage.MessageDiskStorage.StartReceivingJobs | sqs_gui/app/storage.py:53-54 | the first start launches the thread; a second raises `RuntimeError` |
| Storage.MessageDiskStorage.WriterLoop | sqs_gui/app/storage.py:94-102 | the thread's loop computes `Drain` |
| Storage.MessageDiskStorage.RunWriter | sqs_gui/app/storage.py:92-102 | the scheduled thread changes the files and the queue as `Drain` says, and leaves no unfinished job |
| Storage.MessageDiskStorage.HasUnfinishedJobs | sqs_gui/app/storage.py:67-68 | unfinished jobs need a non-empty queue and a live thread: items queued for a thread never started or already returned do not count |
| Storage.MessageDiskStorage.WaitPendingJobsDone | sqs_gui/app/storage.py:63-65 | queues the marker and joins; a live thread drains up to it and leaves no unfinished job; a thread never started raises `RuntimeError` |
| Storage.MessageDiskStorage.AbortPendingJobs | sqs_gui/app/storage.py:59-61 | sets the flag, so the thread takes one item and writes nothing more |
| Storage.MessageDiskStorage.LoadMessages | sqs_gui/app/storage.py:104-119 | loading computes `Loaded` over the listed files' contents |
| TreeModel.Nones | sqs_gui/app/components/tree_model.py:75 | `[None] * k` has `max(k, 0)` empty cells |
| TreeModel.InsertColumnsCount | sqs_gui/app/components/tree_model.py:91-102 | at the node, `columns` empty cells go in at the position; the cells around them and the flags are unchanged |
| TreeModel.RemoveColumnsOutcome | sqs_gui/app/components/tree_model.py:104-115 | False iff the guard rejects; the only error is `IndexError`, raised at the node exactly when the deletions run off the end, which leaves the cells cut at the position; on success `columns` cells are gone |
| TreeModel.RemoveAfterInsertColumns | sqs_gui/app/components/tree_model.py:91-115 | `removeColumns` undoes `insertColumns` at the same position and count, over the whole subtree |
| TreeModel.TreeItem.constructor | sqs_gui/app/components/tree_model.py:18-26 | the given cells, all flags False, no children |
| TreeModel.TreeItem.Data | sqs_gui/app/components/tree_model.py:43-48 | None when the guard rejects; `IndexError` at the count; the cell otherwise |
| TreeModel.TreeItem.IsEditable | sqs_gui/app/components/tree_model.py:28-33 | False when the guard rejects; `IndexError` at the flag count; the flag otherwise |
| TreeModel.TreeItem.Child | sqs_gui/app/components/tree_model.py:58-63 | None when the guard rejects; `IndexError` at the count; the child otherwise |
| TreeModel.TreeItem.ChildIndex | sqs_gui/app/components/tree_model.py:123-124 | Ok iff the item is a child, at its first position; `ValueError` otherwise |
| TreeModel.TreeItem.Row | sqs_gui/app/components/tree_model.py:126-131 | 0 without a parent; else the first position among the parent's children, an error if it is not there |
| TreeModel.TreeItem.RowOfChild | sqs_gui/app/components/tree_model.py:126-131 | in a well-formed tree, every child's row is its position |
| TreeModel.TreeItem.SetData | sqs_gui/app/components/tree_model.py:50-56 | True iff the column is in range, and then only that cell changes; `IndexError` at the count |
| TreeModel.TreeItem.SetEditable | sqs_gui/app/components/tree_model.py:35-41 | True iff the column is in range, and then only that flag changes; `IndexError` at the count |
| TreeModel.TreeItem.AddChild | sqs_gui/app/components/tree_model.py:65-67 | the item goes last with this node as parent, and its row is its position |
| TreeModel.TreeItem.InsertNones | sqs_gui/app/components/tree_model.py:96-97 | the repeated insert puts `columns` empty cells at the position |
| TreeModel.TreeItem.InsertColumns | sqs_gui/app/components/tree_model.py:91-102 | True iff the guard accepts; the subtree becomes `InsertColumnsTree` of the old one |
| TreeModel.TreeItem.InsertColumnsBelow | sqs_gui/app/components/tree_model.py:99-100 | every child's subtree gets the columns inserted |
| TreeModel.TreeItem.DeleteAt | sqs_gui/app/components/tree_model.py:109-110 | repeated `del` removes `count` items, or overruns with an `IndexError` exactly when too few follow the position, leaving the list cut there |
| TreeModel.TreeItem.RemoveColumns | sqs_gui/app/components/tree_model.py:104-115 | the subtree and status become `RemoveColumnsTree` of the old subtree |
| TreeModel.TreeItem.RemoveColumnsBelow | sqs_gui/app/components/tree_model.py:112-113 | the children are visited in order up to the first `IndexError` |
| TreeModel.TreeItem.RemoveChildren | sqs_gui/app/components/tree_model.py:81-89 | False iff the guard rejects; True with `count` children deleted at the position; `IndexError` iff too few follow, with the children cut at the position |
| TreeModel.TreeItem.RemoveChild | sqs_gui/app/components/tree_model.py:117-118 | the first occurrence is removed, and the item is no longer a child; `ValueError` with nothing changed when it is absent |
| TreeModel.TreeItem.InsertChildren | sqs_gui/app/components/tree_model.py:69-79 | True iff the guard accepts; then `max(count, 0)` new blank children with this parent at the position, the others kept in order |
| TreeModel.TreeItem.NewItems | sqs_gui/app/components/tree_model.py:74-77 | the new items are fresh, distinct, blank, with `columns` empty cells and the given parent |
| TreeModel.CustomTreeModel.constructor | sqs_gui/app/components/tree_model.py:144-150 | the root is the header item |
| TreeModel.CustomTreeModel.SetItems | sqs_gui/app/components/tree_model.py:152-160 | the root's rows become exactly the items, in order, each with the root as parent and its subtree unchanged |
| TreeModel.CustomTreeModel.RemoveRow | sqs_gui/app/components/tree_model.py:301-302 | the row is removed when in range; `IndexError` at the row count; otherwise nothing changes |
| TreeModel.CustomTreeModel.RemoveColumns | sqs_gui/app/components/tree_model.py:304-313 | the status and subtree come from `RemoveColumnsTree`; a root left without columns after a non-raising call loses all rows |
| PropertiesManager.TreeItem.constructor | sqs_gui/app/components/properties_manager.py:17-24 | the given cells and parent, no children |
| PropertiesManager.TreeItem.Child | sqs_gui/app/components/properties_manager.py:26-31 | None when the guard rejects; `IndexError` at the count; the child otherwise |
| PropertiesManager.TreeItem.ChildIndex | sqs_gui/app/components/properties_manager.py:41-42 | the first position of the item; `ValueError` iff absent |
| PropertiesManager.TreeItem.Row | sqs_gui/app/components/properties_manager.py:44-49 | 0 without a parent; else the first position among the parent's children, an error if it is not there |
| PropertiesManager.TreeItem.Data | sqs_gui/app/components/properties_manager.py:54-59 | None when the guard rejects; `IndexError` at the count; the cell otherwise |
| PropertiesManager.TreeItem.SetData | sqs_gui/app/components/properties_manager.py:61-67 | True iff in range, and then only that cell changes; `IndexError` at the count |
| PropertiesManager.TreeItem.SetParentItem | sqs_gui/app/components/properties_manager.py:72-73 | only the parent changes |
| PropertiesManager.TreeItem.AddChild | sqs_gui/app/components/properties_manager.py:34-36 | the item goes last with this node as parent, even when added twice or to itself; its row is the new last position for a new child, and its earlier first position for one added again |
| PropertiesManager.MyTreeModel.constructor | sqs_gui/app/components/properties_manager.py:81-88 | the column count is the header's, taken once |
| PropertiesManager.MyTreeModel.SetTreeItems | sqs_gui/app/components/properties_manager.py:90-106 | succeeds iff every item has the model's column count, and then the rows are the items; otherwise `AssertionError` after the items before the first bad one were added, the items not reached keeping their parent. The root's cells and every other item's children are unchanged |
| PropertiesManager.MyTreeModel.Flags | sqs_gui/app/components/properties_manager.py:161-172 | no flags for an invalid index, the default flags otherwise, never editable: the column test after the `return` is dead |
| PropertiesPane.ValueOrUnknown | sqs_gui/app/components/properties_pane.py:101 | a missing or empty value shows as "<Unknown>", any other as itself |
| PropertiesPane.NoEditableProperty | sqs_gui/app/components/properties_pane.py:17-39 | every entry of `_PROPS_EDITABLE` is False |
| PropertiesPane.PaneLayout | sqs_gui/app/components/properties_pane.py:91-112 | two groups titled "Attributes" and "Tags", "<Empty>" beside an empty one, one row per entry in dict order holding its name and value |
| PropertiesPane.NothingEditable | sqs_gui/app/components/properties_pane.py:100-112 | no cell of the built tree is editable |
| PropertiesPane.QueueAttributesKnown | sqs_gui/app/components/properties_pane.py:102 | every attribute `_get_queue_attributes` returns has an entry in `_PROPS_EDITABLE`, so showing it never raises `KeyError` |
| PropertiesPane.MQPropertiesPane.constructor | sqs_gui/app/components/properties_pane.py:63-66 | the header item holds "Property name" and "Value", with no rows |
| PropertiesPane.MQPropertiesPane.SetItems | sqs_gui/app/components/properties_pane.py:91-114 | Ok iff every attribute name is in `_PROPS_EDITABLE`; then the model's rows are the two groups; otherwise `KeyError` with the model untouched |
| PropertiesPane.MQPropertiesPane.AttributesItem | sqs_gui/app/components/properties_pane.py:97-103 | builds the "Attributes" group, or `KeyError` on an unknown name |
| PropertiesPane.MQPropertiesPane.TagsItem | sqs_gui/app/components/properties_pane.py:105-112 | builds the "Tags" group, no value editable |

## Left out

- Threads, the lock and scheduling are not modelled as concurrency. A worker's run is a sequence of polls given as input (`Worker`, `RunWorker`). The checker's liveness tests are a sequence of booleans (`CheckerWait`). The joins after shutdown take each running worker's in-flight batch as input (`JoinWorkers`). Workers interleaving inside one batch cannot happen because of the lock; interleaving between batches is covered by `DeliverBatchConcat`.
- The checker thread's own start in `start_message_receiving` and its join in `__next__` are not modelled, because they only order threads.
- A worker whose `get_queue_by_name` or `receive_messages` raises dies with the exception, and the checker still joins it and pushes the end marker. The model has no exit reason for a failed call. Such a worker publishes nothing more, as a worker that polled an empty batch does, but the model does not record the difference.
- The constructor of `SQSMessageIterator` has its own default `set()` (`sqs_gui/app/receiver.py:84`), a second shared set distinct from that of `receiveMessages`. Since `receiveMessages` always passes its argument on, that constructor default is reached only by building the iterator directly, which the model does not cover.
- `sleep`, wall-clock time and `datetime.now` are not modelled. The date in `info` is a parameter.
- boto3 sessions, `receive_messages`, `get_queue_attributes` and `list_queue_tags` are network calls. Their results are parameters, and the copying of SQS message fields into `Message` is taken as given.
- `os.cpu_count`, `sys.platform` and the home directory are parameters.
- `os.makedirs`, `open`, `listdir` and file encodings: the work directory is a map from name to text, and the listing is a parameter. The order of `listdir` is not modelled.
- Storage.Serialize: its specification `Serialized` follows the standard `json` module, the fallback import of `sqs_gui/app/storage.py:12-15`. It does not cover `ujson`, which the source prefers when it is installed. A message with raw bytes left in it fails with `TypeError` as `json.dumps` does, and `Drain` ends the writer on that error. What `ujson` does with bytes decides both of those when it is used instead.
- Base85, UTF-8 and `json`/pydantic are a `Codec` of functions. The round trip holds under the `Lossless` hypothesis.
- The error report that `loadMessages` prints is not modelled.
- `sendMessages`, `receiveMessages`, `list_message_queues` and `_get_queue_tags` are thin wrappers over network calls.
- Storage.Serialize: returns the text without rewriting the caller's message in place. The in-place effect is stated separately, on the encoded message, by `SerializeTwiceFails`.
- The Qt plumbing of both tree models is not modelled: `index`, `parent`, `rowCount`, `columnCount`, `data`, `headerData`, `flags`/`setData` on `CustomTreeModel`, `insertRows`, `insertColumns`, `removeRows`, the begin/end signals, `itemFromIndex` and `QModelIndex`. `removeRows` on the root is covered through `RemoveChildren`, which `RemoveRow` and `SetItems` call.
- `childCount`, `columnCount` and `parentItem` of both tree items are plain field reads and need no contract.
- The widgets, the filter proxy, the search field and `expandAll` of the properties pane are UI.
- Cell lists are values in the model. The source's `TreeItem` keeps a reference to the caller's list, and with it the shared default `[]`, so aliasing between items is not modelled.
- TreeModel.TreeItem.AddChild: requires the item's subtree to be well formed and disjoint from this one. The source also accepts adding an item twice or into its own subtree, which makes a cyclic or shared tree the footprint-based model cannot describe. `PropertiesManager.TreeItem.AddChild` models that case for the older tree.
- TreeModel.CustomTreeModel.SetItems: requires the items' subtrees to be well formed and pairwise disjoint, for the same reason.
- TreeModel.TreeItem.RemoveChildren: a removed child keeps its parent pointer and stays in the footprint. The contract says nothing more about it.
- TreeModel.CustomTreeModel.RemoveRow: states the root's children and its well-formedness, but not the subtree value.
- Receiver.MessageIterator.Next: requires the output queue to be non-empty, because a blocking `get` on an empty queue is a wait, not a result.
- Receiver.MessageIterator.RunWorker: requires the worker to be running and the end marker not yet pushed, because that is when the scheduler runs a worker.
- Receiver.MessageIterator.Finish: requires every worker to have been started, as `start_message_receiving` does before the checker runs.
- Storage.MessageDiskStorage.RunWriter: requires a live thread, because only a started thread is scheduled.
- Storage.MessageDiskStorage.LoadMessages: requires every listed name to be a file of the directory, which `listdir` guarantees.
- PropertiesPane.ValueOrUnknown: `SpecialValues.unknown` is a `str` enum member and is taken as its string value "<Unknown>".
