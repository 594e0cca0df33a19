# A verified model of the network server examples

The repository builds a TCP server in steps: sessions that reassemble length-prefixed messages, a logic
system with one worker thread, a WebSocket variant of the sender, and a file server with Base64 uploads and
an asynchronous log. This project models the path a request takes through that server and proves what the
code keeps on every input, every schedule and every way of cutting a stream.

| file | what it models |
|---|---|
| `Bytes.dfy`, `Wire.dfy` | signed 16-bit numbers in network order, the frame, `MsgNode`, and the client's own encoder and decoder |
| `Reader.dfy` | the receiving half of a session as a machine over single octets, in both builds, and the grammar it recognises |
| `Sender.dfy` | the single-writer send queue over every schedule of sends, completions and failures, with and without a cap |
| `Session.dfy` | the session and connection objects themselves, updated in place, against those two machines |
| `Pipeline.dfy` | any number of sessions, the logic queue and the worker, interleaved in any order |
| `LogicWorker.dfy` | the logic queue's threads with a program counter each, one mutex and one condition variable |
| `LogQueue.dfy` | the same for the log queue, which notifies only when its size becomes 1 |
| `LockOrder.dfy` | the order in which the file server takes its locks |
| `Base64.dfy`, `Base64Laws.dfy`, `Base64Lines.dfy` | the codec as written, with masks, shifts and loops; its laws; line breaks |
| `Upload.dfy` | the upload callback and whole files put together across the queue |
| `Text.dfy`, `LogFormat.dfy` | `split`, `replace_all` and the log formatter |
| `Sequences.dfy`, `Wrappers.dfy` | facts about concatenation; `Option` and `Result` |

Objects the source updates in place are classes, loops are loops, and each is proved equal to a function;
the laws are proved about the functions. Concurrency is modelled by machines whose `Step` takes one event
chosen by the scheduler; an event that is not possible in a state changes nothing, so a list of events is
any schedule at all.

These properties are false of the code as it stands, and for each an if-and-only-if gives the exact condition:

* A header with an id above 10240 or a length above 2048 is rejected by `PraseHead`, but the reader carries
  on with the old node, which may still be queued. `Reader.NoAliasIffNoneRejected` gives the condition on
  what a client sends, for both builds (C++20 compiles the coroutine), and
  `Reader.RejectedHeaderOverwritesQueue` the failing family.
* The stop flag of the logic system and the shutdown flag of the log queue are set without the mutex, so
  their one notification can be missed: exactly when it finds the worker between its test and its sleep
  (`LogicWorker.StopIsHeardIff`, `LogQueue.ShutDownIsHeardIff`; `LogicWorker.StopCanBeMissed` is a schedule).
* `split` by a string searches first for any one character of the delimiter
  (`Text.SplitByStringIsRightIff`, `Text.SplitByStringThrows`).
* `replace_all` does not end for an empty old value, nor the line-break insertion for a distance of 0, nor
  the Base64 encoder from 2^32 octets on (`Text.ReplaceAllEndsIff`, `Base64Lines.InsertLinebreaksEndsIff`,
  `Base64.EncodeLoopEnds`).
* A send of more than 32763 octets does not put the whole message on the wire (`Wire.SendFrameIsFaithful`).

The comments of `src/05_ftp/base64.cpp` (lines 209-215) say that every chunk but the last has four
characters without padding; the code accepts padding in every chunk and skips the character after it, and
the model follows the code.

## Model

| member | source | states |
|---|---|---|
| Bytes.NetworkOrder | src/02_async/MsgNode.h:71-74 | On a host of either byte order, converting a `short` and copying it puts the high octet first |
| Bytes.HostOrder | src/02_async/Session.cpp:135-149 | Copying two octets into a `short` and converting reads them high octet first |
| Bytes.ShortRoundTrip | src/02_async/RunClient.cpp:36-42 | Every signed 16-bit value, negative ones included, survives the trip over the wire |
| Wire.SendFrameIsFaithful | src/02_async/MsgNode.h:12-16 | A send puts the whole message on the wire if and only if its length with the header added is still a `short` |
| Wire.SendFrameIsFrame | src/02_async/MsgNode.h:67-78 | Whatever the length, what a send puts on the wire is a well-formed frame, that of the octets the narrowing leaves |
| Wire.NarrowedIsWhole | src/02_async/MsgNode.h:12-16 | A node is built and nothing is lost if and only if the length and the header fit a `short` |
| Wire.MsgNode.Recv | src/02_async/MsgNode.h:61-65 | A receive node is a fresh buffer with one octet to spare |
| Wire.MsgNode.Send | src/02_async/MsgNode.h:67-78 | The buffer holds id, length and body in network order, then the terminator |
| Wire.MsgNode.Clear | src/02_async/MsgNode.h:21-27 | Only the progress mark is reset; the buffer stays |
| Wire.NewSendNode | src/02_async/Session.cpp:113-121 | What `async_write` is handed is the frame, after both narrowing conversions of the length |
| Wire.FrameParts | src/02_async/MsgNode.h:69-77 | A reader finds id, length and body of a framed message where it looks for them, whatever follows |
| Wire.FrameSpelledOut | src/02_async/MsgNode.h:67-78 | The frame octet by octet: two octets of id, two of length, high octet first, then the body |
| Wire.FramesConcat | src/02_async/Session.cpp:113-121 | Frames of messages sent one after the other are the frames of the joined list |
| Client.BaseSend | src/02_async/RunClient.cpp:35-47 | The client's encoder fills its stack buffer in place and writes exactly its octets, or has no room |
| Client.BaseSendMatchesSendNode | src/02_async/RunClient.cpp:35-47 | The client's octets are the server's frame if and only if the body has at most 2044 octets |
| Client.TestRecv | src/02_async/RunClient.cpp:67-87 | The blocking read of one reply takes the header, then exactly as many octets as it says |
| Client.ReadReplyOfFrame | src/02_async/RunClient.cpp:70-84 | The client reads a framed reply back and leaves what follows, unless it exceeds the receive buffer |
| Client.ClientReadsFrames | src/02_async/RunClient.cpp:67-87 | Reading replies one by one gives back the list that was framed if and only if each fits the buffer |
| Client.ReadsPrefix | src/02_async/RunClient.cpp:67-87 | Reading replies one by one stops early or gets everything, and never anything else |
| Client.ClientReadsSends | src/02_async/RunClient.cpp:67-87 | Of sends of any length the client reads back exactly the messages if and only if each fits its buffer |
| Reader.FeedConcat | src/02_async/Session.cpp:94-96 | Two deliveries in a row do what their concatenation does |
| Reader.CutsDoNotMatter | src/02_async/Session.cpp:161-209 | A session's state depends on the stream, not on where it was cut into deliveries |
| Reader.FeedParses | src/02_async/Session.cpp:134-209 | On every stream whatever, both builds post exactly the messages the grammar finds in it |
| Reader.BuildsAgree | src/02_async/Session.cpp:57-87 | The coroutine posts a prefix of what the handlers post, and the same if and only if no message is empty |
| Reader.FaultsIff | src/02_async/Session.cpp:134-180 | On every stream a session faults if and only if it comes to a rejected header while it has no node, or to a negative length that is not caught |
| Reader.HeaderSpelledOut | src/02_async/Session.cpp:134-155 | By its four octets, a header is rejected if and only if its id is above 10240 or its length above 2048; a number with its sign bit set is negative and passes |
| Reader.NegativeLengths | src/02_async/Session.cpp:57-180 | A negative length posts nothing; the handlers do not survive it; the coroutine closes the session, but for -1, which leaves a buffer of no octets |
| Reader.RejectedFirst | src/02_async/Session.cpp:161-180 | A rejected header behind no accepted one dereferences the null node |
| Reader.FaultOfFrames | src/02_async/Session.cpp:134-180 | A client of which no rejected header is read never faults its session; one whose first message is unacceptable always does |
| Reader.PrefixNeverFaults | src/02_async/Session.cpp:134-209 | A client of receivable messages faults its session at no moment of its stream |
| Reader.ParseInvertsFrames | src/02_async/Session.cpp:134-158 | A framed list is parsed back if and only if every header is accepted and, for the coroutine, no body is empty |
| Reader.ReassemblyInvertsFraming | src/02_async/Session.cpp:134-209 | However the concatenated frames are cut, the session posts exactly the list, if and only if each message is receivable |
| Reader.PrefixPosted | src/02_async/Session.cpp:183-209 | At every moment of such a stream a prefix of the list has been posted |
| Reader.OneOctetPostsAtMostOne | src/02_async/Session.cpp:183-188 | One octet adds at most one node to the queue and takes none away |
| Reader.AliasingKept | src/02_async/Session.cpp:157-187 | Absence of aliasing, unchanged posted octets and their exact condition are kept over every stream |
| Reader.NoAliasIffNoReuse | src/02_async/Session.cpp:157-188 | On every stream, the posted nodes are distinct from each other and from the one being filled if and only if no body went to an old node; then their octets are those posted |
| Reader.NoAliasIffNoneRejected | src/02_async/Session.cpp:57-188 | In either build, for every client, that holds if and only if no rejected header is read behind an accepted one |
| Reader.NoAliasIffAllAcceptable | src/02_async/Session.cpp:139-180 | For the handlers, and a client whose first message is acceptable, that holds if and only if every message is |
| Reader.RejectedHeaderOverwritesQueue | src/02_async/Session.cpp:139-178 | Behind any posted message, any rejected header sends the next body into the same node, which is then posted twice and has lost the first body |
| SessionLayer.ReadHeader | src/02_async/Session.cpp:134-155 | The buffer's two fields, converted from network order, decide acceptance as in the machine |
| SessionLayer.Receiver.constructor | src/02_async/Session.cpp:31-48 | A fresh header node, no message node, the machine's initial state |
| SessionLayer.Receiver.NewNode | src/02_async/Session.cpp:156-157 | An accepted header allocates a node of its own |
| SessionLayer.Receiver.HandlerReadHead | src/02_async/Session.cpp:160-180 | A complete header does to the object what it does to the machine: new node, old node or fault |
| SessionLayer.Receiver.ReadMsg | src/02_async/Session.cpp:73-80 | The body read starts on the current node; an empty one completes at once, as a message for the handler and as a disconnect for the coroutine |
| SessionLayer.Receiver.HandlerReadMsg | src/02_async/Session.cpp:182-209 | The buffer is the body and its terminator, the node is posted, and a header awaited |
| SessionLayer.Receiver.Deliver | src/02_async/Session.cpp:161-209 | In either build a delivery of any length does to the buffers in place what the machine does |
| SessionLayer.Receiver.PostedNodesAreDistinct | src/02_async/Session.cpp:47-188 | In either build, while no header was rejected, posted nodes are distinct objects with distinct buffers, none that of the header, none being filled, each still holding its message and the terminator |
| SessionLayer.CoroutineTurn | src/02_async/Session.cpp:59-83 | One turn of the loop posts the first message of what is left, or ends where there is none |
| SessionLayer.CoroutineLoop | src/02_async/Session.cpp:57-87 | The coroutine's loop posts exactly the messages the grammar of its build finds in the stream |
| SessionLayer.SendQueue.Send | src/02_async/Session.cpp:101-126 | For a message of any length, queue and outstanding write change as in the send machine, with the frame the two narrowing conversions leave; where they leave none, only the drop at a full queue is defined |
| SessionLayer.SendQueue.HandlerWrite | src/02_async/Session.cpp:212-231 | A completion or failure changes them as in the send machine |
| SessionLayer.HelloWorldCallback | src/02_async/LogicSystem.cpp:21-35 | The reply, of any length, goes out under the id of the request and the header's progress mark is reset |
| WebSocketLayer.Connection.AsyncSend | src/04_beast-websocket/Connection.cpp:52-61 | The object's queue and outstanding write change as in the uncapped machine |
| WebSocketLayer.Connection.OnWritten | src/04_beast-websocket/Connection.cpp:63-82 | A completion pops and starts the next write; a failure starts nothing |
| Sender.InvStep | src/02_async/Session.cpp:101-231 | One event keeps: one write at most, of the front; accepted is written followed by queued; the cap |
| Sender.InvRun | src/02_async/Session.cpp:101-231 | The same over every run of either sender; no empty queue is popped; after a failed write nothing more is written |
| Sender.DoneKeeps | src/02_async/Session.cpp:211-231 | The completion of the one outstanding write takes its item off the queue and starts the next |
| Sender.FailedStops | src/02_async/Session.cpp:212-218 | A failure leaves queue and written items as they are, with no write outstanding and what was cut off on record |
| Sender.QueueDrains | src/02_async/Session.cpp:211-231 | One completion for each queued item puts everything accepted on the wire |
| Sender.WrittenIsPrefix | src/02_async/Session.cpp:211-231 | What reaches the peer is a prefix of what was accepted, in order, and all of it once idle and unbroken |
| Sender.WebSocketRefines | src/04_beast-websocket/Connection.cpp:52-82 | On every schedule the WebSocket sender and the session's end in the same state if and only if the capped one refused nothing |
| Sender.UncappedAcceptsAll | src/04_beast-websocket/Connection.cpp:52-61 | Without a cap every message pushed is accepted, in order |
| Sender.RefusedGrows | src/02_async/Session.cpp:109-112 | What a full queue dropped is never taken back |
| Sender.RoomForAll | src/02_async/Session.cpp:109-113 | While the queue has room for everything sent nothing is refused |
| Pipeline.InvStep | src/02_async/Session.cpp:57-231 | Every step of every session, the queue, the worker and the sockets keeps the whole system's invariant |
| Pipeline.OctetStep | src/02_async/Session.cpp:161-209 | An octet read by one session keeps it |
| Pipeline.PostStep | src/02_async/LogicSystem.cpp:79-90 | A post, or its drop at a full queue, keeps it |
| Pipeline.DispatchStep | src/02_async/LogicSystem.cpp:46-62 | A dispatch, to a callback or to none, keeps it |
| Pipeline.WriteStep | src/02_async/Session.cpp:213-231 | A write's completion or failure keeps it |
| Pipeline.ConnectTaken | src/02_async/Session.cpp:31-48 | A connection starts a session with nothing read, pending or to send |
| Pipeline.OctetTaken | src/02_async/Session.cpp:161-209 | A session none of whose posts is waiting takes every octet that arrives |
| Pipeline.PostTaken | src/02_async/LogicSystem.cpp:79-90 | A waiting post goes to the back of the logic queue, and is dropped only if that is full |
| Pipeline.UnknownIdIsSilent | src/02_async/LogicSystem.cpp:55-61 | A message whose id has no callback leaves the queue, and its session sends nothing, nor does the process stop |
| Pipeline.FullSendQueueIsSilent | src/02_async/Session.cpp:109-112 | So does a message whose session has a full send queue |
| Pipeline.DispatchAnswers | src/02_async/LogicSystem.cpp:21-35 | Every other dispatch accepts exactly one reply, the frame of the answer to the message that was posted, under the id of the request |
| Pipeline.FailureBreaksOff | src/02_async/Session.cpp:212-231 | A failed write breaks the session off behind the octets that had gone out |
| Pipeline.GoesDownIff | src/02_async/Session.cpp:101-180 | The process goes down if and only if an octet faults its session, or the callback of a registered id makes a reply whose node cannot be built, for a session with room in its send queue |
| Pipeline.WireCarriesReplies | src/02_async/LogicSystem.cpp:21-90 | Over every interleaving, with replies of any length, the replies a session has begun to write answer requests of its own, in order, none twice; without a rejected header in its stream all of these have a registered id, and its wire is exactly the frames that sending the replies makes, ending after a failed write in a front part of the next one |
| Pipeline.FittingRepliesAreWhole | src/02_async/Session.cpp:113-121 | Where these replies fit a frame, the frames are those of the replies themselves |
| Pipeline.QueueHoldsNoAlias | src/02_async/Session.cpp:157-188 | In every reachable state the logic queue holds, of every session without a rejected header, distinct nodes, none being filled, each with the octets it was posted with |
| Pipeline.CleanWhileUndisturbed | src/02_async/LogicSystem.cpp:58-84 | A session stays clean while no full queue and no unknown id concerns it, whatever the queues do to others |
| Pipeline.EveryRequestAnswered | src/02_async/LogicSystem.cpp:21-90 | With no drop, no unknown id, no failed write and the pipeline empty, the wire carries the frame that sending it makes of every reply, in order, and nothing else; the frames of the replies themselves if those fit |
| Pipeline.CanDrain | src/02_async/LogicSystem.cpp:37-90 | From every reachable state a bounded number of the server's own steps and write completions drains any session whose writes have not failed, unless the process goes down |
| Pipeline.RequestsArePosted | src/02_async/Session.cpp:183-188 | Whatever other sessions send, a client's framed requests are posted in order, all of them once read |
| Pipeline.AnswersReadBack | src/02_async/RunClient.cpp:67-87 | The client reads the replies to its requests back as they were if and only if each of them fits its buffer |
| Pipeline.RequestsToReplies | src/02_async/RunClient.cpp:27-87 | From one client to itself: it reads back exactly the replies to its requests, one each, in order, if and only if each of these fits its buffer |
| Pipeline.ServerServes | src/02_async/LogicSystem.cpp:21-90 | For every list of receivable messages with registered ids and replies that can be built, with room for one message in each queue, there is a run on which the process stays up, nothing is dropped, everything is read and answered, and the client reads back the replies if and only if each fits its buffer |
| LogicWorker.InvStep | src/05_ftp/LogicSystem.cpp:93-146 | One step of any thread keeps mutual exclusion, the wakeup rule, the cap and the conservation of messages |
| LogicWorker.InvRun | src/05_ftp/LogicSystem.cpp:93-146 | The same over every schedule of any number of posters, for both orders of unlock and notify |
| LogicWorker.ArriveTaken | src/02_async/LogicSystem.cpp:79-80 | A thread outside `PostMsgToQue` enters it with its message |
| LogicWorker.LockTaken | src/02_async/LogicSystem.cpp:81 | A free mutex is taken by a poster in front of it, whatever the worker does |
| LogicWorker.PushTaken | src/02_async/LogicSystem.cpp:82-90 | From inside the critical section the message goes to the back of the queue, or is dropped if that is full, with the mutex given back |
| LogicWorker.WakeupsTaken | src/02_async/LogicSystem.cpp:11-43 | Stop can be set at any moment; its notification and a spurious wakeup wake a sleeping worker |
| LogicWorker.TurnReleases | src/02_async/LogicSystem.cpp:37-75 | Until stop the worker gives the mutex back after each message |
| LogicWorker.PostGetsThrough | src/02_async/LogicSystem.cpp:79-90 | From every reachable state, a message with which a thread stands in `PostMsgToQue` is pushed, or dropped at a full queue, within 2 cap + 5 steps of existing threads; the queue may be empty and the worker asleep |
| LogicWorker.PostReturns | src/02_async/LogicSystem.cpp:79-90 | Every call of `PostMsgToQue` returns within 2 cap + 7 steps |
| LogicWorker.AcceptedIsDispatched | src/02_async/LogicSystem.cpp:37-90 | Until stop, everything accepted so far is dispatched, in order, within ten steps of existing threads for each |
| LogicWorker.EveryPostIsServed | src/02_async/LogicSystem.cpp:37-90 | Until stop, every message with which a thread stands in `PostMsgToQue` is dispatched, or dropped at a full queue, by steps of existing threads alone |
| LogicWorker.SleepingOverWork | src/05_ftp/LogicSystem.cpp:135-145 | With the mutex free, a worker asleep over a non-empty queue means that a poster stands between its unlock and its notify; with notify first it cannot happen |
| LogicWorker.WorkCanProceed | src/05_ftp/LogicSystem.cpp:96-145 | Over queued work some thread can always move, without a new arrival or a spurious wakeup |
| LogicWorker.NextIsDispatched | src/05_ftp/LogicSystem.cpp:93-146 | Over queued work at most ten steps of existing threads run the callback of the next message |
| LogicWorker.RefinesAtomicQueue | src/02_async/LogicSystem.cpp:37-90 | To its users every step of every thread is one indivisible post, one indivisible dispatch, or nothing |
| LogicWorker.RefinesAtomicRun | src/02_async/LogicSystem.cpp:37-90 | Every run of the threads is, to its users, a run of the indivisible queue, one operation for each push and each callback |
| LogicWorker.DrainStep | src/02_async/LogicSystem.cpp:64-69 | From the moment stop is seen no other thread touches the queue and each worker step lowers the measure |
| LogicWorker.DrainEnds | src/02_async/LogicSystem.cpp:64-69 | The worker's own steps end the drain with the queue empty and everything accepted dispatched |
| LogicWorker.ExitedForGood | src/02_async/LogicSystem.cpp:68 | After its return nothing more is dispatched |
| LogicWorker.StopCanBeMissed | src/02_async/LogicSystem.cpp:11-19 | A schedule on which the notification of stop falls between the worker's test and its sleep |
| LogicWorker.StopIsHeardIff | src/02_async/LogicSystem.cpp:11-43 | Whatever happens in between, the worker never sleeps again after stop if and only if the notification does not find it between its test and its sleep |
| LogicWorker.SessionOrderKept | src/02_async/LogicSystem.cpp:37-90 | What is dispatched of any session is a subsequence of what it posted, in order; a prefix if nothing of it was dropped, and all of it once the queue is empty |
| LogQueue.InvRun | src/05_ftp/include/AsyncLogSystem.h:32-59 | Mutual exclusion, the wakeup rule and the conservation of lines over every schedule |
| LogQueue.SleepsOnlyWhenEmpty | src/05_ftp/include/AsyncLogSystem.h:33-53 | Notifying at size 1 only is enough: with the mutex free, a sleeping worker means an empty queue with every line written |
| LogQueue.EndsWithAllWritten | src/05_ftp/include/AsyncLogSystem.h:47-49 | The worker's loop ends only on shutdown, at a moment when every line pushed so far is written, once each and in order |
| LogQueue.ArriveTaken | src/05_ftp/include/AsyncLogSystem.h:32-33 | A thread outside `Push` enters it with its line |
| LogQueue.LockTaken | src/05_ftp/include/AsyncLogSystem.h:34 | A free mutex is taken by a pusher in front of it, whatever the worker does |
| LogQueue.PushTaken | src/05_ftp/include/AsyncLogSystem.h:35-38 | Inside, the line goes to the back of the queue, with a notification due if and only if it is alone there |
| LogQueue.WakeupsTaken | src/05_ftp/include/AsyncLogSystem.h:41-59 | Shutdown can be set at any moment; its notification and a spurious wakeup wake a sleeping worker |
| LogQueue.LoggedIsPushed | src/05_ftp/include/AsyncLogSystem.h:32-39 | On every schedule, what joined the queue of a thread is every line with which it called `Push`, in its order, but the one it is about to push |
| LogQueue.PushGetsThrough | src/05_ftp/include/AsyncLogSystem.h:32-39 | From every reachable state a line in `Push` is at the back of the queue within five steps of existing threads |
| LogQueue.NextIsWritten | src/05_ftp/include/AsyncLogSystem.h:41-53 | Over queued lines at most eight steps of existing threads write the next one |
| LogQueue.EveryLineIsWritten | src/05_ftp/include/AsyncLogSystem.h:32-53 | Until shutdown every line with which a thread stands in `Push` is written by steps of existing threads alone |
| LogQueue.WorkerEnds | src/05_ftp/include/AsyncLogSystem.h:105-128 | Once shutdown is heard and no pusher holds the mutex, the worker's own steps write what is left and end its loop, so that the join returns |
| LogQueue.ShutDownIsHeardIff | src/05_ftp/include/AsyncLogSystem.h:41-59 | The worker never sleeps again after shutdown if and only if the notification does not find it between its test and its sleep |
| LogQueue.Queue.Push | src/05_ftp/include/AsyncLogSystem.h:32-39 | The line goes to the back; a notification if and only if the queue was empty |
| LogQueue.Queue.Pop | src/05_ftp/include/AsyncLogSystem.h:41-53 | The front line, or false if and only if shut down and empty |
| LogQueue.Queue.ShutDown | src/05_ftp/include/AsyncLogSystem.h:55-59 | The flag is set, the queue stays |
| LogQueue.Queue.WorkerLoop | src/05_ftp/include/AsyncLogSystem.h:105-115 | After shutdown the loop writes exactly what was queued, in order |
| LockOrder.ServerRespectsOrder | src/05_ftp/Session.cpp:50-241 | Every path through the locking code, the session's destructor included, takes locks in rising rank and gives all of them back |
| LockOrder.WorkOrdered | src/05_ftp/LogicSystem.cpp:101-113 | The worker's callbacks, and a destructor at their end, take send locks and log locks above the logic mutex |
| LockOrder.TurnOrdered | src/05_ftp/LogicSystem.cpp:94-131 | A turn of the worker, with any number of wakeups and jobs, respects the order |
| LockOrder.SendOrdered | src/05_ftp/Session.cpp:119-143 | A send logs only under its send lock and releases both |
| LockOrder.InvRun | src/05_ftp/LogicSystem.cpp:94-146 | Over every run of any number of threads, no lock is held twice and each thread's rest respects the order |
| LockOrder.WaitChainClimbs | src/05_ftp/LogicSystem.cpp:94-146 | Along a chain of threads waiting for each other the wanted ranks rise |
| LockOrder.NoDeadlockCycle | src/05_ftp/LogicSystem.cpp:94-146 | In no reachable state is there a cycle of waiting threads, of any length |
| LockOrder.NeverStuck | src/05_ftp/LogicSystem.cpp:94-146 | In every reachable state with a thread inside the locking code some thread can move |
| LockOrder.MoveTaken | src/05_ftp/LogicSystem.cpp:94-146 | A thread that can move takes its lock or gives back its latest, one operation of its path, and no other thread changes |
| LockOrder.EveryoneGetsOut | src/05_ftp/LogicSystem.cpp:94-146 | From every reachable state as many moves as operations are left take every thread out of the locking code, holding nothing |
| LockOrder.SendPathsSpelledOut | src/05_ftp/Session.cpp:119-241 | The paths of send, completion and post, operation by operation |
| LockOrder.JobTakes | src/05_ftp/LogicSystem.cpp:25-113 | How often one message makes the worker take each lock: the logic mutex never again, the send lock once if it is answered, the log lock for every line |
| LockOrder.TurnTakes | src/05_ftp/LogicSystem.cpp:93-132 | A turn takes the logic mutex once and once more for every wakeup, and a send lock once for every message it answers |
| Base64.CharAtRoundTrip | src/05_ftp/base64.cpp:44-77 | Looking a character of either alphabet up gives its position back; none of them is a pad or a line break |
| Base64.CharAtSpelledOut | src/05_ftp/base64.cpp:44-52 | Position by position, the characters are those of the two tables |
| Base64.LookupSpelledOut | src/05_ftp/base64.cpp:54-77 | The look-up succeeds on exactly the characters of the two tables, each at its place; the pads are '=' and '.' |
| Base64.EncodeAt | src/05_ftp/base64.cpp:145-163 | One turn of the encoding loop, with its masks and shifts, emits the four characters of the 24-bit group |
| Base64.SextetsOfGroup | src/05_ftp/base64.cpp:145-160 | The masked and shifted sums are the four sextets of the group |
| Base64.Advance | src/05_ftp/base64.cpp:142-165 | The 32-bit position does not wrap while the input is shorter than 2^32 |
| Base64.Encode | src/05_ftp/base64.cpp:122-169 | The loop computes the group-wise encoding; no index leaves the input or the alphabet |
| Base64.EncodeLoopEnds | src/05_ftp/base64.cpp:142-166 | The position can reach the end if and only if the input is shorter than 2^32 |
| Base64.FirstOctet | src/05_ftp/base64.cpp:223-224 | The first sum of the decoder is an octet, with the bits of its two positions |
| Base64.SecondOctet | src/05_ftp/base64.cpp:235-236 | The second sum is an octet, with the bits of its two positions |
| Base64.ThirdOctet | src/05_ftp/base64.cpp:243-244 | The third sum is an octet, with the bits of its two positions |
| Base64.DecodeAt | src/05_ftp/base64.cpp:218-246 | One turn of the decoding loop emits the chunk's octets or throws what the code throws, in its order of look-ups |
| Base64.Decode | src/05_ftp/base64.cpp:191-251 | The loop computes the chunk-wise decoding; no index leaves the input |
| Base64Laws.EncodedConcat | src/05_ftp/base64.cpp:144-166 | Encoding distributes over concatenation behind a multiple of three octets |
| Base64Laws.DecodedConcat | src/05_ftp/base64.cpp:204-249 | Decoding distributes behind a multiple of four characters, padding and errors in the first part included |
| Base64Laws.EncodedLength | src/05_ftp/base64.cpp:124 | The length reserved is the length produced |
| Base64Laws.GroupRoundTrip | src/05_ftp/base64.cpp:204-249 | One group decodes from its four characters or from those that carry data |
| Base64Laws.DecodeInvertsEncode | src/05_ftp/base64.cpp:122-252 | For every octet string and both alphabets decoding inverts encoding, with the padding on, off or partly off |
| Base64Laws.PaddingIsAtTheEnd | src/05_ftp/base64.cpp:155-163 | An encoding is alphabet characters and then pads, with the exact boundary |
| Base64Laws.EncodedCharacter | src/05_ftp/base64.cpp:144-160 | Which character of the table stands at which place of an encoding, from the bits of the three octets it comes from |
| Base64Laws.EncodingSpelledOut | src/05_ftp/base64.cpp:126-163 | An encoding ends in as many pads as octets are missing from the last group, '=' or, for URLs, '.'; all before is letters of its table |
| Base64Laws.Vectors | src/05_ftp/base64.cpp:122-169 | Examples of section 10 of RFC 4648 and the URL variant of one |
| Base64Laws.EncodedIsCanonical | src/05_ftp/base64.cpp:144-166 | Every encoding is canonical in the sense of section 3.5 of RFC 4648 |
| Base64Laws.CanonicalRoundTrip | src/05_ftp/base64.cpp:204-249 | Every canonical text decodes, and encoding gives it back |
| Base64Laws.EncodeInvertsDecodeIffCanonical | src/05_ftp/base64.cpp:54-252 | Decoding and encoding again gives the text back if and only if it is canonical for the alphabet |
| Base64Laws.DecodesIffDecodable | src/05_ftp/base64.cpp:204-249 | The decoder succeeds on exactly the texts without a lone last character, with letters of the two tables where it looks for data, and '=' or '.' elsewhere |
| Base64Laws.FourLetters | src/05_ftp/base64.cpp:218-246 | Four letters, each of either table, are these three octets |
| Base64Laws.ThreeLetters | src/05_ftp/base64.cpp:218-246 | Three letters, with a pad of either kind behind them or nothing, are these two octets |
| Base64Laws.TwoLetters | src/05_ftp/base64.cpp:218-232 | Two letters, with a pad and anything behind it or less, are this one octet |
| Base64Laws.LoneCharacterIffOutOfRange | src/05_ftp/base64.cpp:204-249 | The out-of-range exception is thrown if and only if one character is left over behind text that decodes; everything else that is refused has an invalid character |
| Base64Lines.InsertLinebreaks | src/05_ftp/base64.cpp:79-96 | The in-place insertion cuts the text into lines for every distance of at least 1, and leaves the empty text for any distance |
| Base64Lines.InsertLinebreaksEndsIff | src/05_ftp/base64.cpp:88-93 | The insertion into a non-empty text ends if and only if the distance is not 0 |
| Base64Lines.EncodePem | src/05_ftp/base64.cpp:98-108 | Lines of 64 characters (section 2 of RFC 7468) |
| Base64Lines.EncodeMime | src/05_ftp/base64.cpp:98-114 | Lines of 76 characters (section 6.8 of RFC 2045) |
| Base64Lines.LinesLength | src/05_ftp/base64.cpp:88-95 | The insertion adds (length - 1) / d breaks |
| Base64Lines.CharacterMoves | src/05_ftp/base64.cpp:88-95 | The character at i moves to i + i / d |
| Base64Lines.BreaksEveryLine | src/05_ftp/base64.cpp:88-95 | Position j is a break if and only if j + 1 is a multiple of d + 1: every line but the last has exactly d characters |
| Base64Lines.NoBreakAtTheEnd | src/05_ftp/base64.cpp:88-95 | There is no break at the end |
| Base64Lines.DecodeLines | src/05_ftp/base64.cpp:171-189 | Removing breaks first decodes the text without its breaks |
| Base64Lines.BreaksRemoved | src/05_ftp/base64.cpp:183-187 | The removal takes out every break and nothing else, in order |
| Base64Lines.BreaksComeOut | src/05_ftp/base64.cpp:183-189 | Removing the breaks undoes the insertion |
| Base64Lines.LinesRoundTrip | src/05_ftp/base64.cpp:79-189 | PEM and MIME text of any line length decodes to what was encoded |
| Base64Lines.BreaksMustBeRemoved | src/05_ftp/base64.cpp:204-249 | Without removal, text broken into lines of any length decodes if and only if it was too short to be broken |
| Upload.LogicSystem.PostMsgToQue | src/05_ftp/LogicSystem.cpp:134-146 | The message joins the queue, or is dropped if it is full; a notification exactly when it joined |
| Upload.LogicSystem.UploadFileCallback | src/05_ftp/LogicSystem.cpp:49-91 | Undecodable data ends the worker; the reply is sent if and only if the data is decodable and the file can be opened, and then the decoded data is behind what the file held, or alone in it for sequence number 0; otherwise no file changes |
| Upload.LogicSystem.DoWork | src/05_ftp/LogicSystem.cpp:101-113 | The front message goes to the callback of its id: test messages and uploads that were written are answered, others are not; the files and the end of the worker follow from it alone |
| Upload.LogicSystem.DealTurn | src/05_ftp/LogicSystem.cpp:93-132 | One turn handles one message, or on stop all of them in order, up to the first fatal one: files, replies and what is left in the queue; it returns if and only if stopped |
| Upload.LogicSystem.Drain | src/05_ftp/LogicSystem.cpp:118-123 | The drain handles everything queued in order, up to the first fatal message |
| Upload.AnswersExactly | src/05_ftp/LogicSystem.cpp:30-91 | A run of messages answers the test messages and the uploads whose file can be opened, each as often as it was dispatched, in that order, and nothing else |
| Upload.SurvivedSpelledOut | src/05_ftp/LogicSystem.cpp:61 | The worker handles everything in front of the first upload that is not decodable |
| Upload.SurvivesIffDecodable | src/05_ftp/LogicSystem.cpp:61 | The worker survives a list of messages if and only if the data of every upload in it is decodable |
| Upload.FileContent | src/05_ftp/LogicSystem.cpp:69-79 | A file holds the decoded data since the last sequence-0 message for it, in order |
| Upload.UploadsMakeFile | src/05_ftp/LogicSystem.cpp:69-79 | One upload from its first chunk on makes the file, whatever is interleaved under other names |
| Upload.EncodedChunksAreUpload | src/05_ftp/base64.cpp:122-252 | Chunks encoded in either alphabet, with the padding on, off or partly off, are an upload of these chunks |
| Upload.FileSoFar | src/05_ftp/LogicSystem.cpp:49-146 | On any schedule of posters over the queue, if what a session posted for a file are the chunks of an upload in order, nothing it posted was dropped, no other session writes to that file and no dispatched upload is undecodable, the file holds at every moment exactly the chunks dispatched so far |
| Upload.WholeFile | src/05_ftp/LogicSystem.cpp:49-146 | Under the same conditions, once the session is through and the queue and the worker are empty, the file holds exactly the original bytes; the session may have posted anything besides, the others anything that is decodable and goes to other files |
| Text.FindIsFirst | include/lyf.h:126 | The search returns the first occurrence at or after a position, and nothing if there is none |
| Text.FoundSpelledOut | include/lyf.h:126 | What is found is the old value itself, and every occurrence means that one is found, no later |
| Text.FirstOfSpelledOut | include/lyf.h:75 | The search for one of several characters finds one of them, and misses none before it |
| Text.PiecesSplit | include/lyf.h:123-133 | The pieces joined with the pattern are the text, and none of them contains the pattern |
| Text.ReplaceAll | include/lyf.h:123-133 | The in-place loop is left-to-right non-overlapping rewriting, even if the new value contains the old |
| Text.ReplacesFromTheLeft | include/lyf.h:123-133 | Nothing happens without an occurrence; otherwise the first from the left becomes the new value and the text behind it is done by itself |
| Text.ReplaceAllEndsIff | include/lyf.h:123-133 | The loop ends on an input if and only if the old value is not empty, whatever the new value |
| Text.SplitByChar | include/lyf.h:58-67 | `getline` gives the pieces without an empty one at the end |
| Text.Split | include/lyf.h:73-85 | What the string overload returns, or that it throws |
| Text.SplitByStringIsRightIff | include/lyf.h:73-85 | It splits by its delimiter if and only if the first character it stops at starts the first occurrence |
| Text.SplitByStringSpelledOut | include/lyf.h:73-85 | What it does in general: it cuts at the first character of the delimiter, skips as many as the delimiter has and splits the rest by it, or throws |
| Text.SplitByStringThrows | include/lyf.h:73-85 | An input on which it throws although the delimiter does not occur |
| Text.OverloadsAgree | include/lyf.h:58-85 | For one character the two overloads agree on every string |
| Text.ReplaceIsSplitAndJoinIff | include/lyf.h:58-133 | Replacing a character is joining its split with the new value, unless the text ends in it and the new value is not empty |
| LogFormat.FillPlaceholders | src/05_ftp/include/AsyncLogSystem.h:182-196 | The first loop fills placeholders in order and leaves the text behind the last one |
| LogFormat.AppendSurplus | src/05_ftp/include/AsyncLogSystem.h:201-204 | The second loop appends the arguments left over |
| LogFormat.FormatMessage | src/05_ftp/include/AsyncLogSystem.h:174-207 | The message is the prefix and the pieces of the format with the gaps filled, then the surplus |
| LogFormat.FormattedLength | src/05_ftp/include/AsyncLogSystem.h:182-204 | With k placeholders and n arguments it is as long as the format less 2 min(k, n) plus all arguments |
| LogFormat.NoArguments | src/05_ftp/include/AsyncLogSystem.h:190-193 | Without arguments the format comes out unchanged |
| LogFormat.FirstArgument | src/05_ftp/include/AsyncLogSystem.h:186-196 | The first argument lands at the first placeholder and its own text is never read again |
| LogFormat.SurplusAppended | src/05_ftp/include/AsyncLogSystem.h:201-204 | Without a placeholder all arguments are appended in order |

## Left out

- Boost.Asio and Beast: `async_read` is taken to complete with exactly the octets asked for, `async_write` with the whole buffer or an error, and handlers of one session not to overlap. A read error only means that no more octets arrive.
- JSON, console output, real files and the clock: a reply is an uninterpreted function of the request, files are a map from name to octets, the log prefix is a parameter. A JSON field of the wrong type, which throws, is not modelled.
- Reader: after a fault (`Reader.FaultsIff`) nothing is claimed. A length below -1 throws at the allocation, which only the coroutine catches; it ends that session's loop (`Reader.NegativeLengths`).
- Pipeline: after a fault of any session, or a reply for which no node can be built (`Wire.SendFrame` gives None), the behaviour of the one process is not defined; the model stops it where it is.
- Base64.Encode: requires fewer than 2^32 octets, because the 32-bit position would wrap for ever; `Base64.EncodeLoopEnds` states the boundary.
- Base64Lines.InsertLinebreaks: requires a distance of at least 1 for a text that is not empty; `Base64Lines.InsertLinebreaksEndsIff` states the boundary.
- Text.ReplaceAll: requires a non-empty old value, because otherwise the loop does not end; `Text.ReplaceAllEndsIff` states the boundary.
- Pipeline: a post and a dispatch are single steps there; `LogicWorker.RefinesAtomicRun` proves that every run of the threads behind them is a run of such steps. The send queue's critical sections are single steps for the same reason.
- Pipeline.WireCarriesReplies: what the frames contain is claimed for sessions whose own stream contained no rejected header, because otherwise queued octets change before they are dispatched; the order of the replies is claimed for all.
- LogicWorker: `_stop` is a plain `bool` in src/02_async/LogicSystem.h:79, so setting it without the mutex is a data race; the model takes reads and writes of it as atomic. Joining the thread is not modelled.
- LogQueue: the shutdown flag is taken to start as false, as `std::atomic` does from C++20 on.
- Upload: two names that lead to the same path, and `total_size` and `trans_size`, which are only echoed.
- The frame of the file server (6-octet header with a 4-byte length): its sessions are the same code with other constants.
- The session map of the server: it is changed without a lock.
- The lifetime of the caller's string in the WebSocket sender: messages are values here.
- The other string tools, the HTTP server, `01_base`, the configuration, thread pools, singletons and benchmark scripts.
