/** The file server's logic system: the upload callback, what it leaves in the files, and whole files
    put together from their chunks across the logic queue. */
module Upload {
  import opened Sequences
  import opened Wrappers
  import opened Bytes
  import opened Base64
  import opened Base64Laws
  import LogicWorker

  const MAX_RECV_QUEUE_LEN := 2000000

  /** A queued message with the fields the callback reads out of its JSON body. `canOpen` says whether
      the file can be opened when the callback runs. `sort` is which callback the id is mapped to. */
  datatype Sort = TestMsg | UploadFile | NoCallback
  datatype Request = Request(session: nat, sort: Sort, seqNo: int, name: string, data: seq<Byte>, canOpen: bool)

  function SessionOf(m: Request): nat
  {
    m.session
  }

  type Files = map<string, seq<Byte>>

  function ContentOr(files: Files, name: string): seq<Byte>
  {
    if name in files then files[name] else []
  }

  /** Sequence number 0 truncates, every other appends. */
  function WriteChunk(files: Files, m: Request, bytes: seq<Byte>): Files
  {
    files[m.name := (if m.seqNo == 0 then [] else ContentOr(files, m.name)) + bytes]
  }

  /** The files after a callback, or None where undecodable data throws out of the worker thread. */
  function Apply(files: Files, m: Request): Option<Files>
  {
    if m.sort != UploadFile then Some(files) else
    match Decoded(m.data)
    case Err(_) => None
    case Ok(bytes) => Some(if m.canOpen then WriteChunk(files, m, bytes) else files)
  }

  function ApplyAll(files: Files, ms: seq<Request>): Option<Files>
    decreases |ms|
  {
    if ms == [] then Some(files) else
    match Apply(files, ms[0])
    case None => None
    case Some(next) => ApplyAll(next, ms[1..])
  }

  lemma {:induction false} ApplyAllAppend(files: Files, ms: seq<Request>, m: Request)
    ensures ApplyAll(files, ms + [m]) ==
      match ApplyAll(files, ms) case None => None case Some(next) => Apply(next, m)
    decreases |ms|
  {
    if ms == [] {
      assert (ms + [m])[1..] == [];
    } else {
      assert (ms + [m])[1..] == ms[1..] + [m];
      if Apply(files, ms[0]).Some? {
        ApplyAllAppend(Apply(files, ms[0]).value, ms[1..], m);
      }
    }
  }

  /** The callback throws. */
  predicate Fatal(m: Request)
  {
    m.sort == UploadFile && Decoded(m.data).Err?
  }

  /** The callback sends a reply. */
  predicate Replies(m: Request)
  {
    m.sort == TestMsg || (m.sort == UploadFile && Decoded(m.data).Ok? && m.canOpen)
  }

  function Reply(m: Request): seq<Request>
  {
    if Replies(m) then [m] else []
  }

  function Answered(ms: seq<Request>): seq<Request>
  {
    if ms == [] then [] else Reply(ms[0]) + Answered(ms[1..])
  }

  lemma {:induction false} AnsweredAppend(ms: seq<Request>, m: Request)
    ensures Answered(ms + [m]) == Answered(ms) + Reply(m)
  {
    hide Reply;
    if ms == [] {
      assert (ms + [m])[1..] == [];
      assert Reply(m) + [] == [] + Reply(m);
    } else {
      assert (ms + [m])[1..] == ms[1..] + [m];
      AnsweredAppend(ms[1..], m);
      Associates(Reply(ms[0]), Answered(ms[1..]), Reply(m));
    }
  }

  /** The messages in front of the first fatal one. */
  function Survived(ms: seq<Request>): (front: seq<Request>)
    ensures |front| <= |ms|
  {
    if ms == [] || Fatal(ms[0]) then [] else [ms[0]] + Survived(ms[1..])
  }

  /** The first fatal message, if there is one. */
  function Fatalities(ms: seq<Request>): seq<Request>
  {
    var k := |Survived(ms)|;
    if k < |ms| then [ms[k]] else []
  }

  /** The object: `DealMsg` works on these fields. A base64 exception ends the process; `alive` is false then. */
  class LogicSystem {
    var msgQueue: seq<Request>
    var stop: bool
    var files: Files
    var answered: seq<Request>  // those whose callback sent a reply
    var alive: bool

    constructor ()
      ensures msgQueue == [] && !stop && files == map[] && answered == [] && alive
    {
      msgQueue, stop, files, answered, alive := [], false, map[], [], true;
    }

    /** The critical section of `PostMsgToQue`. */
    method PostMsgToQue(m: Request) returns (notify: bool)
      modifies this`msgQueue
      ensures notify <==> |old(msgQueue)| < 2000000
      ensures msgQueue == old(msgQueue) + if notify then [m] else []
    {
      if |msgQueue| >= MAX_RECV_QUEUE_LEN {
        return false;
      }
      msgQueue := msgQueue + [m];
      notify := true;
    }

    method UploadFileCallback(m: Request)
      requires alive && m.sort == UploadFile
      modifies this`files, this`answered, this`alive
      ensures alive <==> Decodable(m.data)
      ensures alive && m.canOpen ==>
        && answered == old(answered) + [m] && Decoded(m.data).Ok?
        && var kept := if m.seqNo == 0 || m.name !in old(files) then [] else old(files)[m.name];
          files == old(files)[m.name := kept + Decoded(m.data).value]
      ensures !alive || !m.canOpen ==> answered == old(answered) && files == old(files)
      ensures answered == old(answered) + Reply(m)
      ensures alive ==> Some(files) == Apply(old(files), m)
    {
      var decodedData := Decode(m.data);
      DecodesIffDecodable(m.data);
      if decodedData.Err? {
        alive := false;
        return;
      }
      if !m.canOpen {
        return;
      }
      if m.seqNo == 0 {
        files := files[m.name := []];
      } else if m.name !in files {
        files := files[m.name := []];
      }
      files := files[m.name := files[m.name] + decodedData.value];
      assert files == WriteChunk(old(files), m, decodedData.value);
      answered := answered + [m];
    }

    /** `doWork`: the front message goes to the callback of its id. */
    method DoWork()
      requires alive && msgQueue != []
      modifies this`msgQueue, this`files, this`answered, this`alive
      ensures msgQueue == old(msgQueue)[1..]
      ensures var m := old(msgQueue)[0];
        && (alive <==> (m.sort == UploadFile ==> Decodable(m.data)))
        && answered == old(answered)
          + (if m.sort == TestMsg || (m.sort == UploadFile && alive && m.canOpen) then [m] else [])
        && (m.sort != UploadFile || !alive || !m.canOpen ==> files == old(files))
      ensures alive <==> !Fatal(old(msgQueue)[0])
      ensures alive ==> Some(files) == Apply(old(files), old(msgQueue)[0])
      ensures answered == old(answered) + Reply(old(msgQueue)[0])
    {
      DecodesIffDecodable(msgQueue[0].data);
      var m := msgQueue[0];
      msgQueue := msgQueue[1..];
      match m.sort {
        case TestMsg => answered := answered + [m];
        case UploadFile => UploadFileCallback(m);
        case NoCallback =>
      }
    }

    /** One turn of `DealMsg` once its wait is over: one message, or on stop everything queued and
        the return. A fatal message ends it at once, with what came before it handled. */
    method DealTurn() returns (exit: bool)
      requires alive && (msgQueue != [] || stop)
      modifies this`msgQueue, this`files, this`answered, this`alive
      ensures var ms := if stop then old(msgQueue) else [old(msgQueue)[0]];
        && (alive <==> Survived(ms) == ms)
        && Some(files) == ApplyAll(old(files), Survived(ms))
        && answered == old(answered) + Answered(Survived(ms))
        && old(msgQueue) == Survived(ms) + Fatalities(ms) + msgQueue
      ensures alive ==> (exit <==> stop)
    {
      if stop {
        Drain();
        return alive;
      }
      ghost var m, rest := msgQueue[0], msgQueue[1..];
      assert [m][1..] == [] && msgQueue == [m] + rest;
      assert Survived([m]) == if Fatal(m) then [] else [m];
      DoWork();
      exit := false;
    }

    method Drain()
      requires alive
      modifies this`msgQueue, this`files, this`answered, this`alive
      ensures var ms := old(msgQueue);
        && (alive <==> Survived(ms) == ms)
        && Some(files) == ApplyAll(old(files), Survived(ms))
        && answered == old(answered) + Answered(Survived(ms))
        && ms == Survived(ms) + Fatalities(ms) + msgQueue
    {
      ghost var all, done := msgQueue, [];
      hide Fatal, Reply, Apply, Answered, Survived, Fatalities;
      SurvivedStart(all);
      assert ApplyAll(files, []) == Some(files);
      hide ApplyAll;
      while alive && msgQueue != []
        invariant alive ==> all == done + msgQueue && Survived(all) == done + Survived(msgQueue)
        invariant !alive ==> Survived(all) == done && all == done + Fatalities(all) + msgQueue && Fatalities(all) != []
        invariant Some(files) == ApplyAll(old(files), done) && answered == old(answered) + Answered(done)
        decreases alive, |msgQueue|
      {
        ghost var m, rest := msgQueue[0], msgQueue[1..];
        assert msgQueue == [m] + rest;
        SurvivedStep(all, done, m, rest);
        DoWork();
        if alive {
          ApplyAllAppend(old(files), done, m);
          AnsweredAppend(done, m);
          Associates(old(answered), Answered(done), Reply(m));
          done := done + [m];
        } else {
          FatalIsSilent(m);
          assert answered == old(answered) + Answered(done);
        }
      }
      SurvivedEnd(all, done, msgQueue, alive);
    }
  }

  lemma FatalIsSilent(m: Request)
    requires Fatal(m)
    ensures Reply(m) == []
  {
  }

  lemma SurvivedStart(all: seq<Request>)
    ensures all == [] + all && Survived(all) == [] + Survived(all) && Answered([]) == []
    ensures forall answered: seq<Request> :: answered + [] == answered
  {
  }

  lemma SurvivedStep(all: seq<Request>, done: seq<Request>, m: Request, rest: seq<Request>)
    requires all == done + ([m] + rest) && Survived(all) == done + Survived([m] + rest)
    ensures !Fatal(m) ==> all == done + [m] + rest && Survived(all) == done + [m] + Survived(rest)
    ensures Fatal(m) ==> Survived(all) == done && Fatalities(all) == [m] && all == done + Fatalities(all) + rest
  {
    assert ([m] + rest)[1..] == rest;
    Associates(done, [m], rest);
    if Fatal(m) {
      assert done + [] == done;
      assert all[|done|] == m;
    } else {
      Associates(done, [m], Survived(rest));
    }
  }

  lemma SurvivedEnd(all: seq<Request>, done: seq<Request>, queue: seq<Request>, alive: bool)
    requires alive ==> queue == [] && all == done + queue && Survived(all) == done + Survived(queue)
    requires !alive ==> Survived(all) == done && all == done + Fatalities(all) + queue && Fatalities(all) != []
    ensures Survived(all) == done && (alive <==> Survived(all) == all) && all == Survived(all) + Fatalities(all) + queue
  {
    assert done + [] == done;
    if alive {
      assert all + [] + [] == all;
    } else {
      assert |all| > |done|;
    }
  }

  // ---------------------------------------------------------------- what a file holds

  /** The message is written to the file of this name. */
  predicate Writes(m: Request, name: string)
  {
    m.sort == UploadFile && m.canOpen && m.name == name
  }

  ghost predicate AllDecodable(ms: seq<Request>)
  {
    forall i :: 0 <= i < |ms| ==> ms[i].sort == UploadFile ==> Decodable(ms[i].data)
  }

  function DataOf(m: Request): seq<Byte>
  {
    match Decoded(m.data) case Ok(bytes) => bytes case Err(_) => []
  }

  /** The decoded data of all messages written to a file, concatenated. */
  function Written(ms: seq<Request>, name: string): seq<Byte>
  {
    if ms == [] then [] else (if Writes(ms[0], name) then DataOf(ms[0]) else []) + Written(ms[1..], name)
  }

  /** The messages since the last one with sequence number 0 for the file, that one included. */
  function SinceStart(ms: seq<Request>, name: string): (tail: seq<Request>)
    ensures |tail| <= |ms|
    decreases |ms|
  {
    if ms == [] then []
    else if Restarts(ms[1..], name) then SinceStart(ms[1..], name)
    else if Writes(ms[0], name) && ms[0].seqNo == 0 then ms
    else []
  }

  predicate Restarts(ms: seq<Request>, name: string)
  {
    exists i :: 0 <= i < |ms| && Writes(ms[i], name) && ms[i].seqNo == 0
  }

  /** The worker survives exactly if every upload it runs is decodable. */
  lemma {:induction false} SurvivesIffDecodable(files: Files, ms: seq<Request>)
    ensures ApplyAll(files, ms).Some? <==> AllDecodable(ms)
    decreases |ms|
  {
    if ms == [] {
    } else {
      DecodesIffDecodable(ms[0].data);
      assert forall i :: 0 <= i < |ms[1..]| ==> ms[1..][i] == ms[i + 1];
      if Apply(files, ms[0]).Some? {
        SurvivesIffDecodable(Apply(files, ms[0]).value, ms[1..]);
        if AllDecodable(ms[1..]) {
          forall i | 0 <= i < |ms| && ms[i].sort == UploadFile
            ensures Decodable(ms[i].data)
          {
            assert i > 0 ==> ms[i] == ms[1..][i - 1];
          }
        }
      }
    }
  }

  /** What adding one message adds to what is answered. */
  lemma AnswersStep(front: seq<Request>, x: Request, answered: seq<Request>, reply: seq<Request>, m: Request)
    requires IsSubsequence(answered, front)
    requires reply == if x.sort == TestMsg || (x.sort == UploadFile && x.canOpen) then [x] else []
    ensures IsSubsequence(answered + reply, front + [x])
    ensures multiset(answered + reply)[m] - multiset(answered)[m] ==
      if m.sort == TestMsg || (m.sort == UploadFile && m.canOpen)
      then multiset(front + [x])[m] - multiset(front)[m] else 0
  {
    hide IsSubsequence;
    if reply == [] {
      assert answered + reply == answered;
      SubsequenceSkip(answered, front, x);
    } else {
      SubsequenceTake(answered, front, x);
    }
  }

  lemma ReplyIfDecodable(m: Request)
    requires m.sort == UploadFile ==> Decodable(m.data)
    ensures Reply(m) == if m.sort == TestMsg || (m.sort == UploadFile && m.canOpen) then [m] else []
  {
    DecodesIffDecodable(m.data);
    hide Decoded, Decodable;
  }

  lemma AllDecodableFront(ms: seq<Request>)
    requires ms != [] && AllDecodable(ms)
    ensures AllDecodable(ms[..|ms| - 1]) && (ms[|ms| - 1].sort == UploadFile ==> Decodable(ms[|ms| - 1].data))
    ensures ms == ms[..|ms| - 1] + [ms[|ms| - 1]]
  {
  }

  /** What a run of messages answers: the test messages and the uploads whose file can be opened, each as
      often as it was dispatched and in that order, and nothing else. */
  lemma {:induction false} AnswersExactly(ms: seq<Request>, m: Request)
    requires AllDecodable(ms)
    ensures IsSubsequence(Answered(ms), ms)
    ensures multiset(Answered(ms))[m]
      == if m.sort == TestMsg || (m.sort == UploadFile && m.canOpen) then multiset(ms)[m] else 0
    decreases |ms|
  {
    if ms == [] {
    } else {
      hide *;
      var front, x := ms[..|ms| - 1], ms[|ms| - 1];
      AllDecodableFront(ms);
      ReplyIfDecodable(x);
      AnswersExactly(front, m);
      AnsweredAppend(front, x);
      AnswersStep(front, x, Answered(front), Reply(x), m);
    }
  }

  /** Where the worker stops: at the first upload that is not decodable, if there is one. */
  lemma {:induction false} SurvivedSpelledOut(ms: seq<Request>)
    ensures Survived(ms) <= ms && AllDecodable(Survived(ms))
    ensures |Survived(ms)| < |ms| ==>
      ms[|Survived(ms)|].sort == UploadFile && !Decodable(ms[|Survived(ms)|].data)
  {
    if ms == [] {
    } else {
      var rest := Survived(ms[1..]);
      DecodesIffDecodable(ms[0].data);
      hide Decodable, Decoded;
      if !Fatal(ms[0]) {
        SurvivedSpelledOut(ms[1..]);
        assert forall i :: 0 < i < |ms| ==> ms[i] == ms[1..][i - 1];
        assert forall i :: 0 < i <= |rest| ==> ([ms[0]] + rest)[i] == rest[i - 1];
      }
    }
  }

  /** Without a restart in between, a file grows by exactly what is written to it. */
  lemma {:induction false} Grows(files: Files, ms: seq<Request>, name: string)
    requires ApplyAll(files, ms).Some? && !Restarts(ms, name)
    ensures ContentOr(ApplyAll(files, ms).value, name) == ContentOr(files, name) + Written(ms, name)
    decreases |ms|
  {
    if ms == [] {
    } else {
      var next := Apply(files, ms[0]).value;
      assert forall i :: 0 <= i < |ms[1..]| ==> ms[1..][i] == ms[i + 1];
      Grows(next, ms[1..], name);
      var first := if Writes(ms[0], name) then DataOf(ms[0]) else [];
      assert ContentOr(next, name) == ContentOr(files, name) + first;
      Associates(ContentOr(files, name), first, Written(ms[1..], name));
    }
  }

  /** In general: a file holds the decoded data since the last sequence-0 message for it; if there was
      none, that data is appended to what it held before. */
  lemma {:induction false} FileContent(files: Files, ms: seq<Request>, name: string)
    requires ApplyAll(files, ms).Some?
    ensures ContentOr(ApplyAll(files, ms).value, name)
      == if Restarts(ms, name) then Written(SinceStart(ms, name), name) else ContentOr(files, name) + Written(ms, name)
    decreases |ms|
  {
    if !Restarts(ms, name) {
      Grows(files, ms, name);
    } else {
      var next := Apply(files, ms[0]).value;
      if Restarts(ms[1..], name) {
        FileContent(next, ms[1..], name);
      } else {
        assert Writes(ms[0], name) && ms[0].seqNo == 0 by {
          assert forall i :: 0 < i < |ms| ==> ms[i] == ms[1..][i - 1];
        }
        Grows(next, ms[1..], name);
        assert ContentOr(next, name) == DataOf(ms[0]);
      }
    }
  }

  // ---------------------------------------------------------------- whole files

  /** The messages are uploads to this file, all of which can be opened, with decodable data. */
  ghost predicate AllWrite(ms: seq<Request>, name: string)
  {
    forall k :: 0 <= k < |ms| ==> Writes(ms[k], name) && Decoded(ms[k].data).Ok?
  }

  /** The messages upload the chunks of a file in order, in any text that decodes to them; the first one,
      and no other, has sequence number 0. */
  ghost predicate IsUpload(ms: seq<Request>, name: string, chunks: seq<seq<Byte>>)
  {
    && |ms| == |chunks| && AllWrite(ms, name)
    && forall k :: 0 <= k < |ms| ==> (ms[k].seqNo == 0 <==> k == 0) && Decoded(ms[k].data).value == chunks[k]
  }

  /** A client is free to choose: either alphabet will do, with the padding on, off or partly off. */
  lemma EncodedChunksAreUpload(ms: seq<Request>, name: string, chunks: seq<seq<Byte>>, url: bool)
    requires |ms| == |chunks|
    requires forall k :: 0 <= k < |ms| ==>
      && Writes(ms[k], name) && ms[k].seqNo == k
      && ms[k].data <= Encoded(url, chunks[k]) && DataLength(|chunks[k]|) <= |ms[k].data|
    ensures IsUpload(ms, name, chunks)
  {
    forall k | 0 <= k < |ms|
      ensures Decoded(ms[k].data) == Ok(chunks[k])
    {
      DecodeInvertsEncode(url, chunks[k], |ms[k].data|);
      assert Encoded(url, chunks[k])[..|ms[k].data|] == ms[k].data;
    }
  }

  function OfName(ms: seq<Request>, name: string): seq<Request>
  {
    if ms == [] then [] else Own(ms[0], name) + OfName(ms[1..], name)
  }

  function Own(m: Request, name: string): seq<Request>
  {
    if Writes(m, name) then [m] else []
  }

  lemma {:induction false} WrittenOfName(ms: seq<Request>, name: string)
    ensures Written(ms, name) == Written(OfName(ms, name), name)
  {
    if ms == [] {
    } else {
      WrittenOfName(ms[1..], name);
      if Writes(ms[0], name) {
        assert OfName(ms, name)[0] == ms[0] && OfName(ms, name)[1..] == OfName(ms[1..], name);
      } else {
        assert OfName(ms, name) == OfName(ms[1..], name) && Written(ms, name) == Written(ms[1..], name);
      }
    }
  }

  lemma {:induction false} OfNameMember(ms: seq<Request>, name: string, i: nat)
    requires i < |ms| && Writes(ms[i], name)
    ensures ms[i] in OfName(ms, name)
  {
    if i == 0 {
    } else {
      OfNameMember(ms[1..], name, i - 1);
    }
  }

  lemma {:induction false} OfNameConcat(xs: seq<Request>, ys: seq<Request>, name: string)
    ensures OfName(xs + ys, name) == OfName(xs, name) + OfName(ys, name)
  {
    if xs == [] {
      assert xs + ys == ys;
    } else {
      assert (xs + ys)[1..] == xs[1..] + ys;
      OfNameConcat(xs[1..], ys, name);
      Associates(Own(xs[0], name), OfName(xs[1..], name), OfName(ys, name));
    }
  }

  /** The data of a list of uploads, one behind the other. */
  lemma {:induction false} WrittenData(ms: seq<Request>, name: string, chunks: seq<seq<Byte>>)
    requires |ms| == |chunks| && AllWrite(ms, name)
    requires forall k :: 0 <= k < |ms| ==> Decoded(ms[k].data).value == chunks[k]
    ensures Written(ms, name) == Flatten(chunks)
    decreases |ms|
  {
    if ms == [] {
    } else {
      var rest, later := ms[1..], chunks[1..];
      assert forall k :: 0 <= k < |rest| ==> rest[k] == ms[k + 1] && later[k] == chunks[k + 1];
      WrittenData(rest, name, later);
    }
  }

  lemma RestOfUpload(m: Request, rest: seq<Request>, name: string, chunks: seq<seq<Byte>>)
    requires IsUpload([m] + rest, name, chunks)
    ensures Writes(m, name) && m.seqNo == 0 && Decoded(m.data) == Ok(chunks[0])
    ensures Written(rest, name) == Flatten(chunks[1..])
    ensures forall n <- rest :: n.seqNo != 0
  {
    var ms, later := [m] + rest, chunks[1..];
    assert ms[0] == m;
    assert forall k :: 0 <= k < |rest| ==> rest[k] == ms[k + 1] && later[k] == chunks[k + 1];
    WrittenData(rest, name, later);
  }

  lemma NoRestart(ms: seq<Request>, name: string)
    requires forall n <- OfName(ms, name) :: n.seqNo != 0
    ensures !Restarts(ms, name)
  {
    if Restarts(ms, name) {
      var i :| 0 <= i < |ms| && Writes(ms[i], name) && ms[i].seqNo == 0;
      OfNameMember(ms, name, i);
      assert false;
    }
  }

  /** The first chunk truncates, the later ones append. */
  lemma FirstChunk(files: Files, m: Request, rest: seq<Request>, name: string, chunks: seq<seq<Byte>>)
    requires Writes(m, name) && ApplyAll(files, [m] + rest).Some?
    requires IsUpload([m] + OfName(rest, name), name, chunks)
    ensures ContentOr(ApplyAll(files, [m] + rest).value, name) == Flatten(chunks)
  {
    var next := Apply(files, m).value;
    assert ([m] + rest)[1..] == rest;
    RestOfUpload(m, OfName(rest, name), name, chunks);
    NoRestart(rest, name);
    Grows(next, rest, name);
    WrittenOfName(rest, name);
    assert ContentOr(next, name) == chunks[0];
  }

  /** If what is written to a file is one upload from its first chunk on, whatever else is interleaved,
      the file holds exactly the chunks, whatever it held before. */
  lemma {:induction false} UploadsMakeFile(
      files: Files, ms: seq<Request>, name: string, chunks: seq<seq<Byte>>)
    requires ApplyAll(files, ms).Some? && chunks != [] && IsUpload(OfName(ms, name), name, chunks)
    ensures ContentOr(ApplyAll(files, ms).value, name) == Flatten(chunks)
    decreases |ms|
  {
    var m, rest := ms[0], ms[1..];
    assert ms == [m] + rest;
    if Writes(m, name) {
      FirstChunk(files, m, rest, name, chunks);
    } else {
      assert OfName(ms, name) == OfName(rest, name);
      UploadsMakeFile(Apply(files, m).value, rest, name, chunks);
    }
  }

  // ---------------------------------------------------------------- across the queue

  /** No other session writes to the file. */
  ghost predicate OwnFile(ms: seq<Request>, session: nat, name: string)
  {
    forall i :: 0 <= i < |ms| ==> Writes(ms[i], name) ==> ms[i].session == session
  }

  /** What is written to the file is what its session posted for it. */
  lemma {:induction false} OwnFileIsOfName(ms: seq<Request>, session: nat, name: string)
    requires OwnFile(ms, session, name)
    ensures OfName(ms, name) == OfName(LogicWorker.OfSession(ms, SessionOf, session), name)
  {
    if ms == [] {
    } else {
      var m, rest := ms[0], LogicWorker.OfSession(ms[1..], SessionOf, session);
      assert OwnFile(ms[1..], session, name) by {
        assert forall i :: 0 <= i < |ms[1..]| ==> ms[1..][i] == ms[i + 1];
      }
      OwnFileIsOfName(ms[1..], session, name);
      if m.session == session {
        assert LogicWorker.OfSession(ms, SessionOf, session) == [m] + rest;
        assert ([m] + rest)[1..] == rest;
      } else {
        assert [] + rest == rest;
        assert [] + OfName(ms[1..], name) == OfName(ms[1..], name);
      }
    }
  }

  lemma UploadSoFar(ms: seq<Request>, front: seq<Request>, name: string, chunks: seq<seq<Byte>>)
    requires IsUpload(ms, name, chunks) && front <= ms
    ensures IsUpload(front, name, chunks[..|front|])
  {
    assert forall k :: 0 <= k < |front| ==> front[k] == ms[k];
  }

  lemma OfNamePrefix(front: seq<Request>, ms: seq<Request>, name: string)
    requires front <= ms
    ensures OfName(front, name) <= OfName(ms, name)
  {
    OfNameConcat(front, ms[|front|..], name);
    assert front + ms[|front|..] == ms;
  }

  /** As long as no chunk has been written, the file is what it was. */
  lemma UploadsMakeOrLeave(files: Files, ms: seq<Request>, name: string, chunks: seq<seq<Byte>>)
    requires ApplyAll(files, ms).Some? && IsUpload(OfName(ms, name), name, chunks)
    ensures |OfName(ms, name)| == |chunks|
    ensures ContentOr(ApplyAll(files, ms).value, name)
      == if chunks == [] then ContentOr(files, name) else Flatten(chunks)
  {
    if chunks == [] {
      NoRestart(ms, name);
      Grows(files, ms, name);
      WrittenOfName(ms, name);
    } else {
      UploadsMakeFile(files, ms, name, chunks);
    }
  }

  /** The file after every moment of the upload. On any schedule of any number of posting threads over the
      queue that unlocks before it notifies: let what one session has posted for a file be the chunks of an
      upload in order, nothing it posted be dropped, no other session write to that file, and no
      dispatched upload be undecodable, which would have ended the worker. Then the file holds exactly
      the chunks dispatched so far, whatever it held before. */
  lemma FileSoFar(es: seq<LogicWorker.Event<Request>>, end: LogicWorker.State<Request>, files: Files,
                  session: nat, name: string, chunks: seq<seq<Byte>>)
    requires end == LogicWorker.Run(LogicWorker.NotifyUnlocked, MAX_RECV_QUEUE_LEN, LogicWorker.Start<Request>(), es)
    requires LogicWorker.OwnMessages(es, SessionOf)
    requires IsUpload(OfName(LogicWorker.OfSession(end.entered, SessionOf, session), name), name, chunks)
    requires LogicWorker.OfSession(end.dropped, SessionOf, session) == []
    requires OwnFile(end.dispatched, session, name) && AllDecodable(end.dispatched)
    ensures ApplyAll(files, end.dispatched).Some?
    ensures var k := |OfName(end.dispatched, name)|;
      k <= |chunks|
      && ContentOr(ApplyAll(files, end.dispatched).value, name)
        == if k == 0 then ContentOr(files, name) else Flatten(chunks[..k])
    ensures session !in end.posters && end.queue == [] && !end.worker.Working? ==>
      |OfName(end.dispatched, name)| == |chunks|
  {
    LogicWorker.SessionOrderKept(LogicWorker.NotifyUnlocked, MAX_RECV_QUEUE_LEN, es, SessionOf, session);
    var posted := LogicWorker.OfSession(end.entered, SessionOf, session);
    var done := LogicWorker.OfSession(end.dispatched, SessionOf, session);
    OwnFileIsOfName(end.dispatched, session, name);
    SurvivesIffDecodable(files, end.dispatched);
    hide LogicWorker.Run, LogicWorker.OfSession, IsUpload, ApplyAll, OfName;
    OfNamePrefix(done, posted, name);
    UploadSoFar(OfName(posted, name), OfName(done, name), name, chunks);
    UploadsMakeOrLeave(files, end.dispatched, name, chunks[..|OfName(done, name)|]);
  }

  /** The whole-file theorem: once that session is through and the queue and the worker are empty, the file
      holds exactly the original bytes. The session itself may have posted anything besides, and the other
      sessions anything that is decodable and goes to other files. */
  lemma WholeFile(es: seq<LogicWorker.Event<Request>>, end: LogicWorker.State<Request>, files: Files,
                  session: nat, name: string, chunks: seq<seq<Byte>>)
    requires end == LogicWorker.Run(LogicWorker.NotifyUnlocked, MAX_RECV_QUEUE_LEN, LogicWorker.Start<Request>(), es)
    requires LogicWorker.OwnMessages(es, SessionOf)
    requires IsUpload(OfName(LogicWorker.OfSession(end.entered, SessionOf, session), name), name, chunks)
    requires LogicWorker.OfSession(end.dropped, SessionOf, session) == []
    requires session !in end.posters && end.queue == [] && !end.worker.Working?
    requires OwnFile(end.dispatched, session, name) && AllDecodable(end.dispatched) && chunks != []
    ensures ApplyAll(files, end.dispatched).Some?
    ensures ContentOr(ApplyAll(files, end.dispatched).value, name) == Flatten(chunks)
  {
    FileSoFar(es, end, files, session, name, chunks);
    assert chunks[..|chunks|] == chunks;
  }
}
