/**
 * The endpoint the browser polls for replies stored in the queue or the file
 * by a writer outside this model. It prefers the shared key-value queue when
 * one is configured; otherwise it reads the stored records, returns those not
 * yet processed, marks every record processed in place and writes them all
 * back.
 */
module IncomingMessages {

  /** One stored reply. A record whose `processed` flag is absent is read as false. */
  datatype StoredMessage = StoredMessage(from: string, message: string, timestamp: string, processed: bool)

  /** The store file: absent, holding text that is not JSON, or a list of records. */
  datatype StoreFile = Missing | Unparseable | Records(records: seq<StoredMessage>)

  /** The shared queue as this call finds it: not configured, failing (the
      handler then falls back to the file), or handing over up to 100 messages. */
  datatype QueueState = NoQueue | QueueFails | Popped(messages: seq<StoredMessage>)

  datatype IncomingReply =
    | MethodNotAllowed                  // 405
    | NothingStored                     // 200 { messages: [] }
    | Messages(messages: seq<StoredMessage>, total: nat, unprocessed: nat)  // 200
    | InternalError                     // 500

  function HttpStatus(r: IncomingReply): int {
    match r
    case MethodNotAllowed => 405
    case NothingStored => 200
    case Messages(_, _, _) => 200
    case InternalError => 500
  }

  /** `messages.filter(msg => !msg.processed)`. */
  function Unprocessed(rs: seq<StoredMessage>): (r: seq<StoredMessage>)
    ensures |r| <= |rs|
    ensures forall m :: m in r <==> m in rs && !m.processed
    decreases |rs|
  {
    if rs == [] then [] else (if rs[0].processed then [] else [rs[0]]) + Unprocessed(rs[1..])
  }

  /** The records after `msg.processed = true` on each. */
  function MarkAll(rs: seq<StoredMessage>): (r: seq<StoredMessage>)
    ensures |r| == |rs|
    ensures forall k :: 0 <= k < |rs| ==> r[k] == rs[k].(processed := true)
  {
    seq(|rs|, k requires 0 <= k < |rs| => rs[k].(processed := true))
  }

  /** The reply the file path gives for the records it read. The selected
      records are the same objects the marking loop then changes, and the
      reply is serialised after it, so they are sent marked processed. */
  function FileReply(rs: seq<StoredMessage>): IncomingReply {
    Messages(MarkAll(Unprocessed(rs)), |rs|, |Unprocessed(rs)|)
  }

  /** Every record in the reply is sent marked processed, and is a record of
      the file as written back. */
  lemma {:induction false} ReplyFromWrittenFile(rs: seq<StoredMessage>)
    ensures var sent := FileReply(rs).messages;
            |sent| == FileReply(rs).unprocessed
            && forall m :: m in sent ==> m.processed && m in MarkAll(rs)
  {
    var u := Unprocessed(rs);
    forall m | m in MarkAll(u) ensures m.processed && m in MarkAll(rs) {
      var k :| 0 <= k < |u| && MarkAll(u)[k] == m;
      assert u[k] in u;
      var j :| 0 <= j < |rs| && rs[j] == u[k];
      assert MarkAll(rs)[j] == m;
    }
  }

  /** Only unprocessed records are returned, in stored order: the selection
      distributes over concatenation. */
  lemma {:induction false} UnprocessedAppend(a: seq<StoredMessage>, b: seq<StoredMessage>)
    ensures Unprocessed(a + b) == Unprocessed(a) + Unprocessed(b)
    decreases |a|
  {
    if a == [] {
      assert a + b == b;
    } else {
      assert (a + b)[0] == a[0];
      assert (a + b)[1..] == a[1..] + b;
      UnprocessedAppend(a[1..], b);
    }
  }

  /** Once every record is marked, none is unprocessed. */
  lemma {:induction false} NothingLeftAfterMarking(rs: seq<StoredMessage>)
    ensures Unprocessed(MarkAll(rs)) == []
    decreases |rs|
  {
    if rs != [] {
      NothingLeftAfterMarking(rs[1..]);
      assert MarkAll(rs)[1..] == MarkAll(rs[1..]);
    }
  }

  /** A second poll with nothing new in between returns an empty list while
      still counting every record. */
  lemma SecondPollEmpty(rs: seq<StoredMessage>)
    ensures FileReply(MarkAll(rs)) == Messages([], |rs|, 0)
  {
    NothingLeftAfterMarking(rs);
  }

  /** Records that were all processed already are left exactly as they were. */
  lemma MarkAllProcessed(rs: seq<StoredMessage>)
    requires forall k :: 0 <= k < |rs| ==> rs[k].processed
    ensures MarkAll(rs) == rs
  {
  }

  /** The records loaded into an array, each set processed in place, and
      read back out for writing. */
  method MarkProcessed(rs: seq<StoredMessage>) returns (marked: seq<StoredMessage>)
    ensures marked == MarkAll(rs)
  {
    var loaded := new StoredMessage[|rs|](k requires 0 <= k < |rs| => rs[k]);
    var i := 0;
    while i < loaded.Length
      invariant 0 <= i <= loaded.Length == |rs|
      invariant forall k :: 0 <= k < i ==> loaded[k] == rs[k].(processed := true)
      invariant forall k :: i <= k < loaded.Length ==> loaded[k] == rs[k]
    {
      if !loaded[i].processed {
        loaded[i] := loaded[i].(processed := true);
      }
      i := i + 1;
    }
    marked := loaded[..];
  }

  class IncomingStore {
    var file: StoreFile

    constructor (initial: StoreFile)
      ensures file == initial
    {
      file := initial;
    }

    /** The handler for one request with the given HTTP method. */
    method Handle(httpMethod: string, queue: QueueState) returns (reply: IncomingReply)
      modifies this
      ensures httpMethod != "GET" ==> reply == MethodNotAllowed && file == old(file)
      ensures httpMethod == "GET" && queue.Popped? ==>
                reply == Messages(queue.messages, |queue.messages|, |queue.messages|) && file == old(file)
      ensures httpMethod == "GET" && !queue.Popped? ==>
                match old(file)
                case Missing => reply == NothingStored && file == old(file)
                case Unparseable => reply == InternalError && file == old(file)
                case Records(rs) => reply == FileReply(rs) && file == Records(MarkAll(rs))
    {
      if httpMethod != "GET" {
        return MethodNotAllowed;
      }
      if queue.Popped? {
        return Messages(queue.messages, |queue.messages|, |queue.messages|);
      }
      match file
      case Missing =>
        reply := NothingStored;
      case Unparseable =>
        reply := InternalError;
      case Records(rs) =>
        var unprocessed := Unprocessed(rs);
        var marked := MarkProcessed(rs);
        file := Records(marked);
        reply := Messages(MarkAll(unprocessed), |marked|, |unprocessed|);
    }
  }
}
