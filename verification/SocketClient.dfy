/** The read and write loops of `UnixDomainSocketClient`. */
module SocketClient {

  import opened Options
  import opened Sequences
  import opened ByteStreams
  import opened MessageFormat
  import opened Reassembly
  import opened MessageObjects

  const MAX_READ_SIZE: nat := 2048
  const SERVER_CODE: int := 0

  /** Any non-empty byte buffer a single read can return. */
  predicate IsRead(part: Bytes) {
    0 < |part| <= MAX_READ_SIZE
  }

  function Packets(ms: seq<Chunk>): (ps: seq<Packet>)
    ensures |ps| == |ms| && forall i :: 0 <= i < |ms| ==> ps[i] == Packet(|ms[i]|, ms[i])
  {
    seq(|ms|, i requires 0 <= i < |ms| => Packet(|ms[i]|, ms[i]))
  }

  lemma EmptyRun(p: Option<Chunk>)
    ensures Run(p, []) == Step(p, []) && Packets([]) == []
  {}

  lemma RunNext(p: Option<Chunk>, chunks: seq<Chunk>, c: Chunk)
    ensures var t := Receive(Run(p, chunks).partial, c);
            && Run(p, chunks + [c]).partial == t.partial
            && Packets(Run(p, chunks + [c]).delivered) == Packets(Run(p, chunks).delivered) + Packets(t.delivered)
            && (t.delivered == [] ==> Packets(t.delivered) == [])
            && (t.delivered != [] ==> t.delivered == [t.delivered[0]] &&
                                      Packets(t.delivered) == [Packet(|t.delivered[0]|, t.delivered[0])])
  {
    RunSnoc(p, chunks, c);
  }

  class Client {
    const messageManager: MessageManager
    const hasCallback: bool
    var responseIds: set<int>              // ids of requests that wait for a response
    var needResponse: map<int, Packet>     // responses found for them
    var delivered: seq<Packet>             // what the callback has been called with

    ghost predicate Valid()
      reads this, messageManager
    {
      messageManager.Valid()
    }

    ghost function Held(): (p: Option<Chunk>)
      requires Valid()
      reads this, messageManager
    {
      messageManager.Held(SERVER_CODE)
    }

    constructor (hasCallback: bool)
      ensures Valid() && this.hasCallback == hasCallback && fresh(messageManager)
      ensures Held() == None && delivered == [] && responseIds == {} && needResponse == map[]
    {
      var manager := new MessageManager();
      messageManager := manager;
      this.hasCallback := hasCallback;
      responseIds, needResponse, delivered := {}, map[], [];
    }

    /** The first read and the reads that follow it, in one message. */
    method ReadBurst(parts: seq<Bytes>) returns (msg: Message)
      requires |parts| > 0
      ensures fresh(msg) && msg.Valid() && msg.raw == Flatten(parts)
    {
      msg := new Message.FromBytes(parts[0]);
      FlattenOne(parts[0]);
      assert parts[..1] == [parts[0]];
      for i := 1 to |parts|
        invariant fresh(msg) && msg.Valid() && msg.raw == Flatten(parts[..i])
      {
        assert parts[..i + 1] == parts[..i] + [parts[i]];
        FlattenSnoc(parts[..i], parts[i]);
        msg.AppendData(parts[i]);
      }
      assert parts[..|parts|] == parts;
    }

    /** A header replaces what is held, other data extends it if there is any. */
    method StoreChunk(msg: Message)
      requires Valid() && msg.Valid() && |msg.raw| >= HEADER_SIZE
      modifies messageManager
      ensures Valid()
      ensures Held() == if HasMagic(msg.raw) then Some(msg.raw)
                        else if old(Held()).Some? then Some(old(Held()).value + msg.raw)
                        else None
    {
      hide ReadHeader;
      var parser := new MessageParser(msg);
      var isHeader := parser.IsHeader();
      if isHeader {
        var _ := messageManager.Add(SERVER_CODE, msg);
      } else {
        var exists0 := messageManager.IsExistMessage(SERVER_CODE);
        if exists0 {
          var held := messageManager.MessagePop(SERVER_CODE);
          held.AppendData(msg.raw);
          var _ := messageManager.Add(SERVER_CODE, held);
        }
      }
    }

    /** Files the message as a response if its id is waited for, and calls back. */
    method Deliver(m: Message)
      requires m.Valid() && |m.raw| >= HEADER_SIZE
      modifies this`needResponse, this`delivered
      ensures delivered == old(delivered) + if hasCallback then [m.Value()] else []
      ensures var id := ReadHeader(m.raw).messageId;
              needResponse == if id in responseIds then old(needResponse)[id := m.Value()] else old(needResponse)
    {
      var parser := new MessageParser(m);
      var id := parser.header.messageId;
      if id in responseIds {
        needResponse := needResponse[id := m.Value()];
      }
      if hasCallback {
        delivered := delivered + [m.Value()];
      }
    }

    /** One readable event: successive reads until the socket is drained, together at
        least a header long and at most what a 32-bit size can hold. */
    method OnReadable(parts: seq<Bytes>) returns (chunk: Chunk)
      requires Valid()
      requires |parts| > 0 && forall i :: 0 <= i < |parts| ==> IsRead(parts[i])
      requires |Flatten(parts)| >= HEADER_SIZE && Fits(|Flatten(parts)|, 4)
      modifies this, messageManager
      ensures Valid() && chunk == Flatten(parts) && responseIds == old(responseIds)
      ensures var step := Receive(old(Held()), chunk);
              && Held() == step.partial
              && (step.delivered == [] ==> delivered == old(delivered) && needResponse == old(needResponse))
              && (step.delivered != [] ==>
                    var m := step.delivered[0];
                    var id := ReadHeader(m).messageId;
                    && step.delivered == [m]
                    && delivered == old(delivered) + (if hasCallback then [Packet(|m|, m)] else [])
                    && needResponse == if id in responseIds then old(needResponse)[id := Packet(|m|, m)]
                                       else old(needResponse))
    {
      hide ReadHeader, Complete, HasMagic;
      var msg := ReadBurst(parts);
      chunk := msg.raw;
      StoreChunk(msg);
      var perfect := messageManager.IsPerfectMessage(SERVER_CODE);
      if perfect {
        var complete := messageManager.MessagePop(SERVER_CODE);
        Deliver(complete);
      }
    }

    /** A run of events: the callback receives exactly what the state machine delivers. */
    method Serve(bursts: seq<seq<Bytes>>) returns (ghost chunks: seq<Chunk>)
      requires Valid() && hasCallback
      requires forall b :: b in bursts ==>
                 && |b| > 0 && (forall i :: 0 <= i < |b| ==> IsRead(b[i]))
                 && |Flatten(b)| >= HEADER_SIZE && Fits(|Flatten(b)|, 4)
      modifies this, messageManager
      ensures Valid()
      ensures |chunks| == |bursts| && forall i :: 0 <= i < |bursts| ==> chunks[i] == Flatten(bursts[i])
      ensures Held() == Run(old(Held()), chunks).partial
      ensures delivered == old(delivered) + Packets(Run(old(Held()), chunks).delivered)
    {
      hide Receive, Run, Packets, Flatten, Fits;
      ghost var start := Held();
      chunks := [];
      EmptyRun(start);
      for n := 0 to |bursts|
        invariant Valid() && |chunks| == n
        invariant forall i :: 0 <= i < n ==> chunks[i] == Flatten(bursts[i])
        invariant Held() == Run(start, chunks).partial
        invariant delivered == old(delivered) + Packets(Run(start, chunks).delivered)
      {
        var chunk := OnReadable(bursts[n]);
        RunNext(start, chunks, chunk);
        chunks := chunks + [chunk];
      }
    }
  }

  // ----- writing -----

  /** A write never accepts more than it was offered. */
  function Clamp(answer: int, offered: nat): (r: int)
    ensures r <= offered
  {
    if answer <= offered then answer else offered
  }

  /** The bytes a series of answers would accept of an unlimited message; errors add none. */
  function Total(answers: seq<int>): nat {
    if answers == [] then 0 else (if answers[0] > 0 then answers[0] else 0) + Total(answers[1..])
  }

  function Min(x: nat, y: nat): nat {
    if x < y then x else y
  }

  /** `WriteMessage` against a socket that answers each write with a byte count or a
      negative error: what is sent is the prefix of the message that the positive
      answers add up to, and the whole message exactly when they add up to its length.
      The original retries for ever; here the answers are given, and may run out first. */
  method WriteMessage(data: Bytes, answers: seq<int>) returns (sent: Bytes, done: bool)
    requires Fits(|data|, 4)
    ensures sent == data[..Min(|data|, Total(answers))]
    ensures done <==> Total(answers) >= |data|
    ensures done <==> sent == data
  {
    var nextPost: nat := 0;
    sent := [];
    var n := 0;
    while nextPost < |data| && n < |answers|
      invariant 0 <= n <= |answers|
      invariant nextPost <= |data| && sent == data[..nextPost]
      invariant Min(|data|, Total(answers)) == Min(|data|, nextPost + Total(answers[n..]))
    {
      var result := Clamp(answers[n], |data| - nextPost);
      assert answers[n..][1..] == answers[n + 1..];
      n := n + 1;
      if 0 > result {
        continue;
      }
      sent := sent + data[nextPost..nextPost + result];
      nextPost := nextPost + result;
    }
    done := nextPost == |data|;
  }

  // ----- what a series of answers sends -----

  lemma {:induction false} TotalConcat(a: seq<int>, b: seq<int>)
    ensures Total(a + b) == Total(a) + Total(b)
  {
    if a == [] {
      assert a + b == b;
    } else {
      TotalConcat(a[1..], b);
      assert (a + b)[1..] == a[1..] + b;
    }
  }

  function Sum(counts: seq<nat>): nat {
    if counts == [] then 0 else counts[0] + Sum(counts[1..])
  }

  /** Without errors it is the plain sum. */
  lemma {:induction false} TotalOfCounts(counts: seq<nat>)
    ensures Total(counts) == Sum(counts)
  {
    if counts != [] {
      TotalOfCounts(counts[1..]);
    }
  }

  lemma {:induction false} OnlyErrors(errors: seq<int>)
    requires forall i :: 0 <= i < |errors| ==> errors[i] < 0
    ensures Total(errors) == 0
  {
    if errors != [] {
      OnlyErrors(errors[1..]);
    }
  }

  /** Errors among the answers count for nothing, wherever they are. */
  lemma TotalOfErrors(a: seq<int>, errors: seq<int>, b: seq<int>)
    requires forall i :: 0 <= i < |errors| ==> errors[i] < 0
    ensures Total(a + errors + b) == Total(a + b)
  {
    TotalConcat(a + errors, b);
    TotalConcat(a, errors);
    TotalConcat(a, b);
    OnlyErrors(errors);
  }

  /** A message written with errors in between is sent as without them: what the counts
      add up to, and all of it if they suffice. */
  method WriteDespiteErrors(data: Bytes, first: seq<nat>, errors: seq<int>, second: seq<nat>)
    returns (sent: Bytes, done: bool)
    requires Fits(|data|, 4)
    requires forall i :: 0 <= i < |errors| ==> errors[i] < 0
    ensures var n := Sum(first) + Sum(second);
            && (done <==> n >= |data|)
            && sent == if n >= |data| then data else data[..n]
  {
    var answers: seq<int> := first;
    TotalOfErrors(first, errors, second);
    TotalConcat(first, second);
    TotalOfCounts(first);
    TotalOfCounts(second);
    sent, done := WriteMessage(data, answers + errors + second);
  }

  /** Interrupted after some answers, the rest of a message can be written later. */
  method WriteInTurn(data: Bytes, first: seq<int>, second: seq<int>) returns (sent: Bytes, done: bool)
    requires Fits(|data|, 4)
    ensures sent == data[..Min(|data|, Total(first + second))] && (done <==> sent == data)
  {
    var rest: Bytes, whole: bool;
    sent, whole := WriteMessage(data, first);
    rest, done := WriteMessage(data[|sent|..], second);
    sent := sent + rest;
    TotalConcat(first, second);
  }
}
