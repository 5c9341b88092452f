/** Which streams of built messages arrive, depending on how they are cut into chunks. */
module MessageStreams {

  import opened Options
  import opened Sequences
  import opened ByteStreams
  import opened MessageFormat
  import opened Reassembly

  // ----- end to end -----

  /** No continuation chunk happens to begin with the magic value. */
  ghost predicate CleanlyCut(cs: seq<Chunk>) {
    forall i :: 1 <= i < |cs| ==> !HasMagic(cs[i])
  }

  /** The chunks carry one built message and nothing else. */
  ghost predicate Carries(cs: seq<Chunk>, r: Request) {
    r.InRange() && cs != [] && Flatten(cs) == MessageBytes(r)
  }

  lemma CarriedHeader(cs: seq<Chunk>, r: Request)
    requires Carries(cs, r)
    ensures HasMagic(cs[0]) && Declared(cs) == |MessageBytes(r)| && Fits(|MessageBytes(r)|, 4)
  {
    hide HasMagic, ReadHeader, MessageBytes;
    ParseBuilt(r);
    assert Flatten(cs) == cs[0] + Flatten(cs[1..]);
    SameHeader(cs[0], Flatten(cs[1..]));
  }

  lemma CleanMessageDelivered(p: Option<Chunk>, cs: seq<Chunk>, r: Request)
    requires Carries(cs, r) && CleanlyCut(cs)
    ensures Run(p, cs) == Step(None, [MessageBytes(r)])
  {
    hide Run, HasMagic, MessageBytes, Declared, BoundaryAt;
    CarriedHeader(cs, r);
    assert cs[..|cs|] == cs;
    BoundaryIsDeclaredLength(cs, |cs|);
    assert BoundaryAt(cs, |cs|);
    RunOfGroup(p, cs);
  }

  /** A group with all the bytes consists of all the chunks. */
  lemma WholeGroup(cs: seq<Chunk>, from: nat, to: nat)
    requires from <= to <= |cs| && |Flatten(cs[from..to])| == |Flatten(cs)|
    ensures from == 0 && to == |cs|
  {
    assert cs == (cs[..from] + cs[from..to]) + cs[to..];
    FlattenConcat(cs[..from] + cs[from..to], cs[to..]);
    FlattenConcat(cs[..from], cs[from..to]);
    FlattenSize(cs[..from]);
    FlattenSize(cs[to..]);
  }

  /** However a message is cut, and whatever was held before: it is delivered exactly
      when no continuation chunk begins with the magic value, and then alone. */
  lemma MessageDelivery(p: Option<Chunk>, cs: seq<Chunk>, r: Request)
    requires Carries(cs, r)
    ensures MessageBytes(r) in Run(p, cs).delivered <==> CleanlyCut(cs)
    ensures Run(p, cs) == Step(None, [MessageBytes(r)]) <==> CleanlyCut(cs)
  {
    hide Run, HasMagic, MessageBytes, Flatten;
    var m := MessageBytes(r);
    if CleanlyCut(cs) {
      CleanMessageDelivered(p, cs, r);
    } else if m in Run(p, cs).delivered {
      CarriedHeader(cs, r);
      RunFromHeader(p, cs);
      var delivered := Run(None, cs).delivered;
      var cuts, end := EveryRunIsExplained(cs);
      var k :| 0 <= k < |delivered| && delivered[k] == m;
      WholeGroup(cs, cuts[k].from, cuts[k].to);
      assert false;
    }
  }

  function Messages(rs: seq<Request>): (ms: seq<Chunk>)
    ensures |ms| == |rs|
  {
    if rs == [] then [] else [MessageBytes(rs[0])] + Messages(rs[1..])
  }

  /** However each message is cut, and whatever was held before: every message is
      delivered exactly once, in order, byte for byte, and nothing else is. */
  lemma {:induction false} EndToEnd(p: Option<Chunk>, groups: seq<seq<Chunk>>, rs: seq<Request>)
    requires |groups| == |rs|
    requires forall i :: 0 <= i < |rs| ==> Carries(groups[i], rs[i]) && CleanlyCut(groups[i])
    ensures Run(p, Flatten(groups)) == Step(if rs == [] then p else None, Messages(rs))
    decreases |rs|
  {
    if rs != [] {
      hide Run, HasMagic, MessageBytes, Flatten;
      CleanMessageDelivered(p, groups[0], rs[0]);
      EndToEnd(None, groups[1..], rs[1..]);
      RunConcat(p, groups[0], Flatten(groups[1..]));
    } else {
      assert Flatten(groups) == [];
    }
  }

  function Deliveries(groups: seq<seq<Chunk>>): (d: seq<seq<Chunk>>)
    ensures |d| == |groups|
  {
    if groups == [] then [] else [Run(None, groups[0]).delivered] + Deliveries(groups[1..])
  }

  /** A badly cut message does not harm its neighbours: each message's chunks deliver
      what they would deliver alone. */
  lemma {:induction false} MessagesAreIndependent(p: Option<Chunk>, groups: seq<seq<Chunk>>, rs: seq<Request>)
    requires |groups| == |rs| && forall i :: 0 <= i < |rs| ==> Carries(groups[i], rs[i])
    ensures Run(p, Flatten(groups)).delivered == Flatten(Deliveries(groups))
    decreases |rs|
  {
    if rs == [] {
      NothingToRun(p);
    } else {
      hide Run, HasMagic, MessageBytes, Flatten;
      CarriedHeader(groups[0], rs[0]);
      RunFromHeader(p, groups[0]);
      RunConcat(p, groups[0], Flatten(groups[1..]));
      MessagesAreIndependent(Run(p, groups[0]).partial, groups[1..], rs[1..]);
    }
  }

  // ----- a stream of messages, however it is cut -----

  /** Every message has chunks of its own, and no continuation chunk begins with the
      magic value. */
  ghost predicate Cuts(groups: seq<seq<Chunk>>, rs: seq<Request>) {
    |groups| == |rs| && forall i :: 0 <= i < |rs| ==> Carries(groups[i], rs[i]) && CleanlyCut(groups[i])
  }

  ghost predicate CutPerMessage(chunks: seq<Chunk>, rs: seq<Request>) {
    exists groups: seq<seq<Chunk>> :: Flatten(groups) == chunks && Cuts(groups, rs)
  }

  /** The chunks carry the messages one after the other and nothing else. */
  ghost predicate Streams(chunks: seq<Chunk>, rs: seq<Request>) {
    && (forall r :: r in rs ==> r.InRange())
    && Flatten(chunks) == Flatten(Messages(rs))
  }

  /** A group delivers all its bytes only as one message. */
  lemma OutcomeSize(cs: seq<Chunk>)
    requires cs != []
    ensures var d := GroupOutcome(cs).delivered;
            && |Flatten(d)| <= |Flatten(cs)|
            && (|Flatten(d)| == |Flatten(cs)| ==> d == [Flatten(cs)])
  {
    hide Flatten, BoundaryAt;
    var k := BoundaryFrom(cs, 1);
    assert cs[..|cs|] == cs;
    if k == 0 {
      FlattenSize(cs);
      NothingYet(None, FirstBytes(cs, |cs|));
    } else {
      FlattenOne(FirstBytes(cs, k));
      FlattenGrows(cs, k, |cs|);
    }
  }

  lemma DeliverySize(cs: seq<Chunk>)
    requires cs != []
    ensures var d := Delivery(cs);
            && |Flatten(d)| <= |Flatten(cs)|
            && (|Flatten(d)| == |Flatten(cs)| ==> HasMagic(cs[0]) && d == [Flatten(cs)])
  {
    hide Flatten, HasMagic, GroupOutcome;
    OutcomeSize(cs);
    FlattenSize(cs);
    NothingYet(None, cs[0]);
  }

  lemma {:induction false} ExpectedSize(chunks: seq<Chunk>)
    ensures |Flatten(Expected(chunks))| <= |Flatten(chunks)|
    decreases |chunks|
  {
    hide Flatten, HasMagic, Delivery;
    if chunks != [] {
      var n := FrontLength(chunks);
      assert chunks == chunks[..n] + chunks[n..];
      FlattenConcat(chunks[..n], chunks[n..]);
      DeliverySize(chunks[..n]);
      ExpectedSize(chunks[n..]);
      FlattenConcat(Delivery(chunks[..n]), Expected(chunks[n..]));
    }
  }

  lemma MessagesCons(rs: seq<Request>, m: Chunk, later: seq<Chunk>)
    requires Messages(rs) == [m] + later
    ensures rs != [] && m == MessageBytes(rs[0]) && later == Messages(rs[1..])
  {
    hide MessageBytes;
    assert later == Messages(rs)[1..];
  }

  lemma NoGroups()
    ensures Flatten<Chunk>([]) == []
  {}

  lemma NothingExpected(rs: seq<Request>)
    requires Expected([]) == Messages(rs)
    ensures rs == [] && Flatten<Chunk>([]) == []
  {}

  lemma FrontBytes(chunks: seq<Chunk>, n: nat)
    requires chunks != [] && n == FrontLength(chunks)
    ensures Flatten(chunks) == Flatten(chunks[..n]) + Flatten(chunks[n..])
    ensures Flatten(Expected(chunks)) == Flatten(Delivery(chunks[..n])) + Flatten(Expected(chunks[n..]))
    ensures CleanlyCut(chunks[..n])
  {
    hide Flatten, HasMagic, Delivery;
    assert chunks == chunks[..n] + chunks[n..];
    FlattenConcat(chunks[..n], chunks[n..]);
    FlattenConcat(Delivery(chunks[..n]), Expected(chunks[n..]));
    assert forall i :: 1 <= i < n ==> chunks[..n][i] == chunks[i];
  }

  /** A run that delivers all the bytes it receives delivers its front chunks as the
      first message. */
  lemma FrontMessage(chunks: seq<Chunk>, rs: seq<Request>, n: nat)
    requires chunks != [] && n == FrontLength(chunks)
    requires Expected(chunks) == Messages(rs) && |Flatten(Messages(rs))| == |Flatten(chunks)|
    ensures rs != [] && Flatten(chunks[..n]) == MessageBytes(rs[0])
    ensures Expected(chunks[n..]) == Messages(rs[1..])
    ensures |Flatten(Messages(rs[1..]))| == |Flatten(chunks[n..])|
  {
    hide Flatten, HasMagic, FrontLength, Delivery, Messages, MessageBytes;
    FrontBytes(chunks, n);
    DeliverySize(chunks[..n]);
    ExpectedSize(chunks[n..]);
    MessagesCons(rs, Delivery(chunks[..n])[0], Expected(chunks[n..]));
  }

  /** So it delivers whole groups. */
  lemma {:induction false} GroupsOfExpected(chunks: seq<Chunk>, rs: seq<Request>) returns (groups: seq<seq<Chunk>>)
    requires forall r :: r in rs ==> r.InRange()
    requires Expected(chunks) == Messages(rs) && |Flatten(Messages(rs))| == |Flatten(chunks)|
    ensures Flatten(groups) == chunks && Cuts(groups, rs)
    decreases |chunks|
  {
    hide Flatten, HasMagic, FrontLength, Expected, Messages, MessageBytes, CleanlyCut;
    if chunks == [] {
      groups := [];
      NothingExpected(rs);
    } else {
      var n := FrontLength(chunks);
      FrontBytes(chunks, n);
      FrontMessage(chunks, rs, n);
      var later := GroupsOfExpected(chunks[n..], rs[1..]);
      groups := [chunks[..n]] + later;
      FlattenCons(chunks[..n], later);
    }
  }

  /** A stream of messages begins with a header. */
  lemma StreamStart(chunks: seq<Chunk>, rs: seq<Request>)
    requires Streams(chunks, rs)
    ensures chunks == [] <==> rs == []
    ensures chunks != [] ==> HasMagic(chunks[0])
  {
    hide HasMagic, MessageBytes;
    if rs != [] && chunks != [] {
      var m := MessageBytes(rs[0]);
      ParseBuilt(rs[0]);
      MagicOnTheWire(m);
      MagicOnTheWire(chunks[0]);
      assert Flatten(chunks) == chunks[0] + Flatten(chunks[1..]);
      assert Flatten(Messages(rs)) == m + Flatten(Messages(rs)[1..]);
      assert chunks[0][..4] == Flatten(chunks)[..4] == m[..4];
    }
  }

  /** Exactly when a stream of messages arrives as it was sent, whatever was held
      before: when it is cut per message. */
  lemma StreamDelivery(p: Option<Chunk>, chunks: seq<Chunk>, rs: seq<Request>)
    requires Streams(chunks, rs)
    ensures Run(p, chunks).delivered == Messages(rs) <==> CutPerMessage(chunks, rs)
  {
    hide Run, HasMagic, Flatten, Messages;
    StreamStart(chunks, rs);
    if CutPerMessage(chunks, rs) {
      var groups: seq<seq<Chunk>> :| Flatten(groups) == chunks && Cuts(groups, rs);
      EndToEnd(p, groups, rs);
    }
    if Run(p, chunks).delivered == Messages(rs) {
      RunFromAnyState(p, chunks);
      var groups := GroupsOfExpected(chunks, rs);
    }
  }

  /** The partial message of a lost connection stays held in the next one. Whatever
      the former received, the latter's messages arrive under the same condition. */
  lemma NextConnection(before: seq<Chunk>, chunks: seq<Chunk>, rs: seq<Request>)
    requires Streams(chunks, rs)
    ensures Run(None, before + chunks).delivered == Run(None, before).delivered + Messages(rs) <==>
            CutPerMessage(chunks, rs)
  {
    hide Run, Streams, CutPerMessage, Messages;
    var held := Run(None, before).partial;
    RunConcat(None, before, chunks);
    StreamDelivery(held, chunks, rs);
    SamePrefix(Run(None, before).delivered, Run(held, chunks).delivered, Messages(rs));
  }

  // ----- the same condition by positions in the stream -----

  /** Where the k-th of these pieces begins. */
  function Offset(cs: seq<Chunk>, k: nat): nat
    requires k <= |cs|
  {
    |Flatten(cs[..k])|
  }

  /** The k-th message begins inside the i-th chunk and not at its start. */
  ghost predicate SpansAt(chunks: seq<Chunk>, rs: seq<Request>, i: nat, k: nat) {
    i < |chunks| && k <= |rs| && Offset(chunks, i) < Offset(Messages(rs), k) < Offset(chunks, i + 1)
  }

  ghost predicate StartsMessage(chunks: seq<Chunk>, rs: seq<Request>, i: nat)
    requires i < |chunks|
  {
    exists k: nat | k < |rs| :: Offset(chunks, i) == Offset(Messages(rs), k)
  }

  ghost predicate NoneSpans(chunks: seq<Chunk>, rs: seq<Request>) {
    forall i: nat, k: nat :: !SpansAt(chunks, rs, i, k)
  }

  ghost predicate HeadersStart(chunks: seq<Chunk>, rs: seq<Request>) {
    forall i: nat | i < |chunks| && HasMagic(chunks[i]) :: StartsMessage(chunks, rs, i)
  }

  /** No chunk spans two messages, and where a chunk begins with the magic value a
      message begins. */
  ghost predicate CutAtStarts(chunks: seq<Chunk>, rs: seq<Request>) {
    NoneSpans(chunks, rs) && HeadersStart(chunks, rs)
  }

  lemma OffsetShift(cs: seq<Chunk>, n: nat, k: nat)
    requires n + k <= |cs|
    ensures Offset(cs, n + k) == Offset(cs, n) + Offset(cs[n..], k)
  {
    hide Flatten;
    assert cs[..n + k] == cs[..n] + cs[n..][..k];
    FlattenConcat(cs[..n], cs[n..][..k]);
  }

  lemma OffsetGrows(cs: seq<Chunk>, i: nat, j: nat)
    requires i < j <= |cs|
    ensures Offset(cs, i) < Offset(cs, j)
  {
    hide Flatten;
    FlattenGrows(cs, i, j);
  }

  lemma FirstMessage(rs: seq<Request>)
    requires rs != []
    ensures Messages(rs)[1..] == Messages(rs[1..])
    ensures Offset(Messages(rs), 0) == 0 && Offset(Messages(rs), 1) == |MessageBytes(rs[0])|
  {
    hide MessageBytes;
    FlattenOne(MessageBytes(rs[0]));
    assert Messages(rs)[..1] == [MessageBytes(rs[0])];
  }

  lemma FirstOffset(chunks: seq<Chunk>)
    ensures Offset(chunks, 0) == 0
  {
    assert chunks[..0] == [];
  }

  /** The chunks of the first message, where a chunk ends with it. */
  lemma PeelBytes(chunks: seq<Chunk>, rs: seq<Request>, n: nat)
    requires Streams(chunks, rs) && rs != []
    requires n <= |chunks| && Offset(chunks, n) == |MessageBytes(rs[0])|
    ensures Flatten(chunks[..n]) == MessageBytes(rs[0]) && n > 0
    ensures Streams(chunks[n..], rs[1..])
  {
    hide Flatten, MessageBytes;
    var m, later := MessageBytes(rs[0]), Messages(rs[1..]);
    assert chunks == chunks[..n] + chunks[n..];
    FlattenConcat(chunks[..n], chunks[n..]);
    FlattenCons(m, later);
    var stream := Flatten(chunks);
    assert stream == m + Flatten(later);
    assert Flatten(chunks[..n]) == stream[..|m|] == m;
    assert Flatten(chunks[n..]) == stream[|m|..] == Flatten(later);
    FirstOffset(chunks);
  }

  lemma SpansShift(chunks: seq<Chunk>, rs: seq<Request>, n: nat, i: nat, k: nat)
    requires rs != [] && n <= |chunks| && Offset(chunks, n) == |MessageBytes(rs[0])|
    ensures SpansAt(chunks[n..], rs[1..], i, k) <==> SpansAt(chunks, rs, n + i, k + 1)
  {
    hide Offset, MessageBytes, Messages;
    FirstMessage(rs);
    if n + i < |chunks| && k < |rs| {
      OffsetShift(chunks, n, i);
      OffsetShift(chunks, n, i + 1);
      OffsetShift(Messages(rs), 1, k);
    }
  }

  lemma StartsShift(chunks: seq<Chunk>, rs: seq<Request>, n: nat, i: nat)
    requires rs != [] && n + i < |chunks| && Offset(chunks, n) == |MessageBytes(rs[0])|
    ensures StartsMessage(chunks[n..], rs[1..], i) <==> StartsMessage(chunks, rs, n + i)
  {
    hide Offset, MessageBytes, Messages;
    FirstMessage(rs);
    OffsetShift(chunks, n, i);
    forall k: nat | k < |rs| - 1
      ensures Offset(Messages(rs), k + 1) == Offset(chunks, n) + Offset(Messages(rs[1..]), k)
    {
      OffsetShift(Messages(rs), 1, k);
    }
    if StartsMessage(chunks, rs, n + i) {
      var k: nat :| k < |rs| && Offset(chunks, n + i) == Offset(Messages(rs), k);
      assert k > 0;
      assert Offset(chunks[n..], i) == Offset(Messages(rs[1..]), k - 1);
    }
  }

  /** What holds among the chunks of the first message alone. */
  lemma InFirstMessage(chunks: seq<Chunk>, rs: seq<Request>, n: nat, i: nat)
    requires rs != [] && i < n <= |chunks| && Offset(chunks, n) == |MessageBytes(rs[0])|
    ensures forall k: nat :: !SpansAt(chunks, rs, i, k)
    ensures StartsMessage(chunks, rs, i) <==> i == 0
  {
    hide Offset, MessageBytes, Messages;
    FirstMessage(rs);
    FirstOffset(chunks);
    forall k: nat | 1 <= k <= |rs|
      ensures Offset(chunks, n) <= Offset(Messages(rs), k)
    {
      if k > 1 {
        OffsetGrows(Messages(rs), 1, k);
      }
    }
    OffsetGrows(chunks, i, n);
    if i + 1 < n {
      OffsetGrows(chunks, i + 1, n);
    }
    if i > 0 {
      OffsetGrows(chunks, 0, i);
    }
  }

  lemma SpansNoStart(chunks: seq<Chunk>, rs: seq<Request>, i: nat)
    ensures !SpansAt(chunks, rs, i, 0)
  {
    FirstOffset(Messages(rs));
  }

  lemma PeelSpans(chunks: seq<Chunk>, rs: seq<Request>, n: nat)
    requires rs != [] && n <= |chunks| && Offset(chunks, n) == |MessageBytes(rs[0])|
    ensures NoneSpans(chunks, rs) <==> NoneSpans(chunks[n..], rs[1..])
  {
    hide SpansAt, MessageBytes, Offset;
    if NoneSpans(chunks, rs) {
      forall i: nat, k: nat
        ensures !SpansAt(chunks[n..], rs[1..], i, k)
      {
        SpansShift(chunks, rs, n, i, k);
      }
    }
    if NoneSpans(chunks[n..], rs[1..]) {
      forall i: nat, k: nat
        ensures !SpansAt(chunks, rs, i, k)
      {
        if i < n {
          InFirstMessage(chunks, rs, n, i);
        } else if k == 0 {
          SpansNoStart(chunks, rs, i);
        } else {
          SpansShift(chunks, rs, n, i - n, k - 1);
        }
      }
    }
  }

  lemma PeelHeaders(chunks: seq<Chunk>, rs: seq<Request>, n: nat)
    requires rs != [] && n <= |chunks| && Offset(chunks, n) == |MessageBytes(rs[0])|
    ensures HeadersStart(chunks, rs) <==> CleanlyCut(chunks[..n]) && HeadersStart(chunks[n..], rs[1..])
  {
    hide StartsMessage, HasMagic, MessageBytes, Offset;
    var first, rest := chunks[..n], chunks[n..];
    forall i: nat | i < n
      ensures first[i] == chunks[i]
      ensures StartsMessage(chunks, rs, i) <==> i == 0
    {
      InFirstMessage(chunks, rs, n, i);
    }
    if HeadersStart(chunks, rs) {
      forall i: nat | i < |rest| && HasMagic(rest[i])
        ensures StartsMessage(rest, rs[1..], i)
      {
        assert rest[i] == chunks[n + i];
        StartsShift(chunks, rs, n, i);
      }
    }
    if CleanlyCut(first) && HeadersStart(rest, rs[1..]) {
      forall i: nat | i < |chunks| && HasMagic(chunks[i])
        ensures StartsMessage(chunks, rs, i)
      {
        if i >= n {
          assert rest[i - n] == chunks[i];
          StartsShift(chunks, rs, n, i - n);
        } else {
          assert first[i] == chunks[i];
        }
      }
    }
  }

  /** The condition on a stream is one on its first message and one on the others. */
  lemma PeelCut(chunks: seq<Chunk>, rs: seq<Request>, n: nat)
    requires rs != [] && n <= |chunks| && Offset(chunks, n) == |MessageBytes(rs[0])|
    ensures CutAtStarts(chunks, rs) <==> CleanlyCut(chunks[..n]) && CutAtStarts(chunks[n..], rs[1..])
  {
    hide NoneSpans, HeadersStart, CleanlyCut;
    PeelSpans(chunks, rs, n);
    PeelHeaders(chunks, rs, n);
  }

  lemma WholeStream(chunks: seq<Chunk>, rs: seq<Request>)
    requires Streams(chunks, rs) && rs != []
    ensures Offset(chunks, |chunks|) >= |MessageBytes(rs[0])|
  {
    hide Flatten;
    assert chunks[..|chunks|] == chunks;
    FlattenCons(MessageBytes(rs[0]), Messages(rs[1..]));
  }

  /** Unless a chunk spans the end of the first message, some chunk ends there. */
  lemma EndOfFirst(chunks: seq<Chunk>, rs: seq<Request>) returns (n: nat)
    requires Streams(chunks, rs) && rs != []
    requires NoneSpans(chunks, rs)
    ensures n <= |chunks| && Offset(chunks, n) == |MessageBytes(rs[0])|
  {
    hide Offset, MessageBytes, HasMagic;
    var m := MessageBytes(rs[0]);
    FirstMessage(rs);
    FirstOffset(chunks);
    assert Offset(chunks, |chunks|) >= |m| by {
      WholeStream(chunks, rs);
    }
    n := 0;
    while Offset(chunks, n) < |m|
      invariant n <= |chunks| && Offset(chunks, n) <= |m|
      decreases |chunks| - n
    {
      assert !SpansAt(chunks, rs, n, 1);
      n := n + 1;
    }
  }

  lemma FirstCarried(chunks: seq<Chunk>, rs: seq<Request>, n: nat)
    requires Streams(chunks, rs) && rs != []
    requires 0 < n <= |chunks| && Flatten(chunks[..n]) == MessageBytes(rs[0])
    ensures Carries(chunks[..n], rs[0])
  {}

  lemma NothingSpans(chunks: seq<Chunk>, rs: seq<Request>)
    requires chunks == [] && rs == []
    ensures CutAtStarts(chunks, rs)
  {}

  lemma FirstGroup(chunks: seq<Chunk>, groups: seq<seq<Chunk>>, rs: seq<Request>) returns (n: nat)
    requires Flatten(groups) == chunks && Cuts(groups, rs) && rs != []
    ensures n <= |chunks| && chunks[..n] == groups[0] && chunks[n..] == Flatten(groups[1..])
    ensures Offset(chunks, n) == |MessageBytes(rs[0])| && CleanlyCut(chunks[..n])
  {
    hide MessageBytes, HasMagic;
    n := |groups[0]|;
    assert chunks == groups[0] + Flatten(groups[1..]);
    assert Carries(groups[0], rs[0]);
  }

  /** The sender's condition can be read off the positions of chunks and messages. */
  lemma {:induction false} CutPerMessageByPosition(chunks: seq<Chunk>, rs: seq<Request>)
    requires Streams(chunks, rs)
    ensures CutPerMessage(chunks, rs) <==> CutAtStarts(chunks, rs)
    decreases |rs|
  {
    hide Flatten, Offset, MessageBytes, HasMagic, SpansAt, StartsMessage, Messages, Streams, Carries, CleanlyCut;
    if rs == [] {
      StreamStart(chunks, rs);
      NoGroups();
      assert Flatten<Chunk>([]) == chunks && Cuts([], rs);
      NothingSpans(chunks, rs);
    } else {
      if CutPerMessage(chunks, rs) {
        var groups: seq<seq<Chunk>> :| Flatten(groups) == chunks && Cuts(groups, rs);
        var n := FirstGroup(chunks, groups, rs);
        PeelBytes(chunks, rs, n);
        PeelCut(chunks, rs, n);
        assert Cuts(groups[1..], rs[1..]);
        CutPerMessageByPosition(chunks[n..], rs[1..]);
      }
      if CutAtStarts(chunks, rs) {
        var n := EndOfFirst(chunks, rs);
        PeelBytes(chunks, rs, n);
        PeelCut(chunks, rs, n);
        CutPerMessageByPosition(chunks[n..], rs[1..]);
        var later: seq<seq<Chunk>> :| Flatten(later) == chunks[n..] && Cuts(later, rs[1..]);
        FlattenCons(chunks[..n], later);
        FirstCarried(chunks, rs, n);
        assert Cuts([chunks[..n]] + later, rs);
      }
    }
  }

  /** So a stream in which some chunk spans two messages never arrives as it was sent. */
  lemma SpanningChunk(p: Option<Chunk>, chunks: seq<Chunk>, rs: seq<Request>, i: nat, k: nat)
    requires Streams(chunks, rs) && SpansAt(chunks, rs, i, k)
    ensures Run(p, chunks).delivered != Messages(rs)
  {
    hide Run, SpansAt, HasMagic;
    StreamDelivery(p, chunks, rs);
    CutPerMessageByPosition(chunks, rs);
  }

  // ----- runs that fail -----

  lemma GroupOfMessage(cs: seq<Chunk>, a: Request, more: Bytes)
    requires a.InRange() && CleanlyCut(cs) && cs != [] && Flatten(cs) == MessageBytes(a) + more
    ensures Group(cs) && Declared(cs) == |MessageBytes(a)|
  {
    hide HasMagic, ReadHeader, MessageBytes;
    ParseBuilt(a);
    assert Flatten(cs) == cs[0] + Flatten(cs[1..]);
    SameHeader(cs[0], Flatten(cs[1..]));
    SameHeader(MessageBytes(a), more);
  }

  /** Exactly what becomes of a message `a` with more behind it in its group: it is
      delivered if a chunk ends with it, and otherwise held together with what follows.
      What follows, be it whole messages, is never delivered. */
  lemma SharedGroup(p: Option<Chunk>, cs: seq<Chunk>, a: Request, more: Bytes)
    requires a.InRange() && CleanlyCut(cs) && Fits(|Flatten(cs)|, 4)
    requires cs != [] && Flatten(cs) == MessageBytes(a) + more
    ensures (exists k: nat | k <= |cs| :: Offset(cs, k) == |MessageBytes(a)|) ==>
              Run(p, cs) == Step(None, [MessageBytes(a)])
    ensures !(exists k: nat | k <= |cs| :: Offset(cs, k) == |MessageBytes(a)|) ==>
              Run(p, cs).delivered == [] && Run(p, cs).partial.Some?
  {
    hide Run, ReadHeader, MessageBytes, HasMagic, Wrap, Flatten;
    var m := MessageBytes(a);
    GroupOfMessage(cs, a, more);
    forall k: nat | 1 <= k <= |cs|
      ensures BoundaryAt(cs, k) <==> Offset(cs, k) == |m|
    {
      BoundaryIsDeclaredLength(cs, k);
    }
    FirstOffset(cs);
    RunOfGroup(p, cs);
    var k := BoundaryFrom(cs, 1);
    if k != 0 {
      FlattenGrows(cs, k, |cs|);
      assert cs == cs[..k] + cs[k..];
      FlattenConcat(cs[..k], cs[k..]);
      assert Flatten(cs[..k]) == Flatten(cs)[..|m|] == m;
    }
  }

  /** A chunk that holds two messages delivers neither, and blocks until a later
      chunk begins with a header: the reason a chunk must not span messages. */
  lemma CoalescedMessagesAreLost(p: Option<Chunk>, a: Request, b: Request, stray: seq<Chunk>)
    requires a.InRange()
    requires Fits(|MessageBytes(a)| + |MessageBytes(b)| + |Flatten(stray)|, 4)
    requires forall i :: 0 <= i < |stray| ==> !HasMagic(stray[i])
    ensures Run(p, [MessageBytes(a) + MessageBytes(b)] + stray).delivered == []
  {
    hide Run, MessageBytes, HasMagic, Flatten;
    var both: Chunk := MessageBytes(a) + MessageBytes(b);
    var cs := [both] + stray;
    FlattenCons(both, stray);
    Associate(MessageBytes(a), MessageBytes(b), Flatten(stray));
    FirstOffset(cs);
    FlattenOne(both);
    assert cs[..1] == [both];
    forall k: nat | 1 < k <= |cs|
      ensures Offset(cs, k) > |MessageBytes(a)|
    {
      OffsetGrows(cs, 1, k);
    }
    SharedGroup(p, cs, a, MessageBytes(b) + Flatten(stray));
  }

  function ZeroChunk(n: nat): (c: Chunk)
    requires n >= HEADER_SIZE
    ensures |c| == n
  {
    seq(n, _ => 0)
  }

  lemma ZeroChunkHasNoMagic(n: nat)
    requires n >= HEADER_SIZE
    ensures !HasMagic(ZeroChunk(n))
  {
    MagicOnTheWire(ZeroChunk(n));
    assert ZeroChunk(n)[..4][0] == 0;
  }

  /** A message of 20 bytes by its header, followed by 2^32 bytes of zeros in chunks
      below 2^31 bytes. */
  function OversizedRun(): (cs: seq<Chunk>)
    ensures |cs| == 5
  {
    var quarter := 0x4000_0000;
    [MessageBytes(Request([], 1, 1, 0, 0, 0)) + ZeroChunk(quarter - HEADER_SIZE),
     ZeroChunk(quarter), ZeroChunk(quarter), ZeroChunk(quarter), ZeroChunk(HEADER_SIZE)]
  }

  lemma OversizedPrefixes()
    ensures var cs := OversizedRun();
            && |FirstBytes(cs, 1)| == 0x4000_0000 && |FirstBytes(cs, 2)| == 0x8000_0000
            && |FirstBytes(cs, 3)| == 0xC000_0000 && |FirstBytes(cs, 4)| == 0x1_0000_0000
            && |FirstBytes(cs, 5)| == 0x1_0000_0014
  {
    hide MessageBytes, Flatten;
    var cs := OversizedRun();
    assert cs[..1] == [cs[0]];
    FlattenOne(cs[0]);
    forall k | 1 <= k < 5
      ensures Flatten(cs[..k + 1]) == Flatten(cs[..k]) + cs[k]
    {
      assert cs[..k + 1] == cs[..k] + [cs[k]];
      FlattenSnoc(cs[..k], cs[k]);
    }
  }

  /** It is delivered as one message of 2^32 + 20 bytes, though 20 are declared. */
  lemma OversizedMessageDelivered(p: Option<Chunk>)
    ensures var cs := OversizedRun();
            && (forall c :: c in cs ==> Fits(|c|, 4))
            && Declared(cs) == 20
            && |FirstBytes(cs, 5)| == 0x1_0000_0014
            && Run(p, cs) == Step(None, [FirstBytes(cs, 5)])
  {
    hide Run, FirstBytes, HasMagic, MessageBytes, ReadHeader;
    var cs := OversizedRun();
    var r := Request([], 1, 1, 0, 0, 0);
    Pow256Values();
    assert r.InRange();
    ParseBuilt(r);
    SameHeader(MessageBytes(r), ZeroChunk(0x4000_0000 - HEADER_SIZE));
    ZeroChunkHasNoMagic(0x4000_0000);
    ZeroChunkHasNoMagic(HEADER_SIZE);
    OversizedPrefixes();
    assert BoundaryAt(cs, 5) && forall i: nat :: 1 <= i < 5 ==> !BoundaryAt(cs, i);
    RunOfGroup(p, cs);
  }
}
