/** The client's reassembly as a state machine over received chunks, and what every
    run of it guarantees. */
module Reassembly {

  import opened Options
  import opened Sequences
  import opened ByteStreams
  import opened MessageFormat

  /** The partial message held between bursts, and the messages handed over so far. */
  datatype Step = Step(partial: Option<Chunk>, delivered: seq<Chunk>)
  {
    function Then(next: Step): Step {
      Step(next.partial, delivered + next.delivered)
    }
  }

  /** One burst: a chunk with a header starts afresh, any other one is appended to
      what is held or dropped; then a complete message is handed over. */
  function Receive(p: Option<Chunk>, c: Chunk): (s: Step)
    ensures s.delivered != [] ==> s.partial == None
  {
    var held: Option<Chunk> :=
      if HasMagic(c) then Some(c) else if p.Some? then Some(p.value + c) else None;
    if held.Some? && Complete(held.value) then Step(None, [held.value]) else Step(held, [])
  }

  /** A whole run, burst after burst. */
  function Run(p: Option<Chunk>, chunks: seq<Chunk>): (s: Step)
    decreases |chunks|
  {
    if chunks == [] then Step(p, [])
    else
      var s := Receive(p, chunks[0]);
      s.Then(Run(s.partial, chunks[1..]))
  }

  lemma ThenAssociates(s: Step, t: Step, u: Step)
    ensures s.Then(t).Then(u) == s.Then(t.Then(u))
  {}

  lemma {:induction false} RunConcat(p: Option<Chunk>, a: seq<Chunk>, b: seq<Chunk>)
    ensures Run(p, a + b) == Run(p, a).Then(Run(Run(p, a).partial, b))
    decreases |a|
  {
    hide Receive;
    if a == [] {
      assert a + b == b;
    } else {
      var s := Receive(p, a[0]);
      RunConcat(s.partial, a[1..], b);
      assert (a + b)[0] == a[0] && (a + b)[1..] == a[1..] + b;
      var t := Run(s.partial, a[1..]);
      ThenAssociates(s, t, Run(t.partial, b));
    }
  }

  lemma RunOne(p: Option<Chunk>, c: Chunk)
    ensures Run(p, [c]) == Receive(p, c)
  {
    hide Receive;
    assert [c][1..] == [];
    var s := Receive(p, c);
    assert s.delivered + [] == s.delivered;
  }

  lemma RunSnoc(p: Option<Chunk>, chunks: seq<Chunk>, c: Chunk)
    ensures Run(p, chunks + [c]) == Run(p, chunks).Then(Receive(Run(p, chunks).partial, c))
  {
    hide Receive, Run;
    RunConcat(p, chunks, [c]);
    RunOne(Run(p, chunks).partial, c);
  }

  /** A header makes what was held irrelevant. */
  lemma RunFromHeader(p: Option<Chunk>, chunks: seq<Chunk>)
    requires chunks != [] && HasMagic(chunks[0])
    ensures Run(p, chunks) == Run(None, chunks)
  {}

  lemma {:induction false} FlattenSize(cs: seq<Chunk>)
    ensures |Flatten(cs)| >= HEADER_SIZE * |cs|
  {
    if cs != [] {
      FlattenSize(cs[1..]);
    }
  }

  /** The first k chunks together. */
  function FirstBytes(cs: seq<Chunk>, k: nat): (c: Chunk)
    requires 1 <= k <= |cs|
  {
    FlattenSize(cs[..k]);
    Flatten(cs[..k])
  }

  // ----- safety of every run -----

  /** Which chunks make up a delivered message. */
  datatype Cut = Cut(from: nat, to: nat)

  /** A chunk that starts with a header, and continuation chunks that do not. */
  ghost predicate GroupRange(chunks: seq<Chunk>, from: nat, to: nat) {
    && from < to <= |chunks|
    && HasMagic(chunks[from])
    && forall i :: from < i < to ==> !HasMagic(chunks[i])
  }

  /** `m` is exactly the bytes of such a range. */
  ghost predicate IsGroup(chunks: seq<Chunk>, from: nat, to: nat, m: Bytes) {
    GroupRange(chunks, from, to) && m == Flatten(chunks[from..to])
  }

  /** A cut per delivered message, in the order of arrival and without overlap. */
  ghost predicate Explains(chunks: seq<Chunk>, delivered: seq<Chunk>, cuts: seq<Cut>, end: nat) {
    && |cuts| == |delivered|
    && end <= |chunks|
    && (forall k :: 0 <= k < |cuts| ==> IsGroup(chunks, cuts[k].from, cuts[k].to, delivered[k]) &&
                                        cuts[k].to <= end)
    && (forall k, l :: 0 <= k < l < |cuts| ==> cuts[k].to <= cuts[l].from)
  }

  lemma GroupExtends(chunks: seq<Chunk>, c: Chunk, from: nat, to: nat, m: Bytes)
    requires IsGroup(chunks, from, to, m)
    ensures IsGroup(chunks + [c], from, to, m)
    ensures to == |chunks| && !HasMagic(c) ==> IsGroup(chunks + [c], from, to + 1, m + c)
  {
    hide HasMagic;
    var more := chunks + [c];
    assert more[from..to] == chunks[from..to];
    if to == |chunks| {
      assert more[from..to + 1] == chunks[from..to] + [c];
      FlattenSnoc(chunks[from..to], c);
    }
  }

  /** A group starts with the bytes of its first chunk. */
  lemma GroupStart(chunks: seq<Chunk>, from: nat, to: nat, m: Bytes)
    requires IsGroup(chunks, from, to, m)
    ensures |m| >= HEADER_SIZE && HasMagic(m)
  {
    var g := chunks[from..to];
    assert m == g[0] + Flatten(g[1..]);
    SameHeader(g[0], Flatten(g[1..]));
  }

  lemma ExplainNext(before: seq<Chunk>, c: Chunk, s: Step, cuts: seq<Cut>, end: nat)
    returns (cuts': seq<Cut>, end': nat)
    requires Explains(before, s.delivered, cuts, end)
    requires forall m :: m in s.delivered ==> Complete(m) && HasMagic(m)
    requires s.partial.Some? ==> IsGroup(before, end, |before|, s.partial.value)
    ensures var t := Receive(s.partial, c);
            && Explains(before + [c], s.delivered + t.delivered, cuts', end')
            && (forall m :: m in s.delivered + t.delivered ==> Complete(m) && HasMagic(m))
            && (t.partial.Some? ==> IsGroup(before + [c], end', |before| + 1, t.partial.value) &&
                                    !Complete(t.partial.value))
  {
    hide Complete, HasMagic, Flatten;
    var chunks, t := before + [c], Receive(s.partial, c);
    forall k | 0 <= k < |cuts|
      ensures IsGroup(chunks, cuts[k].from, cuts[k].to, s.delivered[k])
    {
      GroupExtends(before, c, cuts[k].from, cuts[k].to, s.delivered[k]);
    }
    end' := end;
    if HasMagic(c) {
      end' := |before|;
      assert chunks[end'..|chunks|] == [c] && chunks[end'] == c;
      FlattenOne(c);
      assert IsGroup(chunks, end', |chunks|, c);
    } else if s.partial.Some? {
      GroupExtends(before, c, end, |before|, s.partial.value);
    }
    cuts' := cuts;
    if t.delivered != [] {
      GroupStart(chunks, end', |chunks|, t.delivered[0]);
      cuts' := cuts + [Cut(end', |chunks|)];
      end' := |chunks|;
    }
  }

  /** In every run, whatever the chunks: each delivered message is complete and is
      the concatenation of consecutive chunks beginning at a header; no chunk is used
      twice and the order of arrival is kept; what is held is the latest such group
      and not complete. */
  lemma {:induction false} EveryRunIsExplained(chunks: seq<Chunk>) returns (cuts: seq<Cut>, end: nat)
    ensures var s := Run(None, chunks);
            && Explains(chunks, s.delivered, cuts, end)
            && (forall m :: m in s.delivered ==> Complete(m) && HasMagic(m))
            && (s.partial.Some? ==> IsGroup(chunks, end, |chunks|, s.partial.value) && !Complete(s.partial.value))
    decreases |chunks|
  {
    if chunks == [] {
      cuts, end := [], 0;
    } else {
      hide Run, Receive;
      var before, c := chunks[..|chunks| - 1], chunks[|chunks| - 1];
      assert chunks == before + [c];
      cuts, end := EveryRunIsExplained(before);
      RunSnoc(None, before, c);
      cuts, end := ExplainNext(before, c, Run(None, before), cuts, end);
    }
  }

  /** So every delivered message is a contiguous segment of the received stream. */
  lemma GroupIsSegment(chunks: seq<Chunk>, from: nat, to: nat, m: Bytes)
    requires IsGroup(chunks, from, to, m)
    ensures Flatten(chunks) == Flatten(chunks[..from]) + m + Flatten(chunks[to..])
  {
    hide Flatten, HasMagic;
    assert chunks == (chunks[..from] + chunks[from..to]) + chunks[to..];
    FlattenConcat(chunks[..from] + chunks[from..to], chunks[to..]);
    FlattenConcat(chunks[..from], chunks[from..to]);
  }

  /** In every run a delivered message has exactly the size its header declares if and
      only if its size fits 32 bits: beyond, the comparison sees a truncated size. */
  lemma DeliveredSizes(chunks: seq<Chunk>)
    ensures forall m :: m in Run(None, chunks).delivered ==>
              (ReadHeader(m).messageLength == |m| <==> Fits(|m|, 4))
  {
    hide Run, Flatten, HasMagic, Wrap;
    var delivered := Run(None, chunks).delivered;
    var cuts, end := EveryRunIsExplained(chunks);
    forall m | m in delivered
      ensures ReadHeader(m).messageLength == |m| <==> Fits(|m|, 4)
    {
      WrapFits(|m|, 4);
    }
  }

  /** No header chunk has, with the continuation chunks after it, more than 2^31 - 1 bytes. */
  ghost predicate GroupsFit(chunks: seq<Chunk>) {
    forall from: nat, to: nat | GroupRange(chunks, from, to) :: Fits(|Flatten(chunks[from..to])|, 4)
  }

  /** The sender's side of it: with such groups, however many bytes arrive in all,
      every delivered message has its declared size. */
  lemma BoundedGroupsKeepSizes(chunks: seq<Chunk>)
    requires GroupsFit(chunks)
    ensures forall m :: m in Run(None, chunks).delivered ==> ReadHeader(m).messageLength == |m|
  {
    hide Run, Flatten, HasMagic, ReadHeader, Fits;
    var delivered := Run(None, chunks).delivered;
    var cuts, end := EveryRunIsExplained(chunks);
    DeliveredSizes(chunks);
    forall m | m in delivered
      ensures ReadHeader(m).messageLength == |m|
    {
      var k :| 0 <= k < |delivered| && delivered[k] == m;
      assert GroupRange(chunks, cuts[k].from, cuts[k].to);
    }
  }

  // ----- when a group of chunks is delivered -----

  /** A header chunk and continuation chunks. */
  ghost predicate Group(cs: seq<Chunk>) {
    GroupRange(cs, 0, |cs|)
  }

  function Declared(cs: seq<Chunk>): int
    requires cs != []
  {
    ReadHeader(cs[0]).messageLength
  }

  /** The k-th chunk ends where the header says the message does, as the comparison of
      32-bit sizes sees it. */
  predicate BoundaryAt(cs: seq<Chunk>, k: nat)
    requires cs != []
  {
    1 <= k <= |cs| && Wrap(|FirstBytes(cs, k)|, 4) == Declared(cs)
  }

  lemma FlattenGrows(cs: seq<Chunk>, i: nat, j: nat)
    requires i <= j <= |cs|
    ensures |Flatten(cs[..i])| + HEADER_SIZE * (j - i) <= |Flatten(cs[..j])|
  {
    assert cs[..j] == cs[..i] + cs[i..j];
    FlattenConcat(cs[..i], cs[i..j]);
    FlattenSize(cs[i..j]);
  }

  lemma FitsSmaller(n: nat, m: nat, k: nat)
    requires n <= m && Fits(m, k)
    ensures Fits(n, k)
  {}

  /** Below 2^31 bytes that is the declared length itself, and met at most once. */
  lemma BoundaryIsDeclaredLength(cs: seq<Chunk>, k: nat)
    requires cs != [] && Fits(|Flatten(cs)|, 4) && 1 <= k <= |cs|
    ensures BoundaryAt(cs, k) <==> |FirstBytes(cs, k)| == Declared(cs)
    ensures forall j: nat :: BoundaryAt(cs, k) && BoundaryAt(cs, j) ==> j == k
  {
    hide Flatten, Wrap, Declared, Fits;
    assert cs[..|cs|] == cs;
    forall j: nat | 1 <= j <= |cs|
      ensures Wrap(|FirstBytes(cs, j)|, 4) == |FirstBytes(cs, j)|
      ensures |FirstBytes(cs, j)| == |FirstBytes(cs, k)| ==> j == k
    {
      FlattenGrows(cs, j, |cs|);
      FitsSmaller(|Flatten(cs[..j])|, |Flatten(cs)|, 4);
      WrapFits(|Flatten(cs[..j])|, 4);
      if j <= k {
        FlattenGrows(cs, j, k);
      } else {
        FlattenGrows(cs, k, j);
      }
    }
  }

  /** The first boundary from the k-th chunk on; 0 when there is none. */
  function BoundaryFrom(cs: seq<Chunk>, k: nat): (n: nat)
    requires cs != [] && k >= 1
    ensures n == 0 ==> forall i: nat :: k <= i ==> !BoundaryAt(cs, i)
    ensures n != 0 ==> k <= n <= |cs| && BoundaryAt(cs, n) && forall i: nat :: k <= i < n ==> !BoundaryAt(cs, i)
    decreases |cs| - k
  {
    if k > |cs| then 0 else if BoundaryAt(cs, k) then k else BoundaryFrom(cs, k + 1)
  }

  /** What becomes of a group: everything up to its first boundary is one message, or,
      without a boundary, the whole group stays held. */
  function GroupOutcome(cs: seq<Chunk>): Step
    requires cs != []
  {
    var k := BoundaryFrom(cs, 1);
    if k == 0 then Step(Some(FirstBytes(cs, |cs|)), []) else Step(None, [FirstBytes(cs, k)])
  }

  /** The first k chunks of a group form a complete message exactly at a boundary. */
  lemma CompleteIffBoundary(cs: seq<Chunk>, k: nat)
    requires cs != [] && 1 <= k <= |cs|
    ensures Complete(FirstBytes(cs, k)) <==> BoundaryAt(cs, k)
  {
    hide ReadHeader, Wrap;
    var pre := cs[..k];
    assert Flatten(pre) == pre[0] + Flatten(pre[1..]);
    SameHeader(cs[0], Flatten(pre[1..]));
  }

  lemma NothingYet(p: Option<Chunk>, c: Chunk)
    ensures Run(p, []) == Step(p, []) && Flatten<byte>([]) == [] && Flatten<byte>([]) + c == c
  {}

  /** One more chunk of a group whose earlier chunks are held. */
  lemma GroupNext(p: Option<Chunk>, cs: seq<Chunk>, k: nat)
    requires Group(cs) && 1 <= k <= |cs|
    requires k > 1 ==> Run(p, cs[..k - 1]) == Step(Some(FirstBytes(cs, k - 1)), [])
    ensures Run(p, cs[..k]) ==
            if BoundaryAt(cs, k) then Step(None, [FirstBytes(cs, k)]) else Step(Some(FirstBytes(cs, k)), [])
  {
    hide HasMagic, Complete, BoundaryAt, Flatten, Run;
    var before, c := cs[..k - 1], cs[k - 1];
    assert cs[..k] == before + [c];
    FlattenSnoc(before, c);
    RunSnoc(p, before, c);
    CompleteIffBoundary(cs, k);
    if k == 1 {
      assert before == [];
      NothingYet(p, c);
    }
  }

  /** Before its first boundary a group is held and nothing is delivered. */
  lemma {:induction false} HeldUntilBoundary(p: Option<Chunk>, cs: seq<Chunk>, k: nat)
    requires Group(cs) && 1 <= k <= |cs|
    requires forall i: nat :: 1 <= i <= k ==> !BoundaryAt(cs, i)
    ensures Run(p, cs[..k]) == Step(Some(FirstBytes(cs, k)), [])
    decreases k
  {
    hide FirstBytes, Run, BoundaryAt;
    if k > 1 {
      HeldUntilBoundary(p, cs, k - 1);
    }
    GroupNext(p, cs, k);
  }

  /** With nothing held, continuation chunks are dropped. */
  lemma {:induction false} StrayChunksDropped(cs: seq<Chunk>)
    requires forall i :: 0 <= i < |cs| ==> !HasMagic(cs[i])
    ensures Run(None, cs) == Step(None, [])
  {
    if cs != [] {
      StrayChunksDropped(cs[1..]);
    }
  }

  lemma RunOfGroup(p: Option<Chunk>, cs: seq<Chunk>)
    requires Group(cs)
    ensures Run(p, cs) == GroupOutcome(cs)
  {
    hide Run, FirstBytes, BoundaryAt, HasMagic;
    var k := BoundaryFrom(cs, 1);
    if k == 0 {
      HeldUntilBoundary(p, cs, |cs|);
      assert cs[..|cs|] == cs;
    } else {
      if k > 1 {
        HeldUntilBoundary(p, cs, k - 1);
      }
      GroupNext(p, cs, k);
      StrayChunksDropped(cs[k..]);
      RunConcat(p, cs[..k], cs[k..]);
      assert cs == cs[..k] + cs[k..];
    }
  }

  /** Exactly when a group is delivered: when a chunk ends at a boundary. Then the
      bytes up to the first such chunk are delivered, once, and the rest is dropped;
      otherwise nothing is, and the group stays held. */
  lemma GroupDelivery(p: Option<Chunk>, cs: seq<Chunk>)
    requires Group(cs)
    ensures Run(p, cs).delivered != [] <==> exists k: nat :: BoundaryAt(cs, k)
    ensures forall k: nat | BoundaryAt(cs, k) && (forall i: nat :: i < k ==> !BoundaryAt(cs, i)) ::
              Run(p, cs) == Step(None, [FirstBytes(cs, k)])
    ensures Run(p, cs).delivered == [] ==> Run(p, cs).partial == Some(FirstBytes(cs, |cs|))
  {
    hide Run, FirstBytes;
    RunOfGroup(p, cs);
    assert forall i: nat :: BoundaryAt(cs, i) ==> i >= 1;
  }

  // ----- every run, group by group -----

  /** The first chunk and the continuation chunks behind it. */
  function FrontLength(chunks: seq<Chunk>): (n: nat)
    requires chunks != []
    ensures 1 <= n <= |chunks|
    ensures forall i :: 1 <= i < n ==> !HasMagic(chunks[i])
    ensures n < |chunks| ==> HasMagic(chunks[n])
  {
    if |chunks| == 1 || HasMagic(chunks[1]) then 1 else 1 + FrontLength(chunks[1..])
  }

  /** What is delivered of chunks of which only the first may begin with a header. */
  function Delivery(cs: seq<Chunk>): seq<Chunk>
    requires cs != []
  {
    if HasMagic(cs[0]) then GroupOutcome(cs).delivered else []
  }

  /** What a run must deliver: cut the chunks in front of every header, and take each
      group's outcome by itself. */
  function Expected(chunks: seq<Chunk>): seq<Chunk>
    decreases |chunks|
  {
    if chunks == [] then []
    else
      var n := FrontLength(chunks);
      Delivery(chunks[..n]) + Expected(chunks[n..])
  }

  lemma NothingToRun(p: Option<Chunk>)
    ensures Run(p, []).delivered == []
  {}

  lemma RunOfFront(p: Option<Chunk>, chunks: seq<Chunk>, n: nat)
    requires chunks != [] && n == FrontLength(chunks)
    requires p == None || HasMagic(chunks[0])
    ensures Run(p, chunks[..n]).delivered == Delivery(chunks[..n])
  {
    hide Run, HasMagic, GroupOutcome, Flatten;
    var cs := chunks[..n];
    assert forall i :: 1 <= i < n ==> cs[i] == chunks[i];
    if HasMagic(cs[0]) {
      RunOfGroup(p, cs);
    } else {
      StrayChunksDropped(cs);
    }
  }

  lemma {:induction false} RunFromAnyState(p: Option<Chunk>, chunks: seq<Chunk>)
    requires p == None || chunks == [] || HasMagic(chunks[0])
    ensures Run(p, chunks).delivered == Expected(chunks)
    decreases |chunks|
  {
    hide Run, HasMagic, Delivery;
    if chunks == [] {
      NothingToRun(p);
    } else {
      var n := FrontLength(chunks);
      assert chunks == chunks[..n] + chunks[n..];
      RunOfFront(p, chunks, n);
      RunConcat(p, chunks[..n], chunks[n..]);
      RunFromAnyState(Run(p, chunks[..n]).partial, chunks[n..]);
    }
  }

  /** Soundness and completeness of every run: it delivers, in order, for every header
      chunk with its continuations the message ending at the first boundary if there
      is one, and nothing else. */
  lemma EveryRunIsExpected(chunks: seq<Chunk>)
    ensures Run(None, chunks).delivered == Expected(chunks)
  {
    RunFromAnyState(None, chunks);
  }

  /** A header chunk and its continuations, up to the next header chunk or the end. */
  ghost predicate MaximalGroup(chunks: seq<Chunk>, from: nat, to: nat) {
    GroupRange(chunks, from, to) && (to == |chunks| || HasMagic(chunks[to]))
  }

  ghost predicate DeliveredFrom(chunks: seq<Chunk>, from: nat, to: nat, m: Chunk) {
    MaximalGroup(chunks, from, to) && m in GroupOutcome(chunks[from..to]).delivered
  }

  lemma DeliveredFromRest(chunks: seq<Chunk>, n: nat, from: nat, to: nat, m: Chunk)
    requires n <= |chunks|
    ensures DeliveredFrom(chunks[n..], from, to, m) <==> DeliveredFrom(chunks, n + from, n + to, m)
  {
    hide HasMagic, GroupOutcome;
    var rest := chunks[n..];
    if to <= |rest| {
      forall i | from < i < to
        ensures rest[i] == chunks[n + i]
      {}
      if from < to {
        assert rest[from..to] == chunks[n + from..n + to];
      }
    }
  }

  lemma EndsAfter(chunks: seq<Chunk>, from: nat, to: nat, m: Chunk)
    requires DeliveredFrom(chunks, from, to, m)
    ensures from < to
  {}

  lemma NoGroupIn(chunks: seq<Chunk>, m: Chunk)
    requires chunks == []
    ensures forall from: nat, to: nat :: !DeliveredFrom(chunks, from, to, m)
  {}

  /** A maximal group that begins among the front chunks consists of them. */
  lemma DeliveredFromFront(chunks: seq<Chunk>, m: Chunk)
    requires chunks != []
    ensures var n := FrontLength(chunks);
            && (m in Delivery(chunks[..n]) <==> DeliveredFrom(chunks, 0, n, m))
            && forall from: nat, to: nat | from < n && DeliveredFrom(chunks, from, to, m) :: from == 0 && to == n
  {
    hide HasMagic, GroupOutcome;
    var n := FrontLength(chunks);
    assert chunks[0..n] == chunks[..n];
  }

  /** What is expected of a run comes from its maximal groups, and from all of them. */
  lemma {:induction false} ExpectedFrom(chunks: seq<Chunk>, m: Chunk)
    ensures m in Expected(chunks) <==> exists from: nat, to: nat :: DeliveredFrom(chunks, from, to, m)
    decreases |chunks|
  {
    hide HasMagic, Delivery, DeliveredFrom;
    if chunks == [] {
      NoGroupIn(chunks, m);
    } else {
      var n := FrontLength(chunks);
      var rest := chunks[n..];
      DeliveredFromFront(chunks, m);
      ExpectedFrom(rest, m);
      if m in Expected(rest) {
        var from: nat, to: nat :| DeliveredFrom(rest, from, to, m);
        DeliveredFromRest(chunks, n, from, to, m);
      }
      forall from: nat, to: nat | from >= n && DeliveredFrom(chunks, from, to, m)
        ensures m in Expected(rest)
      {
        EndsAfter(chunks, from, to, m);
        DeliveredFromRest(chunks, n, from - n, to - n, m);
      }
    }
  }

  /** Up to its first boundary, if it has one, the group is at most 2^31 - 1 bytes long. */
  ghost predicate FitsAtBoundary(cs: seq<Chunk>)
    requires cs != []
  {
    var k := BoundaryFrom(cs, 1);
    k != 0 ==> Fits(|FirstBytes(cs, k)|, 4)
  }

  /** Exactly when every message of a run has its declared size: a condition on the
      chunks received. */
  lemma AllSizesKept(chunks: seq<Chunk>)
    ensures (forall m :: m in Run(None, chunks).delivered ==> ReadHeader(m).messageLength == |m|) <==>
            (forall from: nat, to: nat | MaximalGroup(chunks, from, to) :: FitsAtBoundary(chunks[from..to]))
  {
    hide Run, HasMagic, ReadHeader, Fits, FirstBytes;
    EveryRunIsExpected(chunks);
    DeliveredSizes(chunks);
    var delivered := Run(None, chunks).delivered;
    forall m | m in delivered && !Fits(|m|, 4)
      ensures exists from: nat, to: nat :: MaximalGroup(chunks, from, to) && !FitsAtBoundary(chunks[from..to])
    {
      ExpectedFrom(chunks, m);
      var from: nat, to: nat :| DeliveredFrom(chunks, from, to, m);
    }
    forall from: nat, to: nat | MaximalGroup(chunks, from, to) && !FitsAtBoundary(chunks[from..to])
      ensures exists m :: m in delivered && !Fits(|m|, 4)
    {
      var cs := chunks[from..to];
      var m := FirstBytes(cs, BoundaryFrom(cs, 1));
      assert DeliveredFrom(chunks, from, to, m);
      ExpectedFrom(chunks, m);
    }
  }
}
