/** The bytes of a message: a packed 20-byte header, little-endian, and a body. */
module MessageFormat {

  import opened ByteStreams
  import Divisibility

  const HEADER_SIZE: nat := 20
  const MAGIC: int := 0x98765432

  /** Bytes whose header can be read without leaving the buffer. */
  type Chunk = c: Bytes | |c| >= HEADER_SIZE witness seq(HEADER_SIZE, _ => 0)

  // ----- integers in memory -----

  function Pow256(k: nat): (p: nat)
    ensures p > 0
  {
    if k == 0 then 1 else 256 * Pow256(k - 1)
  }

  lemma Pow256Values()
    ensures Pow256(2) == 0x1_0000 && Pow256(4) == 0x1_0000_0000
  {
    assert Pow256(1) == 256 && Pow256(3) == 0x100_0000;
  }

  /** The `k` low bytes of an unsigned value, the lowest first. */
  function LittleEndian(u: nat, k: nat): (b: Bytes)
    ensures |b| == k
  {
    if k == 0 then [] else [u % 256] + LittleEndian(u / 256, k - 1)
  }

  function Unsigned(b: Bytes): nat {
    if b == [] then 0 else b[0] + 256 * Unsigned(b[1..])
  }

  lemma {:induction false} UnsignedOfBytes(u: nat, k: nat)
    requires u < Pow256(k)
    ensures Unsigned(LittleEndian(u, k)) == u
  {
    if k > 0 {
      UnsignedOfBytes(u / 256, k - 1);
      assert LittleEndian(u, k)[1..] == LittleEndian(u / 256, k - 1);
    }
  }

  lemma {:induction false} UnsignedBound(b: Bytes)
    ensures Unsigned(b) < Pow256(|b|)
  {
    if b != [] {
      UnsignedBound(b[1..]);
    }
  }

  /** The bits of a `k`-byte two's complement value, read as unsigned. */
  function ToUnsigned(v: int, k: nat): (u: nat)
    ensures u < Pow256(k)
  {
    v % Pow256(k)
  }

  /** The value a `k`-byte signed type holds after a conversion from `v`. */
  function Wrap(v: int, k: nat): (w: int) {
    var u := ToUnsigned(v, k);
    if 2 * u < Pow256(k) then u else u - Pow256(k)
  }

  predicate Fits(v: int, k: nat) {
    0 <= 2 * v + Pow256(k) < 2 * Pow256(k)
  }

  lemma SmallModulo(v: int, p: int)
    requires 0 <= v < p
    ensures v % p == v
  {}

  lemma ModuloShift(v: int, p: int, k: int)
    requires p > 0
    ensures (v + p * k) % p == v % p
  {
    var q, r := v / p, v % p;
    Divisibility.Distribute(p, q, k);
    Divisibility.DivisionUnique(v + p * k, p, q + k, r);
  }

  /** A conversion changes nothing exactly where the value fits. */
  lemma WrapFits(v: int, k: nat)
    ensures Fits(Wrap(v, k), k)
    ensures Wrap(v, k) == v <==> Fits(v, k)
  {
    var p := Pow256(k);
    if Fits(v, k) {
      if v < 0 {
        SmallModulo(v + p, p);
        ModuloShift(v, p, 1);
      } else {
        SmallModulo(v, p);
      }
    }
  }

  lemma WrapModulo(v: int, k: nat)
    ensures Wrap(v, k) % Pow256(k) == v % Pow256(k)
  {
    var p := Pow256(k);
    SmallModulo(v % p, p);
    ModuloShift(v % p, p, -1);
  }

  lemma WrapShift(v: int, k: nat)
    ensures Wrap(v + Pow256(k), k) == Wrap(v, k)
  {
    ModuloShift(v, Pow256(k), 1);
  }

  /** Storing a value in `k` bytes, and reading `k` bytes as a signed value. */
  function Store(v: int, k: nat): (b: Bytes)
    ensures |b| == k
  {
    LittleEndian(ToUnsigned(v, k), k)
  }

  function Load(b: Bytes): int {
    Wrap(Unsigned(b), |b|)
  }

  lemma LoadStore(v: int, k: nat)
    requires Fits(v, k)
    ensures Load(Store(v, k)) == v
  {
    var u := ToUnsigned(v, k);
    UnsignedOfBytes(u, k);
    SmallModulo(u, Pow256(k));
    WrapFits(v, k);
  }

  lemma {:induction false} BytesOfUnsigned(b: Bytes)
    ensures LittleEndian(Unsigned(b), |b|) == b
  {
    if b != [] {
      var u := Unsigned(b[1..]);
      BytesOfUnsigned(b[1..]);
      assert Unsigned(b) % 256 == b[0] && Unsigned(b) / 256 == u;
      assert b == [b[0]] + b[1..];
    }
  }

  lemma UnsignedOfLoad(b: Bytes)
    ensures ToUnsigned(Load(b), |b|) == Unsigned(b)
  {
    var u, p := Unsigned(b), Pow256(|b|);
    UnsignedBound(b);
    SmallModulo(u, p);
    ModuloShift(u, p, -1);
  }

  /** Reading loses nothing: storing the value read gives the same bytes. */
  lemma StoreLoad(b: Bytes)
    ensures Store(Load(b), |b|) == b && Fits(Load(b), |b|)
  {
    UnsignedOfLoad(b);
    BytesOfUnsigned(b);
    WrapFits(Unsigned(b), |b|);
  }

  // ----- the header -----

  /** `MessageHeader`, in the order of its fields in memory. */
  datatype Header = Header(headerChecker: int, messageLength: int, isRequest: int, needResponse: int,
                           requestTimeout: int, listenerType: int, messageId: int)
  {
    predicate InRange() {
      && Fits(headerChecker, 4) && Fits(messageLength, 4)
      && Fits(isRequest, 2) && Fits(needResponse, 2)
      && Fits(requestTimeout, 2) && Fits(listenerType, 2)
      && Fits(messageId, 4)
    }
  }

  function HeaderBytes(h: Header): (b: Bytes)
    ensures |b| == HEADER_SIZE
  {
    Store(h.headerChecker, 4) + Store(h.messageLength, 4) + Store(h.isRequest, 2) + Store(h.needResponse, 2) +
    Store(h.requestTimeout, 2) + Store(h.listenerType, 2) + Store(h.messageId, 4)
  }

  /** The fields a parser reads. Reading fewer than 20 bytes would leave the buffer. */
  function ReadHeader(raw: Bytes): Header
    requires |raw| >= HEADER_SIZE
  {
    Header(Load(raw[0..4]), Load(raw[4..8]), Load(raw[8..10]), Load(raw[10..12]),
           Load(raw[12..14]), Load(raw[14..16]), Load(raw[16..20]))
  }

  lemma ReadWritten(h: Header, body: Bytes)
    requires h.InRange()
    ensures ReadHeader(HeaderBytes(h) + body) == h
  {
    hide Store, Load, Fits;
    var raw := HeaderBytes(h) + body;
    assert raw[0..4] == Store(h.headerChecker, 4);
    assert raw[4..8] == Store(h.messageLength, 4);
    assert raw[8..10] == Store(h.isRequest, 2);
    assert raw[10..12] == Store(h.needResponse, 2);
    assert raw[12..14] == Store(h.requestTimeout, 2);
    assert raw[14..16] == Store(h.listenerType, 2);
    assert raw[16..20] == Store(h.messageId, 4);
    LoadStore(h.headerChecker, 4);
    LoadStore(h.messageLength, 4);
    LoadStore(h.isRequest, 2);
    LoadStore(h.needResponse, 2);
    LoadStore(h.requestTimeout, 2);
    LoadStore(h.listenerType, 2);
    LoadStore(h.messageId, 4);
  }

  /** The header read from a buffer determines its first 20 bytes. */
  lemma HeaderIsLossless(raw: Bytes)
    requires |raw| >= HEADER_SIZE
    ensures ReadHeader(raw).InRange()
    ensures HeaderBytes(ReadHeader(raw)) == raw[..HEADER_SIZE]
  {
    hide Store, Load, Fits;
    StoreLoad(raw[0..4]);
    StoreLoad(raw[4..8]);
    StoreLoad(raw[8..10]);
    StoreLoad(raw[10..12]);
    StoreLoad(raw[12..14]);
    StoreLoad(raw[14..16]);
    StoreLoad(raw[16..20]);
  }

  /** `IsHeader`: an unsigned comparison of the first field with the magic value. */
  predicate HasMagic(raw: Bytes)
    requires |raw| >= HEADER_SIZE
  {
    ToUnsigned(ReadHeader(raw).headerChecker, 4) == MAGIC
  }

  const MAGIC_BYTES: Bytes := [0x32, 0x54, 0x76, 0x98]

  lemma MagicBytesValue()
    ensures Unsigned(MAGIC_BYTES) == MAGIC
  {
    var b := MAGIC_BYTES;
    assert b[1..][1..] == b[2..] && b[2..][1..] == b[3..] && b[3..][1..] == [];
    assert Unsigned(b[3..]) == 0x98;
    assert Unsigned(b[2..]) == 0x76 + 256 * 0x98;
    assert Unsigned(b[1..]) == 0x54 + 256 * (0x76 + 256 * 0x98);
  }

  lemma UnsignedInjective(a: Bytes, b: Bytes)
    requires |a| == |b|
    ensures Unsigned(a) == Unsigned(b) <==> a == b
  {
    BytesOfUnsigned(a);
    BytesOfUnsigned(b);
  }

  /** On the wire the magic value is these four bytes in front. */
  lemma MagicOnTheWire(raw: Bytes)
    requires |raw| >= HEADER_SIZE
    ensures HasMagic(raw) <==> raw[..4] == MAGIC_BYTES
  {
    hide Unsigned;
    UnsignedOfLoad(raw[0..4]);
    MagicBytesValue();
    UnsignedInjective(raw[0..4], MAGIC_BYTES);
  }

  lemma MagicInHeader(h: Header)
    ensures HeaderBytes(h)[..4] == MAGIC_BYTES <==> ToUnsigned(h.headerChecker, 4) == MAGIC
  {
    hide Unsigned;
    var u := ToUnsigned(h.headerChecker, 4);
    assert HeaderBytes(h)[..4] == LittleEndian(u, 4);
    UnsignedOfBytes(u, 4);
    MagicBytesValue();
    UnsignedInjective(LittleEndian(u, 4), MAGIC_BYTES);
  }

  /** `IsPerfectMessage`: the length in the header equals the stored size, which the
      original converts to 32 bits. */
  predicate Complete(b: Bytes)
    requires |b| >= HEADER_SIZE
  {
    ReadHeader(b).messageLength == Wrap(|b|, 4)
  }

  /** Only the header decides both. */
  lemma SameHeader(c: Bytes, more: Bytes)
    requires |c| >= HEADER_SIZE
    ensures ReadHeader(c + more) == ReadHeader(c)
    ensures HasMagic(c + more) == HasMagic(c)
  {
    var b := c + more;
    assert b[0..4] == c[0..4] && b[4..8] == c[4..8] && b[8..10] == c[8..10] && b[10..12] == c[10..12];
    assert b[12..14] == c[12..14] && b[14..16] == c[14..16] && b[16..20] == c[16..20];
  }

  lemma FitsBelow(n: nat)
    requires Fits(n, 4) && n >= HEADER_SIZE
    ensures Fits(n - HEADER_SIZE, 4)
  {}

  /** The data length a parser computes is the number of data bytes exactly when the
      buffer has its declared length. */
  lemma DataLengthIsExact(raw: Chunk)
    requires Fits(|raw|, 4)
    ensures Wrap(ReadHeader(raw).messageLength - HEADER_SIZE, 4) == |raw| - HEADER_SIZE <==>
            ReadHeader(raw).messageLength == |raw|
  {
    hide ReadHeader, Store, Load;
    var length, p := ReadHeader(raw).messageLength, Pow256(4);
    HeaderIsLossless(raw);
    Pow256Values();
    FitsBelow(|raw|);
    WrapFits(|raw| - HEADER_SIZE, 4);
    if length - HEADER_SIZE < -0x8000_0000 {
      WrapShift(length - HEADER_SIZE, 4);
      WrapFits(length - HEADER_SIZE + p, 4);
    } else {
      WrapFits(length - HEADER_SIZE, 4);
    }
  }

  // ----- a whole message -----

  /** What a sender asks for; `body` has the length given with it. */
  datatype Request = Request(body: Bytes, listenerType: int, messageId: int,
                             needResponse: int, isRequest: int, requestTimeout: int)
  {
    predicate InRange() {
      && Fits(HEADER_SIZE + |body|, 4)
      && Fits(listenerType, 2) && Fits(messageId, 4)
      && Fits(needResponse, 2) && Fits(isRequest, 2)
      && Fits(requestTimeout, 2)
    }
  }

  /** The header the constructor writes: it hands the two flags on in the opposite
      order, so each lands in the other's field. */
  function HeaderOf(r: Request): Header {
    Header(Wrap(MAGIC, 4), Wrap(HEADER_SIZE + |r.body|, 4), r.needResponse, r.isRequest,
           r.requestTimeout, r.listenerType, r.messageId)
  }

  function MessageBytes(r: Request): (b: Bytes)
    ensures |b| == HEADER_SIZE + |r.body|
  {
    HeaderBytes(HeaderOf(r)) + r.body
  }

  lemma MagicWraps()
    ensures Fits(Wrap(MAGIC, 4), 4) && ToUnsigned(Wrap(MAGIC, 4), 4) == MAGIC
  {
    Pow256Values();
  }

  /** A parser reads back everything the constructor was given, the length of the body
      included, with the two flags exchanged: they come back as given exactly when they
      are equal. */
  lemma ParseBuilt(r: Request)
    requires r.InRange()
    ensures var raw := MessageBytes(r);
            var h := ReadHeader(raw);
            && HasMagic(raw)
            && h.messageLength == |raw|
            && h.listenerType == r.listenerType && h.messageId == r.messageId
            && h.requestTimeout == r.requestTimeout
            && raw[HEADER_SIZE..] == r.body
            && Wrap(h.messageLength - HEADER_SIZE, 4) == |r.body|
            && h.isRequest == r.needResponse && h.needResponse == r.isRequest
            && (h.isRequest == r.isRequest && h.needResponse == r.needResponse <==>
                r.needResponse == r.isRequest)
  {
    MagicWraps();
    WrapFits(HEADER_SIZE + |r.body|, 4);
    WrapFits(|r.body|, 4);
    ReadWritten(HeaderOf(r), r.body);
  }

  lemma BuiltHeader(r: Request)
    requires r.InRange()
    ensures ReadHeader(MessageBytes(r)) == HeaderOf(r)
  {
    MagicWraps();
    WrapFits(HEADER_SIZE + |r.body|, 4);
    ReadWritten(HeaderOf(r), r.body);
  }

  // ----- the layout, byte by byte -----

  /** Two and four bytes as numbers, the lowest byte first. */
  function Word16(raw: Bytes, at: nat): nat
    requires at + 2 <= |raw|
  {
    raw[at] as int + 0x100 * raw[at + 1] as int
  }

  function Word32(raw: Bytes, at: nat): nat
    requires at + 4 <= |raw|
  {
    raw[at] as int + 0x100 * raw[at + 1] as int + 0x1_0000 * raw[at + 2] as int + 0x100_0000 * raw[at + 3] as int
  }

  /** The numbers that bits stand for in `int16_t` and `int32_t`. */
  function Signed16(u: nat): int {
    if u < 0x8000 then u else u - 0x1_0000
  }

  function Signed32(u: nat): int {
    if u < 0x8000_0000 then u else u - 0x1_0000_0000
  }

  lemma UnsignedOfSlice(raw: Bytes, at: nat)
    ensures at + 2 <= |raw| ==> Unsigned(raw[at..at + 2]) == Word16(raw, at)
    ensures at + 4 <= |raw| ==> Unsigned(raw[at..at + 4]) == Word32(raw, at)
  {
    if at + 2 <= |raw| {
      var b := raw[at..at + 2];
      assert b[1..][1..] == [];
      assert Unsigned(b[1..]) == b[1] as int;
    }
    if at + 4 <= |raw| {
      var b := raw[at..at + 4];
      assert b[1..][1..] == b[2..] && b[2..][1..] == b[3..] && b[3..][1..] == [];
      assert Unsigned(b[3..]) == b[3] as int;
      assert Unsigned(b[2..]) == b[2] as int + 256 * Unsigned(b[3..]);
      assert Unsigned(b[1..]) == b[1] as int + 256 * Unsigned(b[2..]);
    }
  }

  lemma UnsignedOfStore(v: int, k: nat)
    ensures Unsigned(Store(v, k)) == v % Pow256(k)
  {
    UnsignedOfBytes(ToUnsigned(v, k), k);
  }

  lemma LoadIsSigned(b: Bytes)
    ensures |b| == 2 ==> Load(b) == Signed16(Unsigned(b))
    ensures |b| == 4 ==> Load(b) == Signed32(Unsigned(b))
  {
    UnsignedBound(b);
    Pow256Values();
    SmallModulo(Unsigned(b), Pow256(|b|));
  }

  lemma StoredAt(raw: Bytes, at: nat, v: int)
    ensures at + 2 <= |raw| && raw[at..at + 2] == Store(v, 2) ==> Word16(raw, at) == v % 0x1_0000
    ensures at + 4 <= |raw| && raw[at..at + 4] == Store(v, 4) ==> Word32(raw, at) == v % 0x1_0000_0000
  {
    Pow256Values();
    UnsignedOfSlice(raw, at);
    UnsignedOfStore(v, 2);
    UnsignedOfStore(v, 4);
  }

  lemma LoadedAt(raw: Bytes, at: nat)
    ensures at + 2 <= |raw| ==> Load(raw[at..at + 2]) == Signed16(Word16(raw, at))
    ensures at + 4 <= |raw| ==> Load(raw[at..at + 4]) == Signed32(Word32(raw, at))
  {
    hide Load, Unsigned, Word16, Word32;
    UnsignedOfSlice(raw, at);
    if at + 2 <= |raw| {
      LoadIsSigned(raw[at..at + 2]);
    }
    if at + 4 <= |raw| {
      LoadIsSigned(raw[at..at + 4]);
    }
  }

  /** Where everything is in a built message, whatever is asked for. */
  lemma WrittenLayout(r: Request)
    ensures var raw := MessageBytes(r);
            && Word32(raw, 0) == 0x98765432
            && Word32(raw, 4) == (20 + |r.body|) % 0x1_0000_0000
            && Word16(raw, 8) == r.needResponse % 0x1_0000
            && Word16(raw, 10) == r.isRequest % 0x1_0000
            && Word16(raw, 12) == r.requestTimeout % 0x1_0000
            && Word16(raw, 14) == r.listenerType % 0x1_0000
            && Word32(raw, 16) == r.messageId % 0x1_0000_0000
            && raw[20..] == r.body
  {
    hide Store, Wrap;
    var raw, h := MessageBytes(r), HeaderOf(r);
    assert raw[0..4] == Store(h.headerChecker, 4);
    assert raw[4..8] == Store(h.messageLength, 4);
    assert raw[8..10] == Store(h.isRequest, 2);
    assert raw[10..12] == Store(h.needResponse, 2);
    assert raw[12..14] == Store(h.requestTimeout, 2);
    assert raw[14..16] == Store(h.listenerType, 2);
    assert raw[16..20] == Store(h.messageId, 4);
    StoredAt(raw, 0, h.headerChecker);
    StoredAt(raw, 4, h.messageLength);
    StoredAt(raw, 8, h.isRequest);
    StoredAt(raw, 10, h.needResponse);
    StoredAt(raw, 12, h.requestTimeout);
    StoredAt(raw, 14, h.listenerType);
    StoredAt(raw, 16, h.messageId);
    WrapModulo(MAGIC, 4);
    WrapModulo(HEADER_SIZE + |r.body|, 4);
    Pow256Values();
  }

  /** And what a parser makes of any bytes. */
  lemma ReadLayout(raw: Bytes)
    requires |raw| >= 20
    ensures var h := ReadHeader(raw);
            && h.headerChecker == Signed32(Word32(raw, 0))
            && h.messageLength == Signed32(Word32(raw, 4))
            && h.isRequest == Signed16(Word16(raw, 8))
            && h.needResponse == Signed16(Word16(raw, 10))
            && h.requestTimeout == Signed16(Word16(raw, 12))
            && h.listenerType == Signed16(Word16(raw, 14))
            && h.messageId == Signed32(Word32(raw, 16))
            && (HasMagic(raw) <==> Word32(raw, 0) == 0x98765432)
  {
    hide Load, Unsigned, Word16, Word32, Signed16, Signed32, ToUnsigned;
    LoadedAt(raw, 0);
    LoadedAt(raw, 4);
    LoadedAt(raw, 8);
    LoadedAt(raw, 10);
    LoadedAt(raw, 12);
    LoadedAt(raw, 14);
    LoadedAt(raw, 16);
    UnsignedOfLoad(raw[0..4]);
    UnsignedOfSlice(raw, 0);
  }

  /** The ranges of the two types, and the conversion to the larger one. */
  lemma SignedRanges(v: int)
    ensures Fits(v, 2) <==> -0x8000 <= v < 0x8000
    ensures Fits(v, 4) <==> -0x8000_0000 <= v < 0x8000_0000
    ensures Wrap(v, 4) == Signed32(v % 0x1_0000_0000)
  {
    Pow256Values();
  }
}
