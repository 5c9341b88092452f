/** The `Message`, `MessageParser` and `MessageManager` classes. */
module MessageObjects {

  import opened Options
  import opened ByteStreams
  import opened MessageFormat

  /** The value of a `Message`: what copying one copies. */
  datatype Packet = Packet(size: nat, bytes: Bytes)

  /** Overwrites part of a buffer, as a field assignment or `memcpy` does. */
  function Put(raw: Bytes, at: nat, b: Bytes): (r: Bytes)
    requires at + |b| <= |raw|
    ensures |r| == |raw|
    ensures forall k :: at + |b| <= k <= |raw| ==> r[k..] == raw[k..]
  {
    raw[..at] + b + raw[at + |b|..]
  }

  function ZeroFilled(n: nat): (b: Bytes)
    ensures |b| == n && forall i :: 0 <= i < n ==> b[i] == 0
  {
    seq(n, _ => 0)
  }

  /** `vector::resize`. */
  function ResizeTo(raw: Bytes, n: nat): (r: Bytes)
    ensures |r| == n && forall i :: 0 <= i < n ==> r[i] == if i < |raw| then raw[i] else 0
  {
    if n <= |raw| then raw[..n] else raw + ZeroFilled(n - |raw|)
  }

  class Message {
    var messageSize: nat
    var raw: Bytes

    ghost predicate Valid()
      reads this
    {
      messageSize == |raw|
    }

    function Value(): Packet
      reads this
    {
      Packet(messageSize, raw)
    }

    /** The default constructor leaves the size uninitialized. */
    constructor Empty()
      ensures raw == []
    {
      messageSize := *;
      raw := [];
    }

    constructor FromBytes(buff: Bytes)
      ensures Valid() && raw == buff
    {
      messageSize, raw := |buff|, buff;
    }

    constructor Copy(p: Packet)
      ensures Value() == p
    {
      messageSize, raw := p.size, p.bytes;
    }

    /** Field by field into the first 20 bytes. */
    method SetHeader(messageLength: int, listenerType: int, messageId: int,
                     needResponse: int, isRequest: int, requestTimeout: int)
      requires |raw| >= HEADER_SIZE
      modifies this`raw
      ensures |raw| == old(|raw|)
      ensures raw[..HEADER_SIZE] == HeaderBytes(Header(Wrap(MAGIC, 4), messageLength, isRequest, needResponse,
                                                       requestTimeout, listenerType, messageId))
      ensures raw[HEADER_SIZE..] == old(raw[HEADER_SIZE..])
    {
      hide Store, Wrap;
      raw := Put(raw, 0, Store(Wrap(MAGIC, 4), 4));
      raw := Put(raw, 4, Store(messageLength, 4));
      raw := Put(raw, 8, Store(isRequest, 2));
      raw := Put(raw, 10, Store(needResponse, 2));
      raw := Put(raw, 12, Store(requestTimeout, 2));
      raw := Put(raw, 14, Store(listenerType, 2));
      raw := Put(raw, 16, Store(messageId, 4));
    }

    method SetBody(data: Option<Bytes>, size: nat)
      requires |raw| == HEADER_SIZE + size
      requires data.Some? ==> size <= |data.value|
      modifies this`raw
      ensures |raw| == old(|raw|) && raw[..HEADER_SIZE] == old(raw[..HEADER_SIZE])
      ensures raw[HEADER_SIZE..] == if data.Some? then data.value[..size] else old(raw[HEADER_SIZE..])
    {
      if data.None? || size == 0 {
        return;
      }
      raw := Put(raw, HEADER_SIZE, data.value[..size]);
    }

    /** Builds header and body. A negative length leaves an empty message of
        uninitialized size; a null `data` leaves the body zero-filled. */
    constructor Build(data: Option<Bytes>, dataLength: int, listenerType: int, messageId: int,
                      needResponse: int, isRequest: int, requestTimeout: int)
      requires data.Some? ==> dataLength <= |data.value|
      ensures dataLength < 0 ==> raw == []
      ensures dataLength >= 0 ==>
                var body := if data.Some? then data.value[..dataLength] else ZeroFilled(dataLength);
                Valid() &&
                raw == MessageBytes(Request(body, listenerType, messageId, needResponse, isRequest, requestTimeout))
    {
      messageSize := *;
      raw := [];
      new;
      if 0 > dataLength {
        return;
      }
      raw := ZeroFilled(HEADER_SIZE + dataLength);
      messageSize := HEADER_SIZE + dataLength;
      SetHeader(Wrap(|raw|, 4), listenerType, messageId, isRequest, needResponse, requestTimeout);
      SetBody(data, dataLength);
      if data.None? || dataLength == 0 {
        assert raw[HEADER_SIZE..] == ZeroFilled(dataLength);
      }
      assert raw == raw[..HEADER_SIZE] + raw[HEADER_SIZE..];
    }

    /** Grows the buffer if needed and copies at the old size. */
    method AppendData(data: Bytes)
      requires Valid()
      modifies this
      ensures Valid() && raw == old(raw) + data
    {
      var messageSizeBuffer := messageSize;
      var neededSize := messageSizeBuffer + |data|;
      if |raw| < neededSize {
        raw := ResizeTo(raw, neededSize);
      }
      messageSize := neededSize;
      raw := Put(raw, messageSizeBuffer, data);
    }

    /** The size as a 32-bit signed value: the size itself exactly where that fits. */
    method GetMessageSize() returns (size: int)
      ensures size == Wrap(messageSize, 4) && Fits(size, 4)
      ensures size == messageSize <==> Fits(messageSize, 4)
    {
      WrapFits(messageSize, 4);
      size := Wrap(messageSize, 4);
    }
  }

  class MessageParser {
    var header: Header
    var data: Bytes      // from the end of the header on
    var dataLength: int

    /** Parsing loses nothing: header and data give back the message, and a message
        built from a request gives back the request. The data length follows the declared
        length, and is that of the data exactly when the message has that length. */
    constructor (message: Message)
      requires |message.raw| >= HEADER_SIZE
      ensures header == ReadHeader(message.raw) && header.InRange()
      ensures HeaderBytes(header) + data == message.raw
      ensures dataLength == Wrap(header.messageLength - HEADER_SIZE, 4)
      ensures Fits(|message.raw|, 4) ==> (dataLength == |data| <==> header.messageLength == |message.raw|)
      ensures forall r: Request :: r.InRange() && message.raw == MessageBytes(r) ==>
                header == HeaderOf(r) && data == r.body && dataLength == |r.body|
    {
      header := ReadHeader(message.raw);
      data := message.raw[HEADER_SIZE..];
      dataLength := Wrap(ReadHeader(message.raw).messageLength - HEADER_SIZE, 4);
      new;
      HeaderIsLossless(message.raw);
      if Fits(|message.raw|, 4) {
        DataLengthIsExact(message.raw);
      }
      forall r: Request | r.InRange() && message.raw == MessageBytes(r)
        ensures header == HeaderOf(r) && data == r.body && dataLength == |r.body|
      {
        ParseBuilt(r);
        BuiltHeader(r);
      }
    }

    /** Whether the message began with the magic bytes, whatever message it was. */
    method IsHeader() returns (yes: bool)
      ensures yes <==> HeaderBytes(header)[..4] == MAGIC_BYTES
      ensures forall raw: Chunk :: ReadHeader(raw) == header ==> (yes <==> HasMagic(raw))
    {
      MagicInHeader(header);
      yes := ToUnsigned(header.headerChecker, 4) == MAGIC;
    }
  }

  class MessageManager {
    var messageMap: map<int, Packet>

    /** Messages are never stored empty, and their recorded size is their size. */
    ghost predicate Valid()
      reads this
    {
      forall k :: k in messageMap ==>
        messageMap[k].size == |messageMap[k].bytes| >= HEADER_SIZE
    }

    ghost function Held(key: int): (p: Option<Chunk>)
      requires Valid()
      reads this
    {
      if key in messageMap then Some(messageMap[key].bytes) else None
    }

    constructor ()
      ensures Valid() && messageMap == map[]
    {
      messageMap := map[];
    }

    method Add(productType: int, msg: Message) returns (ok: bool)
      modifies this
      ensures ok == (productType >= 0)
      ensures messageMap == if ok then old(messageMap)[productType := msg.Value()] else old(messageMap)
    {
      if 0 > productType {
        return false;
      }
      messageMap := messageMap[productType := msg.Value()];
      ok := true;
    }

    method Remove(productType: int) returns (ok: bool)
      modifies this
      ensures ok == (productType in old(messageMap))
      ensures messageMap == old(messageMap) - {productType}
    {
      ok := productType in messageMap;
      messageMap := messageMap - {productType};
    }

    method IsPerfectMessage(productType: int) returns (yes: bool)
      requires Valid()
      ensures yes <==> productType in messageMap && Complete(messageMap[productType].bytes)
    {
      yes := false;
      if productType in messageMap {
        var message := new Message.Copy(messageMap[productType]);
        var parser := new MessageParser(message);
        var size := message.GetMessageSize();
        yes := parser.header.messageLength == size;
      }
    }

    method IsExistMessage(productType: int) returns (yes: bool)
      ensures yes <==> productType in messageMap
    {
      yes := productType in messageMap;
    }

    /** Hands out a copy and forgets the original; an absent key gives an empty message. */
    method MessagePop(productType: int) returns (m: Message)
      modifies this
      ensures fresh(m)
      ensures productType in old(messageMap) ==> m.Value() == old(messageMap)[productType]
      ensures productType !in old(messageMap) ==> m.raw == []
      ensures messageMap == old(messageMap) - {productType}
    {
      if productType in messageMap {
        m := new Message.Copy(messageMap[productType]);
        messageMap := messageMap - {productType};
      } else {
        m := new Message.Empty();
        assert messageMap == messageMap - {productType};
      }
    }
  }

  /** What is added under a key is what is taken out, once: afterwards the key is
      absent and the other keys are as before. A negative key stores nothing. */
  method AddThenPop(manager: MessageManager, key: int, msg: Message)
    returns (added: bool, there: bool, popped: Message, left: bool)
    requires manager.Valid() && msg.Valid() && |msg.raw| >= HEADER_SIZE
    modifies manager
    ensures added <==> key >= 0
    ensures added ==> there && popped.Value() == msg.Value() && !left
    ensures !added ==> there == (key in old(manager.messageMap))
    ensures key !in manager.messageMap && manager.messageMap == old(manager.messageMap) - {key}
    ensures manager.Valid()
  {
    added := manager.Add(key, msg);
    there := manager.IsExistMessage(key);
    popped := manager.MessagePop(key);
    left := manager.IsExistMessage(key);
  }
}
