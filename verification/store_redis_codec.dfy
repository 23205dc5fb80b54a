/**
 The Redis codec adapter: one key serializer and one value serializer bound to the byte-buffer
 boundary of the Redis driver.

 Buffers are values: a java.nio ByteBuffer is its content with a position and a limit, a Netty
 ByteBuf its storage with a reader and a writer index. Serializers are abstract functions; a
 serializer call either throws a SerializationException, returns null (None) or returns an
 array.
 */
module StoreRedisCodec {
  import opened Wrappers

  newtype byte = x: int | 0 <= x < 256

  /** A java.nio.ByteBuffer; its readable bytes lie between position and limit. */
  datatype NioBuffer = NioBuffer(content: seq<byte>, position: nat, limit: nat) {
    predicate Valid() {
      position <= limit <= |content|
    }

    function Remaining(): nat
      requires Valid()
    {
      limit - position
    }
  }

  /** The bytes a reader of `b` sees. */
  function Readable(b: NioBuffer): seq<byte>
    requires b.Valid()
  {
    b.content[b.position..b.limit]
  }

  /** A Netty ByteBuf; its readable bytes lie between the reader and the writer index. */
  datatype ByteBuf = ByteBuf(storage: seq<byte>, readerIndex: nat, writerIndex: nat) {
    predicate Valid() {
      readerIndex <= writerIndex <= |storage|
    }

    function ReadableBytes(): nat
      requires Valid()
    {
      writerIndex - readerIndex
    }

    /** `duplicate()`: the same storage with indices of its own. */
    function Duplicate(): ByteBuf {
      ByteBuf(storage, readerIndex, writerIndex)
    }

    /** `readBytes(dst)` for a `dst` of length `n`: the next `n` readable bytes, and this buffer
        with its reader index advanced past them. */
    function ReadBytes(n: nat): (seq<byte>, ByteBuf)
      requires Valid() && n <= ReadableBytes()
    {
      (storage[readerIndex..readerIndex + n], ByteBuf(storage, readerIndex + n, writerIndex))
    }

    /** `nioBuffer()`: the readable region exposed as a ByteBuffer. */
    function NioView(): NioBuffer
      requires Valid()
    {
      NioBuffer(storage, readerIndex, writerIndex)
    }
  }

  /** `Unpooled.wrappedBuffer(ByteBuffer)`: a ByteBuf over the remaining bytes of `b`. */
  function WrapNio(b: NioBuffer): ByteBuf
    requires b.Valid()
  {
    ByteBuf(b.content, b.position, b.limit)
  }

  /** `Unpooled.wrappedBuffer(byte[])`: a ByteBuf whose readable bytes are the whole array. */
  function WrapArray(a: seq<byte>): ByteBuf {
    ByteBuf(a, 0, |a|)
  }

  datatype SerializationException = SerializationException(message: string)

  /** A RedisSerializer: `serialize` throws, returns null (None) or returns an array;
      `deserialize` throws or returns a value. */
  datatype Serializer<!T> = Serializer(
    serialize: T -> Result<Option<seq<byte>>, SerializationException>,
    deserialize: seq<byte> -> Result<T, SerializationException>)

  /** `new StoreRedisCodec(keySerializer, valueSerializer)`. */
  datatype Codec<!K, !V> = Codec(keySerializer: Serializer<K>, valueSerializer: Serializer<V>)

  /** Copies the readable region of `bytes` into a fresh array: wraps it in a view, and reads
      all of the view's readable bytes through a duplicate of it. */
  function DecodeBuffer(bytes: NioBuffer): (copied: seq<byte>)
    requires bytes.Valid()
    ensures |copied| == bytes.Remaining()
    ensures forall i :: 0 <= i < |copied| ==> copied[i] == bytes.content[bytes.position + i]
  {
    var buffer := WrapNio(bytes);
    var read := buffer.Duplicate().ReadBytes(buffer.ReadableBytes());
    read.0
  }

  /** Wraps a serializer's output for the driver; null becomes an empty buffer. */
  function EncodeBuffer(output: Option<seq<byte>>): (r: NioBuffer)
    ensures r.Valid()
    ensures output.None? ==> r.Remaining() == 0
    ensures output.Some? ==> Readable(r) == output.value
  {
    match output
    case None => NioBuffer([], 0, 0)
    case Some(a) => WrapArray(a).NioView()
  }

  function DecodeKey<K, V>(codec: Codec<K, V>, bytes: NioBuffer): (r: Result<K, SerializationException>)
    requires bytes.Valid()
    ensures r == codec.keySerializer.deserialize(Readable(bytes))
  {
    assert DecodeBuffer(bytes) == Readable(bytes);
    codec.keySerializer.deserialize(DecodeBuffer(bytes))
  }

  function DecodeValue<K, V>(codec: Codec<K, V>, bytes: NioBuffer): (r: Result<V, SerializationException>)
    requires bytes.Valid()
    ensures r == codec.valueSerializer.deserialize(Readable(bytes))
  {
    assert DecodeBuffer(bytes) == Readable(bytes);
    codec.valueSerializer.deserialize(DecodeBuffer(bytes))
  }

  /** What the driver reads back from an encoded buffer: the serializer's array, or nothing
      for null. */
  function ArrayOrEmpty(output: Option<seq<byte>>): seq<byte> {
    match output
    case None => []
    case Some(a) => a
  }

  /** Wraps a serializer's outcome; an exception propagates unchanged. */
  function Encode(serialized: Result<Option<seq<byte>>, SerializationException>): (r: Result<NioBuffer, SerializationException>)
    ensures r.Failure? <==> serialized.Failure?
    ensures r.Failure? ==> r.error == serialized.error
    ensures r.Success? ==> r.value.Valid() && Readable(r.value) == ArrayOrEmpty(serialized.value)
  {
    match serialized
    case Failure(e) => Failure(e)
    case Success(output) => Success(EncodeBuffer(output))
  }

  /** `s` serializes `x` to a non-null array from which it deserializes `x` again. */
  ghost predicate RoundTrips<T>(s: Serializer<T>, x: T) {
    && s.serialize(x).Success?
    && s.serialize(x).value.Some?
    && s.deserialize(s.serialize(x).value.value) == Success(x)
  }

  /** Encodes a key. A key the key serializer round-trips decodes back to itself; a null from
      the serializer reaches the driver as an empty, non-null buffer. */
  function EncodeKey<K, V>(codec: Codec<K, V>, key: K): (r: Result<NioBuffer, SerializationException>)
    ensures RoundTrips(codec.keySerializer, key) ==>
              r.Success? && r.value.Valid() && DecodeKey(codec, r.value) == Success(key)
    ensures codec.keySerializer.serialize(key) == Success(None) ==>
              && r.Success? && r.value.Valid() && r.value.Remaining() == 0
              && DecodeKey(codec, r.value) == codec.keySerializer.deserialize([])
  {
    Encode(codec.keySerializer.serialize(key))
  }

  /** Encodes a value, with the same round trip and null rule through the value serializer. */
  function EncodeValue<K, V>(codec: Codec<K, V>, value: V): (r: Result<NioBuffer, SerializationException>)
    ensures RoundTrips(codec.valueSerializer, value) ==>
              r.Success? && r.value.Valid() && DecodeValue(codec, r.value) == Success(value)
    ensures codec.valueSerializer.serialize(value) == Success(None) ==>
              && r.Success? && r.value.Valid() && r.value.Remaining() == 0
              && DecodeValue(codec, r.value) == codec.valueSerializer.deserialize([])
  {
    Encode(codec.valueSerializer.serialize(value))
  }

  /** Keys are coded by the key serializer alone and values by the value serializer alone. */
  lemma SerializersAreNotMixed<K, V>(c1: Codec<K, V>, c2: Codec<K, V>, key: K, value: V, bytes: NioBuffer)
    requires bytes.Valid()
    ensures c1.keySerializer == c2.keySerializer ==>
              EncodeKey(c1, key) == EncodeKey(c2, key) && DecodeKey(c1, bytes) == DecodeKey(c2, bytes)
    ensures c1.valueSerializer == c2.valueSerializer ==>
              EncodeValue(c1, value) == EncodeValue(c2, value) && DecodeValue(c1, bytes) == DecodeValue(c2, bytes)
  {
  }
}
