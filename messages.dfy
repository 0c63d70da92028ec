/** The values that flow through the producer: topic configuration, the
    dynamically typed message a caller hands in, the sarama encoders built
    from it, the message handed to the transport, and the errors. */
module Messages {
  import opened Outcomes

  newtype byte = x: int | 0 <= x < 0x100
  newtype int32 = x: int | -0x8000_0000 <= x < 0x8000_0000
  newtype int64 = x: int | -0x8000_0000_0000_0000 <= x < 0x8000_0000_0000_0000

  /** A topic's declared wire format. The three named formats are the ones the
      encoder recognises; any other value of Go's `MessageType` is `Unlisted`. */
  datatype MessageType =
    | MessageFormatAvro
    | MessageFormatJSON
    | MessageFormatString
    | Unlisted(raw: string)

  datatype TopicConfig = TopicConfig(name: string, messageType: MessageType)

  /** The `reflect.Kind` of a message whose dynamic type is none of the six
      types the encoder's type switch lists and is not a struct. A named type
      over `string`, `int32` or `[]byte` lands here too (a type switch matches
      identical types only), and so does `nil` (`Invalid`). */
  datatype Kind =
    | Bool | Int | Int8 | Int16 | Int32 | Int64
    | Uint | Uint8 | Uint16 | Uint32 | Uint64 | Uintptr
    | Float32 | Float64 | Complex64 | Complex128
    | Array | Chan | Func | Map | Pointer | Slice | String
    | UnsafePointer | Invalid

  /** A struct value; its fields are the codecs' business and are not modelled. */
  datatype Record = Record(typeName: string)

  /** The message handed to `produceMessage`, by dynamic type. A float carries
      the text `fmt.Sprint` prints for it, since float formatting is not modelled. */
  datatype MessageValue =
    | Str(s: string)
    | Bytes(b: seq<byte>)
    | I32(i: int32)
    | I64(l: int64)
    | F32(text32: string)
    | F64(text64: string)
    | Struct(rec: Record)
    | Other(kind: Kind)

  /** One of the producer's three `EncoderDecoder` slots; Go's zero value is `NilCodec`. */
  datatype Codec = NilCodec | CodecInstance(id: string)

  /** The `sarama.Encoder` built for a message value. */
  datatype Encoder =
    | StringEncoder(text: string)
    | ByteEncoder(topicName: string, bytes: seq<byte>, codec: Codec)
    | StructEncoder(topicName: string, rec: Record, codec: Codec)

  /** `sarama.ProducerMessage` as `produceMessage` fills it. */
  datatype ProducerMessage = ProducerMessage(topic: string, key: Encoder, value: Encoder)

  /** The package's error sentinels, plus errors coming from collaborators
      outside the model (sarama, the struct encoder), carried as text. */
  datatype Error =
    | ErrInvalidProducer
    | ErrMessageFormat
    | ErrMessageType
    | External(msg: string)

  function ExternalError(e: Option<string>): (r: Option<Error>)
    ensures r.None? <==> e.None?
    ensures r.Some? ==> r.value.External?
    ensures e.Some? ==> r.Some? && r.value.msg == e.value
  {
    match e
    case None => None
    case Some(msg) => Some(External(msg))
  }
}
