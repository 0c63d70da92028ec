/** The sarama-backed producer: construction picks a sync or async handle,
    `GetSaramaEncoder` turns a dynamically typed message into a sarama encoder
    (format check first, then the value's type), and `ProduceMessage` encodes
    and then sends synchronously or enqueues asynchronously. */
module Producer {
  import opened Outcomes
  import opened Decimal
  import opened Messages

  /** The producer-type selector handed to `newSaramaProducer`. */
  datatype ProducerType = ProducerTypeSync | ProducerTypeAsync | UnlistedProducerType(raw: string)

  /** What the producer's `interface{}` handle holds: a sync producer, an
      async producer, or nil. */
  datatype Handle = NoHandle | SyncHandle | AsyncHandle

  /** What one `produceMessage` call does to the transport: the error it
      returns, what it passes to `SendMessage`, and what it puts on `Input()`. */
  datatype Delivery = Delivery(err: Option<Error>, synced: seq<ProducerMessage>, queued: seq<ProducerMessage>)

  /** The formats `getSaramaEncoder` has a codec for. */
  predicate IsListedFormat(t: MessageType) {
    !t.Unlisted?
  }

  /** The handle and error `newSaramaProducer` ends with, given the selector
      and the error sarama's constructor reports (sarama hands back a nil
      producer together with any error). */
  function OpenProducer(prodType: ProducerType, initErr: Option<string>): (r: (Handle, Option<Error>))
    ensures r.0 == NoHandle <==> r.1.Some?
    ensures r.1 == Some(ErrInvalidProducer) <==> prodType.UnlistedProducerType?
    ensures r.0 == SyncHandle ==> prodType == ProducerTypeSync
    ensures r.0 == AsyncHandle ==> prodType == ProducerTypeAsync
    ensures !prodType.UnlistedProducerType? ==> r.1 == ExternalError(initErr)
  {
    match prodType
    case ProducerTypeSync => if initErr.None? then (SyncHandle, None) else (NoHandle, ExternalError(initErr))
    case ProducerTypeAsync => if initErr.None? then (AsyncHandle, None) else (NoHandle, ExternalError(initErr))
    case UnlistedProducerType(_) => (NoHandle, Some(ErrInvalidProducer))
  }

  /** The dispatch half of `produceMessage`: a failed encoding is returned as
      it is; otherwise the message is built and routed by the handle. */
  function Deliver(handle: Handle, encoded: Result<Encoder, Error>, topic: string, key: string,
                   sendErr: Option<string>): (d: Delivery)
    ensures encoded.Err? ==> d == Delivery(Some(encoded.error), [], [])
    ensures d.synced != [] <==> encoded.Ok? && handle == SyncHandle
    ensures d.queued != [] <==> encoded.Ok? && handle == AsyncHandle
    ensures |d.synced| + |d.queued| <= 1
    ensures forall m :: m in d.synced + d.queued ==> m == ProducerMessage(topic, StringEncoder(key), encoded.value)
    ensures encoded.Ok? ==> d.err == match handle
                                     case SyncHandle => ExternalError(sendErr)
                                     case AsyncHandle => None
                                     case NoHandle => Some(ErrInvalidProducer)
  {
    match encoded
    case Err(e) => Delivery(Some(e), [], [])
    case Ok(se) =>
      var m := ProducerMessage(topic, StringEncoder(key), se);
      match handle
      case SyncHandle => Delivery(ExternalError(sendErr), [m], [])
      case AsyncHandle => Delivery(None, [], [m])
      case NoHandle => Delivery(Some(ErrInvalidProducer), [], [])
  }

  class SaramaProducer {
    var producer: Handle
    var topicConf: map<string, TopicConfig>
    var avroCodec: Codec
    var jsonCodec: Codec
    var stringCodec: Codec
    /** Go's zero `TopicConfig`, which indexing `topicConf` yields for a topic
        that is not in the map. Its name is empty; its message type is
        whatever the zero `MessageType` is, which the model takes as given. */
    const zeroConf: TopicConfig
    /** Every message passed to the sync producer's `SendMessage`, in order. */
    var sent: seq<ProducerMessage>
    /** Every message put on the async producer's `Input()` channel, in order. */
    var queued: seq<ProducerMessage>

    /** A zero-valued producer: no handle, no topics, nil codecs. */
    constructor (zeroType: MessageType)
      ensures producer == NoHandle && topicConf == map[]
      ensures avroCodec == NilCodec && jsonCodec == NilCodec && stringCodec == NilCodec
      ensures zeroConf == TopicConfig("", zeroType)
      ensures sent == [] && queued == []
    {
      producer := NoHandle;
      topicConf := map[];
      avroCodec, jsonCodec, stringCodec := NilCodec, NilCodec, NilCodec;
      zeroConf := TopicConfig("", zeroType);
      sent, queued := [], [];
    }

    /** `topicConf[topic]` with Go's map semantics. */
    function ConfigFor(topic: string): (r: TopicConfig)
      reads this`topicConf
      ensures topic in topicConf ==> r == topicConf[topic]
      ensures topic !in topicConf ==> r == zeroConf
    {
      if topic in topicConf then topicConf[topic] else zeroConf
    }

    /** The codec slot for a format, or `None` when the format is not one of
        the three the encoder knows. */
    function CodecFor(t: MessageType): (r: Option<Codec>)
      reads this`avroCodec, this`jsonCodec, this`stringCodec
      ensures r.Some? <==> IsListedFormat(t)
      ensures r.Some? ==> r.value in {avroCodec, jsonCodec, stringCodec}
    {
      match t
      case MessageFormatAvro => Some(avroCodec)
      case MessageFormatJSON => Some(jsonCodec)
      case MessageFormatString => Some(stringCodec)
      case Unlisted(_) => None
    }

    /** `getSaramaEncoder`. `structErr` is what `newSaramaStructEncoder` would
        report for this call; it is consulted only for a struct message. */
    function GetSaramaEncoder(conf: TopicConfig, msg: MessageValue, structErr: Option<string>): (r: Result<Encoder, Error>)
      reads this`avroCodec, this`jsonCodec, this`stringCodec
      ensures r.Ok? <==> IsListedFormat(conf.messageType) && !msg.Other? && !(msg.Struct? && structErr.Some?)
      ensures r.Err? ==> r.error != ErrInvalidProducer
      ensures r.Err? && r.error.External? ==> msg.Struct? && structErr == Some(r.error.msg)
    {
      match CodecFor(conf.messageType)
      case None => Err(ErrMessageFormat)
      case Some(codec) =>
        match msg
        case Str(s) => Ok(StringEncoder(s))
        case Bytes(b) => Ok(ByteEncoder(conf.name, b, codec))
        case I32(i) => Ok(StringEncoder(DecimalText(i as int)))
        case I64(l) => Ok(StringEncoder(DecimalText(l as int)))
        case F32(t) => Ok(StringEncoder(t))
        case F64(t) => Ok(StringEncoder(t))
        case Struct(rec) =>
          if structErr.Some? then Err(External(structErr.value)) else Ok(StructEncoder(conf.name, rec, codec))
        case Other(_) => Err(ErrMessageType)
    }

    /** What `produceMessage(topic, key, msg)` does, given the collaborators'
        outcomes for the call. */
    function Outcome(topic: string, key: string, msg: MessageValue, structErr: Option<string>,
                     sendErr: Option<string>): (d: Delivery)
      reads this`producer, this`topicConf, this`avroCodec, this`jsonCodec, this`stringCodec
      ensures |d.synced| + |d.queued| <= 1
      ensures forall m :: m in d.synced + d.queued ==> m.topic == topic && m.key == StringEncoder(key)
      ensures d.synced != [] ==> producer == SyncHandle && d.err == ExternalError(sendErr)
      ensures d.queued != [] ==> producer == AsyncHandle && d.err == None
      ensures d.err == None ==> d.synced + d.queued != []
    {
      Deliver(producer, GetSaramaEncoder(ConfigFor(topic), msg, structErr), topic, key, sendErr)
    }

    /** `produceMessage`: encode, then send or enqueue; only the transport's
        log and queue change. */
    method ProduceMessage(topic: string, key: string, msg: MessageValue, structErr: Option<string>,
                          sendErr: Option<string>) returns (e: Option<Error>)
      modifies this`sent, this`queued
      ensures e == Outcome(topic, key, msg, structErr, sendErr).err
      ensures sent == old(sent) + Outcome(topic, key, msg, structErr, sendErr).synced
      ensures queued == old(queued) + Outcome(topic, key, msg, structErr, sendErr).queued
    {
      var se := GetSaramaEncoder(ConfigFor(topic), msg, structErr);
      if se.Err? {
        return Some(se.error);
      }
      var m := ProducerMessage(topic, StringEncoder(key), se.value);
      match producer
      case SyncHandle =>
        sent := sent + [m];
        e := ExternalError(sendErr);
      case AsyncHandle =>
        queued := queued + [m];
        e := None;
      case NoHandle =>
        return Some(ErrInvalidProducer);
    }
  }

  /** `newSaramaProducer`: fills in the handle for the selector, then stores
      the topic configuration whether or not the handle was made. */
  method NewSaramaProducer(prodType: ProducerType, topicConf: map<string, TopicConfig>,
                           initErr: Option<string>, zeroType: MessageType)
    returns (p: SaramaProducer, e: Option<Error>)
    ensures fresh(p)
    ensures (p.producer, e) == OpenProducer(prodType, initErr)
    ensures p.topicConf == topicConf
    ensures p.avroCodec == NilCodec && p.jsonCodec == NilCodec && p.stringCodec == NilCodec
    ensures p.zeroConf == TopicConfig("", zeroType)
    ensures p.sent == [] && p.queued == []
  {
    p := new SaramaProducer(zeroType);
    e := None;
    match prodType {
      case ProducerTypeSync =>
        if initErr.None? { p.producer := SyncHandle; } else { e := ExternalError(initErr); }
      case ProducerTypeAsync =>
        if initErr.None? { p.producer := AsyncHandle; } else { e := ExternalError(initErr); }
      case UnlistedProducerType(_) =>
        e := Some(ErrInvalidProducer);
    }
    p.topicConf := topicConf;
  }
}
