/** What the producer promises its callers, stated over the model in
    `Producer`: the encoder's format-then-type dispatch, the delivery rules of
    `produceMessage`, and what a failed construction leaves behind. */
module ProducerProperties {
  import opened Outcomes
  import opened Decimal
  import opened Messages
  import opened Producer

  /** The integer a numeric message holds. */
  function IntegerValue(msg: MessageValue): int
    requires msg.I32? || msg.I64?
  {
    if msg.I32? then msg.i as int else msg.l as int
  }

  // ---- Encoder selection -------------------------------------------------

  /** An unlisted message type fails with errMessageFormat before the message
      is looked at, so even strings and numbers are refused. */
  lemma UnlistedFormatRejectsEveryMessage(p: SaramaProducer, conf: TopicConfig, msg: MessageValue,
                                          structErr: Option<string>)
    requires !IsListedFormat(conf.messageType)
    ensures p.GetSaramaEncoder(conf, msg, structErr) == Err(ErrMessageFormat)
  {
  }

  /** A string is its own encoding under every listed format, whatever the
      codec slots of the producer hold. */
  lemma StringMessageVerbatim(p: SaramaProducer, q: SaramaProducer, c1: TopicConfig, c2: TopicConfig,
                              s: string, e1: Option<string>, e2: Option<string>)
    requires IsListedFormat(c1.messageType) && IsListedFormat(c2.messageType)
    ensures p.GetSaramaEncoder(c1, Str(s), e1) == Ok(StringEncoder(s))
    ensures q.GetSaramaEncoder(c2, Str(s), e2) == p.GetSaramaEncoder(c1, Str(s), e1)
  {
  }

  /** An int32 or int64 message is encoded as its decimal text, which reads
      back as the same integer, and no codec takes part. */
  lemma IntegerMessageDecimal(p: SaramaProducer, q: SaramaProducer, c1: TopicConfig, c2: TopicConfig,
                              msg: MessageValue, e1: Option<string>, e2: Option<string>)
    requires msg.I32? || msg.I64?
    requires IsListedFormat(c1.messageType) && IsListedFormat(c2.messageType)
    ensures p.GetSaramaEncoder(c1, msg, e1).Ok?
    ensures p.GetSaramaEncoder(c1, msg, e1).value.StringEncoder?
    ensures ParseDecimal(p.GetSaramaEncoder(c1, msg, e1).value.text) == Some(IntegerValue(msg))
    ensures q.GetSaramaEncoder(c2, msg, e2) == p.GetSaramaEncoder(c1, msg, e1)
  {
    DecimalTextRoundTrip(IntegerValue(msg));
  }

  /** A float32 or float64 message is encoded as its printed text, with no codec. */
  lemma FloatMessageText(p: SaramaProducer, conf: TopicConfig, msg: MessageValue, structErr: Option<string>)
    requires msg.F32? || msg.F64?
    requires IsListedFormat(conf.messageType)
    ensures p.GetSaramaEncoder(conf, msg, structErr)
            == Ok(StringEncoder(if msg.F32? then msg.text32 else msg.text64))
  {
  }

  /** A []byte message becomes a byte encoder bound to the topic's name, the
      bytes and the codec of the topic's format; it cannot fail here. */
  lemma BytesMessageBound(p: SaramaProducer, conf: TopicConfig, b: seq<byte>, structErr: Option<string>)
    requires IsListedFormat(conf.messageType)
    ensures p.GetSaramaEncoder(conf, Bytes(b), structErr)
            == Ok(ByteEncoder(conf.name, b, p.CodecFor(conf.messageType).value))
    ensures conf.messageType == MessageFormatAvro ==> p.CodecFor(conf.messageType).value == p.avroCodec
    ensures conf.messageType == MessageFormatJSON ==> p.CodecFor(conf.messageType).value == p.jsonCodec
    ensures conf.messageType == MessageFormatString ==> p.CodecFor(conf.messageType).value == p.stringCodec
  {
  }

  /** A struct message goes to the struct encoder with the topic's codec, and
      the struct encoder's error, if any, is the result. */
  lemma StructMessageEncoded(p: SaramaProducer, conf: TopicConfig, rec: Record, structErr: Option<string>)
    requires IsListedFormat(conf.messageType)
    ensures structErr.Some? ==> p.GetSaramaEncoder(conf, Struct(rec), structErr) == Err(External(structErr.value))
    ensures structErr.None? ==>
              p.GetSaramaEncoder(conf, Struct(rec), structErr)
              == Ok(StructEncoder(conf.name, rec, p.CodecFor(conf.messageType).value))
  {
  }

  /** Any other kind, including Go's int and uint, pointers, maps, slices
      other than []byte, named types and nil, fails with errMessageType. */
  lemma OtherKindRejected(p: SaramaProducer, conf: TopicConfig, k: Kind, structErr: Option<string>)
    requires IsListedFormat(conf.messageType)
    ensures p.GetSaramaEncoder(conf, Other(k), structErr) == Err(ErrMessageType)
  {
  }

  // ---- Delivery ----------------------------------------------------------

  /** A failed encoding is returned unchanged, and nothing is sent or queued. */
  lemma EncodeFailureDeliversNothing(p: SaramaProducer, topic: string, key: string, msg: MessageValue,
                                     structErr: Option<string>, sendErr: Option<string>)
    requires p.GetSaramaEncoder(p.ConfigFor(topic), msg, structErr).Err?
    ensures p.Outcome(topic, key, msg, structErr, sendErr)
            == Delivery(Some(p.GetSaramaEncoder(p.ConfigFor(topic), msg, structErr).error), [], [])
  {
  }

  /** With a sync handle an encoded message is sent exactly once, built from
      the topic, the key and the encoder, and the send error is returned. */
  lemma SyncSendsOnce(p: SaramaProducer, topic: string, key: string, msg: MessageValue,
                      structErr: Option<string>, sendErr: Option<string>)
    requires p.producer == SyncHandle
    requires p.GetSaramaEncoder(p.ConfigFor(topic), msg, structErr).Ok?
    ensures var se := p.GetSaramaEncoder(p.ConfigFor(topic), msg, structErr).value;
            p.Outcome(topic, key, msg, structErr, sendErr)
            == Delivery(ExternalError(sendErr), [ProducerMessage(topic, StringEncoder(key), se)], [])
  {
  }

  /** With an async handle an encoded message is enqueued once and nil is returned. */
  lemma AsyncEnqueuesOnce(p: SaramaProducer, topic: string, key: string, msg: MessageValue,
                          structErr: Option<string>, sendErr: Option<string>)
    requires p.producer == AsyncHandle
    requires p.GetSaramaEncoder(p.ConfigFor(topic), msg, structErr).Ok?
    ensures var se := p.GetSaramaEncoder(p.ConfigFor(topic), msg, structErr).value;
            p.Outcome(topic, key, msg, structErr, sendErr)
            == Delivery(None, [], [ProducerMessage(topic, StringEncoder(key), se)])
  {
  }

  /** produceMessage returns errInvalidProducer exactly when the message
      encodes and the producer holds no handle; then nothing is delivered. */
  lemma InvalidProducerIff(p: SaramaProducer, topic: string, key: string, msg: MessageValue,
                           structErr: Option<string>, sendErr: Option<string>)
    ensures var d := p.Outcome(topic, key, msg, structErr, sendErr);
            d.err == Some(ErrInvalidProducer)
            <==> p.GetSaramaEncoder(p.ConfigFor(topic), msg, structErr).Ok? && p.producer == NoHandle
    ensures var d := p.Outcome(topic, key, msg, structErr, sendErr);
            d.err == Some(ErrInvalidProducer) ==> d.synced == [] && d.queued == []
  {
  }

  /** One call delivers at most one message, and only when encoding succeeded
      and a handle exists; a delivered message always carries the call's
      topic and key. */
  lemma DeliversAtMostOne(p: SaramaProducer, topic: string, key: string, msg: MessageValue,
                          structErr: Option<string>, sendErr: Option<string>)
    ensures var d := p.Outcome(topic, key, msg, structErr, sendErr);
            |d.synced| + |d.queued| <= 1
    ensures var d := p.Outcome(topic, key, msg, structErr, sendErr);
            |d.synced| + |d.queued| == 1
            <==> p.GetSaramaEncoder(p.ConfigFor(topic), msg, structErr).Ok? && p.producer != NoHandle
    ensures var d := p.Outcome(topic, key, msg, structErr, sendErr);
            forall m :: m in d.synced + d.queued ==> m.topic == topic && m.key == StringEncoder(key)
  {
  }

  /** A topic missing from the configuration is not refused: it is encoded
      under the zero configuration, and when the zero message type is not a
      listed format the call fails with errMessageFormat, delivering nothing. */
  lemma MissingTopicUsesZeroConfig(p: SaramaProducer, topic: string, key: string, msg: MessageValue,
                                   structErr: Option<string>, sendErr: Option<string>)
    requires topic !in p.topicConf
    ensures p.ConfigFor(topic) == p.zeroConf
    ensures !IsListedFormat(p.zeroConf.messageType) ==>
              p.Outcome(topic, key, msg, structErr, sendErr) == Delivery(Some(ErrMessageFormat), [], [])
  {
  }

  // ---- Construction ------------------------------------------------------

  /** An unlisted producer type gives errInvalidProducer and no handle, and
      every later call either fails to encode or returns errInvalidProducer,
      never touching the transport. */
  lemma UnlistedProducerTypeNeverDelivers(prodType: ProducerType, initErr: Option<string>,
                                          encoded: Result<Encoder, Error>, topic: string, key: string,
                                          sendErr: Option<string>)
    requires prodType.UnlistedProducerType?
    ensures OpenProducer(prodType, initErr) == (NoHandle, Some(ErrInvalidProducer))
    ensures var d := Deliver(OpenProducer(prodType, initErr).0, encoded, topic, key, sendErr);
            d.err.Some? && d.synced == [] && d.queued == []
  {
  }

  /** Construct with an unlisted producer type, then produce: the topic map
      is kept, the call fails, and nothing reaches the transport. */
  method ProduceAfterInvalidConstruction(raw: string, topicConf: map<string, TopicConfig>, zeroType: MessageType,
                                         topic: string, key: string, msg: MessageValue,
                                         structErr: Option<string>, sendErr: Option<string>)
    returns (initE: Option<Error>, e: Option<Error>, stored: map<string, TopicConfig>, delivered: nat)
    ensures initE == Some(ErrInvalidProducer)
    ensures stored == topicConf
    ensures e.Some? && delivered == 0
  {
    var p;
    p, initE := NewSaramaProducer(UnlistedProducerType(raw), topicConf, None, zeroType);
    stored := p.topicConf;
    e := p.ProduceMessage(topic, key, msg, structErr, sendErr);
    delivered := |p.sent| + |p.queued|;
  }
}
