# kafkaclient sarama producer — Dafny model

This project models the producer side of the `kafkaclient` Go package as it
drives the sarama Kafka client (`sarama_producer.go`):

- **Construction** (`newSaramaProducer`): the producer-type selector picks a
  sync or an async sarama producer, or fails with `errInvalidProducer`. The
  topic configuration map is stored whatever happens.
- **Encoder selection** (`getSaramaEncoder`): the topic's `MessageType` first
  picks the Avro, JSON or string codec slot, or fails with `errMessageFormat`.
  The message's dynamic type then decides the encoder. A `string` is sent
  verbatim. A `[]byte` becomes a byte encoder bound to the topic name and the
  codec. `int32`, `int64`, `float32` and `float64` become their printed text. A
  struct goes to the struct encoder, which may fail. Anything else fails with
  `errMessageType`.
- **Delivery** (`produceMessage`): the message is encoded first, and a failure
  is returned before anything is built. Otherwise a
  `ProducerMessage{Topic, Key, Value}` is built and routed by the handle. Sync
  sends once and returns the send error. Async enqueues and returns nil. No
  handle at all returns `errInvalidProducer`.

Files:

- `outcomes.dfy`: `Option` and `Result`.
- `decimal.dfy`: the text `fmt.Sprint` prints for an integer, and its inverse
  `ParseDecimal`. The round trip is proved in both directions.
- `messages.dfy`: topic configuration, message values by dynamic type, codecs,
  encoders, `ProducerMessage` and the errors.
- `sarama_producer.dfy`: the class `SaramaProducer`, with the handle, the topic
  map, the three codec slots and the transport's record of sent and queued
  messages, plus `NewSaramaProducer`.
- `producer_properties.dfy`: the properties of the model.

Collaborators outside the model appear as per-call parameters:
- `initErr` is the error sarama's `NewSyncProducer`/`NewAsyncProducer` reports.
- `structErr` is the error `newSaramaStructEncoder` reports.
- `sendErr` is the error `SendMessage` reports.

Each such error reaches the caller as `External(msg)`.

Notes on how the code behaves, which the model follows:
- A topic missing from the map is not refused with an "unknown topic" error.
  Go's map index yields the zero `TopicConfig`, which is then encoded like any
  other. Its name is empty, and its `MessageType` is the zero value of that
  type. The values of the `MessageFormat*` constants are not part of this
  model, so the zero message type is the constructor parameter `zeroType`, and each
  producer's constant `zeroConf` is `TopicConfig("", zeroType)`.
- `newSaramaProducer` returns the producer value even when it fails. The topic
  map is stored in it, and its handle is nil.
- `newSaramaProducer` leaves the three codec fields nil (`NilCodec`), and
  nothing in sarama_producer.go assigns them. Other files of the package could;
  the encoder properties hold for any codec values.
- Only `int32`, `int64`, `float32` and `float64` count as numbers. Go's `int`,
  `uint`, `int8` and so on fail with `errMessageType`, and so do named types
  over `string` or `[]byte`.
- A handle-less producer can still be called. `produceMessage` then returns
  `errInvalidProducer` when the message encodes; when it does not, the
  encoding error comes back first.

## Model

| member | source | states |
|---|---|---|
| Decimal.Digits | sarama_producer.go:105-106 | the digits of a magnitude are a non-empty digit string with no leading zero, and start with '0' only for zero |
| Decimal.DecimalText | sarama_producer.go:105-106 | the printed integer is non-empty and starts with '-' exactly when the integer is negative |
| Decimal.DecimalTextRoundTrip | sarama_producer.go:105-106 | reading back the printed text of any integer gives that integer |
| Decimal.ParseDecimalRoundTrip | sarama_producer.go:105-106 | every text the parser accepts is exactly the printed form of its value, so printing is onto canonical decimal text |
| Decimal.DecimalTextInjective | sarama_producer.go:105-106 | distinct integers never encode to the same text |
| Decimal.ParseDigitsOfDigits | sarama_producer.go:105-106 | the digit string of a natural number reads back as that number |
| Decimal.DigitsOfParseDigits | sarama_producer.go:105-106 | a canonical digit string is the digit string of its own value |
| Messages.ExternalError | sarama_producer.go:61 | a collaborator's error is passed through: nil stays nil, and an error becomes an external error carrying the same message |
| Producer.OpenProducer | sarama_producer.go:26-33 | no handle exactly when an error is reported; errInvalidProducer exactly for an unlisted selector; a sync (async) handle only for the sync (async) selector; otherwise the error is sarama's |
| Producer.NewSaramaProducer | sarama_producer.go:20-41 | the handle and error follow the selector and sarama's outcome, the topic map is stored even on error, codecs stay nil, and the transport record starts empty |
| Producer.SaramaProducer.constructor | sarama_producer.go:12-18 | a fresh producer holds Go's zero values: no handle, an empty topic map, nil codecs |
| Producer.SaramaProducer.ConfigFor | sarama_producer.go:48 | a configured topic is encoded under its own map entry, and a missing topic under Go's zero configuration |
| Producer.Deliver | sarama_producer.go:54-66 | a failed encoding is returned with nothing delivered; a message is sent exactly for a sync handle and enqueued exactly for an async one, at most one, always {topic, key, encoder}; the error is the send error, nil, or errInvalidProducer for no handle (see also SyncSendsOnce, AsyncEnqueuesOnce, InvalidProducerIff, UnlistedProducerTypeNeverDelivers) |
| Producer.SaramaProducer.Outcome | sarama_producer.go:43-73 | one produce call delivers at most one message, carrying the call's topic and key; a sent message means a sync handle and the send error returned, an enqueued one an async handle and nil; a nil result means a message was delivered (see also EncodeFailureDeliversNothing, DeliversAtMostOne) |
| Producer.SaramaProducer.CodecFor | sarama_producer.go:80-96 | a codec slot is chosen exactly for the three listed formats, and it is one of the producer's three slots |
| Producer.SaramaProducer.GetSaramaEncoder | sarama_producer.go:75-120 | encoding succeeds exactly when the format is listed, the value is not of an unsupported kind, and a struct encoder did not fail; it never yields errInvalidProducer; an external error only comes from the struct encoder |
| Producer.SaramaProducer.ProduceMessage | sarama_producer.go:43-73 | the returned error, the messages sent and the messages enqueued are those of the encode-then-dispatch outcome, appended to the old record; nothing else changes |
| ProducerProperties.UnlistedFormatRejectsEveryMessage | sarama_producer.go:82-96 | an unlisted format gives errMessageFormat for every message, strings and numbers included |
| ProducerProperties.StringMessageVerbatim | sarama_producer.go:99-100 | a string encodes to exactly itself under every listed format and independently of the codec slots |
| ProducerProperties.IntegerMessageDecimal | sarama_producer.go:105-106 | an int32 or int64 encodes to text that reads back as the same integer, independently of format and codecs |
| ProducerProperties.FloatMessageText | sarama_producer.go:105-106 | a float32 or float64 encodes to its printed text without a codec |
| ProducerProperties.BytesMessageBound | sarama_producer.go:102-103 | a []byte becomes a byte encoder with the topic's name, the bytes, and the codec slot of the topic's format, without error |
| ProducerProperties.StructMessageEncoded | sarama_producer.go:107-111 | a struct becomes a struct encoder with the topic's name and codec, or the struct encoder's error |
| ProducerProperties.OtherKindRejected | sarama_producer.go:107-113 | every other kind fails with errMessageType |
| ProducerProperties.EncodeFailureDeliversNothing | sarama_producer.go:48-52 | an encoding error is returned as it is and nothing is sent or enqueued |
| ProducerProperties.SyncSendsOnce | sarama_producer.go:54-61 | with a sync handle, the message {topic, key, encoder} is sent once and the send error is returned |
| ProducerProperties.AsyncEnqueuesOnce | sarama_producer.go:54-63 | with an async handle, the message {topic, key, encoder} is enqueued once and nil is returned |
| ProducerProperties.InvalidProducerIff | sarama_producer.go:59-66 | errInvalidProducer is returned exactly when encoding succeeded and there is no handle, and then nothing is delivered |
| ProducerProperties.DeliversAtMostOne | sarama_producer.go:54-66 | at most one message is delivered, exactly when encoding succeeded and a handle exists, and it carries the call's topic and key |
| ProducerProperties.MissingTopicUsesZeroConfig | sarama_producer.go:48 | a missing topic is encoded under the zero configuration, and fails with errMessageFormat, delivering nothing, when the zero message type is unlisted |
| ProducerProperties.UnlistedProducerTypeNeverDelivers | sarama_producer.go:26-33 | an unlisted selector yields no handle and errInvalidProducer, and no later call delivers anything |
| ProducerProperties.ProduceAfterInvalidConstruction | sarama_producer.go:20-73 | constructing with an unlisted selector returns errInvalidProducer and keeps the topic map; a following produce call fails and delivers nothing |

## Left out

- sarama itself: connecting to brokers, `SendMessage`'s partition and offset results, and the `Input()` channel's buffering and back-pressure. The transport is the producer's `sent` and `queued` records plus the per-call error parameters.
- Producer.NewSaramaProducer: assumes sarama's constructors return a nil producer together with any error they report, so a failed construction leaves no handle.
- The logger calls. They are diagnostics only and never change a return value.
- `context.Context`. It is threaded through opaquely and changes nothing.
- The Avro, JSON and string codecs, `newSaramaByteEncoder` and `newSaramaStructEncoder`. They are not part of this model. Byte and struct encoders are values recording what they were built from, and the struct encoder's outcome is a parameter.
- Producer.SaramaProducer.GetSaramaEncoder: assumes the struct encoder's error differs from the package's own `errInvalidProducer`, `errMessageFormat` and `errMessageType`, since that encoder is not part of this model; its error is carried as `External(msg)`. The clauses "never errInvalidProducer" and "an external error only comes from the struct encoder", and the "only if" direction of ProducerProperties.InvalidProducerIff, rest on this.
- Producer.SaramaProducer.GetSaramaEncoder: returns only the error when the struct encoder fails, and drops any encoder returned alongside it. `produceMessage` discards that encoder anyway.
- Float formatting by `fmt.Sprint`. It is floating point, so a float message carries its printed text.
- Struct fields and the `reflect` machinery beyond the struct-or-not test. A struct is a `Record` with a type name.
- Concurrent use of one producer. Each call is modelled as one atomic step.
