/** The wire messages the transaction parser works on, and the decoders for
    them. The messages are Hyperledger Fabric protocol buffers; their binary
    decoding is generated code outside this model, so the decoders are taken as
    a parameter (a `Codec`) rather than defined here. */
module Protos {
  import opened Wrappers

  type Bytes = seq<bv8>

  /** The error a protocol-buffer parse raises on malformed input. */
  datatype DecodeError = InvalidProtocolBuffer(message: string)

  /** common.Header: the serialized channel and signature headers. */
  datatype Header = Header(channelHeader: Bytes, signatureHeader: Bytes)

  /** common.Payload: a header and the serialized transaction body. */
  datatype Payload = Payload(header: Header, data: Bytes)

  /** common.ChannelHeader, decoded. */
  datatype ChannelHeader = ChannelHeader(headerType: int, channelId: string, txId: string, timestamp: int)

  /** peer.TxValidationCode, the enum value supplied with the block metadata. */
  datatype TxValidationCode = TxValidationCode(number: int)

  /** peer.TransactionAction: one chaincode invocation's serialized header and payload. */
  datatype TransactionAction = TransactionAction(header: Bytes, payload: Bytes)

  /** peer.Transaction: the ordered list of actions. */
  datatype Transaction = Transaction(actions: seq<TransactionAction>)

  /** One namespace's read-write set as an action yields it: the namespace
      name and the still-serialized record of its reads and writes. */
  datatype NamespaceReadWriteSet = NamespaceReadWriteSet(namespace: string, rwset: Bytes)

  /** The foreign decoders: `Transaction.parseFrom`, the channel-header parse
      behind the payload, and the multi-layer decode of one action's
      read-write sets. Each either yields a value or fails. */
  datatype Codec = Codec(
    parseChannelHeader: Bytes -> Result<ChannelHeader, DecodeError>,
    parseTransaction: Bytes -> Result<Transaction, DecodeError>,
    parseActionReadWriteSets: TransactionAction -> Result<seq<NamespaceReadWriteSet>, DecodeError>)
}
