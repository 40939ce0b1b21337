# ParsedTransaction: lazy, caching decoder for one Fabric transaction

This project models `ParsedTransaction`, the class in the off-chain-data sample application that wraps one Hyperledger Fabric transaction taken from a block. Given the transaction's payload and the validation code from the block metadata, it does three things:

- It passes through the payload's channel header, validation code, validity flag and raw payload message.
- It decodes the payload's data as a `Transaction` and wraps each of its actions in a `ParsedTransactionAction`.
- It concatenates every action's namespace read-write sets, in action order, into one list. It computes that list once and keeps it in a cache cell.

Files:

- `wrappers.dfy` (module `Wrappers`): `Option` and `Result`.
- `sequences.dfy` (module `Sequences`): `Concat` and `TotalCount` over a sequence of sequences, with their lemmas. These are the reference definitions that flattening is proved against.
- `protos.dfy` (module `Protos`): stand-ins for the protocol-buffer messages (`Payload`, `Header`, `Transaction`, `TransactionAction`) and for the namespace read-write-set wrappers the actions yield (`NamespaceReadWriteSet`: a namespace name and its undecoded record). It also defines `Codec`, a record of the foreign decoders: the channel-header parse, `Transaction.parseFrom`, and one action's read-write-set decode. The decoders are a parameter of the model, so nothing about their wire format is assumed. Each decoder either returns a value or fails with `DecodeError`.
- `parser.dfy` (module `Parser`): the collaborators `ParsedPayload` and `ParsedTransactionAction`, which only delegate to the codec. It also holds the specification function `Flatten` and its lemmas, and the class `ParsedTransaction`.

The class keeps the source's `payload` as a `const`. The `AtomicReference` cache cell becomes a mutable field `cachedNamespaceReadWriteSets: Option<seq<NamespaceReadWriteSet>>`. A ghost counter `decodeCount` counts how many times the transaction body is decoded. `Valid()` says that a filled cell holds exactly what decoding the payload yields.

`GetReadWriteSets` is the source's `for` loop. It is proved equal to `ReadWriteSets()`, which is `Flatten` applied to the decoded actions. The lemmas then relate `Flatten` to plain concatenation, to the error of the first failing action, and to the position of each set in the result.

The accessor functions have no `reads` clause, so Dafny checks that they cannot depend on the cache cell.

Errors are the protocol-buffer exception, propagated unchanged. They do not name the layer that failed, and neither does `DecodeError`.

## Model

| member | source | states |
|---|---|---|
| Parser.ParsedTransaction.constructor | off_chain_data/application-java/app/src/main/java/parser/ParsedTransaction.java:19-24 | keeps the supplied payload; the cache cell starts empty and nothing has been decoded |
| Parser.ParsedTransaction.GetChannelHeader | off_chain_data/application-java/app/src/main/java/parser/ParsedTransaction.java:26-29 | the channel header is what the payload decodes to (success or failure); it never touches the cache |
| Parser.ParsedTransaction.GetValidationCode | off_chain_data/application-java/app/src/main/java/parser/ParsedTransaction.java:31-34 | returns the validation code supplied with the payload, whatever the payload bytes are; cannot fail, reads no mutable state |
| Parser.ParsedTransaction.IsValid | off_chain_data/application-java/app/src/main/java/parser/ParsedTransaction.java:36-39 | returns the supplied validity flag; cannot fail, reads no mutable state |
| Parser.ParsedTransaction.ToProto | off_chain_data/application-java/app/src/main/java/parser/ParsedTransaction.java:46-49 | returns the payload message exactly as supplied; reads no mutable state |
| Parser.ParsedTransaction.GetTransaction | off_chain_data/application-java/app/src/main/java/parser/ParsedTransaction.java:66-68 | the transaction is what parsing the data of the payload message (the one `ToProto` returns) yields, success or the parse error, with nothing cached |
| Parser.ParsedTransaction.GetTransactionActions | off_chain_data/application-java/app/src/main/java/parser/ParsedTransaction.java:60-68 | succeeds exactly when `Transaction.parseFrom` of the payload's data succeeds, otherwise fails with that parse's error; on success it yields one wrapper per action of the parsed transaction, same count, same order |
| Parser.ParsedTransaction.GetReadWriteSets | off_chain_data/application-java/app/src/main/java/parser/ParsedTransaction.java:51-58 | the loop's result equals the specification: the body's parse error, or the action-ordered flattening of every action's sets, or the error of the first failing action; no partial list is returned; the body is decoded exactly once |
| Parser.ParsedTransaction.GetNamespaceReadWriteSets | off_chain_data/application-java/app/src/main/java/parser/ParsedTransaction.java:42-44 | a filled cache cell is returned unchanged with no decoding; an empty cell leads to one decode whose result is stored only on success; a failure leaves the cell empty; every call returns what decoding the payload yields |
| Parser.RequestTwice | off_chain_data/application-java/app/src/main/java/parser/ParsedTransaction.java:42-44 | two calls in a row return equal results; after a success the cell holds that list, and exactly one decode has happened if the cell was empty, none if it was filled; after a failure the cell stays empty and each call has decoded again |
| Parser.FlattenSucceeds | off_chain_data/application-java/app/src/main/java/parser/ParsedTransaction.java:52-57 | flattening succeeds if and only if every action decodes; the result is then the concatenation of the actions' sets in action order, and its length is the sum of their counts; zero actions give an empty list, not an error |
| Parser.FlattenFailsWithFirstError | off_chain_data/application-java/app/src/main/java/parser/ParsedTransaction.java:53-55 | flattening fails with error e if and only if some action is the first that fails to decode and it fails with e |
| Parser.FlattenPrefixFailure | off_chain_data/application-java/app/src/main/java/parser/ParsedTransaction.java:53-55 | once the actions seen so far fail, the whole call fails with that error; later actions are not consulted |
| Parser.FlattenOrder | off_chain_data/application-java/app/src/main/java/parser/ParsedTransaction.java:52-57 | set j of action i sits in the result at the total count of the earlier actions' sets plus j: action order first, then order within an action |

## Left out

- Protocol-buffer wire decoding is generated code, so it is not modelled. This covers `Transaction.parseFrom`, the channel-header parse and the decoding inside `ParsedTransactionAction.getReadWriteSets`. These decoders are the fields of `Protos.Codec`, a parameter of the model.
- `Utils.getCachedProto` is not part of this model. Its behaviour as this class uses it is written inline in `GetNamespaceReadWriteSets`: return a stored value, otherwise run the supplier and store its result. A supplier that throws leaves nothing to store.
- The atomic compare-and-set of the `AtomicReference` cell is not modelled. Racing first callers, duplicated decoding and publication of a single winner are concurrency, and the model is sequential.
- Parser.ParsedTransaction.GetNamespaceReadWriteSets: does not model aliasing. The source stores a fresh `ArrayList` copy of the built list and returns the stored list object itself. Lists are values here, so the model captures the copy's elements and order but not object identity or later mutation by a caller.
- Decoding a namespace record is not modelled. Each `NamespaceReadWriteSet` in the list keeps its namespace name and its still-serialized record (`Protos.NamespaceReadWriteSet`). Its reads and writes are decoded lazily, outside this class, and a malformed record fails there and not in `getNamespaceReadWriteSets`. Any failure that `ParsedTransactionAction.getReadWriteSets` itself raises is part of the action decoder in `Codec`.
- The internals of `ParsedPayload` and `ParsedTransactionAction` are not part of this model. They appear only as the delegations this class relies on. The validity flag is taken as supplied, not derived from the validation code.
- Channel-header contents and the meaning of validation codes are left out. They are externally supplied values that this class passes through.
