/** The lazy, caching decoder for one transaction of a block: the class
    `ParsedTransaction`, the collaborators it relies on, and the
    specification of how it flattens the actions' namespace read-write sets. */
module Parser {
  import opened Wrappers
  import opened Sequences
  import opened Protos

  /** The decoded payload of one transaction, together with the validation
      code and validity flag that the block's metadata supplies for it. */
  datatype ParsedPayload = ParsedPayload(proto: Payload, validationCode: TxValidationCode, valid: bool)
  {
    function GetChannelHeader(codec: Codec): Result<ChannelHeader, DecodeError>
    {
      codec.parseChannelHeader(proto.header.channelHeader)
    }
  }

  /** One action of a transaction; decoding it yields its namespace read-write sets. */
  datatype ParsedTransactionAction = ParsedTransactionAction(proto: TransactionAction)
  {
    function GetReadWriteSets(codec: Codec): Result<seq<NamespaceReadWriteSet>, DecodeError>
    {
      codec.parseActionReadWriteSets(proto)
    }
  }

  /** The read-write sets of `actions`, concatenated in action order; the
      error of the first action that fails to decode, if any does. Defined
      from the last action back, in the order the loop of
      `ParsedTransaction.GetReadWriteSets` extends its result. */
  function Flatten(codec: Codec, actions: seq<ParsedTransactionAction>): Result<seq<NamespaceReadWriteSet>, DecodeError>
    decreases |actions|
  {
    if actions == [] then Success([])
    else
      match Flatten(codec, actions[..|actions| - 1])
      case Failure(e) => Failure(e)
      case Success(done) =>
        match actions[|actions| - 1].GetReadWriteSets(codec)
        case Failure(e) => Failure(e)
        case Success(sets) => Success(done + sets)
  }

  /** Every action decodes. */
  predicate AllActionsDecode(codec: Codec, actions: seq<ParsedTransactionAction>)
  {
    forall i | 0 <= i < |actions| :: actions[i].GetReadWriteSets(codec).Success?
  }

  /** The decoded read-write sets of each action, one entry per action. */
  function ActionSets(codec: Codec, actions: seq<ParsedTransactionAction>): seq<seq<NamespaceReadWriteSet>>
    requires AllActionsDecode(codec, actions)
  {
    seq(|actions|, i requires 0 <= i < |actions| => actions[i].GetReadWriteSets(codec).value)
  }

  /** Action `k` is the first action that fails to decode. */
  predicate FirstFailingAction(codec: Codec, actions: seq<ParsedTransactionAction>, k: int)
  {
    && 0 <= k < |actions|
    && actions[k].GetReadWriteSets(codec).Failure?
    && AllActionsDecode(codec, actions[..k])
  }

  /** Flattening succeeds exactly when every action decodes, and then yields
      the concatenation of the actions' sets in action order, as many as all
      actions hold together; no actions yield no sets. */
  lemma {:induction false} FlattenSucceeds(codec: Codec, actions: seq<ParsedTransactionAction>)
    ensures Flatten(codec, actions).Success? <==> AllActionsDecode(codec, actions)
    ensures AllActionsDecode(codec, actions) ==>
              && Flatten(codec, actions).value == Concat(ActionSets(codec, actions))
              && |Flatten(codec, actions).value| == TotalCount(ActionSets(codec, actions))
    ensures actions == [] ==> Flatten(codec, actions) == Success([])
    decreases |actions|
  {
    if actions == [] {
      assert ActionSets(codec, actions) == [];
    } else {
      var n := |actions|;
      var prefix := actions[..n - 1];
      FlattenSucceeds(codec, prefix);
      assert forall i | 0 <= i < n - 1 :: prefix[i] == actions[i];
      assert AllActionsDecode(codec, actions) <==>
             AllActionsDecode(codec, prefix) && actions[n - 1].GetReadWriteSets(codec).Success?;
      if AllActionsDecode(codec, actions) {
        var last := actions[n - 1].GetReadWriteSets(codec).value;
        assert ActionSets(codec, actions) == ActionSets(codec, prefix) + [last];
        ConcatAppend(ActionSets(codec, prefix), last);
        ConcatLength(ActionSets(codec, actions));
      }
    }
  }

  /** A failure in a prefix of the actions is the failure of them all: later
      actions are never consulted. */
  lemma {:induction false} FlattenPrefixFailure(codec: Codec, actions: seq<ParsedTransactionAction>, k: nat)
    requires k <= |actions|
    requires Flatten(codec, actions[..k]).Failure?
    ensures Flatten(codec, actions) == Flatten(codec, actions[..k])
    decreases |actions|
  {
    if k < |actions| {
      var prefix := actions[..|actions| - 1];
      assert prefix[..k] == actions[..k];
      FlattenPrefixFailure(codec, prefix, k);
    } else {
      assert actions[..k] == actions;
    }
  }

  /** Flattening fails with error `e` exactly when some action is the first
      one that fails to decode and it fails with `e`. */
  lemma {:induction false} FlattenFailsWithFirstError(codec: Codec, actions: seq<ParsedTransactionAction>, e: DecodeError)
    ensures Flatten(codec, actions) == Failure(e) <==>
            exists k :: FirstFailingAction(codec, actions, k) && actions[k].GetReadWriteSets(codec) == Failure(e)
    decreases |actions|
  {
    if actions != [] {
      var n := |actions|;
      var prefix := actions[..n - 1];
      FlattenFailsWithFirstError(codec, prefix, e);
      FlattenSucceeds(codec, prefix);
      forall k | 0 <= k < n - 1
        ensures FirstFailingAction(codec, prefix, k) <==> FirstFailingAction(codec, actions, k)
      {
        assert prefix[..k] == actions[..k];
      }
      assert actions[..n - 1] == prefix;
      if Flatten(codec, actions) == Failure(e) {
        if Flatten(codec, prefix).Success? {
          assert FirstFailingAction(codec, actions, n - 1);
        } else {
          var k :| FirstFailingAction(codec, prefix, k) && prefix[k].GetReadWriteSets(codec) == Failure(e);
          assert FirstFailingAction(codec, actions, k);
        }
      }
      if exists k :: FirstFailingAction(codec, actions, k) && actions[k].GetReadWriteSets(codec) == Failure(e) {
        var k :| FirstFailingAction(codec, actions, k) && actions[k].GetReadWriteSets(codec) == Failure(e);
        if k < n - 1 {
          assert FirstFailingAction(codec, prefix, k);
        } else {
          assert AllActionsDecode(codec, prefix);
        }
      }
    }
  }

  /** Element `j` of action `i`'s sets appears in the flattened list after
      every set of the actions before `i`: action order first, then the order
      within each action. */
  lemma FlattenOrder(codec: Codec, actions: seq<ParsedTransactionAction>, i: nat, j: nat)
    requires AllActionsDecode(codec, actions)
    requires i < |actions| && j < |actions[i].GetReadWriteSets(codec).value|
    ensures Flatten(codec, actions).Success?
    ensures TotalCount(ActionSets(codec, actions)[..i]) + j < |Flatten(codec, actions).value|
    ensures Flatten(codec, actions).value[TotalCount(ActionSets(codec, actions)[..i]) + j]
            == actions[i].GetReadWriteSets(codec).value[j]
  {
    FlattenSucceeds(codec, actions);
    ConcatAt(ActionSets(codec, actions), i, j);
  }

  /** One transaction of a block, decoded lazily. Its namespace read-write
      sets are computed on first request and kept in a cache cell. */
  class ParsedTransaction {
    const payload: ParsedPayload
    /** The decoders the parse calls into. */
    const codec: Codec
    /** The cache cell: empty until a computation succeeds. */
    var cachedNamespaceReadWriteSets: Option<seq<NamespaceReadWriteSet>>
    /** How many times the transaction body has been decoded. */
    ghost var decodeCount: nat

    /** A filled cache cell holds what decoding the payload yields. */
    ghost predicate Valid()
      reads this
    {
      cachedNamespaceReadWriteSets.Some? ==> ReadWriteSets() == Success(cachedNamespaceReadWriteSets.value)
    }

    constructor (payload: ParsedPayload, codec: Codec)
      ensures this.payload == payload && this.codec == codec
      ensures cachedNamespaceReadWriteSets == None && decodeCount == 0
      ensures Valid()
    {
      this.payload := payload;
      this.codec := codec;
      cachedNamespaceReadWriteSets := None;
      decodeCount := 0;
    }

    /** Decodes the channel header from the payload; may fail. Reads no mutable state. */
    function GetChannelHeader(): (r: Result<ChannelHeader, DecodeError>)
      ensures r == payload.GetChannelHeader(codec)
    {
      payload.GetChannelHeader(codec)
    }

    /** The supplied validation code; never decodes, never fails, reads no mutable state. */
    function GetValidationCode(): (r: TxValidationCode)
      ensures r == payload.validationCode
    {
      payload.validationCode
    }

    /** The supplied validity flag; never decodes, never fails, reads no mutable state. */
    function IsValid(): (r: bool)
      ensures r == payload.valid
    {
      payload.valid
    }

    /** The payload message exactly as supplied; reads no mutable state. */
    function ToProto(): (r: Payload)
      ensures r == payload.proto
    {
      payload.proto
    }

    /** Parses the payload's data as a transaction; the parse error when it does not parse. */
    function GetTransaction(): (r: Result<Transaction, DecodeError>)
      ensures r == codec.parseTransaction(payload.proto.data)
    {
      codec.parseTransaction(ToProto().data)
    }

    /** One action wrapper per action of the decoded transaction, in the same
        order; the parse error when the body does not decode. */
    function GetTransactionActions(): (r: Result<seq<ParsedTransactionAction>, DecodeError>)
      ensures r.Success? <==> codec.parseTransaction(ToProto().data).Success?
      ensures r.Failure? ==> r.error == codec.parseTransaction(ToProto().data).error
      ensures r.Success? ==>
                && |r.value| == |codec.parseTransaction(ToProto().data).value.actions|
                && forall i | 0 <= i < |r.value| :: r.value[i].proto == codec.parseTransaction(ToProto().data).value.actions[i]
    {
      var tx :- GetTransaction();
      Success(seq(|tx.actions|, i requires 0 <= i < |tx.actions| => ParsedTransactionAction(tx.actions[i])))
    }

    /** What decoding this transaction's read-write sets yields: the parse
        error of the body, or the flattening of its actions' sets. */
    function ReadWriteSets(): Result<seq<NamespaceReadWriteSet>, DecodeError>
    {
      match GetTransactionActions()
      case Failure(e) => Failure(e)
      case Success(actions) => Flatten(codec, actions)
    }

    /** Decodes the body and concatenates the actions' read-write sets in
        order; the first error ends the call, and no partial list escapes. */
    method GetReadWriteSets() returns (r: Result<seq<NamespaceReadWriteSet>, DecodeError>)
      modifies this`decodeCount
      ensures decodeCount == old(decodeCount) + 1
      ensures r == ReadWriteSets()
    {
      decodeCount := decodeCount + 1;
      var actions :- GetTransactionActions();
      var results: seq<NamespaceReadWriteSet> := [];
      for i := 0 to |actions|
        invariant Flatten(codec, actions[..i]) == Success(results)
      {
        var sets := actions[i].GetReadWriteSets(codec);
        assert actions[..i + 1][..i] == actions[..i];
        if sets.Failure? {
          FlattenPrefixFailure(codec, actions, i + 1);
          return Failure(sets.error);
        }
        results := results + sets.value;
      }
      assert actions[..|actions|] == actions;
      r := Success(results);
    }

    /** The namespace read-write sets, from the cache cell when it is filled;
        otherwise decoded, and stored in the cell only when decoding succeeds. */
    method GetNamespaceReadWriteSets() returns (r: Result<seq<NamespaceReadWriteSet>, DecodeError>)
      requires Valid()
      modifies this
      ensures Valid()
      ensures r == ReadWriteSets()
      ensures old(cachedNamespaceReadWriteSets).Some? ==>
                && r == Success(old(cachedNamespaceReadWriteSets).value)
                && cachedNamespaceReadWriteSets == old(cachedNamespaceReadWriteSets)
                && decodeCount == old(decodeCount)
      ensures old(cachedNamespaceReadWriteSets).None? ==>
                && decodeCount == old(decodeCount) + 1
                && cachedNamespaceReadWriteSets == (if r.Success? then Some(r.value) else None)
    {
      if cachedNamespaceReadWriteSets.Some? {
        return Success(cachedNamespaceReadWriteSets.value);
      }
      var computed := GetReadWriteSets();
      if computed.Failure? {
        return computed;
      }
      var copy := computed.value;
      cachedNamespaceReadWriteSets := Some(copy);
      r := Success(copy);
    }
  }

  /** Two requests in a row agree; after a success the second is served from
      the cache, after a failure it decodes again and fails the same way. */
  method RequestTwice(t: ParsedTransaction) returns (first: Result<seq<NamespaceReadWriteSet>, DecodeError>, second: Result<seq<NamespaceReadWriteSet>, DecodeError>)
    requires t.Valid()
    modifies t
    ensures t.Valid()
    ensures first == second
    ensures first.Success? ==> t.cachedNamespaceReadWriteSets == Some(first.value)
    ensures first.Success? ==>
              t.decodeCount == old(t.decodeCount) + (if old(t.cachedNamespaceReadWriteSets).None? then 1 else 0)
    ensures first.Failure? ==> t.cachedNamespaceReadWriteSets == None && t.decodeCount == old(t.decodeCount) + 2
  {
    first := t.GetNamespaceReadWriteSets();
    second := t.GetNamespaceReadWriteSets();
  }
}
