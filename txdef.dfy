/**
 * The transaction data model of app/src/parser_txdef.h: enums whose value 0 is
 * the "not accepted" default, bounded-length byte and character buffers, and a
 * tagged union whose active arm an outer selector names.
 */
module TxDef {
  import opened Wrappers
  import opened Bytes

  const SENDER_MAX_LEN: nat := 29
  const CANISTER_MAX_LEN: nat := 10
  const REQUEST_MAX_LEN: nat := 10
  const METHOD_MAX_LEN: nat := 20
  const NONCE_MAX_LEN: nat := 32
  const ARG_MAX_LEN: nat := 200
  const PATH_MAX_LEN: nat := 40
  const PATH_MAX_ARRAY: nat := 2

  // ---------------------------------------------------------------- enums

  /** txtype_e: the union selector of parser_tx_t. */
  datatype TxType = Unknown | Call | StateTransactionRead

  function TxTypeTag(t: TxType): nat {
    match t
    case Unknown => 0
    case Call => 1
    case StateTransactionRead => 2
  }

  /** The txtype_e member with numeric value `n`; None for a value the enum does not declare. */
  function TxTypeFromTag(n: nat): (r: Option<TxType>)
    ensures r.Some? <==> n <= 2
    ensures r.Some? ==> TxTypeTag(r.value) == n
  {
    if n == 0 then Some(Unknown)
    else if n == 1 then Some(Call)
    else if n == 2 then Some(StateTransactionRead)
    else None
  }

  /** pbtype_e: which protobuf message a call carries. */
  datatype PbType = PbUnknown | PbSendRequest | PbManageNeuron | PbListNeurons | PbClaimNeurons

  function PbTypeTag(t: PbType): nat {
    match t
    case PbUnknown => 0
    case PbSendRequest => 1
    case PbManageNeuron => 2
    case PbListNeurons => 3
    case PbClaimNeurons => 4
  }

  function PbTypeFromTag(n: nat): (r: Option<PbType>)
    ensures r.Some? <==> n <= 4
    ensures r.Some? ==> PbTypeTag(r.value) == n
  {
    if n < |PB_TYPES| then Some(PB_TYPES[n]) else None
  }

  const PB_TYPES: seq<PbType> :=
    [PbUnknown, PbSendRequest, PbManageNeuron, PbListNeurons, PbClaimNeurons]

  /** manageNeuron_e: the governance operation of a ManageNeuron call. */
  datatype ManageNeuronOp =
    | WrongOperation
    | IncreaseDissolveDelay | StartDissolving | StopDissolving
    | AddHotKey | RemoveHotKey | SetDissolveTimestamp
    | Disburse | Spawn | RegisterVote
    | MergeMaturity | Follow | JoinCommunityFund

  function ManageNeuronTag(op: ManageNeuronOp): nat {
    match op
    case WrongOperation => 0
    case IncreaseDissolveDelay => 1
    case StartDissolving => 2
    case StopDissolving => 3
    case AddHotKey => 4
    case RemoveHotKey => 5
    case SetDissolveTimestamp => 6
    case Disburse => 7
    case Spawn => 8
    case RegisterVote => 9
    case MergeMaturity => 10
    case Follow => 11
    case JoinCommunityFund => 12
  }

  const MANAGE_NEURON_OPS: seq<ManageNeuronOp> :=
    [WrongOperation,
     IncreaseDissolveDelay, StartDissolving, StopDissolving,
     AddHotKey, RemoveHotKey, SetDissolveTimestamp,
     Disburse, Spawn, RegisterVote,
     MergeMaturity, Follow, JoinCommunityFund]

  function ManageNeuronFromTag(n: nat): (r: Option<ManageNeuronOp>)
    ensures r.Some? <==> n <= 12
    ensures r.Some? ==> ManageNeuronTag(r.value) == n
  {
    if n < |MANAGE_NEURON_OPS| then Some(MANAGE_NEURON_OPS[n]) else None
  }

  /** special_transfer_e: tag set at the first chunk and carried through the sequence. */
  datatype SpecialTransfer = Invalid | NormalTransaction | NeuronStakeTransaction

  function SpecialTransferTag(t: SpecialTransfer): nat {
    match t
    case Invalid => 0
    case NormalTransaction => 1
    case NeuronStakeTransaction => 2
  }

  function SpecialTransferFromTag(n: nat): (r: Option<SpecialTransfer>)
    ensures r.Some? <==> n <= 2
    ensures r.Some? ==> SpecialTransferTag(r.value) == n
  {
    if n == 0 then Some(Invalid)
    else if n == 1 then Some(NormalTransaction)
    else if n == 2 then Some(NeuronStakeTransaction)
    else None
  }

  /** The "default is not accepted" rule shared by txtype_e, pbtype_e and manageNeuron_e. */
  predicate TxTypeAccepted(t: TxType) { TxTypeTag(t) != 0 }
  predicate PbTypeAccepted(t: PbType) { PbTypeTag(t) != 0 }
  predicate ManageNeuronAccepted(op: ManageNeuronOp) { ManageNeuronTag(op) != 0 }

  /** Every declared tag decodes back to its member, and the accepted ones are exactly 1..max. */
  lemma LemmaTagsRoundTrip(t: TxType, p: PbType, op: ManageNeuronOp, st: SpecialTransfer)
    ensures TxTypeFromTag(TxTypeTag(t)) == Some(t)
    ensures PbTypeFromTag(PbTypeTag(p)) == Some(p)
    ensures ManageNeuronFromTag(ManageNeuronTag(op)) == Some(op)
    ensures SpecialTransferFromTag(SpecialTransferTag(st)) == Some(st)
    ensures TxTypeAccepted(t) <==> 1 <= TxTypeTag(t) <= 2
    ensures PbTypeAccepted(p) <==> 1 <= PbTypeTag(p) <= 4
    ensures ManageNeuronAccepted(op) <==> 1 <= ManageNeuronTag(op) <= 12
  {
  }

  // ---------------------------------------------------------------- bounded buffers

  /** sender_t: `data[SENDER_MAX_LEN + 1]` with `len`; the model keeps the `len` meaningful bytes. */
  datatype Sender = Sender(data: seq<byte>) {
    predicate Valid() { |data| <= SENDER_MAX_LEN }
  }

  /** canister_t */
  datatype Canister = Canister(data: seq<byte>) {
    predicate Valid() { |data| <= CANISTER_MAX_LEN }
  }

  /** request_t: a character buffer */
  datatype RequestType = RequestType(data: string) {
    predicate Valid() { |data| <= REQUEST_MAX_LEN }
  }

  /** method_t: a character buffer */
  datatype MethodName = MethodName(data: string) {
    predicate Valid() { |data| <= METHOD_MAX_LEN }
  }

  /** nonce_t */
  datatype Nonce = Nonce(data: seq<byte>) {
    predicate Valid() { |data| <= NONCE_MAX_LEN }
  }

  /** arg_t */
  datatype Arg = Arg(data: seq<byte>) {
    predicate Valid() { |data| <= ARG_MAX_LEN }
  }

  /** path_t */
  datatype PathBytes = PathBytes(data: seq<byte>) {
    predicate Valid() { |data| <= PATH_MAX_LEN }
  }

  /**
   * pathArray_t: PATH_MAX_ARRAY + 1 fixed slots, of which the first `arrayLen`
   * are in use.
   */
  datatype PathArray = PathArray(paths: seq<PathBytes>, arrayLen: nat) {
    predicate Valid() {
      && |paths| == PATH_MAX_ARRAY + 1
      && arrayLen <= PATH_MAX_ARRAY + 1
      && forall i :: 0 <= i < |paths| ==> paths[i].Valid()
    }

    /** The paths in use, in order. */
    function InUse(): (r: seq<PathBytes>)
      requires Valid()
      ensures |r| == arrayLen && |r| <= 3
      ensures forall i :: 0 <= i < |r| ==> r[i] == paths[i] && r[i].Valid()
    {
      paths[..arrayLen]
    }
  }

  // ---------------------------------------------------------------- the tagged union

  /**
   * pb_fields: the decoded protobuf message of a call. The nanopb message types
   * are generated code outside this model, so each arm holds an opaque payload.
   */
  datatype PbFields =
    | NoMessage
    | SendRequestMessage(sendRequest: seq<byte>)
    | ManageNeuronMessage(manageNeuron: seq<byte>)
    | ListNeuronsMessage(listNeurons: seq<byte>)

  /** call_t */
  datatype CallTx = CallTx(
    nonce: Nonce,
    hasNonce: bool,
    ingressExpiry: u64,
    neuronCreationMemo: u64,
    canisterId: Canister,
    sender: Sender,
    methodName: MethodName,
    pbtype: PbType,
    manageNeuronType: ManageNeuronOp,
    arg: Arg,
    pbFields: PbFields)
  {
    /** The nonce, present only when `has_nonce` says so, and then within nonce_t's buffer. */
    function PresentNonce(): (r: Option<seq<byte>>)
      requires Valid()
      ensures r.Some? <==> hasNonce
      ensures r.Some? ==> r.value == nonce.data && |r.value| <= NONCE_MAX_LEN
    {
      if hasNonce then Some(nonce.data) else None
    }

    predicate Valid() {
      && nonce.Valid() && canisterId.Valid() && sender.Valid()
      && methodName.Valid() && arg.Valid()
      && PbTypeAccepted(pbtype)
      && (pbtype == PbManageNeuron ==> ManageNeuronAccepted(manageNeuronType))
      && PbArmAgrees(pbtype, pbFields)
    }
  }

  /**
   * Two calls report the same nonce exactly when they agree on `has_nonce`
   * and, where it is set, on the nonce bytes: the bytes of an absent nonce are
   * never read.
   */
  lemma LemmaPresentNonceDepends(c: CallTx, d: CallTx)
    requires c.Valid() && d.Valid()
    ensures c.PresentNonce() == d.PresentNonce() <==>
              c.hasNonce == d.hasNonce && (c.hasNonce ==> c.nonce.data == d.nonce.data)
    ensures !c.hasNonce ==> c.(nonce := d.nonce).PresentNonce() == None
  {
  }

  /**
   * The message arm of pb_fields agrees with pbtype. The union has no member for
   * claim-neurons calls, so those carry none.
   */
  predicate PbArmAgrees(t: PbType, f: PbFields) {
    match t
    case PbUnknown => f.NoMessage?
    case PbSendRequest => f.SendRequestMessage?
    case PbManageNeuron => f.ManageNeuronMessage?
    case PbListNeurons => f.ListNeuronsMessage?
    case PbClaimNeurons => f.NoMessage?
  }

  /** state_read_t */
  datatype StateReadTx = StateReadTx(ingressExpiry: u64, sender: Sender, paths: PathArray) {
    predicate Valid() { sender.Valid() && paths.Valid() }
  }

  /** tx_fields: the union of parser_tx_t; `Unset` is the all-zero memory no arm was written to. */
  datatype TxFields = Unset | CallFields(call: CallTx) | StateReadFields(stateRead: StateReadTx)

  /** parser_tx_t */
  datatype ParserTx = ParserTx(
    txtype: TxType,
    requestType: RequestType,
    txFields: TxFields,
    specialTransferType: SpecialTransfer)
  {
    /** The selector names an accepted variant, the populated arm is the one it names, and every length is within its maximum. */
    predicate Valid() {
      && TxTypeAccepted(txtype)
      && requestType.Valid()
      && match txtype
         case Unknown => false
         case Call => txFields.CallFields? && txFields.call.Valid()
         case StateTransactionRead => txFields.StateReadFields? && txFields.stateRead.Valid()
    }
  }

  /** parser_tx_obj after MEMZERO: every tag 0, every buffer empty. */
  function Zeroed(): (t: ParserTx)
    ensures TxTypeTag(t.txtype) == 0 && SpecialTransferTag(t.specialTransferType) == 0
    ensures !t.Valid()
  {
    ParserTx(Unknown, RequestType([]), Unset, Invalid)
  }

  /** Whatever the arm holds, a valid transaction's selector is 1 or 2 and agrees with its arm. */
  lemma LemmaValidArmAgrees(t: ParserTx)
    requires t.Valid()
    ensures TxTypeTag(t.txtype) == 1 <==> t.txFields.CallFields?
    ensures TxTypeTag(t.txtype) == 2 <==> t.txFields.StateReadFields?
    ensures !t.txFields.Unset?
  {
  }
}
