/**
 * The command-chunk assembler of app/src/common/app_main.c: path extraction and
 * acceptance (extractHDPath), the chunk state machine (process_chunk), the
 * device-info reply (handle_generic_apdu) and the status-word fold of app_main's
 * catch block.
 *
 * The state machine is stated twice, as the source calls for: `Step` is a pure
 * function of the old state and the received command, and `App.ProcessChunk`
 * updates the global state in place and is proved to agree with `Step`. The
 * properties of process_chunk are lemmas about `Step`.
 */
module AppMain {
  import opened Wrappers
  import opened Bytes
  import TxDef

  /**
   * Build constants that the source takes from headers outside this model:
   * the size of G_io_apdu_buffer, OFFSET_PAYLOAD_TYPE, OFFSET_P2, OFFSET_DATA,
   * HDPATH_0_DEFAULT, HDPATH_1_DEFAULT, HDPATH_0_TESTNET, HDPATH_1_TESTNET,
   * HDPATH_RESTRICTED_MASK, the capacity of the buffer behind tx_append,
   * TARGET_ID and the value of APDU_CODE_TX_NOT_INITIALIZED.
   */
  datatype Config = Config(
    apduBufferSize: nat,
    offsetPayloadType: nat,
    offsetP2: nat,
    offsetData: nat,
    hdPath0Default: u32,
    hdPath1Default: u32,
    hdPath0Testnet: u32,
    hdPath1Testnet: u32,
    restrictedMask: u32,
    txBufferCapacity: nat,
    targetId: u32,
    txNotInitializedCode: u16)
  {
    /** The header bytes lie inside the command buffer. */
    predicate Valid() {
      && offsetPayloadType < apduBufferSize
      && offsetP2 < apduBufferSize
      && offsetData <= apduBufferSize
    }
  }

  const HDPATH_LEN_DEFAULT: nat := 5
  /** sizeof(uint32_t) * HDPATH_LEN_DEFAULT */
  const PATH_BYTES: nat := 20

  /** The contents of the global `uint32_t hdPath[HDPATH_LEN_DEFAULT]`. */
  type HdPath = p: seq<u32> | |p| == 5 witness [0, 0, 0, 0, 0]

  /** The APDU codes that process_chunk and extractHDPath throw. */
  datatype ApduError = WrongLength | DataInvalid | TxNotInitialized | OutputBufferTooSmall | InvalidP1P2

  /** Numeric status of each error; the values are those the host library lists (js/src/common.ts). */
  function Code(cfg: Config, e: ApduError): (code: u16)
    ensures e != TxNotInitialized ==> code / 0x1000 == 6
    ensures e == TxNotInitialized ==> code == cfg.txNotInitializedCode
  {
    match e
    case WrongLength => 0x6700
    case OutputBufferTooSmall => 0x6983
    case DataInvalid => 0x6984
    case InvalidP1P2 => 0x6B00
    case TxNotInitialized => cfg.txNotInitializedCode
  }

  // ---------------------------------------------------------------- extractHDPath

  /** The five path components MEMCPY'd from `b[offset..offset+20]`, little-endian as on the device. */
  function DecodePath(b: seq<byte>, offset: nat): (p: HdPath)
    requires offset + PATH_BYTES <= |b|
    ensures forall i :: 0 <= i < HDPATH_LEN_DEFAULT ==> p[i] == LE32(b, offset + 4 * i)
  {
    [LE32(b, offset), LE32(b, offset + 4), LE32(b, offset + 8), LE32(b, offset + 12), LE32(b, offset + 16)]
  }

  /** `x & mask` on 32-bit values. */
  function And32(x: u32, mask: u32): u32 {
    ((x as bv32) & (mask as bv32)) as int
  }

  predicate IsMainnet(cfg: Config, p: HdPath) {
    p[0] == cfg.hdPath0Default && p[1] == cfg.hdPath1Default
  }

  predicate IsTestnet(cfg: Config, p: HdPath) {
    p[0] == cfg.hdPath0Testnet && p[1] == cfg.hdPath1Testnet
  }

  /** The `is_valid` restriction on components 2, 3 and 4. */
  predicate IsRestrictedValid(cfg: Config, p: HdPath) {
    && And32(p[2], cfg.restrictedMask) == 0x8000_0000
    && p[3] == 0
    && And32(p[4], cfg.restrictedMask) == 0
  }

  /** The acceptance policy of extractHDPath once the length check has passed. */
  function CheckPath(cfg: Config, p: HdPath, expert: bool): (o: Outcome<ApduError>)
    ensures o == Pass <==> (IsMainnet(cfg, p) || IsTestnet(cfg, p)) && (expert || IsRestrictedValid(cfg, p))
    ensures o.Fail? ==> o.error == DataInvalid
  {
    if !IsMainnet(cfg, p) && !IsTestnet(cfg, p) then Fail(DataInvalid)
    else if !IsRestrictedValid(cfg, p) && !expert then Fail(DataInvalid)
    else Pass
  }

  /** The network prefix is checked in every mode. */
  lemma LemmaPrefixNeverRelaxed(cfg: Config, p: HdPath, expert: bool)
    ensures !IsMainnet(cfg, p) && !IsTestnet(cfg, p) ==> CheckPath(cfg, p, expert) == Fail(DataInvalid)
    ensures CheckPath(cfg, p, expert) == Pass ==> IsMainnet(cfg, p) || IsTestnet(cfg, p)
  {
  }

  /** Expert mode waives exactly the restriction on components 2..4. */
  lemma LemmaExpertRelaxesRestrictionOnly(cfg: Config, p: HdPath)
    requires IsMainnet(cfg, p) || IsTestnet(cfg, p)
    ensures CheckPath(cfg, p, true) == Pass
    ensures CheckPath(cfg, p, false) == Pass <==> IsRestrictedValid(cfg, p)
    ensures CheckPath(cfg, p, false) != Pass ==> CheckPath(cfg, p, false) == Fail(DataInvalid)
  {
  }

  // ---------------------------------------------------------------- process_chunk

  /**
   * The state process_chunk reads and writes: tx_initialized, parser_tx_obj, the
   * transaction buffer behind tx_append, and hdPath.
   */
  datatype ChunkState = ChunkState(
    initialized: bool,
    parserTx: TxDef.ParserTx,
    buffer: seq<byte>,
    hdPath: HdPath)

  /** All globals at power-up: zero-initialised. */
  function BootState(): ChunkState {
    ChunkState(false, TxDef.Zeroed(), [], [0, 0, 0, 0, 0])
  }

  /** A received command: the whole fixed-size G_io_apdu_buffer and the received length. */
  predicate Shaped(cfg: Config, cmd: seq<byte>, rx: nat) {
    cfg.Valid() && |cmd| == cfg.apduBufferSize && rx <= |cmd|
  }

  function PayloadType(cfg: Config, cmd: seq<byte>): byte
    requires cfg.Valid() && |cmd| == cfg.apduBufferSize
  {
    cmd[cfg.offsetPayloadType]
  }

  function P2(cfg: Config, cmd: seq<byte>): byte
    requires cfg.Valid() && |cmd| == cfg.apduBufferSize
  {
    cmd[cfg.offsetP2]
  }

  /** `&G_io_apdu_buffer[OFFSET_DATA]` up to the received length. */
  function Payload(cfg: Config, cmd: seq<byte>, rx: nat): seq<byte>
    requires Shaped(cfg, cmd, rx) && cfg.offsetData <= rx
  {
    cmd[cfg.offsetData..rx]
  }

  /**
   * tx_append against a buffer of fixed capacity: it reports how many bytes it
   * took, never more than offered, and the buffer grows by exactly those. The
   * model takes all or nothing.
   */
  function AppendBounded(capacity: nat, buffer: seq<byte>, data: seq<byte>): (r: (seq<byte>, nat))
    ensures r.1 <= |data| && r.0 == buffer + data[..r.1]
    ensures |buffer| <= capacity ==> |r.0| <= capacity
    ensures |buffer| <= capacity ==> (r.1 == |data| <==> |buffer| + |data| <= capacity)
  {
    if |buffer| + |data| <= capacity then (buffer + data, |data|) else (buffer, 0)
  }

  /** One call of process_chunk: the new state and either "complete?" or the thrown error. */
  function Step(cfg: Config, expert: bool, s: ChunkState, cmd: seq<byte>, rx: nat): (r: (ChunkState, Result<bool, ApduError>))
    requires Shaped(cfg, cmd, rx)
    ensures r.1.Ok? ==> r.0.initialized
  {
    if rx < cfg.offsetData then (s, Err(WrongLength))
    else if P2(cfg, cmd) != 0 && P2(cfg, cmd) != 1 then (s, Err(DataInvalid))
    else if PayloadType(cfg, cmd) == 0 then InitStep(cfg, expert, s, cmd, rx)
    else if PayloadType(cfg, cmd) == 1 || PayloadType(cfg, cmd) == 2 then
      var isStakeTx := s.parserTx.specialTransferType == TxDef.NeuronStakeTransaction;
      if isStakeTx && P2(cfg, cmd) != 1 then (s, Err(DataInvalid))
      else if !s.initialized then (s, Err(TxNotInitialized))
      else
        var (buffer', added) := AppendBounded(cfg.txBufferCapacity, s.buffer, Payload(cfg, cmd, rx));
        if added != rx - cfg.offsetData then (s.(initialized := false, buffer := buffer'), Err(OutputBufferTooSmall))
        else (s.(buffer := buffer'), Ok(PayloadType(cfg, cmd) == 2))
    else (s.(initialized := false), Err(InvalidP1P2))
  }

  /** Payload type 0: tx_initialize/tx_reset, then extractHDPath, then the tag and the flag. */
  function InitStep(cfg: Config, expert: bool, s: ChunkState, cmd: seq<byte>, rx: nat): (r: (ChunkState, Result<bool, ApduError>))
    requires Shaped(cfg, cmd, rx) && cfg.offsetData <= rx
    ensures r.0.buffer == []
    ensures r.1.Ok? ==> r.0.initialized && CheckPath(cfg, r.0.hdPath, expert) == Pass
  {
    var reset := s.(buffer := []);
    if rx - cfg.offsetData < PATH_BYTES then (reset, Err(WrongLength))
    else
      var path := DecodePath(cmd, cfg.offsetData);
      var copied := reset.(hdPath := path);
      match CheckPath(cfg, path, expert)
      case Fail(e) => (copied, Err(e))
      case Pass =>
        var tag := if P2(cfg, cmd) == 1 then TxDef.NeuronStakeTransaction else TxDef.NormalTransaction;
        (copied.(parserTx := TxDef.Zeroed().(specialTransferType := tag), initialized := true), Ok(false))
  }

  /** The state invariant process_chunk keeps: the buffer fits, and an initialized transaction carries a real tag. */
  predicate Inv(cfg: Config, s: ChunkState) {
    && |s.buffer| <= cfg.txBufferCapacity
    && (s.initialized ==> s.parserTx.specialTransferType != TxDef.Invalid)
  }

  lemma LemmaBootInv(cfg: Config)
    ensures Inv(cfg, BootState()) && !BootState().initialized
  {
  }

  lemma LemmaStepPreservesInv(cfg: Config, expert: bool, s: ChunkState, cmd: seq<byte>, rx: nat)
    requires Shaped(cfg, cmd, rx) && Inv(cfg, s)
    ensures Inv(cfg, Step(cfg, expert, s, cmd, rx).0)
  {
  }

  /** The length check and the P2 check come before any dispatch and change nothing. */
  lemma LemmaHeaderChecks(cfg: Config, expert: bool, s: ChunkState, cmd: seq<byte>, rx: nat)
    requires Shaped(cfg, cmd, rx)
    ensures rx < cfg.offsetData ==> Step(cfg, expert, s, cmd, rx) == (s, Err(WrongLength))
    ensures rx >= cfg.offsetData && P2(cfg, cmd) != 0 && P2(cfg, cmd) != 1 ==>
              Step(cfg, expert, s, cmd, rx) == (s, Err(DataInvalid))
  {
  }

  /** Everything an Init chunk does, on success and on each failure. */
  lemma LemmaInitOutcome(cfg: Config, expert: bool, s: ChunkState, cmd: seq<byte>, rx: nat)
    requires Shaped(cfg, cmd, rx) && rx >= cfg.offsetData
    requires P2(cfg, cmd) <= 1 && PayloadType(cfg, cmd) == 0
    ensures var (s', r) := Step(cfg, expert, s, cmd, rx);
      && s'.buffer == []
      && (rx - cfg.offsetData < PATH_BYTES ==>
            r == Err(WrongLength) && s'.hdPath == s.hdPath)
      && (rx - cfg.offsetData >= PATH_BYTES ==>
            && s'.hdPath == DecodePath(cmd, cfg.offsetData)
            && (r.Ok? <==> CheckPath(cfg, s'.hdPath, expert) == Pass)
            && (r.Err? ==> r.error == DataInvalid))
      && (r.Ok? ==>
            && r.value == false
            && s'.initialized
            && s'.parserTx == TxDef.Zeroed().(specialTransferType := s'.parserTx.specialTransferType)
            && (s'.parserTx.specialTransferType == TxDef.NeuronStakeTransaction <==> P2(cfg, cmd) == 1)
            && (s'.parserTx.specialTransferType == TxDef.NormalTransaction <==> P2(cfg, cmd) == 0))
      && (r.Err? ==> s'.initialized == s.initialized && s'.parserTx == s.parserTx)
  {
  }

  /** For Append and Last the stake-flag check runs first; then an uninitialized session is refused, whatever the payload. */
  lemma LemmaAppendGuards(cfg: Config, expert: bool, s: ChunkState, cmd: seq<byte>, rx: nat)
    requires Shaped(cfg, cmd, rx) && rx >= cfg.offsetData
    requires P2(cfg, cmd) <= 1 && PayloadType(cfg, cmd) in {1, 2}
    ensures s.parserTx.specialTransferType == TxDef.NeuronStakeTransaction && P2(cfg, cmd) != 1 ==>
              Step(cfg, expert, s, cmd, rx) == (s, Err(DataInvalid))
    ensures !(s.parserTx.specialTransferType == TxDef.NeuronStakeTransaction && P2(cfg, cmd) != 1) && !s.initialized ==>
              Step(cfg, expert, s, cmd, rx) == (s, Err(TxNotInitialized))
  {
  }

  /** A normal-tagged session takes chunks with either flag; only a stake-tagged one insists on P2 = 1. */
  lemma LemmaStakeFlagOneWay(cfg: Config, expert: bool, s: ChunkState, cmd: seq<byte>, rx: nat)
    requires Shaped(cfg, cmd, rx) && rx >= cfg.offsetData
    requires P2(cfg, cmd) <= 1 && PayloadType(cfg, cmd) in {1, 2}
    requires s.initialized
    ensures Step(cfg, expert, s, cmd, rx).1 == Err(DataInvalid) <==>
              s.parserTx.specialTransferType == TxDef.NeuronStakeTransaction && P2(cfg, cmd) == 0
  {
  }

  /** A guarded Append or Last grows the buffer by exactly the payload, or clears the flag on a short append. */
  lemma LemmaAppendOutcome(cfg: Config, expert: bool, s: ChunkState, cmd: seq<byte>, rx: nat)
    requires Shaped(cfg, cmd, rx) && rx >= cfg.offsetData
    requires P2(cfg, cmd) <= 1 && PayloadType(cfg, cmd) in {1, 2}
    requires s.initialized
    requires !(s.parserTx.specialTransferType == TxDef.NeuronStakeTransaction && P2(cfg, cmd) != 1)
    requires |s.buffer| <= cfg.txBufferCapacity
    ensures var (s', r) := Step(cfg, expert, s, cmd, rx);
      && s'.parserTx == s.parserTx && s'.hdPath == s.hdPath
      && (|s.buffer| + (rx - cfg.offsetData) <= cfg.txBufferCapacity ==>
            && r == Ok(PayloadType(cfg, cmd) == 2)
            && s' == s.(buffer := s.buffer + Payload(cfg, cmd, rx)))
      && (|s.buffer| + (rx - cfg.offsetData) > cfg.txBufferCapacity ==>
            && r == Err(OutputBufferTooSmall)
            && !s'.initialized)
  {
  }

  /** A payload type outside {0, 1, 2} clears the flag and nothing else. */
  lemma LemmaBadPayloadType(cfg: Config, expert: bool, s: ChunkState, cmd: seq<byte>, rx: nat)
    requires Shaped(cfg, cmd, rx) && rx >= cfg.offsetData && P2(cfg, cmd) <= 1
    requires PayloadType(cfg, cmd) !in {0, 1, 2}
    ensures Step(cfg, expert, s, cmd, rx) == (s.(initialized := false), Err(InvalidP1P2))
  {
  }

  /** Only a successful Init writes parser_tx_obj (and with it the special-transfer tag). */
  lemma LemmaTagWrittenOnlyByInit(cfg: Config, expert: bool, s: ChunkState, cmd: seq<byte>, rx: nat)
    requires Shaped(cfg, cmd, rx)
    ensures var (s', r) := Step(cfg, expert, s, cmd, rx);
      s'.parserTx != s.parserTx ==> PayloadType(cfg, cmd) == 0 && r == Ok(false)
  {
  }

  // ---------------------------------------------------------------- sequences of chunks

  datatype Chunk = Chunk(cmd: seq<byte>, rx: nat)

  predicate ChunkShaped(cfg: Config, c: Chunk) {
    Shaped(cfg, c.cmd, c.rx)
  }

  /** Every chunk is a well-formed received command. */
  predicate AllShaped(cfg: Config, chunks: seq<Chunk>) {
    forall i :: 0 <= i < |chunks| ==> ChunkShaped(cfg, chunks[i])
  }

  /** process_chunk applied to each chunk in arrival order, collecting the outcomes. */
  function Run(cfg: Config, expert: bool, s: ChunkState, chunks: seq<Chunk>): (r: (ChunkState, seq<Result<bool, ApduError>>))
    requires AllShaped(cfg, chunks)
    ensures |r.1| == |chunks|
    decreases |chunks|
  {
    if chunks == [] then (s, [])
    else
      assert ChunkShaped(cfg, chunks[0]);
      var (s1, r1) := Step(cfg, expert, s, chunks[0].cmd, chunks[0].rx);
      var (sn, rs) := Run(cfg, expert, s1, chunks[1..]);
      (sn, [r1] + rs)
  }

  /** Every chunk carries a payload: its received length reaches OFFSET_DATA. */
  predicate AllCarryPayload(cfg: Config, chunks: seq<Chunk>) {
    forall i :: 0 <= i < |chunks| ==> ChunkShaped(cfg, chunks[i]) && chunks[i].rx >= cfg.offsetData
  }

  /** Append (1) or Last (2) chunks, all carrying flag `flag`. */
  predicate DataChunks(cfg: Config, chunks: seq<Chunk>, flag: byte) {
    forall i :: 0 <= i < |chunks| ==>
      && ChunkShaped(cfg, chunks[i])
      && chunks[i].rx >= cfg.offsetData
      && P2(cfg, chunks[i].cmd) == flag
      && PayloadType(cfg, chunks[i].cmd) in {1, 2}
  }

  /** Data chunks of which exactly the final one is a Last. */
  predicate Transaction(cfg: Config, chunks: seq<Chunk>, flag: byte) {
    && |chunks| >= 1
    && forall i :: 0 <= i < |chunks| ==>
         && ChunkShaped(cfg, chunks[i])
         && chunks[i].rx >= cfg.offsetData
         && P2(cfg, chunks[i].cmd) == flag
         && PayloadType(cfg, chunks[i].cmd) in {1, 2}
         && (PayloadType(cfg, chunks[i].cmd) == 2 <==> i == |chunks| - 1)
  }

  /** The payloads of data chunks, concatenated in arrival order. */
  function Payloads(cfg: Config, chunks: seq<Chunk>): seq<byte>
    requires AllCarryPayload(cfg, chunks)
    decreases |chunks|
  {
    if chunks == [] then []
    else
      assert ChunkShaped(cfg, chunks[0]) && chunks[0].rx >= cfg.offsetData;
      Payload(cfg, chunks[0].cmd, chunks[0].rx) + Payloads(cfg, chunks[1..])
  }

  /** A single Append (1) or Last (2) chunk carrying flag `flag` and a payload. */
  predicate IsDataChunk(cfg: Config, c: Chunk, flag: byte) {
    && ChunkShaped(cfg, c)
    && c.rx >= cfg.offsetData
    && P2(cfg, c.cmd) == flag
    && PayloadType(cfg, c.cmd) in {1, 2}
  }

  lemma DataChunksCarryPayload(cfg: Config, chunks: seq<Chunk>, flag: byte)
    requires DataChunks(cfg, chunks, flag)
    ensures AllShaped(cfg, chunks) && AllCarryPayload(cfg, chunks)
    ensures chunks != [] ==> IsDataChunk(cfg, chunks[0], flag) && DataChunks(cfg, chunks[1..], flag)
  {
    if chunks != [] {
      forall i | 0 <= i < |chunks[1..]|
        ensures ChunkShaped(cfg, chunks[1..][i]) && chunks[1..][i].rx >= cfg.offsetData
        ensures P2(cfg, chunks[1..][i].cmd) == flag && PayloadType(cfg, chunks[1..][i].cmd) in {1, 2}
      {
        assert chunks[1..][i] == chunks[i + 1];
      }
    }
  }

  /** Run on a chunk followed by more: one Step, then Run on the rest. */
  lemma RunCons(cfg: Config, expert: bool, s: ChunkState, c: Chunk, rest: seq<Chunk>)
    requires ChunkShaped(cfg, c) && AllShaped(cfg, rest)
    ensures AllShaped(cfg, [c] + rest)
    ensures var (s1, r1) := Step(cfg, expert, s, c.cmd, c.rx);
      Run(cfg, expert, s, [c] + rest) == (Run(cfg, expert, s1, rest).0, [r1] + Run(cfg, expert, s1, rest).1)
  {
    var all := [c] + rest;
    assert all[0] == c && all[1..] == rest;
    forall i | 0 <= i < |all| ensures ChunkShaped(cfg, all[i]) {
      if i > 0 {
        assert all[i] == rest[i - 1];
      }
    }
  }

  /**
   * Splitting invariance: data chunks with a flag the session accepts append
   * their payloads in order, however the bytes are split, while they fit.
   */
  lemma {:induction false} LemmaChunksConcatenate(cfg: Config, expert: bool, s: ChunkState, chunks: seq<Chunk>, flag: byte)
    requires flag <= 1 && s.initialized
    requires s.parserTx.specialTransferType == TxDef.NeuronStakeTransaction ==> flag == 1
    requires DataChunks(cfg, chunks, flag)
    requires |s.buffer| + |Payloads(cfg, chunks)| <= cfg.txBufferCapacity
    ensures var (s', rs) := Run(cfg, expert, s, chunks);
      && s'.buffer == s.buffer + Payloads(cfg, chunks)
      && s' == s.(buffer := s'.buffer)
      && forall i :: 0 <= i < |chunks| ==> rs[i] == Ok(PayloadType(cfg, chunks[i].cmd) == 2)
    decreases |chunks|
  {
    DataChunksCarryPayload(cfg, chunks, flag);
    if chunks != [] {
      var c, rest := chunks[0], chunks[1..];
      var p := Payload(cfg, c.cmd, c.rx);
      assert Payloads(cfg, chunks) == p + Payloads(cfg, rest);
      LemmaAppendOutcome(cfg, expert, s, c.cmd, c.rx);
      var s1 := s.(buffer := s.buffer + p);
      var r1 := Ok(PayloadType(cfg, c.cmd) == 2);
      assert Step(cfg, expert, s, c.cmd, c.rx) == (s1, r1);
      LemmaChunksConcatenate(cfg, expert, s1, rest, flag);
      DataChunksCarryPayload(cfg, rest, flag);
      RunCons(cfg, expert, s, c, rest);
      assert [c] + rest == chunks;
      var (sn, rs') := Run(cfg, expert, s1, rest);
      assert Run(cfg, expert, s, chunks) == (sn, [r1] + rs');
      assert sn.buffer == s.buffer + Payloads(cfg, chunks);
      forall i | 0 <= i < |chunks| ensures ([r1] + rs')[i] == Ok(PayloadType(cfg, chunks[i].cmd) == 2) {
        if i > 0 {
          assert chunks[i] == rest[i - 1];
        }
      }
    }
  }

  /** An Init chunk that passes every check of extractHDPath. */
  predicate IsGoodInit(cfg: Config, expert: bool, c: Chunk, flag: byte) {
    && ChunkShaped(cfg, c)
    && c.rx >= cfg.offsetData + PATH_BYTES
    && P2(cfg, c.cmd) == flag
    && PayloadType(cfg, c.cmd) == 0
    && CheckPath(cfg, DecodePath(c.cmd, cfg.offsetData), expert) == Pass
  }

  lemma TransactionIsData(cfg: Config, chunks: seq<Chunk>, flag: byte)
    requires Transaction(cfg, chunks, flag)
    ensures DataChunks(cfg, chunks, flag) && AllCarryPayload(cfg, chunks)
  {
  }

  /**
   * Init, then Append*, then Last, all with one flag: every chunk succeeds, only
   * the last reports completion, and the buffer is exactly the payloads in order.
   */
  lemma LemmaInitAppendLast(cfg: Config, expert: bool, s: ChunkState, init: Chunk, chunks: seq<Chunk>, flag: byte)
    requires flag <= 1 && IsGoodInit(cfg, expert, init, flag)
    requires Transaction(cfg, chunks, flag)
    ensures AllCarryPayload(cfg, chunks) && AllShaped(cfg, [init] + chunks)
    ensures |Payloads(cfg, chunks)| <= cfg.txBufferCapacity ==>
      var (s', rs) := Run(cfg, expert, s, [init] + chunks);
      && s'.initialized
      && s'.buffer == Payloads(cfg, chunks)
      && s'.hdPath == DecodePath(init.cmd, cfg.offsetData)
      && (s'.parserTx.specialTransferType == TxDef.NeuronStakeTransaction <==> flag == 1)
      && rs[0] == Ok(false)
      && (forall i :: 1 <= i < |chunks| ==> rs[i] == Ok(false))
      && rs[|chunks|] == Ok(true)
  {
    TransactionIsData(cfg, chunks, flag);
    DataChunksCarryPayload(cfg, chunks, flag);
    RunCons(cfg, expert, s, init, chunks);
    if |Payloads(cfg, chunks)| <= cfg.txBufferCapacity {
      GoodInitOpens(cfg, expert, s, init, flag);
      var s1 := Step(cfg, expert, s, init.cmd, init.rx).0;
      LemmaChunksConcatenate(cfg, expert, s1, chunks, flag);
    }
  }

  /** An Init that passes extractHDPath opens a fresh session on its path, with the stake tag its flag asks for. */
  lemma GoodInitOpens(cfg: Config, expert: bool, s: ChunkState, init: Chunk, flag: byte)
    requires flag <= 1 && IsGoodInit(cfg, expert, init, flag)
    ensures Step(cfg, expert, s, init.cmd, init.rx) ==
      (s.(buffer := [], hdPath := DecodePath(init.cmd, cfg.offsetData),
          parserTx := TxDef.Zeroed().(specialTransferType := if flag == 1 then TxDef.NeuronStakeTransaction else TxDef.NormalTransaction),
          initialized := true),
       Ok(false))
  {
  }

  /** Scenario: a Last before any Init is refused and leaves the boot state, so a fresh sequence still succeeds. */
  lemma LemmaLastBeforeInitDoesNotPoison(cfg: Config, expert: bool, last: Chunk, lastFlag: byte, init: Chunk, chunks: seq<Chunk>, flag: byte)
    requires lastFlag <= 1 && IsDataChunk(cfg, last, lastFlag)
    requires flag <= 1 && IsGoodInit(cfg, expert, init, flag)
    requires Transaction(cfg, chunks, flag)
    ensures Step(cfg, expert, BootState(), last.cmd, last.rx) == (BootState(), Err(TxNotInitialized))
    ensures AllCarryPayload(cfg, chunks) && AllShaped(cfg, [last, init] + chunks)
    ensures |Payloads(cfg, chunks)| <= cfg.txBufferCapacity ==>
      var (s', rs) := Run(cfg, expert, BootState(), [last, init] + chunks);
      rs[0] == Err(TxNotInitialized) && rs[|chunks| + 1] == Ok(true) && s'.buffer == Payloads(cfg, chunks)
  {
    LemmaInitAppendLast(cfg, expert, BootState(), init, chunks, flag);
    StrayChunkRefused(cfg, expert, last, lastFlag);
    RunCons(cfg, expert, BootState(), last, [init] + chunks);
    assert [last] + ([init] + chunks) == [last, init] + chunks;
  }

  /** On the boot state no stake session is open, so a data chunk with either flag only meets the not-initialized check. */
  lemma StrayChunkRefused(cfg: Config, expert: bool, c: Chunk, flag: byte)
    requires flag <= 1 && IsDataChunk(cfg, c, flag)
    ensures Step(cfg, expert, BootState(), c.cmd, c.rx) == (BootState(), Err(TxNotInitialized))
  {
  }

  /**
   * Scenario: after a stake Init, an Append with P2 = 0 is refused with
   * DataInvalid but the session stays initialized, so a following Append with
   * P2 = 1 is taken.
   */
  lemma LemmaStakeMismatchKeepsSession(cfg: Config, expert: bool, s: ChunkState, init: Chunk, wrong: Chunk, right: Chunk)
    requires IsGoodInit(cfg, expert, init, 1)
    requires IsDataChunk(cfg, wrong, 0) && IsDataChunk(cfg, right, 1)
    requires right.rx - cfg.offsetData <= cfg.txBufferCapacity
    ensures var (s1, r1) := Step(cfg, expert, s, init.cmd, init.rx);
      && r1 == Ok(false)
      && Step(cfg, expert, s1, wrong.cmd, wrong.rx) == (s1, Err(DataInvalid))
      && s1.initialized
      && Step(cfg, expert, s1, right.cmd, right.rx).1 == Ok(PayloadType(cfg, right.cmd) == 2)
  {
    LemmaInitOutcome(cfg, expert, s, init.cmd, init.rx);
    var (s1, r1) := Step(cfg, expert, s, init.cmd, init.rx);
    LemmaAppendOutcome(cfg, expert, s1, right.cmd, right.rx);
  }

  // ---------------------------------------------------------------- a failed Init keeps a stale session

  /** Every initialized session holds a path the policy accepts. */
  predicate PathInv(cfg: Config, expert: bool, s: ChunkState) {
    s.initialized ==> CheckPath(cfg, s.hdPath, expert) == Pass
  }

  /**
   * As written, an Init whose path is rejected still overwrites hdPath but
   * leaves tx_initialized set from the previous session, so a following Last
   * completes a transaction under the rejected path.
   */
  lemma LemmaFailedInitKeepsStaleSession(cfg: Config, expert: bool, s: ChunkState, init: Chunk, last: Chunk)
    requires PathInv(cfg, expert, s) && s.initialized
    requires ChunkShaped(cfg, init) && init.rx >= cfg.offsetData + PATH_BYTES
    requires P2(cfg, init.cmd) == 0 && PayloadType(cfg, init.cmd) == 0
    requires CheckPath(cfg, DecodePath(init.cmd, cfg.offsetData), expert) != Pass
    requires IsDataChunk(cfg, last, 1) && PayloadType(cfg, last.cmd) == 2
    requires last.rx - cfg.offsetData <= cfg.txBufferCapacity
    ensures var (s1, r1) := Step(cfg, expert, s, init.cmd, init.rx);
      && r1 == Err(DataInvalid)
      && !PathInv(cfg, expert, s1)
      && var (s2, r2) := Step(cfg, expert, s1, last.cmd, last.rx);
         r2 == Ok(true) && s2.hdPath == DecodePath(init.cmd, cfg.offsetData)
  {
    LemmaInitOutcome(cfg, expert, s, init.cmd, init.rx);
    var (s1, r1) := Step(cfg, expert, s, init.cmd, init.rx);
    LemmaAppendOutcome(cfg, expert, s1, last.cmd, last.rx);
  }

  /** process_chunk with `tx_initialized = false` when an Init fails after tx_reset has run. */
  function StepCorrected(cfg: Config, expert: bool, s: ChunkState, cmd: seq<byte>, rx: nat): (r: (ChunkState, Result<bool, ApduError>))
    requires Shaped(cfg, cmd, rx)
    ensures rx >= cfg.offsetData && P2(cfg, cmd) <= 1 && PayloadType(cfg, cmd) == 0 && r.1.Err? ==> !r.0.initialized
  {
    var (s', r) := Step(cfg, expert, s, cmd, rx);
    if rx >= cfg.offsetData && P2(cfg, cmd) <= 1 && PayloadType(cfg, cmd) == 0 && r.Err? then
      (s'.(initialized := false), r)
    else (s', r)
  }

  /** With the correction every initialized session holds an accepted path, so completion is never reached under a rejected one. */
  lemma LemmaCorrectedKeepsPathInv(cfg: Config, expert: bool, s: ChunkState, cmd: seq<byte>, rx: nat)
    requires Shaped(cfg, cmd, rx) && PathInv(cfg, expert, s)
    ensures PathInv(cfg, expert, StepCorrected(cfg, expert, s, cmd, rx).0)
    ensures StepCorrected(cfg, expert, s, cmd, rx).1.Ok? ==>
              CheckPath(cfg, StepCorrected(cfg, expert, s, cmd, rx).0.hdPath, expert) == Pass
  {
    if rx >= cfg.offsetData && P2(cfg, cmd) <= 1 && PayloadType(cfg, cmd) == 0 {
      LemmaInitOutcome(cfg, expert, s, cmd, rx);
    }
  }

  /** The correction changes nothing except the flag after a failed Init. */
  lemma LemmaCorrectedAgrees(cfg: Config, expert: bool, s: ChunkState, cmd: seq<byte>, rx: nat)
    requires Shaped(cfg, cmd, rx)
    ensures StepCorrected(cfg, expert, s, cmd, rx).1 == Step(cfg, expert, s, cmd, rx).1
    ensures StepCorrected(cfg, expert, s, cmd, rx).1.Ok? || PayloadType(cfg, cmd) != 0 ==>
              StepCorrected(cfg, expert, s, cmd, rx) == Step(cfg, expert, s, cmd, rx)
  {
  }

  // ---------------------------------------------------------------- status words and device info

  /**
   * The fold of app_main's CATCH_OTHER on a 16-bit code: when `sw & 0xF000` is
   * 0x6000 or 0x9000 the code is sent as it is, otherwise as `0x6800 | (sw & 0x7FF)`.
   * On values below 2^16 the mask `& 0xF000` selects `sw / 0x1000`, `& 0x7FF` is
   * `% 0x800`, and `0x6800 |` adds 0x6800 to a value below 0x800.
   */
  function StatusWord(e: u16): (sw: u16)
    ensures (e / 0x1000 == 6 || e / 0x1000 == 9) ==> sw == e
    ensures !(e / 0x1000 == 6 || e / 0x1000 == 9) ==> sw / 0x800 == 0x6800 / 0x800 && sw % 0x800 == e % 0x800
    ensures sw / 0x1000 == 6 || sw / 0x1000 == 9
  {
    var nibble := e / 0x1000;
    if nibble == 6 || nibble == 9 then e else 0x6800 + e % 0x800
  }

  lemma LemmaStatusWordIdempotent(e: u16)
    ensures StatusWord(StatusWord(e)) == StatusWord(e)
  {
  }

  /** Every error the assembler throws reaches the host unchanged. */
  lemma LemmaChunkErrorsPassThrough(cfg: Config, e: ApduError)
    requires cfg.txNotInitializedCode / 0x1000 == 6
    ensures StatusWord(Code(cfg, e)) == Code(cfg, e)
  {
  }

  const VERSION_MAX_LEN: nat := 64
  /** The opcode bytes CLA INS P1 P2 of the get-device-info command. */
  const DEVICE_INFO_COMMAND: seq<byte> := [0xE0, 0x01, 0x00, 0x00]

  /** Reply of the device-info command: target id, then SE version, flags and MCU version, each length-prefixed. */
  function DeviceInfo(targetId: u32, seVersion: seq<byte>, mcuVersion: seq<byte>): (r: seq<byte>)
    requires |seVersion| <= VERSION_MAX_LEN && |mcuVersion| <= VERSION_MAX_LEN
    ensures |r| == 7 + |seVersion| + |mcuVersion| <= 7 + 2 * VERSION_MAX_LEN
    ensures BE32(r, 0) == targetId && r[4] == |seVersion| && r[5 + |seVersion|] == 0 && r[6 + |seVersion|] == |mcuVersion|
  {
    EncodeBE32(targetId) + [|seVersion|] + seVersion + [0] + [|mcuVersion|] + mcuVersion
  }

  datatype DeviceInfoFields = DeviceInfoFields(targetId: u32, seVersion: seq<byte>, flags: seq<byte>, mcuVersion: seq<byte>)

  /** A `[length][bytes]` field at `b[i..]`, and the position after it. */
  function ReadLV(b: seq<byte>, i: nat): (r: Option<(seq<byte>, nat)>)
    ensures r.Some? ==> r.value.1 == i + 1 + |r.value.0| <= |b|
  {
    if i < |b| && i + 1 + b[i] <= |b| then Some((b[i + 1..i + 1 + b[i]], i + 1 + b[i])) else None
  }

  /** How a host reads the device-info reply; None unless the fields fill it exactly. */
  function ParseDeviceInfo(b: seq<byte>): Option<DeviceInfoFields> {
    if |b| < 4 then None
    else match ReadLV(b, 4)
      case None => None
      case Some((se, i)) => match ReadLV(b, i)
        case None => None
        case Some((flags, j)) => match ReadLV(b, j)
          case None => None
          case Some((mcu, k)) => if k == |b| then Some(DeviceInfoFields(BE32(b, 0), se, flags, mcu)) else None
  }

  /** The reply layout is unambiguous: a host recovers the target id, both versions and an empty flags field. */
  lemma LemmaDeviceInfoRoundTrip(targetId: u32, seVersion: seq<byte>, mcuVersion: seq<byte>)
    requires |seVersion| <= VERSION_MAX_LEN && |mcuVersion| <= VERSION_MAX_LEN
    ensures |DeviceInfo(targetId, seVersion, mcuVersion)| == 7 + |seVersion| + |mcuVersion|
    ensures ParseDeviceInfo(DeviceInfo(targetId, seVersion, mcuVersion)) == Some(DeviceInfoFields(targetId, seVersion, [], mcuVersion))
  {
    var b := DeviceInfo(targetId, seVersion, mcuVersion);
    var t := EncodeBE32(targetId);
    var i := 5 + |seVersion|;
    assert b[..4] == t;
    assert b[4] == |seVersion|;
    assert b[5..i] == seVersion;
    assert b[i] == 0;
    assert b[i + 1] == |mcuVersion|;
    assert b[i + 2..] == mcuVersion;
    assert BE32(b, 0) == BE32(t, 0);
    assert ReadLV(b, 4) == Some((seVersion, i));
    assert ReadLV(b, i) == Some(([], i + 1));
    assert |b| == i + 2 + |mcuVersion|;
    assert b[i + 2..i + 2 + |mcuVersion|] == mcuVersion;
    assert ReadLV(b, i + 1) == Some((mcuVersion, |b|));
  }

  // ---------------------------------------------------------------- the global state, updated in place

  /** Writing `data` right after an already written `prefix` extends it and keeps the rest of `original`. */
  lemma Splice(original: seq<byte>, prefix: seq<byte>, data: seq<byte>, before: seq<byte>, after: seq<byte>, pos: nat, next: nat)
    requires pos == |prefix| && next == pos + |data| <= |original|
    requires before == prefix + original[|prefix|..]
    requires after == before[..pos] + data + before[next..]
    ensures after == (prefix + data) + original[|prefix + data|..]
  {
    assert before[..pos] == prefix;
    assert before[next..] == original[next..];
  }

  class App {
    const cfg: Config
    /** G_io_apdu_buffer */
    const apdu: array<byte>
    /** hdPath */
    const hdPath: array<u32>
    /** tx_initialized */
    var txInitialized: bool
    /** parser_tx_obj */
    var parserTx: TxDef.ParserTx
    /** the transaction buffer that tx_initialize, tx_reset and tx_append manage */
    var txBuffer: seq<byte>

    ghost predicate Valid()
      reads this
    {
      && cfg.Valid()
      && apdu.Length == cfg.apduBufferSize
      && hdPath.Length == HDPATH_LEN_DEFAULT
      && (apdu as object) != (hdPath as object)
      && |txBuffer| <= cfg.txBufferCapacity
    }

    ghost function State(): ChunkState
      reads this, hdPath
      requires Valid()
    {
      ChunkState(txInitialized, parserTx, txBuffer, hdPath[..])
    }

    constructor (cfg: Config)
      requires cfg.Valid()
      ensures Valid() && this.cfg == cfg && fresh(apdu) && fresh(hdPath)
      ensures State() == BootState()
    {
      this.cfg := cfg;
      apdu := new byte[cfg.apduBufferSize](_ => 0);
      hdPath := new u32[HDPATH_LEN_DEFAULT](_ => 0);
      txInitialized := false;
      parserTx := TxDef.Zeroed();
      txBuffer := [];
      new;
      assert hdPath[..] == [0, 0, 0, 0, 0];
    }

    /** tx_initialize() followed by tx_reset(): an empty transaction buffer. */
    method TxReset()
      requires Valid()
      modifies this`txBuffer
      ensures Valid() && txBuffer == []
    {
      txBuffer := [];
    }

    /** tx_append: returns how many bytes were appended. */
    method TxAppend(data: seq<byte>) returns (added: nat)
      requires Valid()
      modifies this`txBuffer
      ensures Valid()
      ensures (txBuffer, added) == AppendBounded(cfg.txBufferCapacity, old(txBuffer), data)
    {
      if |txBuffer| + |data| <= cfg.txBufferCapacity {
        txBuffer := txBuffer + data;
        added := |data|;
      } else {
        added := 0;
      }
    }

    /** extractHDPath: copies the path out of the command, then applies the policy. */
    method ExtractHDPath(rx: nat, offset: nat, expert: bool) returns (o: Outcome<ApduError>)
      requires Valid() && offset <= rx <= apdu.Length
      modifies hdPath
      ensures rx - offset < PATH_BYTES ==> o == Fail(WrongLength) && hdPath[..] == old(hdPath[..])
      ensures rx - offset >= PATH_BYTES ==>
                && hdPath[..] == DecodePath(apdu[..], offset)
                && o == CheckPath(cfg, hdPath[..], expert)
    {
      if rx - offset < PATH_BYTES {
        return Fail(WrongLength);
      }
      // MEMCPY(hdPath, G_io_apdu_buffer + offset, 20)
      for i := 0 to HDPATH_LEN_DEFAULT
        invariant forall k :: 0 <= k < i ==> hdPath[k] == LE32(apdu[..], offset + 4 * k)
      {
        hdPath[i] := LE32(apdu[..], offset + 4 * i);
      }
      assert hdPath[..] == DecodePath(apdu[..], offset);
      var mainnet := hdPath[0] == cfg.hdPath0Default && hdPath[1] == cfg.hdPath1Default;
      var testnet := hdPath[0] == cfg.hdPath0Testnet && hdPath[1] == cfg.hdPath1Testnet;
      if !mainnet && !testnet {
        return Fail(DataInvalid);
      }
      var isValid := And32(hdPath[2], cfg.restrictedMask) == 0x8000_0000
                     && hdPath[3] == 0
                     && And32(hdPath[4], cfg.restrictedMask) == 0;
      if !isValid && !expert {
        return Fail(DataInvalid);
      }
      return Pass;
    }

    /** process_chunk: Ok(true) when the transaction is complete, Ok(false) when more chunks are due. */
    method ProcessChunk(rx: nat, expert: bool) returns (r: Result<bool, ApduError>)
      requires Valid() && rx <= apdu.Length
      modifies this, hdPath
      ensures Valid() && apdu[..] == old(apdu[..])
      ensures (State(), r) == Step(cfg, expert, old(State()), apdu[..], rx)
    {
      var payloadType := apdu[cfg.offsetPayloadType];
      if rx < cfg.offsetData {
        return Err(WrongLength);
      }
      if apdu[cfg.offsetP2] != 0 && apdu[cfg.offsetP2] != 1 {
        return Err(DataInvalid);
      }
      var isStakeTx := parserTx.specialTransferType == TxDef.NeuronStakeTransaction;
      if payloadType == 0 {
        TxReset();
        var o := ExtractHDPath(rx, cfg.offsetData, expert);
        if o.Fail? {
          return Err(o.error);
        }
        parserTx := TxDef.Zeroed();
        if apdu[cfg.offsetP2] == 1 {
          parserTx := parserTx.(specialTransferType := TxDef.NeuronStakeTransaction);
        } else {
          parserTx := parserTx.(specialTransferType := TxDef.NormalTransaction);
        }
        txInitialized := true;
        return Ok(false);
      } else if payloadType == 1 || payloadType == 2 {
        // cases 1 and 2 are identical apart from the value returned
        if isStakeTx && apdu[cfg.offsetP2] != 1 {
          return Err(DataInvalid);
        }
        if !txInitialized {
          return Err(TxNotInitialized);
        }
        var added := TxAppend(apdu[cfg.offsetData..rx]);
        if added != rx - cfg.offsetData {
          txInitialized := false;
          return Err(OutputBufferTooSmall);
        }
        return Ok(payloadType == 2);
      }
      txInitialized := false;
      return Err(InvalidP1P2);
    }

    /** Writes `data` into the command buffer at `pos`, leaving the other bytes alone. */
    method WriteBytes(pos: nat, data: seq<byte>) returns (next: nat)
      requires pos + |data| <= apdu.Length
      modifies apdu
      ensures next == pos + |data|
      ensures apdu[..] == old(apdu[..])[..pos] + data + old(apdu[..])[next..]
    {
      for k := 0 to |data|
        invariant forall j :: 0 <= j < apdu.Length ==>
                    apdu[j] == (if pos <= j < pos + k then data[j - pos] else old(apdu[j]))
      {
        apdu[pos + k] := data[k];
      }
      next := pos + |data|;
    }

    /**
     * handle_generic_apdu: answers the device-info command in place and returns
     * the reply length; any other command passes through untouched.
     */
    method HandleGenericApdu(rx: nat, tx: nat, seVersion: seq<byte>, mcuVersion: seq<byte>)
      returns (handled: bool, tx': nat)
      requires Valid() && rx <= apdu.Length
      requires |seVersion| <= VERSION_MAX_LEN && |mcuVersion| <= VERSION_MAX_LEN
      requires apdu.Length >= 7 + 2 * VERSION_MAX_LEN
      modifies apdu
      ensures handled <==> rx > 4 && old(apdu[..4]) == DEVICE_INFO_COMMAND
      ensures handled ==>
                && tx' == |DeviceInfo(cfg.targetId, seVersion, mcuVersion)|
                && apdu[..tx'] == DeviceInfo(cfg.targetId, seVersion, mcuVersion)
                && apdu[tx'..] == old(apdu[tx'..])
      ensures !handled ==> tx' == tx && apdu[..] == old(apdu[..])
    {
      if rx > 4 && apdu[0] == 0xE0 && apdu[1] == 0x01 && apdu[2] == 0x00 && apdu[3] == 0x00 {
        assert apdu[..4] == DEVICE_INFO_COMMAND;
        tx' := WriteDeviceInfo(seVersion, mcuVersion);
        return true, tx';
      }
      if rx > 4 {
        assert apdu[..4] != DEVICE_INFO_COMMAND by {
          assert apdu[..4][0] == apdu[0] && apdu[..4][1] == apdu[1] && apdu[..4][2] == apdu[2] && apdu[..4][3] == apdu[3];
        }
      }
      return false, tx;
    }

    /** The body of the device-info branch: the fields written one after the other from the start of the buffer. */
    method WriteDeviceInfo(seVersion: seq<byte>, mcuVersion: seq<byte>) returns (p: nat)
      requires |seVersion| <= VERSION_MAX_LEN && |mcuVersion| <= VERSION_MAX_LEN
      requires apdu.Length >= 7 + 2 * VERSION_MAX_LEN
      modifies apdu
      ensures p == |DeviceInfo(cfg.targetId, seVersion, mcuVersion)|
      ensures apdu[..p] == DeviceInfo(cfg.targetId, seVersion, mcuVersion)
      ensures apdu[p..] == old(apdu[p..])
    {
      ghost var original := apdu[..];
      ghost var a := apdu[..];
      var id := EncodeBE32(cfg.targetId);
      p := WriteBytes(0, id);                           // target id
      Splice(original, [], id, a, apdu[..], 0, p);
      ghost var written := id;
      var q := p;
      a := apdu[..];
      p := WriteBytes(q, [|seVersion|]);                // SE version length
      Splice(original, written, [|seVersion|], a, apdu[..], q, p);
      written, a, q := written + [|seVersion|], apdu[..], p;
      p := WriteBytes(q, seVersion);                    // os_version(p + 1, 64)
      Splice(original, written, seVersion, a, apdu[..], q, p);
      written, a, q := written + seVersion, apdu[..], p;
      p := WriteBytes(q, [0]);                          // flags length
      Splice(original, written, [0], a, apdu[..], q, p);
      written, a, q := written + [0], apdu[..], p;
      p := WriteBytes(q, [|mcuVersion|]);               // MCU version length
      Splice(original, written, [|mcuVersion|], a, apdu[..], q, p);
      written, a, q := written + [|mcuVersion|], apdu[..], p;
      p := WriteBytes(q, mcuVersion);                   // os_seph_version(p + 1, 64)
      Splice(original, written, mcuVersion, a, apdu[..], q, p);
      written := written + mcuVersion;
      assert apdu[..p] == written;
    }

    /** app_main's CATCH_OTHER: appends the folded status word, high byte first, at `tx`. */
    method SendStatus(e: u16, tx: nat) returns (tx': nat)
      requires tx + 2 <= apdu.Length
      modifies apdu
      ensures tx' == tx + 2
      ensures apdu[..] == old(apdu[..])[..tx] + EncodeBE16(StatusWord(e)) + old(apdu[..])[tx + 2..]
      ensures BE16(apdu[..], tx) == StatusWord(e)
    {
      var sw := StatusWord(e);
      apdu[tx] := sw / 0x100;       // sw >> 8
      apdu[tx + 1] := sw % 0x100;   // (uint8_t) sw
      tx' := tx + 2;
    }
  }
}
