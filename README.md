# ledger-icp core, modelled in Dafny

This project models the core of the Internet Computer app for Ledger devices,
together with the host-side helpers of its JavaScript library:

- **Chunk assembler** (`app/src/common/app_main.c`, module `AppMain`). It covers
  `extractHDPath`, `process_chunk`, the device-info answer of
  `handle_generic_apdu`, and the status-word fold of the main loop's
  `CATCH_OTHER`.
  - The globals `G_io_apdu_buffer`, `hdPath`, `tx_initialized`,
    `parser_tx_obj` and the transaction buffer become the fields of the class
    `AppMain.App`, whose methods update them in place.
  - Each method is proved against a pure function:
    - `ProcessChunk` against the step function `AppMain.Step`;
    - `ExtractHDPath` against `AppMain.DecodePath` and `AppMain.CheckPath`;
    - `HandleGenericApdu` and `WriteDeviceInfo` against the reply layout `AppMain.DeviceInfo`;
    - `SendStatus` against the fold `AppMain.StatusWord`.
  - The state-machine properties (header checks, the Init/Append/Last protocol,
    the one-way stake flag, splitting invariance over sequences of chunks) are
    lemmas about `Step` and `Run`.
- **Transaction definitions** (`app/src/parser_txdef.h`, module `TxDef`).
  - The numeric enums, with their tag ↔ member round trip.
  - The length-bounded buffers.
  - `call_t`, `state_read_t` and the tagged union `parser_tx_t`, with the
    invariant that the selector agrees with the populated arm.
- **Address review items** (`app/src/addr.c`, module `Addr`).
  - The item count in normal and expert mode.
  - The key and paged value of each item index, and the paging rule the
    items rely on. `pageString` has no body in the files modelled here.
    `Addr.PageString` defines it by the paging rule of the review screens,
    so its contract, `Addr.LemmaChunkCount` and `Addr.LemmaChunksReassemble`
    are facts about that definition, not about source text.
- **Host library** (`js/src/common.ts`, module `HostCommon`).
  - `serializePath`, proved against a parsing function, with printing a path
    as its inverse.
  - `errorCodeToString` and its table.
  - The decoding of the `getVersion` reply.
- **Host ↔ device link** (module `HostDevice`). The 20 bytes `serializePath`
  produces are exactly the five components `extractHDPath` stores.

The support modules are:

- `Wrappers`: `Option`, `Result` and `Outcome`.
- `Bytes`: bounded integers, and little- and big-endian words with their
  encoders.
- `Text`: numerals in base 10 and 16, `split`/`join` on one separator, and
  their round trips.

Constants that `app_main.c` takes from headers outside this model become the
fields of `AppMain.Config`:

- the buffer size and the `OFFSET_*` positions;
- the `HDPATH_*` prefixes and `HDPATH_RESTRICTED_MASK`;
- `TARGET_ID`;
- the transaction buffer's capacity;
- the code of `APDU_CODE_TX_NOT_INITIALIZED`.

The other four codes `process_chunk` and `extractHDPath` throw are fixed in
`AppMain.Code` (see "Left out" below).

Expert mode (`app_mode_expert()`) is a parameter. So are the SE and MCU
version strings that `os_version` and `os_seph_version` return.

Three behaviours of the code differ from what a reader might expect, and the
model keeps the code's behaviour:

- **Stake-flag mismatch.** One might expect an Append refused for a
  stake-flag mismatch to reset the session, so that the next Append fails
  with "not initialized". In `process_chunk` that check throws before
  `tx_initialized` is touched (app_main.c:156-158). The session stays live,
  and a following Append with the right flag is accepted
  (`AppMain.LemmaStakeMismatchKeepsSession`).
- **Hardening of components 2 and 4.** One might expect components 2 and 4 to
  be required to carry the hardened bit. The code checks component 2 against
  `HDPATH_RESTRICTED_MASK`, requires component 3 to be zero, and requires
  component 4's *restricted* bits to be clear (app_main.c:118-124). The model
  keeps the code's mask test (`AppMain.IsRestrictedValid`).
- **Errors that do not reset.** One might expect every failure mid-sequence
  to reset assembly. Only a short append and an unknown payload type clear
  `tx_initialized` (app_main.c:175-183). The header errors, the stake-flag
  error and "not initialized" leave the state as it was, and a failed Init
  leaves the flag as it was (see "Findings").

## Model

| member | source | states |
|---|---|---|
| TxDef.TxTypeFromTag | app/src/parser_txdef.h:42-46 | a txtype_e value is declared exactly when it is 0..2, and decodes to the member with that tag |
| TxDef.PbTypeFromTag | app/src/parser_txdef.h:48-54 | a pbtype_e value is declared exactly when it is 0..4, and decodes to the member with that tag |
| TxDef.ManageNeuronFromTag | app/src/parser_txdef.h:56-75 | a manageNeuron_e value is declared exactly when it is 0..12, and decodes to the member with that tag |
| TxDef.SpecialTransferFromTag | app/src/parser_txdef.h:77-81 | a special_transfer_e value is declared exactly when it is 0..2, and decodes to the member with that tag |
| TxDef.LemmaTagsRoundTrip | app/src/parser_txdef.h:42-81 | every member's tag decodes back to the member; the accepted selectors, pb types and governance operations are exactly the non-zero tags 1..max |
| TxDef.PathArray.InUse | app/src/parser_txdef.h:118-121 | the paths in use are the first `arrayLen` ones, at most 3, each within its bound |
| TxDef.CallTx.PresentNonce | app/src/parser_txdef.h:123-125 | in a valid call the nonce is present exactly when `has_nonce` is set, and then it is the stored bytes, at most NONCE_MAX_LEN of them |
| TxDef.LemmaPresentNonceDepends | app/src/parser_txdef.h:103-125 | two valid calls report the same nonce exactly when they agree on `has_nonce` and, where it is set, on the bytes; an absent nonce's bytes never matter |
| TxDef.Zeroed | app/src/parser_txdef.h:154-164 | the all-zero parser_tx_t has selector 0 and special-transfer tag 0, and is not a valid transaction |
| TxDef.LemmaValidArmAgrees | app/src/parser_txdef.h:154-164 | in a valid transaction, selector 1 holds exactly a call and selector 2 exactly a state read; no valid transaction is unset |
| AppMain.Code | js/src/common.ts:47-54 | the four fixed error codes are 0x6xxx codes; not-initialized is the configured code |
| AppMain.DecodePath | app/src/common/app_main.c:106 | the copied path has five components, each the little-endian word at offset + 4i |
| AppMain.CheckPath | app/src/common/app_main.c:108-124 | a path passes exactly when it has the mainnet or testnet prefix and, outside expert mode, the restricted components are valid; every refusal is DataInvalid |
| AppMain.LemmaPrefixNeverRelaxed | app/src/common/app_main.c:108-116 | a path with neither the mainnet nor the testnet prefix is refused with DataInvalid in every mode; an accepted path has one of the two prefixes |
| AppMain.LemmaExpertRelaxesRestrictionOnly | app/src/common/app_main.c:118-124 | for a path with a good prefix, expert mode accepts it; normal mode accepts it exactly when components 2..4 pass the restriction, and otherwise refuses it with DataInvalid |
| AppMain.AppendBounded | app/src/common/app_main.c:162-166 | tx_append never takes more than offered; the buffer grows by exactly the bytes taken and never past its capacity; it takes everything exactly when everything fits |
| AppMain.Step | app/src/common/app_main.c:127-184 | process_chunk on the abstract state; a chunk succeeds only with a live session afterwards. Its other properties are the lemmas below |
| AppMain.InitStep | app/src/common/app_main.c:143-154 | an Init always empties the buffer, and a successful one leaves a live session on a path CheckPath accepts |
| AppMain.LemmaBootInv | app/src/common/app_main.c:127-184 | the power-up state satisfies the assembler invariant and is not initialized |
| AppMain.LemmaStepPreservesInv | app/src/common/app_main.c:127-184 | every call of process_chunk keeps the buffer within capacity and keeps a real special-transfer tag on every initialized session |
| AppMain.LemmaHeaderChecks | app/src/common/app_main.c:131-137 | a command shorter than OFFSET_DATA fails with WrongLength, and a P2 outside {0,1} with DataInvalid; neither changes any state |
| AppMain.LemmaInitOutcome | app/src/common/app_main.c:143-154 | an Init always empties the buffer. A short path fails with WrongLength and keeps hdPath. Otherwise hdPath becomes the copied path, which succeeds exactly when the policy accepts it and fails only with DataInvalid. On success the session is initialized, parser_tx_obj is zeroed, and the tag is stake exactly when P2 = 1. On failure the flag and parser_tx_obj are kept |
| AppMain.LemmaAppendGuards | app/src/common/app_main.c:155-174 | for Append and Last, a stake session with P2 ≠ 1 is refused with DataInvalid first, then an uninitialized session with TxNotInitialized; neither changes any state |
| AppMain.LemmaStakeFlagOneWay | app/src/common/app_main.c:139-172 | on an initialized session a data chunk fails with DataInvalid exactly when the session is stake-tagged and the chunk has P2 = 0 |
| AppMain.LemmaAppendOutcome | app/src/common/app_main.c:162-180 | a guarded data chunk that fits appends exactly its payload and reports completion exactly for Last; one that does not fit fails with OutputBufferTooSmall and clears the flag; the tag and path are untouched |
| AppMain.LemmaBadPayloadType | app/src/common/app_main.c:182-183 | a payload type outside {0,1,2} fails with InvalidP1P2 and changes only the flag, which it clears |
| AppMain.LemmaTagWrittenOnlyByInit | app/src/common/app_main.c:143-154 | parser_tx_obj, and with it the special-transfer tag, changes only on a successful Init |
| AppMain.LemmaChunksConcatenate | app/src/common/app_main.c:155-180 | on an initialized session with an accepted flag, data chunks that fit together append their payloads in arrival order, however the bytes are split; every chunk succeeds, and only a Last reports completion |
| AppMain.LemmaInitAppendLast | app/src/common/app_main.c:143-180 | Init, then Append*, then Last with one flag: every chunk succeeds and only the last completes. The buffer is exactly the payloads in order, hdPath is the Init's path, and the tag is stake exactly when the flag is 1 |
| AppMain.StrayChunkRefused | app/src/common/app_main.c:155-174 | on the boot state a data chunk with P2 = 0 or 1 fails with TxNotInitialized and changes nothing |
| AppMain.GoodInitOpens | app/src/common/app_main.c:143-154 | an Init that passes extractHDPath empties the buffer, stores its path, zeroes parser_tx_obj with the stake tag its P2 asks for, and opens the session |
| AppMain.LemmaLastBeforeInitDoesNotPoison | app/src/common/app_main.c:155-174 | an Append or Last with P2 = 0 or 1 before any Init fails with TxNotInitialized and leaves the boot state, so a following Init, Append*, Last sequence still assembles its payloads and completes |
| AppMain.LemmaStakeMismatchKeepsSession | app/src/common/app_main.c:156-158 | after a stake Init, an Append with P2 = 0 fails with DataInvalid and changes nothing; the session stays initialized and a P2 = 1 chunk is then accepted |
| AppMain.LemmaFailedInitKeepsStaleSession | app/src/common/app_main.c:143-153 | as written: after a valid session, an Init whose path is refused fails with DataInvalid but leaves the session initialized under the refused path, and a following Last completes |
| AppMain.StepCorrected | app/src/common/app_main.c:143-153 | the intended step: a refused Init never leaves a live session |
| AppMain.LemmaCorrectedKeepsPathInv | app/src/common/app_main.c:143-153 | with the flag cleared on a failed Init, every initialized session holds a path the policy accepts, after any chunk |
| AppMain.LemmaCorrectedAgrees | app/src/common/app_main.c:127-184 | the correction returns the same result as the code on every chunk, and the same state except after a failed Init |
| AppMain.StatusWord | app/src/common/app_main.c:271-279 | codes with high nibble 6 or 9 pass unchanged; any other code keeps its low 11 bits under the 0x68 high bits; every status word sent has high nibble 6 or 9 |
| AppMain.LemmaStatusWordIdempotent | app/src/common/app_main.c:271-279 | folding a folded status word changes nothing |
| AppMain.LemmaChunkErrorsPassThrough | app/src/common/app_main.c:131-183 | every error the assembler throws reaches the host unchanged (given the not-initialized code is in the 0x6xxx range) |
| AppMain.DeviceInfo | app/src/common/app_main.c:191-208 | the reply is 7 + both version lengths long, at most 135 bytes; it opens with the target id big-endian, then the SE version's length, and has the zero flags byte and the MCU version's length right after the SE version |
| AppMain.LemmaDeviceInfoRoundTrip | app/src/common/app_main.c:189-208 | the device-info reply is 7 + both version lengths long, and a host reading its length-prefixed fields recovers the target id, both versions and an empty flags field |
| AppMain.App.constructor | app/src/common/app_main.c:127-184 | the globals start zeroed: not initialized, empty buffer, zeroed parser_tx_obj and path |
| AppMain.App.TxReset | app/src/common/app_main.c:144-145 | tx_initialize and tx_reset leave an empty transaction buffer |
| AppMain.App.TxAppend | app/src/common/app_main.c:162 | the new buffer and the count appended are those of AppendBounded |
| AppMain.App.ExtractHDPath | app/src/common/app_main.c:101-125 | a path shorter than 20 bytes fails with WrongLength and keeps hdPath; otherwise hdPath holds the copied words and the outcome is the path policy's |
| AppMain.App.ProcessChunk | app/src/common/app_main.c:127-184 | the new globals and the result are exactly those of Step, and the command buffer is untouched |
| AppMain.App.HandleGenericApdu | app/src/common/app_main.c:186-211 | a command longer than 4 bytes starting E0 01 00 00 is answered in place with the device-info reply, and its length is returned; any other command leaves the buffer and tx untouched |
| AppMain.App.WriteDeviceInfo | app/src/common/app_main.c:191-208 | the reply is written from the start of the buffer: the target id high byte first, the SE version behind its length, a zero flags byte, the MCU version behind its length; the length reported is the reply's and the bytes behind it stay as they were |
| AppMain.App.WriteBytes | app/src/common/app_main.c:193-206 | the bytes are written at the position, the position advances by their count, and every other byte of the buffer stays as it was |
| AppMain.App.SendStatus | app/src/common/app_main.c:269-282 | the folded status word is written high byte first at tx, tx advances by 2, and nothing else in the buffer changes |
| Addr.Snprintf | app/src/addr.c:43 | a zero-sized buffer is left alone; otherwise the key written is the longest prefix of the literal that leaves room for the terminator |
| Addr.Chunks | app/src/addr.c:45 | every page is non-empty and at most the display width |
| Addr.LemmaChunksReassemble | app/src/addr.c:45 | the pages of a value, put back together, are the value |
| Addr.LemmaChunkCount | app/src/addr.c:45 | the page count is ceil(L / W): zero exactly for the empty value, and the fewest W-character pages holding L characters |
| Addr.PageString | app/src/addr.c:45-62 | the page count is ceil(L / W) for W = outValLen − 1; every page fits; all pages but the last are full; a page index past the count gives an empty page; the pages put back together are the value |
| Addr.NumItems | app/src/addr.c:25-32 | an address review has 2 items, and 3 exactly in expert mode |
| Addr.GetNumItems | app/src/addr.c:25-32 | succeeds and reports NumItems |
| Addr.Item | app/src/addr.c:34-67 | an item succeeds only for an index below the item count, and an item that fails leaves the value buffer and page count as they were |
| Addr.GetItem | app/src/addr.c:34-67 | the status and buffers written are those of Item |
| Addr.LemmaFixedItems | app/src/addr.c:42-53 | in either mode, index 0 is the principal's paged text, or the renderer's error with the value left alone, and index 1 is the address's paged hex |
| Addr.LemmaPathOnlyInExpert | app/src/addr.c:55-63 | in normal mode index 2 has no data and writes nothing; in expert mode it is the path's paged text |
| Addr.LemmaOutOfRangeNoData | app/src/addr.c:65-66 | any other index, negative ones included, has no data and leaves the buffers alone |
| Addr.LemmaCountMatchesItems | app/src/addr.c:25-67 | an index has no data exactly when it lies outside 0..NumItems − 1 |
| HostCommon.LemmaMessageIdentifies | js/src/common.ts:154-180 | the four messages serializePath throws are told apart by their text: two failures give the same message exactly when they are the same failure, and a non-numeric component's message carries the component behind "Invalid path : " |
| HostCommon.NumberOf | js/src/common.ts:173-177 | a component is a number exactly when it is all decimal digits |
| HostCommon.ParseChildren | js/src/common.ts:165-186 | on success there is one value per component |
| HostCommon.ParsePath | js/src/common.ts:152-186 | on success there are exactly five component values |
| HostCommon.EncodePath | js/src/common.ts:163-185 | the buffer holds 4 bytes per component |
| HostCommon.LemmaEncodePathDecodes | js/src/common.ts:185 | word i of the buffer reads back, little-endian, as component i |
| HostCommon.ParseChild | js/src/common.ts:166-183 | a parsed component has the hardened bit exactly when it ends in `'`; a failure is ChildTooLarge or NotANumber |
| HostCommon.ReadChild | js/src/common.ts:166-183 | the loop body's value or error is that of ParseChild |
| HostCommon.WriteUInt32LE | js/src/common.ts:185 | writes the little-endian encoding of the value at the offset and leaves the rest of the buffer alone |
| HostCommon.WriteChild | js/src/common.ts:166-185 | one pass of the loop: the result is ParseChild of the component, and a value extends the buffer by its little-endian word, with zeros still behind it |
| HostCommon.SerializePath | js/src/common.ts:152-189 | succeeds exactly when ParsePath does, with the 20-byte little-endian encoding of the five values; otherwise the message of the Error it throws is the Message of ParsePath's failure |
| HostCommon.WriteComponents | js/src/common.ts:163-188 | the loop over components 1..5 fills the zeroed buffer with their encoding, or stops at the first failing component with its error |
| HostCommon.LemmaPathShape | js/src/common.ts:153-161 | a path without a leading m fails with NoLeadingM, and one that starts with m but does not split on `/` into 6 parts fails with WrongComponentCount; an accepted path passes both checks |
| HostCommon.LemmaChildValue | js/src/common.ts:168-183 | with a trailing `'` removed, a component that is not a number fails with NotANumber naming that part, and a number of 0x80000000 or more fails with ChildTooLarge; an accepted value is at least 0x80000000 exactly when the component was marked, and is the number modulo 0x80000000 |
| HostCommon.LemmaChildrenValues | js/src/common.ts:165-186 | the components succeed exactly when each succeeds, and value i is component i's value |
| HostCommon.LemmaChildRoundTrip | js/src/common.ts:166-183 | a component printed as index plus optional `'` parses back to its value and contains no `/` |
| HostCommon.LemmaFormatParseRoundTrip | js/src/common.ts:152-186 | a path printed as m/a/b/c/d/e from five valid components parses back to their values |
| HostCommon.ErrorCodeToString | js/src/common.ts:86-89 | a listed code gets its description, and any other code a message starting "Unknown Status Code: " |
| HostCommon.LemmaErrorCodeToString | js/src/common.ts:61-89 | a listed code gets its description; the message starts "Unknown Status Code: " exactly when the code is not listed (NaN included) |
| HostCommon.LemmaUnknownCodesDistinct | js/src/common.ts:86-89 | two unlisted codes with the same message are the same code |
| HostCommon.ReturnCode | js/src/common.ts:126-127 | the return code is the big-endian word in the last two bytes, and NaN exactly when there are fewer than two |
| HostCommon.TargetIdAsWritten | js/src/common.ts:132-133 | the id as written is a signed 32-bit value and agrees with the unsigned id modulo 2^32 |
| HostCommon.TargetId | js/src/common.ts:129-135 | the target id is bytes 5..8, read as an unsigned big-endian word, when the reply has them, and 0 otherwise |
| HostCommon.LemmaTargetIdSign | js/src/common.ts:132-133 | the id as written agrees with the unsigned one exactly when the reply is short or byte 5 is below 0x80; otherwise it is the unsigned id minus 2^32 |
| HostCommon.LemmaTargetIdCounterexample | js/src/common.ts:132-145 | a reply with target id 0x80000000 is reported as "-80000000" as written, and "80000000" when read unsigned |
| HostCommon.DecodeVersion | js/src/common.ts:124-146 | the return code and its message are those of the last two bytes, and the target id is a hexadecimal numeral whose value is the unsigned id |
| HostCommon.LemmaVersionRoundTrip | js/src/common.ts:124-146 | decoding a well-formed reply recovers the status word, its message, the test-mode and lock flags, the three version bytes and the target id, whose hex numeral reads back as the id |
| HostCommon.LemmaShortReply | js/src/common.ts:126-146 | a reply shorter than two bytes gives return code NaN, the message "Unknown Status Code: NaN" and target id "0" |
| HostDevice.LemmaSerializedPathDecodes | app/src/common/app_main.c:106 | the 20 bytes serializePath produces, placed behind OFFSET_DATA, are read by extractHDPath's copy as the same five components |
| HostDevice.LemmaHostPathReachesDevice | app/src/common/app_main.c:101-125 | a path printed as m/a/b/c/d/e from valid components parses to their values; sent in an Init as their encoding, it is stored component for component, and the Init succeeds exactly when the policy accepts those values |
| Text.LemmaNumeralRoundTrip | js/src/common.ts:145 | the base-16 (or base-10) numeral of n has only digits of that base and reads back as n |
| Text.NatToDecimal | js/src/common.ts:88 | the decimal numeral of n has only digits and reads back as n |
| Text.LemmaIntToNumeralInjective | js/src/common.ts:88 | distinct integers have distinct signed numerals |
| Text.LemmaSplitJoin | js/src/common.ts:157 | splitting the join of separator-free parts gives the parts back |

## Left out

- The main loop, `app_init`, `io_event` and the transport (`io_exchange`, `EXCEPTION_IO_RESET`). These are I/O. The model takes one received command at a time, with its length.
- `os_version`, `os_seph_version`: calls into the device OS. Their outputs are parameters of at most 64 bytes.
- The protobuf parser (`parser_parse`, `parser_validate`) and the nanopb message types. These are generated code outside this model. Each `pb_fields` arm holds the message as opaque bytes, and the arm it must populate for each `pbtype` is given by `TxDef.PbArmAgrees`.
- `addr_to_textual`, `array_to_hexstr`, `bip32_to_str`: the renderers are not part of this model. Their outputs are the fields of `Addr.Rendered`, and a failure of the first is its status.
- `zemu_log_stack` and the `snprintf` into the 300-byte log buffer in `addr_getItem`. These are debug logging with no effect on the results.
- `processErrorResponse`, `transport.send` and the other commands of the host library. These are I/O and promise handling. `getVersion` is modelled from the reply bytes on.
- `tests/ui_tests.cpp`: drives the external decoder, which is not part of this model.
- AppMain.AppendBounded: models `tx_append` as all or nothing. The real buffer may take a prefix. Either way `process_chunk` compares the count with the payload length, so its behaviour is the same.
- AppMain.App.ExtractHDPath: requires `rx >= offset`. In the source, `rx - offset` is an unsigned 32-bit subtraction that would wrap, but `process_chunk` has already checked `rx >= OFFSET_DATA`.
- AppMain.App.HandleGenericApdu: requires a command buffer of at least 135 bytes, enough for the longest reply. The source relies on `IO_APDU_BUFFER_SIZE` being that large.
- AppMain.LemmaChunkErrorsPassThrough: requires `APDU_CODE_TX_NOT_INITIALIZED` to be a 0x6xxx code. Its value is in a header that is not part of this model.
- Addr.PageString: requires `outValLen >= 2`. The behaviour of `pageString` on smaller buffers comes from a file that is not part of this model. The page count is kept as a natural number, without the truncation to `uint8_t`.
- HostCommon.NumberOf: JavaScript's `Number` also accepts blanks, signs, hexadecimal, fractions and exponents. The model treats all of those as NaN and covers exactly the decimal-digit strings. As in JavaScript, the empty string is 0.
- AppMain.Code: the numeric values of WrongLength (0x6700), OutputBufferTooSmall (0x6983), DataInvalid (0x6984) and InvalidP1P2 (0x6B00) come from the host library's `LedgerError` table in `js/src/common.ts`. The device header that defines the `APDU_CODE_*` constants is not part of this model, and `AppMain.LemmaChunkErrorsPassThrough` relies on these values.
- AppMain.Run: takes one expert mode for a whole sequence of chunks. The device reads `app_mode_expert()` again on every chunk, so `AppMain.LemmaCorrectedKeepsPathInv` and the scenario lemmas hold per mode. The network-prefix half of the path check does not depend on the mode (`AppMain.LemmaPrefixNeverRelaxed`).
- Text.IntToString: prints plain decimal digits for every integer. A JavaScript template literal switches to exponent form at |n| ≥ 10^21, so `HostCommon.LemmaUnknownCodesDistinct` carries over to JavaScript only below that. Codes that come from `HostCommon.ReturnCode` are below 2^16.
- AppMain.IsRestrictedValid: tests component 2 through `HDPATH_RESTRICTED_MASK`, as the code does, not for the hardened bit on its own. A path whose component 2 passes the mask test is accepted whether or not it is hardened in the strict sense.

## Findings

| source | as written | input that shows it | evidently intended | confidence | as-written member | corrected member |
|---|---|---|---|---|---|---|
| app/src/common/app_main.c:143-153 | An Init chunk runs `tx_reset` and copies the new path into `hdPath` before the policy check. When the check throws, `tx_initialized` keeps its value from the previous session | a complete valid session; then an Init whose path has a foreign coin type, refused with DataInvalid; then a Last with P2 = 1. The Last completes with `hdPath` holding the refused path, so the transaction can then be parsed, approved and signed under it | a failed Init clears `tx_initialized`, so no session is ever live under a path the policy refused | not executed | AppMain.LemmaFailedInitKeepsStaleSession | AppMain.LemmaCorrectedKeepsPathInv |
| js/src/common.ts:132-133 | `response[5] << 24` is JavaScript's signed 32-bit shift. A target id with its top bit set becomes negative | reply [0,1,2,3,0,0x80,0,0,0,0x90,0x00]: targetId is "-80000000" | the unsigned id bytes 5..8, printed in hexadecimal: "80000000" | not executed | HostCommon.LemmaTargetIdCounterexample | HostCommon.TargetId |

For the first finding, `AppMain.Step` and `AppMain.App.ProcessChunk` keep the code as written. The corrected step is `AppMain.StepCorrected`. `AppMain.LemmaCorrectedAgrees` shows that it differs only in the flag after a failed Init, and `AppMain.LemmaCorrectedKeepsPathInv` shows that it keeps the path invariant. For the second finding, `HostCommon.DecodeVersion` uses the corrected `HostCommon.TargetId`. The as-written `HostCommon.TargetIdAsWritten` is compared against it in `HostCommon.LemmaTargetIdSign`.
