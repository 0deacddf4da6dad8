# Substreams token discovery and NFT holder ledger, in Dafny

This project models the three handlers of a Substreams module for Ethereum
blocks, and proves what they do:

- `map_tokens` walks every call of every transaction trace in a block. It keeps
  the calls that could have deployed a fungible token: contract creations with
  more than 150 bytes of installed code, and OpenZeppelin proxy
  `initialize(...)` calls (selector `0x1459457a`). It drops reverted calls and
  two known factory callers. It then confirms each candidate with two read-only
  call batches: `decimals`, then `name` and `symbol`. A token record is
  appended only when every call and every decode succeeds.
- `map_transfers` projects the decoded ERC-721 `Transfer` events of the tracked
  contract into transfer records.
- `store_transfers` keeps one balance per holder on an add-only store. A
  transfer debits its sender unless it is a mint and credits its receiver
  unless it is a burn. Both operations use the key built by `generate_key`.

Modules:

- `Encoding` holds the fixed-width integers, byte strings and the lowercase
  hexadecimal rendering of addresses. It proves the rendering injective.
- `TokenDiscovery` holds `map_tokens`.
  - `InspectCall` is the guard cascade for one call, including the loop that
    sums the sizes of the installed code.
  - `MapTokens` is the nested loop over the block.
  - Both methods are proved equal to declarative functions: `CallVerdict` and
    `RpcRequests` for one call, `Discover` over the flattened calls.
  - The properties of the handler are lemmas about those functions.
- `Erc721` holds `map_transfers`.
- `Ledger` holds `generate_key` and the add-only store, a class `AddStore`
  whose state is the map of values and the log of `add` operations.
  - `StoreTransfers` is proved to append exactly `LedgerOps(transfers)` to the
    log.
  - The lemmas say what those operations mean for each holder's balance.

The read-only call service and the two payload decoders belong to the host and
to files outside this model. They are the fields of an `Env` parameter. Every
statement about token discovery holds for any service and any decoders,
including a service that answers fewer responses than requested.

The name/symbol batch asks for two methods. The handler, however, decodes the
name from response 1 and the symbol from response 2. The model keeps these
indices. An index past the end of a response vector is a panic
(`Abort(IndexOutOfRange(...))`), and a panic ends the whole block with no
output. `TwoResponseBatchNeverEmits` and `TwoResponseBatchesYieldNothing` state
the consequence: a service that answers exactly one response per requested
method never lets a token through.

## Model

| member | source | states |
|---|---|---|
| TokenDiscovery.InspectCall | src/lib.rs:67-194 | The verdict on one call (skip with a reason, emit a token, or abort on an out-of-range response index) and the batches it sends are exactly those of the declarative `CallVerdict` and `RpcRequests`; the size accumulation loop computes the total installed code size |
| TokenDiscovery.MapTokens | src/lib.rs:63-198 | The token list, or the panic, and every batch sent for a block are those of `Discover` over all calls in transaction order, then call order; the handler stops at the first panic |
| TokenDiscovery.Screen | src/lib.rs:67-116 | The guard cascade rejects nothing exactly when the call is live, is a creation with more than 150 bytes of code or a message call with the initializer selector, and does not come from a known factory caller |
| TokenDiscovery.OnlyLiveCreateOrCall | src/lib.rs:67-70 | A reverted call is skipped; a call that is neither a creation nor a message call is skipped; a call that yields a token is live and is one of the two |
| TokenDiscovery.InitializeSelectorGuard | src/lib.rs:72-79 | A message call with fewer than 4 input bytes is skipped, not an error; a message call is skipped at this guard exactly when it lacks the `0x1459457a` selector; a token from a message call implies that selector |
| TokenDiscovery.CreationSizeGuard | src/lib.rs:81-103 | A creation is skipped as too small exactly when its installed code totals at most 150 bytes; 150 is skipped and 151 passes the guard |
| TokenDiscovery.InitializeCallNotSizeChecked | src/lib.rs:72-109 | An initializer message call is never rejected for code size; it passes the guards exactly when its caller is not a known factory |
| TokenDiscovery.FactoryCallerNoRpc | src/lib.rs:111-116 | A call from either known factory address is skipped and sends no batch, whatever the service would answer |
| TokenDiscovery.StagedRequests | src/lib.rs:118-145 | A call that passes the guards sends the `decimals` batch first; it sends the `name`/`symbol` batch second exactly when decimals answered, did not fail and decoded |
| TokenDiscovery.EmitIff | src/lib.rs:118-194 | A call yields a token iff it passes the guards, the decimals response succeeds and decodes, responses 0 and 1 of the second batch do not fail, and responses 1 and 2 decode as strings; the token holds the hex address, those two strings and the decoded 32-bit decimals widened to 64 bits |
| TokenDiscovery.TwoResponseBatchNeverEmits | src/lib.rs:142-177 | When the name/symbol batch has two responses, no token is yielded; the call panics at response index 2 exactly when every earlier check passes |
| TokenDiscovery.EmittedProvenance | src/lib.rs:64-66 | At most one token per call, and every token comes from a call that passed the guards and was confirmed |
| TokenDiscovery.DiscoverWithoutPanic | src/lib.rs:64-198 | When no call panics, the output is exactly the tokens of the confirmed calls, in call order; the list is only appended to |
| TokenDiscovery.FirstPanicDecides | src/lib.rs:122-169 | The first call that reads past a response vector decides the outcome of the whole block, whatever the calls after it |
| TokenDiscovery.TwoResponseBatchesYieldNothing | src/lib.rs:142-198 | With a service answering two responses to every name/symbol batch, the block's output is empty or a panic |
| TokenDiscovery.RequestsOnlyForCandidates | src/lib.rs:111-144 | Every batch sent to the service targets the address of a call that passed all guards |
| Erc721.MapTransfers | src/lib.rs:20-37 | One record per event, in event order, with the transaction hash, sender and receiver copied, the token id narrowed by the library, and the ordinal equal to the log's block index |
| Encoding.HexInjective | src/lib.rs:57 | Distinct byte strings have distinct hexadecimal renderings |
| Ledger.GenerateKeyInjective | src/lib.rs:56-58 | `GenerateKey` builds `"total:" + Hex(holder) + ":" + TRACKED_CONTRACT_HEX`; the key determines the holder: distinct holders never share a key |
| Ledger.AddStore.Add | src/lib.rs:46 | One `add` appends its operation to the log and adds the delta to the key's value, a missing key counting as zero; the values stay the log applied to the initial values |
| Ledger.StoreTransfers | src/lib.rs:41-54 | The log grows by exactly `LedgerOps(transfers)`: per transfer, in order, a debit of the sender unless it is the null address, then a credit of the receiver unless it is the null address, both at the transfer's ordinal; the values are those operations applied to the old values |
| Ledger.LedgerOpsProvenance | src/lib.rs:43-53 | Every issued operation is the debit of a non-null sender or the credit of a non-null receiver of some transfer, at that transfer's ordinal; no other operation is issued |
| Ledger.HolderBalance | src/lib.rs:43-58 | The deltas added to a holder's key sum to the number of transfers it received minus the number it sent; the deltas on the null address's key net zero |
| Ledger.NullKeyNeverAdded | src/lib.rs:44-51 | No operation is ever issued on the null address's key: a mint only credits its receiver and a burn only debits its sender |
| Ledger.ApplyAllValue | src/lib.rs:46-51 | After any operations, a key holds its earlier value plus the sum of the deltas added to it |
| Ledger.ApplyAllKeys | src/lib.rs:46-51 | A key is present after the operations iff it was present before or some operation added to it |
| Ledger.FinalValuesOrderIndependent | src/lib.rs:46-51 | Applying two batches of additions in either order gives the same final values |
| Ledger.LedgerOpsSorted | src/lib.rs:43-53 | Transfers in ordinal order give operations in ordinal order |
| Ledger.MappedLedgerOpsSorted | src/lib.rs:28-32 | Events in block-index order, mapped and stored, give operations in ordinal order |

## Left out

- The read-only call service (`eth_call`) and the batch builder `create_rpc_calls` belong to the host and to `src/rpc_utils.rs`, which is not part of this model. They are the `Env.ethCall` parameter. The method selectors are the `Method` enumeration rather than bytes.
- The decoders `read_uint32` and `read_string` come from `src/eth_utils.rs`, which is not part of this model. They are parameters returning a result.
- Erc721.MapTransfers: matching and decoding ERC-721 `Transfer` logs belong to the ABI bindings and the host, and the narrowing of a token id to 64 bits is the Substreams library's `BigInt::to_u64`. The function takes decoded events, and the narrowing as a total parameter `toU64: int -> u64`, so a narrowing that fails or panics on an out-of-range id is not expressed.
- The host's `StoreAddInt64` is modelled as unbounded integers. The model leaves out the host's 64-bit overflow and the way it merges and replays operations by ordinal.
- Logging is left out, along with the lossy UTF-8 rendering of error payloads. The one exception is the diagnostic read of response 1 when response 0 failed: it can panic, so the model keeps it.
- InspectCall: the code-size sum is unbounded, so the model leaves out `usize` overflow.
- The `Hex` formatter is modelled as lowercase, two digits per byte, no prefix. The tracked contract is held by its rendering in ledger keys.
- Call types are an enumeration of the host's call kinds, not the raw protobuf integer.
- Runtime initialisation, handler attributes and protobuf plumbing are left out.
