/**
 * The per-holder balance ledger of the tracked NFT contract
 * (`store_transfers`, `generate_key`) on an additive store.
 *
 * The store is the host's `add`-only key/value store: its state is the map of
 * current values and the ordered log of `add` operations applied to it.
 */
module Ledger {
  import opened Encoding
  import opened Erc721

  /** The all-zero 20-byte address: a mint has it as sender, a burn as receiver. */
  const NULL_ADDRESS: Bytes :=
    [0, 0, 0, 0, 0, 0, 0, 0, 0, 0, 0, 0, 0, 0, 0, 0, 0, 0, 0, 0]

  /** The tracked contract's address as it appears in ledger keys (lowercase hexadecimal, no prefix). */
  const TRACKED_CONTRACT_HEX: string := "bc4ca0eda7647a8ab7c2061c2e118a18a936f13d"

  /** The ledger key of a holder: "total:<holder hex>:<tracked contract hex>". */
  function GenerateKey(holder: Bytes): string
  {
    "total:" + Hex(holder) + ":" + TRACKED_CONTRACT_HEX
  }

  /** Distinct holders have distinct keys, so a key identifies its holder. */
  lemma GenerateKeyInjective(a: Bytes, b: Bytes)
    requires GenerateKey(a) == GenerateKey(b)
    ensures a == b
  {
    FramedHexInjective("total:", ":", TRACKED_CONTRACT_HEX, a, b);
  }

  lemma FramedHexInjective(p: string, q: string, r: string, a: Bytes, b: Bytes)
    requires p + Hex(a) + q + r == p + Hex(b) + q + r
    ensures a == b
  {
    var ka, kb := p + Hex(a) + q + r, p + Hex(b) + q + r;
    assert |a| == |b|;
    assert ka[|p|..|p| + 2 * |a|] == Hex(a);
    assert kb[|p|..|p| + 2 * |b|] == Hex(b);
    HexInjective(a, b);
  }

  // ---------------------------------------------------------------------------
  // The additive store
  // ---------------------------------------------------------------------------

  /** One `add(ordinal, key, delta)` issued to the store. */
  datatype AddOp = AddOp(ordinal: u64, key: string, delta: int)

  /** The value of a key; a key never added to reads as zero. */
  function Value(m: map<string, int>, key: string): int
  {
    if key in m then m[key] else 0
  }

  /** The values after applying a sequence of operations in order. */
  function ApplyAll(m: map<string, int>, ops: seq<AddOp>): map<string, int>
  {
    if ops == [] then m
    else
      var prev := ApplyAll(m, ops[..|ops| - 1]);
      var op := ops[|ops| - 1];
      prev[op.key := Value(prev, op.key) + op.delta]
  }

  class AddStore {
    var values: map<string, int>
    var log: seq<AddOp>
    /** The values before the first logged operation. */
    ghost var initial: map<string, int>

    ghost predicate Valid()
      reads this
    {
      values == ApplyAll(initial, log)
    }

    constructor ()
      ensures Valid() && values == map[] && log == [] && initial == map[]
    {
      values, log, initial := map[], [], map[];
    }

    /** Adds `delta` to the value of `key` and records the operation. */
    method Add(ordinal: u64, key: string, delta: int)
      requires Valid()
      modifies this
      ensures Valid() && initial == old(initial)
      ensures log == old(log) + [AddOp(ordinal, key, delta)]
      ensures values == old(values)[key := Value(old(values), key) + delta]
    {
      log := log + [AddOp(ordinal, key, delta)];
      values := values[key := Value(values, key) + delta];
      assert log[..|log| - 1] == old(log);
    }
  }

  // ---------------------------------------------------------------------------
  // store_transfers
  // ---------------------------------------------------------------------------

  /** The operations for one transfer: a debit of the sender unless it is a mint, then a credit of the receiver unless it is a burn. */
  function TransferOps(t: Transfer): seq<AddOp>
  {
    (if t.from != NULL_ADDRESS then [AddOp(t.ordinal, GenerateKey(t.from), -1)] else [])
    + (if t.to != NULL_ADDRESS then [AddOp(t.ordinal, GenerateKey(t.to), 1)] else [])
  }

  /** The operations for a list of transfers, in transfer order. */
  function LedgerOps(ts: seq<Transfer>): seq<AddOp>
  {
    if ts == [] then [] else TransferOps(ts[0]) + LedgerOps(ts[1..])
  }

  /** `store_transfers`: issues the ledger operations of every transfer, in order. */
  method StoreTransfers(transfers: seq<Transfer>, s: AddStore)
    requires s.Valid()
    modifies s
    ensures s.Valid() && s.initial == old(s.initial)
    ensures s.log == old(s.log) + LedgerOps(transfers)
    ensures s.values == ApplyAll(old(s.values), LedgerOps(transfers))
  {
    for i := 0 to |transfers|
      invariant s.Valid() && s.initial == old(s.initial)
      invariant s.log == old(s.log) + LedgerOps(transfers[..i])
    {
      var transfer := transfers[i];
      ghost var before, issued := s.log, [];
      if transfer.from != NULL_ADDRESS {
        s.Add(transfer.ordinal, GenerateKey(transfer.from), -1);
        issued := [AddOp(transfer.ordinal, GenerateKey(transfer.from), -1)];
      }
      assert s.log == before + issued;
      if transfer.to != NULL_ADDRESS {
        s.Add(transfer.ordinal, GenerateKey(transfer.to), 1);
        ConcatAssoc(before, issued, [AddOp(transfer.ordinal, GenerateKey(transfer.to), 1)]);
        issued := issued + [AddOp(transfer.ordinal, GenerateKey(transfer.to), 1)];
      }
      assert s.log == before + issued;
      assert issued == TransferOps(transfer);
      LogGrowsByTransfer(old(s.log), transfers, i);
    }
    assert transfers[..|transfers|] == transfers;
    ApplyAllAppend(s.initial, old(s.log), LedgerOps(transfers));
  }

  // ---------------------------------------------------------------------------
  // Lemmas
  // ---------------------------------------------------------------------------

  lemma {:induction false} ApplyAllAppend(m: map<string, int>, a: seq<AddOp>, b: seq<AddOp>)
    ensures ApplyAll(m, a + b) == ApplyAll(ApplyAll(m, a), b)
  {
    if b == [] {
      assert a + b == a;
    } else {
      assert (a + b)[..|a + b| - 1] == a + b[..|b| - 1];
      ApplyAllAppend(m, a, b[..|b| - 1]);
    }
  }

  /** The log after one more transfer: the operations of the prefix, then those of the transfer. */
  lemma LogGrowsByTransfer(base: seq<AddOp>, ts: seq<Transfer>, i: nat)
    requires i < |ts|
    ensures base + LedgerOps(ts[..i]) + TransferOps(ts[i]) == base + LedgerOps(ts[..i + 1])
  {
    assert ts[..i + 1] == ts[..i] + [ts[i]];
    LedgerOpsSnoc(ts[..i], ts[i]);
    ConcatAssoc(base, LedgerOps(ts[..i]), TransferOps(ts[i]));
  }

  lemma ConcatAssoc<T>(a: seq<T>, b: seq<T>, c: seq<T>)
    ensures (a + b) + c == a + (b + c)
  {
  }

  lemma LedgerOpsSnoc(ts: seq<Transfer>, t: Transfer)
    ensures LedgerOps(ts + [t]) == LedgerOps(ts) + TransferOps(t)
  {
    LedgerOpsAppend(ts, [t]);
    assert [t][1..] == [];
    assert LedgerOps([t]) == TransferOps(t) + LedgerOps([]);
  }

  lemma {:induction false} LedgerOpsAppend(a: seq<Transfer>, b: seq<Transfer>)
    ensures LedgerOps(a + b) == LedgerOps(a) + LedgerOps(b)
  {
    if a == [] {
      assert a + b == b;
    } else {
      assert (a + b)[1..] == a[1..] + b;
      LedgerOpsAppend(a[1..], b);
    }
  }

  // ---------------------------------------------------------------------------
  // What the operations mean
  // ---------------------------------------------------------------------------

  /** Sum of the deltas added to one key. */
  function KeySum(ops: seq<AddOp>, key: string): int
  {
    if ops == [] then 0
    else (if ops[0].key == key then ops[0].delta else 0) + KeySum(ops[1..], key)
  }

  lemma {:induction false} KeySumAppend(a: seq<AddOp>, b: seq<AddOp>, key: string)
    ensures KeySum(a + b, key) == KeySum(a, key) + KeySum(b, key)
  {
    if a == [] {
      assert a + b == b;
    } else {
      assert (a + b)[1..] == a[1..] + b;
      KeySumAppend(a[1..], b, key);
    }
  }

  /** After any sequence of operations, a key holds its old value plus the sum of the deltas added to it. */
  lemma {:induction false} ApplyAllValue(m: map<string, int>, ops: seq<AddOp>, key: string)
    ensures Value(ApplyAll(m, ops), key) == Value(m, key) + KeySum(ops, key)
  {
    if ops != [] {
      var p, op := ops[..|ops| - 1], ops[|ops| - 1];
      ApplyAllValue(m, p, key);
      assert ops == p + [op];
      KeySumAppend(p, [op], key);
      assert [op][1..] == [];
    }
  }

  /** A key is present after the operations iff it was present before or some operation added to it. */
  lemma {:induction false} ApplyAllKeys(m: map<string, int>, ops: seq<AddOp>, key: string)
    ensures key in ApplyAll(m, ops) <==> key in m || exists i :: 0 <= i < |ops| && ops[i].key == key
  {
    if ops != [] {
      var p := ops[..|ops| - 1];
      ApplyAllKeys(m, p, key);
      if exists i :: 0 <= i < |p| && p[i].key == key {
        var i :| 0 <= i < |p| && p[i].key == key;
        assert ops[i].key == key;
      }
      if exists i :: 0 <= i < |ops| && ops[i].key == key {
        var i :| 0 <= i < |ops| && ops[i].key == key;
        assert i < |p| ==> p[i].key == key;
      }
    }
  }

  /** The final values do not depend on the order in which two batches of operations are applied. */
  lemma FinalValuesOrderIndependent(m: map<string, int>, a: seq<AddOp>, b: seq<AddOp>)
    ensures ApplyAll(m, a + b) == ApplyAll(m, b + a)
  {
    var x, y := ApplyAll(m, a + b), ApplyAll(m, b + a);
    forall key | key in x || key in y
      ensures key in x && key in y && x[key] == y[key]
    {
      ApplyAllKeys(m, a + b, key);
      ApplyAllKeys(m, b + a, key);
      if exists i :: 0 <= i < |a + b| && (a + b)[i].key == key {
        var i :| 0 <= i < |a + b| && (a + b)[i].key == key;
        if i < |a| {
          assert (b + a)[|b| + i].key == key;
        } else {
          assert (b + a)[i - |a|].key == key;
        }
      }
      if exists i :: 0 <= i < |b + a| && (b + a)[i].key == key {
        var i :| 0 <= i < |b + a| && (b + a)[i].key == key;
        if i < |b| {
          assert (a + b)[|a| + i].key == key;
        } else {
          assert (a + b)[i - |b|].key == key;
        }
      }
      ApplyAllValue(m, a + b, key);
      ApplyAllValue(m, b + a, key);
      KeySumAppend(a, b, key);
      KeySumAppend(b, a, key);
    }
  }

  /** Transfers received by a holder (never the null address). */
  function Received(ts: seq<Transfer>, holder: Bytes): nat
  {
    if ts == [] then 0
    else (if holder != NULL_ADDRESS && ts[0].to == holder then 1 else 0) + Received(ts[1..], holder)
  }

  /** Transfers sent by a holder (never the null address). */
  function Sent(ts: seq<Transfer>, holder: Bytes): nat
  {
    if ts == [] then 0
    else (if holder != NULL_ADDRESS && ts[0].from == holder then 1 else 0) + Sent(ts[1..], holder)
  }

  /** What an optional single operation adds to a holder's key. */
  lemma EntryKeySum(present: bool, ordinal: u64, party: Bytes, delta: int, holder: Bytes)
    ensures KeySum(if present then [AddOp(ordinal, GenerateKey(party), delta)] else [], GenerateKey(holder)) ==
      (if present && party == holder then delta else 0)
  {
    if present && GenerateKey(party) == GenerateKey(holder) {
      GenerateKeyInjective(party, holder);
    }
  }

  /** What one transfer's operations add to a holder's key. */
  lemma TransferKeySum(t: Transfer, holder: Bytes)
    ensures KeySum(TransferOps(t), GenerateKey(holder)) ==
      (if holder != NULL_ADDRESS && t.to == holder then 1 else 0)
      - (if holder != NULL_ADDRESS && t.from == holder then 1 else 0)
  {
    var key := GenerateKey(holder);
    var debit := if t.from != NULL_ADDRESS then [AddOp(t.ordinal, GenerateKey(t.from), -1)] else [];
    var credit := if t.to != NULL_ADDRESS then [AddOp(t.ordinal, GenerateKey(t.to), 1)] else [];
    KeySumAppend(debit, credit, key);
    EntryKeySum(t.from != NULL_ADDRESS, t.ordinal, t.from, -1, holder);
    EntryKeySum(t.to != NULL_ADDRESS, t.ordinal, t.to, 1, holder);
  }

  /** A holder's ledger entry moves by the transfers it received minus those it sent; the null address never moves. */
  lemma {:induction false} HolderBalance(ts: seq<Transfer>, holder: Bytes)
    ensures KeySum(LedgerOps(ts), GenerateKey(holder)) == Received(ts, holder) - Sent(ts, holder)
    ensures holder == NULL_ADDRESS ==> KeySum(LedgerOps(ts), GenerateKey(holder)) == 0
  {
    if ts != [] {
      HolderBalance(ts[1..], holder);
      KeySumAppend(TransferOps(ts[0]), LedgerOps(ts[1..]), GenerateKey(holder));
      TransferKeySum(ts[0], holder);
    }
  }

  /** `op` is the debit of `t`'s non-null sender or the credit of its non-null receiver, at `t`'s ordinal. */
  predicate IssuedFor(op: AddOp, t: Transfer)
  {
    && op.ordinal == t.ordinal
    && ((op.delta == -1 && t.from != NULL_ADDRESS && op.key == GenerateKey(t.from))
        || (op.delta == 1 && t.to != NULL_ADDRESS && op.key == GenerateKey(t.to)))
  }

  /** Every operation is a debit or a credit issued for some transfer: no other operations are issued. */
  lemma {:induction false} LedgerOpsProvenance(ts: seq<Transfer>)
    ensures forall op :: op in LedgerOps(ts) ==> exists i :: 0 <= i < |ts| && IssuedFor(op, ts[i])
  {
    if ts != [] {
      LedgerOpsProvenance(ts[1..]);
      forall op | op in LedgerOps(ts)
        ensures exists i :: 0 <= i < |ts| && IssuedFor(op, ts[i])
      {
        assert LedgerOps(ts) == TransferOps(ts[0]) + LedgerOps(ts[1..]);
        if op in TransferOps(ts[0]) {
          assert IssuedFor(op, ts[0]);
        } else {
          assert op in LedgerOps(ts[1..]);
          var i :| 0 <= i < |ts[1..]| && IssuedFor(op, ts[1..][i]);
          assert ts[1..][i] == ts[i + 1];
        }
      }
    }
  }

  /** No operation is ever issued on the null address's key: mints and burns touch only the other party. */
  lemma NullKeyNeverAdded(ts: seq<Transfer>)
    ensures forall op :: op in LedgerOps(ts) ==> op.key != GenerateKey(NULL_ADDRESS)
  {
    LedgerOpsProvenance(ts);
    forall op | op in LedgerOps(ts) ensures op.key != GenerateKey(NULL_ADDRESS) {
      var i :| 0 <= i < |ts| && IssuedFor(op, ts[i]);
      NotNullKey(op, ts[i]);
    }
  }

  lemma NotNullKey(op: AddOp, t: Transfer)
    requires IssuedFor(op, t)
    ensures op.key != GenerateKey(NULL_ADDRESS)
  {
    var party := if op.delta == -1 then t.from else t.to;
    assert party != NULL_ADDRESS && op.key == GenerateKey(party);
    if op.key == GenerateKey(NULL_ADDRESS) {
      GenerateKeyInjective(party, NULL_ADDRESS);
    }
  }

  predicate OrdinalsSorted(ts: seq<Transfer>)
  {
    forall i, j :: 0 <= i < j < |ts| ==> ts[i].ordinal <= ts[j].ordinal
  }

  predicate OpsSorted(ops: seq<AddOp>)
  {
    forall i, j :: 0 <= i < j < |ops| ==> ops[i].ordinal <= ops[j].ordinal
  }

  /** Two sorted runs whose boundary is in order form a sorted run. */
  lemma OpsSortedAppend(a: seq<AddOp>, b: seq<AddOp>, bound: u64)
    requires OpsSorted(a) && OpsSorted(b)
    requires forall op :: op in a ==> op.ordinal <= bound
    requires forall op :: op in b ==> bound <= op.ordinal
    ensures OpsSorted(a + b)
  {
    forall i, j | 0 <= i < j < |a + b|
      ensures (a + b)[i].ordinal <= (a + b)[j].ordinal
    {
      if j < |a| {
        assert (a + b)[i] == a[i] && (a + b)[j] == a[j];
      } else if i >= |a| {
        assert (a + b)[i] == b[i - |a|] && (a + b)[j] == b[j - |a|];
      } else {
        assert (a + b)[i] in a && (a + b)[j] in b;
      }
    }
  }

  /** Every operation carries its transfer's ordinal. */
  lemma TransferOpsOrdinal(t: Transfer)
    ensures forall op :: op in TransferOps(t) ==> op.ordinal == t.ordinal
  {
  }

  /** Operations of transfers at or after `bound` are at or after `bound`. */
  lemma {:induction false} LedgerOpsAtLeast(ts: seq<Transfer>, bound: u64)
    requires forall i :: 0 <= i < |ts| ==> bound <= ts[i].ordinal
    ensures forall op :: op in LedgerOps(ts) ==> bound <= op.ordinal
  {
    if ts != [] {
      LedgerOpsAtLeast(ts[1..], bound);
      TransferOpsOrdinal(ts[0]);
      assert LedgerOps(ts) == TransferOps(ts[0]) + LedgerOps(ts[1..]);
    }
  }

  /** Transfers in ordinal order give operations in ordinal order, the order the host replays them per key. */
  lemma {:induction false} LedgerOpsSorted(ts: seq<Transfer>)
    requires OrdinalsSorted(ts)
    ensures OpsSorted(LedgerOps(ts))
  {
    if ts != [] {
      var t, rest := ts[0], ts[1..];
      assert OrdinalsSorted(rest) by {
        forall i, j | 0 <= i < j < |rest| ensures rest[i].ordinal <= rest[j].ordinal {
          assert rest[i] == ts[i + 1] && rest[j] == ts[j + 1];
        }
      }
      LedgerOpsSorted(rest);
      assert forall i :: 0 <= i < |rest| ==> t.ordinal <= rest[i].ordinal by {
        forall i | 0 <= i < |rest| ensures t.ordinal <= rest[i].ordinal {
          assert rest[i] == ts[i + 1];
        }
      }
      LedgerOpsAtLeast(rest, t.ordinal);
      TransferOpsOrdinal(t);
      OpsSortedAppend(TransferOps(t), LedgerOps(rest), t.ordinal);
    }
  }

  /** Transfer events in log order yield ledger operations in ordinal order. */
  lemma MappedLedgerOpsSorted(events: seq<TransferEvent>, toU64: int -> u64)
    requires forall i, j :: 0 <= i < j < |events| ==> events[i].blockIndex <= events[j].blockIndex
    ensures OpsSorted(LedgerOps(MapTransfers(events, toU64)))
  {
    var ts := MapTransfers(events, toU64);
    assert OrdinalsSorted(ts);
    LedgerOpsSorted(ts);
  }
}
