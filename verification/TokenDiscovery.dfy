/**
 * Discovery of fungible-token contracts in a block's call traces (`map_tokens`).
 *
 * A call is a candidate when it creates a contract, or when it is a message
 * call to the OpenZeppelin proxy `initialize` entry point. Candidates are then
 * pruned (reverted, too little deployed code, known factory callers) before any
 * read-only call is made, and confirmed by two read-only batches: `decimals`
 * first, then `name` and `symbol`.
 *
 * The read-only call service and the two payload decoders are not part of this
 * model; they are the fields of `Env`, so every statement below holds for any
 * service and any decoders.
 */
module TokenDiscovery {
  import opened Encoding

  // ---------------------------------------------------------------------------
  // Block data (the parts of a transaction trace the discovery reads)
  // ---------------------------------------------------------------------------

  datatype CallType = Unspecified | Call | CallCode | Delegate | Static | Create

  /** One code installation recorded on a call; only the new code is read. */
  datatype CodeChange = CodeChange(newCode: Bytes)

  /** One node of a transaction's call tree, as the host flattens it. */
  datatype CallTrace = CallTrace(
    callType: CallType,
    stateReverted: bool,
    caller: Bytes,
    address: Bytes,
    input: Bytes,
    codeChanges: seq<CodeChange>)

  datatype TransactionTrace = TransactionTrace(calls: seq<CallTrace>)

  // ---------------------------------------------------------------------------
  // The read-only call service and the decoders, as parameters
  // ---------------------------------------------------------------------------

  /** The ERC-20 view methods the discovery asks for. */
  datatype Method = Decimals | Name | Symbol

  /** One batch submitted to the read-only call service. */
  datatype Request = Request(target: Bytes, methods: seq<Method>)

  /** One answer of the read-only call service. */
  datatype RpcResponse = RpcResponse(failed: bool, raw: Bytes)

  /**
   * `ethCall` answers a batch of methods against an address; nothing forces it
   * to return one response per method. `readUint32` and `readString` decode a
   * raw payload or fail.
   */
  datatype Env = Env(
    ethCall: (Bytes, seq<Method>) -> seq<RpcResponse>,
    readUint32: Bytes -> Result<u32, string>,
    readString: Bytes -> Result<string, string>)

  // ---------------------------------------------------------------------------
  // Results
  // ---------------------------------------------------------------------------

  datatype Option<T> = None | Some(value: T)

  datatype Token = Token(address: string, name: string, symbol: string, decimals: u64)

  /** Why a call yields no token (diagnostic only, never fatal). */
  datatype Rejection =
    | Reverted
    | NotCreateOrCall
    | NotInitializeCall
    | CodeTooSmall(size: nat)
    | KnownFactoryCaller
    | DecimalsCallFailed
    | DecimalsUndecodable(error: string)
    | NameSymbolCallFailed
    | NameUndecodable(error: string)
    | SymbolUndecodable(error: string)

  datatype Batch = DecimalsBatch | NameSymbolBatch

  /** A panic: an index into a batch's response vector that is out of range. */
  datatype Fault = IndexOutOfRange(batch: Batch, index: nat, length: nat)

  /** What one call contributes. */
  datatype Verdict = Skip(reason: Rejection) | Emit(token: Token) | Abort(fault: Fault)

  /** The handler's result: the token list, or the panic that ended the block. */
  datatype Outcome = Tokens(tokens: seq<Token>) | Panicked(fault: Fault)

  /** The outcome together with every batch issued to the service, in order. */
  datatype Trace = Trace(outcome: Outcome, requests: seq<Request>)

  // ---------------------------------------------------------------------------
  // Constants
  // ---------------------------------------------------------------------------

  /** Selector of `initialize(...)` called by an OpenZeppelin proxy: 0x1459457a. */
  const INITIALIZE_METHOD_HASH: Bytes := [0x14, 0x59, 0x45, 0x7a]

  /** Two deployment factories whose creations are never tokens. */
  const FACTORY_CALLER_A: Bytes :=
    [0x00, 0x00, 0x00, 0x00, 0x00, 0x00, 0x49, 0x46, 0xc0, 0xe9,
     0xf4, 0x3f, 0x4d, 0xee, 0x60, 0x7b, 0x0e, 0xf1, 0xfa, 0x1c]
  const FACTORY_CALLER_B: Bytes :=
    [0x00, 0x00, 0x00, 0x00, 0x68, 0x7f, 0x5b, 0x66, 0x63, 0x88,
     0x56, 0x39, 0x6b, 0xee, 0x28, 0xc1, 0xdb, 0x01, 0x78, 0xd1]

  /** A creation whose installed code totals at most this many bytes is skipped. */
  const MAX_NON_TOKEN_CODE_SIZE: nat := 150

  // ---------------------------------------------------------------------------
  // Candidate classification
  // ---------------------------------------------------------------------------

  /** Total length of the code installed by a call, summed in order. */
  function CodeSize(changes: seq<CodeChange>): nat
  {
    if changes == [] then 0
    else CodeSize(changes[..|changes| - 1]) + |changes[|changes| - 1].newCode|
  }

  predicate HasInitializeSelector(input: Bytes)
  {
    |input| >= 4 && input[..4] == INITIALIZE_METHOD_HASH
  }

  predicate IsKnownFactory(caller: Bytes)
  {
    caller == FACTORY_CALLER_A || caller == FACTORY_CALLER_B
  }

  /** Declarative statement of which calls reach the read-only calls. */
  predicate AcceptedBeforeRpc(c: CallTrace)
  {
    && !c.stateReverted
    && ((c.callType == Create && CodeSize(c.codeChanges) > MAX_NON_TOKEN_CODE_SIZE)
        || (c.callType == CallType.Call && HasInitializeSelector(c.input)))
    && !IsKnownFactory(c.caller)
  }

  /** The guards in the order the handler applies them; the first that fails names the rejection. */
  function Screen(c: CallTrace): (r: Option<Rejection>)
    ensures r == None <==> AcceptedBeforeRpc(c)
  {
    if c.stateReverted then Some(Reverted)
    else if c.callType != Create && c.callType != CallType.Call then Some(NotCreateOrCall)
    else if c.callType == CallType.Call && !HasInitializeSelector(c.input) then Some(NotInitializeCall)
    else if c.callType == Create && CodeSize(c.codeChanges) <= MAX_NON_TOKEN_CODE_SIZE then
      Some(CodeTooSmall(CodeSize(c.codeChanges)))
    else if IsKnownFactory(c.caller) then Some(KnownFactoryCaller)
    else None
  }

  // ---------------------------------------------------------------------------
  // Confirmation by read-only calls
  // ---------------------------------------------------------------------------

  /** The `decimals` probe answered, succeeded and decoded. */
  predicate DecimalsConfirmed(dec: seq<RpcResponse>, env: Env)
  {
    |dec| >= 1 && !dec[0].failed && env.readUint32(dec[0].raw).Success?
  }

  /**
   * The confirmation stage for one candidate address, with the response
   * indices the handler uses: 0 for decimals; 0 and 1 for the failure test of
   * the name/symbol batch, 1 for the name and 2 for the symbol.
   */
  function Confirm(address: Bytes, env: Env): Verdict
  {
    var dec := env.ethCall(address, [Decimals]);
    if |dec| < 1 then Abort(IndexOutOfRange(DecimalsBatch, 0, |dec|))
    else if dec[0].failed then Skip(DecimalsCallFailed)
    else match env.readUint32(dec[0].raw)
      case Failure(e) => Skip(DecimalsUndecodable(e))
      case Success(decimals) =>
        var rs := env.ethCall(address, [Name, Symbol]);
        if |rs| < 1 then Abort(IndexOutOfRange(NameSymbolBatch, 0, |rs|))
        // both branches of the failure test read rs[1]: the test itself, or
        // the diagnostic that renders rs[1].raw when rs[0] failed
        else if |rs| < 2 then Abort(IndexOutOfRange(NameSymbolBatch, 1, |rs|))
        else if rs[0].failed || rs[1].failed then Skip(NameSymbolCallFailed)
        else match env.readString(rs[1].raw)
          case Failure(e) => Skip(NameUndecodable(e))
          case Success(name) =>
            if |rs| < 3 then Abort(IndexOutOfRange(NameSymbolBatch, 2, |rs|))
            else match env.readString(rs[2].raw)
              case Failure(e) => Skip(SymbolUndecodable(e))
              case Success(symbol) =>
                Emit(Token(Hex(address), name, symbol, decimals as int as u64))
  }

  /** What one call contributes: screened first, confirmed only if it passes. */
  function CallVerdict(c: CallTrace, env: Env): Verdict
  {
    match Screen(c)
    case Some(reason) => Skip(reason)
    case None => Confirm(c.address, env)
  }

  /** The batches one call sends to the service, stated independently of the cascade. */
  function RpcRequests(c: CallTrace, env: Env): seq<Request>
  {
    if !AcceptedBeforeRpc(c) then []
    else
      [Request(c.address, [Decimals])]
      + (if DecimalsConfirmed(env.ethCall(c.address, [Decimals]), env)
         then [Request(c.address, [Name, Symbol])] else [])
  }

  /** Inspects one call: the guard cascade, the code-size accumulation and the staged read-only calls. */
  method InspectCall(call: CallTrace, env: Env) returns (verdict: Verdict, requests: seq<Request>)
    ensures verdict == CallVerdict(call, env)
    ensures requests == RpcRequests(call, env)
  {
    requests := [];
    if call.stateReverted {
      return Skip(Reverted), requests;
    }
    if call.callType != Create && call.callType != CallType.Call {
      return Skip(NotCreateOrCall), requests;
    }
    var callInputLen := |call.input|;
    if call.callType == CallType.Call && (callInputLen < 4 || call.input[..4] != INITIALIZE_METHOD_HASH) {
      return Skip(NotInitializeCall), requests;
    }
    if call.callType == Create {
      var codeChangeLen := 0;
      for i := 0 to |call.codeChanges|
        invariant codeChangeLen == CodeSize(call.codeChanges[..i])
      {
        assert call.codeChanges[..i + 1][..i] == call.codeChanges[..i];
        codeChangeLen := codeChangeLen + |call.codeChanges[i].newCode|;
      }
      assert call.codeChanges[..|call.codeChanges|] == call.codeChanges;
      if codeChangeLen <= MAX_NON_TOKEN_CODE_SIZE {
        return Skip(CodeTooSmall(codeChangeLen)), requests;
      }
    }
    if call.caller == FACTORY_CALLER_A || call.caller == FACTORY_CALLER_B {
      return Skip(KnownFactoryCaller), requests;
    }

    var responseDecimal := env.ethCall(call.address, [Decimals]);
    requests := requests + [Request(call.address, [Decimals])];
    if |responseDecimal| < 1 {
      return Abort(IndexOutOfRange(DecimalsBatch, 0, |responseDecimal|)), requests;
    }
    if responseDecimal[0].failed {
      return Skip(DecimalsCallFailed), requests;
    }
    var decodedDecimals := env.readUint32(responseDecimal[0].raw);
    if decodedDecimals.Failure? {
      return Skip(DecimalsUndecodable(decodedDecimals.error)), requests;
    }

    var responses := env.ethCall(call.address, [Name, Symbol]);
    requests := requests + [Request(call.address, [Name, Symbol])];
    if |responses| < 1 {
      return Abort(IndexOutOfRange(NameSymbolBatch, 0, |responses|)), requests;
    }
    if |responses| < 2 {
      return Abort(IndexOutOfRange(NameSymbolBatch, 1, |responses|)), requests;
    }
    if responses[0].failed || responses[1].failed {
      return Skip(NameSymbolCallFailed), requests;
    }
    var decodedName := env.readString(responses[1].raw);
    if decodedName.Failure? {
      return Skip(NameUndecodable(decodedName.error)), requests;
    }
    if |responses| < 3 {
      return Abort(IndexOutOfRange(NameSymbolBatch, 2, |responses|)), requests;
    }
    var decodedSymbol := env.readString(responses[2].raw);
    if decodedSymbol.Failure? {
      return Skip(SymbolUndecodable(decodedSymbol.error)), requests;
    }
    var decimals := decodedDecimals.value as int as u64;
    verdict := Emit(Token(Hex(call.address), decodedName.value, decodedSymbol.value, decimals));
  }

  // ---------------------------------------------------------------------------
  // The whole block
  // ---------------------------------------------------------------------------

  /** Calls of all transactions, transaction order first, then call order. */
  function Flatten(txs: seq<TransactionTrace>): seq<CallTrace>
  {
    if txs == [] then [] else Flatten(txs[..|txs| - 1]) + txs[|txs| - 1].calls
  }

  /** The handler applied to one more call; a panic ends the run. */
  function Step(prev: Trace, c: CallTrace, env: Env): Trace
  {
    if prev.outcome.Panicked? then prev
    else
      var requests := prev.requests + RpcRequests(c, env);
      match CallVerdict(c, env)
      case Skip(_) => Trace(prev.outcome, requests)
      case Emit(t) => Trace(Tokens(prev.outcome.tokens + [t]), requests)
      case Abort(f) => Trace(Panicked(f), requests)
  }

  /** The handler run over a sequence of calls, one call at a time. */
  function Discover(cs: seq<CallTrace>, env: Env): Trace
  {
    if cs == [] then Trace(Tokens([]), [])
    else Step(Discover(cs[..|cs| - 1], env), cs[|cs| - 1], env)
  }

  /** `map_tokens`: every call of every transaction, in order, appending confirmed tokens. */
  method MapTokens(block: seq<TransactionTrace>, env: Env) returns (outcome: Outcome, requests: seq<Request>)
    ensures Trace(outcome, requests) == Discover(Flatten(block), env)
  {
    var tokens: seq<Token> := [];
    requests := [];
    for t := 0 to |block|
      invariant Discover(Flatten(block[..t]), env) == Trace(Tokens(tokens), requests)
    {
      var calls := block[t].calls;
      ghost var seen := Flatten(block[..t]);
      assert seen + calls[..0] == seen;
      for k := 0 to |calls|
        invariant Discover(seen + calls[..k], env) == Trace(Tokens(tokens), requests)
      {
        var verdict, issued := InspectCall(calls[k], env);
        DiscoverNextCall(seen, calls, k, env);
        requests := requests + issued;
        match verdict {
          case Skip(_) =>
          case Emit(token) =>
            tokens := tokens + [token];
          case Abort(fault) =>
            PanicEndsBlock(block, t, k, env);
            return Panicked(fault), requests;
        }
      }
      assert calls[..|calls|] == calls;
      FlattenSnoc(block, t);
    }
    assert block[..|block|] == block;
    outcome := Tokens(tokens);
  }

  // ---------------------------------------------------------------------------
  // Lemmas
  // ---------------------------------------------------------------------------

  lemma {:induction false} FlattenAppend(a: seq<TransactionTrace>, b: seq<TransactionTrace>)
    ensures Flatten(a + b) == Flatten(a) + Flatten(b)
  {
    if b != [] {
      assert (a + b)[..|a + b| - 1] == a + b[..|b| - 1];
      FlattenAppend(a, b[..|b| - 1]);
    } else {
      assert a + b == a;
    }
  }

  /** Once a prefix panics, nothing after it changes the trace. */
  lemma {:induction false} PanicAbsorbs(p: seq<CallTrace>, q: seq<CallTrace>, env: Env)
    requires Discover(p, env).outcome.Panicked?
    ensures Discover(p + q, env) == Discover(p, env)
  {
    if q == [] {
      assert p + q == p;
    } else {
      assert (p + q)[..|p + q| - 1] == p + q[..|q| - 1];
      PanicAbsorbs(p, q[..|q| - 1], env);
    }
  }

  lemma FlattenAround(block: seq<TransactionTrace>, t: nat)
    requires t < |block|
    ensures Flatten(block) == Flatten(block[..t]) + block[t].calls + Flatten(block[t + 1..])
  {
    var pre, post := block[..t + 1], block[t + 1..];
    assert block == pre + post;
    FlattenAppend(pre, post);
    assert pre[..|pre| - 1] == block[..t] && pre[|pre| - 1] == block[t];
    assert Flatten(pre) == Flatten(block[..t]) + block[t].calls;
  }

  /** One more call: the unfolding of `Discover` at its last element. */
  lemma DiscoverSnoc(p: seq<CallTrace>, c: CallTrace, env: Env)
    ensures Discover(p + [c], env) == Step(Discover(p, env), c, env)
  {
    assert (p + [c])[..|p|] == p;
  }

  /** Discovering one more call of a transaction is one more step. */
  lemma DiscoverNextCall(seen: seq<CallTrace>, calls: seq<CallTrace>, k: nat, env: Env)
    requires k < |calls|
    ensures Discover(seen + calls[..k + 1], env) == Step(Discover(seen + calls[..k], env), calls[k], env)
  {
    assert (seen + calls[..k + 1])[..|seen + calls[..k + 1]| - 1] == seen + calls[..k];
  }

  lemma FlattenSnoc(block: seq<TransactionTrace>, t: nat)
    requires t < |block|
    ensures Flatten(block[..t + 1]) == Flatten(block[..t]) + block[t].calls
  {
    assert block[..t + 1][..t] == block[..t];
  }

  lemma PanicEndsBlock(block: seq<TransactionTrace>, t: nat, k: nat, env: Env)
    requires t < |block| && k < |block[t].calls|
    requires Discover(Flatten(block[..t]) + block[t].calls[..k + 1], env).outcome.Panicked?
    ensures Discover(Flatten(block), env) == Discover(Flatten(block[..t]) + block[t].calls[..k + 1], env)
  {
    var calls := block[t].calls;
    var head := Flatten(block[..t]);
    var tail := Flatten(block[t + 1..]);
    var done, rest := calls[..k + 1], calls[k + 1..];
    FlattenAround(block, t);
    assert calls == done + rest;
    assert head + (done + rest) + tail == (head + done) + (rest + tail);
    PanicAbsorbs(head + done, rest + tail, env);
  }

  // ---------------------------------------------------------------------------
  // Properties of one call
  // ---------------------------------------------------------------------------

  /** A reverted call never contributes, and only creations and message calls are considered. */
  lemma OnlyLiveCreateOrCall(c: CallTrace, env: Env)
    ensures c.stateReverted ==> CallVerdict(c, env) == Skip(Reverted)
    ensures !c.stateReverted && c.callType !in {Create, CallType.Call} ==>
      CallVerdict(c, env) == Skip(NotCreateOrCall)
    ensures CallVerdict(c, env).Emit? ==> !c.stateReverted && c.callType in {Create, CallType.Call}
  {
  }

  /** A message call is a candidate only with at least four input bytes starting with the selector; shorter input is skipped, not an error. */
  lemma InitializeSelectorGuard(c: CallTrace, env: Env)
    requires !c.stateReverted && c.callType == CallType.Call
    ensures |c.input| < 4 ==> CallVerdict(c, env) == Skip(NotInitializeCall)
    ensures CallVerdict(c, env) == Skip(NotInitializeCall) <==> !HasInitializeSelector(c.input)
    ensures CallVerdict(c, env).Emit? ==> c.input[..4] == [0x14, 0x59, 0x45, 0x7a]
  {
  }

  /** A creation is skipped exactly when its installed code totals 150 bytes or fewer; 150 is skipped, 151 passes. */
  lemma CreationSizeGuard(c: CallTrace, env: Env)
    requires !c.stateReverted && c.callType == Create
    ensures CallVerdict(c, env).Skip? && CallVerdict(c, env).reason.CodeTooSmall? <==> CodeSize(c.codeChanges) <= 150
    ensures CodeSize(c.codeChanges) == 150 ==> CallVerdict(c, env) == Skip(CodeTooSmall(150))
    ensures CodeSize(c.codeChanges) == 151 && !IsKnownFactory(c.caller) ==> AcceptedBeforeRpc(c)
  {
  }

  /** Message calls to the initializer are not size-checked. */
  lemma InitializeCallNotSizeChecked(c: CallTrace, env: Env)
    requires !c.stateReverted && c.callType == CallType.Call && HasInitializeSelector(c.input)
    ensures AcceptedBeforeRpc(c) <==> !IsKnownFactory(c.caller)
    ensures !CallVerdict(c, env).Skip? || !CallVerdict(c, env).reason.CodeTooSmall?
  {
  }

  /** A known factory caller is skipped before the service is asked anything, whatever it would answer. */
  lemma FactoryCallerNoRpc(c: CallTrace, env: Env)
    requires IsKnownFactory(c.caller)
    ensures CallVerdict(c, env).Skip?
    ensures RpcRequests(c, env) == []
  {
  }

  /** Every call that passes the guards sends the decimals probe first, and the name/symbol batch only after a confirmed decimals. */
  lemma StagedRequests(c: CallTrace, env: Env)
    requires AcceptedBeforeRpc(c)
    ensures 1 <= |RpcRequests(c, env)| <= 2
    ensures RpcRequests(c, env)[0] == Request(c.address, [Decimals])
    ensures |RpcRequests(c, env)| == 2 <==> DecimalsConfirmed(env.ethCall(c.address, [Decimals]), env)
    ensures |RpcRequests(c, env)| == 2 ==> RpcRequests(c, env)[1] == Request(c.address, [Name, Symbol])
  {
  }

  /** The name/symbol batch answered, both calls succeeded, and both decodes at indices 1 and 2 succeeded. */
  predicate NameSymbolConfirmed(rs: seq<RpcResponse>, env: Env)
  {
    && |rs| >= 3
    && !rs[0].failed && !rs[1].failed
    && env.readString(rs[1].raw).Success?
    && env.readString(rs[2].raw).Success?
  }

  /**
   * A call yields a token iff it passes the guards and every call and decode
   * succeeds; the token carries the hexadecimal address, the strings decoded
   * from responses 1 and 2, and the decoded decimals widened to 64 bits.
   */
  lemma EmitIff(c: CallTrace, env: Env)
    ensures CallVerdict(c, env).Emit? <==>
      && AcceptedBeforeRpc(c)
      && DecimalsConfirmed(env.ethCall(c.address, [Decimals]), env)
      && NameSymbolConfirmed(env.ethCall(c.address, [Name, Symbol]), env)
    ensures CallVerdict(c, env).Emit? ==>
      var dec := env.ethCall(c.address, [Decimals]);
      var rs := env.ethCall(c.address, [Name, Symbol]);
      && CallVerdict(c, env).token.address == Hex(c.address)
      && CallVerdict(c, env).token.name == env.readString(rs[1].raw).value
      && CallVerdict(c, env).token.symbol == env.readString(rs[2].raw).value
      && CallVerdict(c, env).token.decimals as int == env.readUint32(dec[0].raw).value as int
  {
  }

  /**
   * With a service that answers one response per request, the symbol decode
   * reads past the end of the two-element name/symbol batch: no call can yield
   * a token, and every call that gets that far panics.
   */
  lemma TwoResponseBatchNeverEmits(c: CallTrace, env: Env)
    requires |env.ethCall(c.address, [Name, Symbol])| == 2
    ensures !CallVerdict(c, env).Emit?
    ensures
      var rs := env.ethCall(c.address, [Name, Symbol]);
      CallVerdict(c, env) == Abort(IndexOutOfRange(NameSymbolBatch, 2, 2)) <==>
        && AcceptedBeforeRpc(c)
        && DecimalsConfirmed(env.ethCall(c.address, [Decimals]), env)
        && !rs[0].failed && !rs[1].failed
        && env.readString(rs[1].raw).Success?
  {
  }

  // ---------------------------------------------------------------------------
  // Properties of a whole run
  // ---------------------------------------------------------------------------

  /** The tokens of the calls that yield one, in call order. */
  function Emitted(cs: seq<CallTrace>, env: Env): seq<Token>
  {
    if cs == [] then []
    else
      (if CallVerdict(cs[0], env).Emit? then [CallVerdict(cs[0], env).token] else [])
      + Emitted(cs[1..], env)
  }

  lemma {:induction false} EmittedAppend(a: seq<CallTrace>, b: seq<CallTrace>, env: Env)
    ensures Emitted(a + b, env) == Emitted(a, env) + Emitted(b, env)
  {
    if a == [] {
      assert a + b == b;
    } else {
      assert (a + b)[1..] == a[1..] + b;
      EmittedAppend(a[1..], b, env);
    }
  }

  /** At most one token per call, and each token comes from a call that passed the guards. */
  lemma {:induction false} EmittedProvenance(cs: seq<CallTrace>, env: Env)
    ensures |Emitted(cs, env)| <= |cs|
    ensures forall k :: 0 <= k < |Emitted(cs, env)| ==>
      exists i :: 0 <= i < |cs| && AcceptedBeforeRpc(cs[i]) && CallVerdict(cs[i], env) == Emit(Emitted(cs, env)[k])
  {
    if cs != [] {
      EmittedProvenance(cs[1..], env);
      var head := if CallVerdict(cs[0], env).Emit? then [CallVerdict(cs[0], env).token] else [];
      forall k | 0 <= k < |Emitted(cs, env)|
        ensures exists i :: 0 <= i < |cs| && AcceptedBeforeRpc(cs[i]) && CallVerdict(cs[i], env) == Emit(Emitted(cs, env)[k])
      {
        if k < |head| {
          assert CallVerdict(cs[0], env) == Emit(Emitted(cs, env)[k]);
        } else {
          var i :| 0 <= i < |cs[1..]| && AcceptedBeforeRpc(cs[1..][i])
            && CallVerdict(cs[1..][i], env) == Emit(Emitted(cs[1..], env)[k - |head|]);
          assert CallVerdict(cs[i + 1], env) == Emit(Emitted(cs, env)[k]);
        }
      }
    }
  }

  /** Without a panic the output is exactly the emitted tokens, in call order. */
  lemma {:induction false} DiscoverWithoutPanic(cs: seq<CallTrace>, env: Env)
    requires forall i :: 0 <= i < |cs| ==> !CallVerdict(cs[i], env).Abort?
    ensures Discover(cs, env).outcome == Tokens(Emitted(cs, env))
  {
    if cs != [] {
      var p, c := cs[..|cs| - 1], cs[|cs| - 1];
      DiscoverWithoutPanic(p, env);
      assert cs == p + [c];
      DiscoverSnoc(p, c, env);
      StepWithoutPanic(Discover(p, env), c, env);
      EmittedAppend(p, [c], env);
      EmittedOne(c, env);
    }
  }

  lemma StepWithoutPanic(prev: Trace, c: CallTrace, env: Env)
    requires prev.outcome.Tokens? && !CallVerdict(c, env).Abort?
    ensures Step(prev, c, env).outcome ==
      Tokens(prev.outcome.tokens + if CallVerdict(c, env).Emit? then [CallVerdict(c, env).token] else [])
  {
  }

  lemma EmittedOne(c: CallTrace, env: Env)
    ensures Emitted([c], env) == if CallVerdict(c, env).Emit? then [CallVerdict(c, env).token] else []
  {
    assert [c][1..] == [];
  }

  /** The first call that panics decides the outcome of the whole run. */
  lemma FirstPanicDecides(cs: seq<CallTrace>, env: Env, i: nat)
    requires i < |cs| && CallVerdict(cs[i], env).Abort?
    requires forall j :: 0 <= j < i ==> !CallVerdict(cs[j], env).Abort?
    ensures Discover(cs, env).outcome == Panicked(CallVerdict(cs[i], env).fault)
  {
    var p := cs[..i];
    DiscoverWithoutPanic(p, env);
    assert cs[..i + 1] == p + [cs[i]];
    DiscoverSnoc(p, cs[i], env);
    assert cs == cs[..i + 1] + cs[i + 1..];
    PanicAbsorbs(cs[..i + 1], cs[i + 1..], env);
  }

  /** With a service that answers one response per name/symbol request, a run yields no token at all, or panics. */
  lemma {:induction false} TwoResponseBatchesYieldNothing(cs: seq<CallTrace>, env: Env)
    requires forall i :: 0 <= i < |cs| ==> |env.ethCall(cs[i].address, [Name, Symbol])| == 2
    ensures Discover(cs, env).outcome == Tokens([]) || Discover(cs, env).outcome.Panicked?
  {
    if cs != [] {
      var p, c := cs[..|cs| - 1], cs[|cs| - 1];
      TwoResponseBatchesYieldNothing(p, env);
      TwoResponseBatchNeverEmits(c, env);
    }
  }

  /** Every batch sent to the service targets the address of a call that passed the guards. */
  lemma {:induction false} RequestsOnlyForCandidates(cs: seq<CallTrace>, env: Env)
    ensures forall r :: r in Discover(cs, env).requests ==>
      exists i :: 0 <= i < |cs| && AcceptedBeforeRpc(cs[i]) && r.target == cs[i].address
  {
    if cs != [] {
      var p, c := cs[..|cs| - 1], cs[|cs| - 1];
      RequestsOnlyForCandidates(p, env);
      forall r | r in Discover(cs, env).requests
        ensures exists i :: 0 <= i < |cs| && AcceptedBeforeRpc(cs[i]) && r.target == cs[i].address
      {
        if r in Discover(p, env).requests {
          var i :| 0 <= i < |p| && AcceptedBeforeRpc(p[i]) && r.target == p[i].address;
          assert cs[i] == p[i];
        } else {
          assert r in RpcRequests(c, env);
          assert cs[|cs| - 1] == c;
        }
      }
    }
  }
}
