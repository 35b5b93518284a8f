/** `liana_ssl_handshake`: the read/feed/send loop that drives a new server
    session to MATRIXSSL_HANDSHAKE_COMPLETE.

    The engine and the socket are a script: one integer per foreign call,
    consumed in the order the loop makes its calls. The run is described
    twice: `Negotiate` is the loop as the plugin writes it (an outer `while`
    with a nested `do ... while` for the send phase), and `NextStep` is a
    state machine that, from the calls made so far, says which call comes
    next or which value is returned. `Run` drives that machine over a
    script, and `Negotiate` is proved to produce exactly `Run`'s transcript. */
module Handshake {
  import opened Engine

  /** The foreign calls the handshake makes. */
  datatype Kind = GetReadbuf | RawRead | ReceivedData | GetOutdata | RawWrite | SentData

  /** One foreign call and the integer it answered. */
  datatype Call = Call(kind: Kind, rc: int)

  /** What the handshake does after the calls made so far. */
  datatype Step = Invoke(kind: Kind) | Return(code: int)

  /** The calls made and how the handshake ended. */
  datatype Transcript = Transcript(outcome: Outcome, log: seq<Call>)

  /** The calls whose answer the engine's `ret` variable keeps. */
  predicate IsStatus(c: Call) {
    c.kind == ReceivedData || c.kind == SentData
  }

  /** The value of `ret` after the calls in `log`: the last answer of
      matrixSslReceivedData or matrixSslSentData, or its initial 0. */
  function LastStatus(log: seq<Call>): int
    decreases |log|
  {
    if log == [] then 0
    else if IsStatus(log[|log| - 1]) then log[|log| - 1].rc
    else LastStatus(log[..|log| - 1])
  }

  /** The answers after which the handshake gives up with -1. */
  predicate Fatal(c: Call) {
    match c.kind
    case GetReadbuf => c.rc == PS_ARG_FAIL
    case RawRead => c.rc < 0
    case ReceivedData => DecodeFailed(c.rc)
    case GetOutdata => c.rc == PS_ARG_FAIL
    case RawWrite => c.rc == -1
    case SentData => c.rc == MATRIXSSL_REQUEST_CLOSE || c.rc == PS_ARG_FAIL
  }

  /** The control flow of the handshake as a state machine over the calls
      made so far. */
  function NextStep(log: seq<Call>): Step {
    if log == [] then Invoke(GetReadbuf)
    else
      var c := log[|log| - 1];
      match c.kind
      case GetReadbuf => if c.rc == PS_ARG_FAIL then Return(-1) else Invoke(RawRead)
      case RawRead => if c.rc < 0 then Return(-1) else Invoke(ReceivedData)
      case ReceivedData =>
        if c.rc == MATRIXSSL_REQUEST_RECV then Invoke(GetReadbuf)
        else if DecodeFailed(c.rc) then Return(-1)
        else if c.rc == MATRIXSSL_HANDSHAKE_COMPLETE then Return(0)
        else if c.rc == MATRIXSSL_REQUEST_SEND then Invoke(GetOutdata)
        else Invoke(GetReadbuf)
      case GetOutdata =>
        if c.rc == 0 then
          (if LastStatus(log) == MATRIXSSL_HANDSHAKE_COMPLETE then Return(0) else Invoke(GetReadbuf))
        else if c.rc == PS_ARG_FAIL then Return(-1)
        else Invoke(RawWrite)
      case RawWrite => if c.rc == -1 then Return(-1) else Invoke(SentData)
      case SentData =>
        if c.rc == MATRIXSSL_REQUEST_CLOSE || c.rc == PS_ARG_FAIL then Return(-1)
        else Invoke(GetOutdata)
  }

  /** Drive the state machine from `log`, answering each call with the next
      unconsumed script entry. */
  function RunFrom(script: seq<int>, log: seq<Call>): Transcript
    requires |log| <= |script|
    decreases |script| - |log|
  {
    match NextStep(log)
    case Return(code) => Transcript(Returned(code), log)
    case Invoke(k) =>
      if |log| == |script| then Transcript(Blocked, log)
      else RunFrom(script, log + [Call(k, script[|log|])])
  }

  function Run(script: seq<int>): Transcript {
    RunFrom(script, [])
  }

  /** `log[i]` answered with `script[i]` for every call made. */
  ghost predicate AnsweredBy(log: seq<Call>, script: seq<int>) {
    |log| <= |script| && forall i :: 0 <= i < |log| ==> log[i].rc == script[i]
  }

  /** Every call in `log` is the one the state machine asked for. */
  ghost predicate Chained(log: seq<Call>) {
    forall i :: 0 <= i < |log| ==> NextStep(log[..i]) == Invoke(log[i].kind)
  }

  /** Answering the call the machine asks for with the next script entry
      keeps the rest of the run, and only a status answer changes `ret`. */
  lemma Advance(script: seq<int>, log: seq<Call>, k: Kind)
    requires |log| < |script|
    requires NextStep(log) == Invoke(k)
    ensures RunFrom(script, log + [Call(k, script[|log|])]) == RunFrom(script, log)
    ensures LastStatus(log + [Call(k, script[|log|])])
            == if IsStatus(Call(k, script[|log|])) then script[|log|] else LastStatus(log)
  {
  }

  /** A call the machine asks for extends a chained log. */
  lemma ChainedAppend(log: seq<Call>, c: Call)
    requires Chained(log)
    requires NextStep(log) == Invoke(c.kind)
    ensures Chained(log + [c])
  {
    var log' := log + [c];
    forall i | 0 <= i < |log'| ensures NextStep(log'[..i]) == Invoke(log'[i].kind) {
      if i < |log| {
        assert log'[..i] == log[..i];
      } else {
        assert log'[..i] == log;
      }
    }
  }

  /** In a chained log each call is the one asked for after its predecessor. */
  lemma ChainedPair(log: seq<Call>, i: nat)
    requires Chained(log)
    requires i + 1 < |log|
    ensures NextStep(log[..i + 1]) == Invoke(log[i + 1].kind)
    ensures log[..i + 1][i] == log[i]
    ensures log[..i + 1][..i] == log[..i]
  {
  }

  lemma {:induction false} RunFromShape(script: seq<int>, log: seq<Call>)
    requires AnsweredBy(log, script) && Chained(log)
    ensures var t := RunFrom(script, log);
      && |log| <= |t.log|
      && t.log[..|log|] == log
      && AnsweredBy(t.log, script)
      && Chained(t.log)
      && (t.outcome.Returned? ==> NextStep(t.log) == Return(t.outcome.code))
      && (t.outcome.Blocked? ==> |t.log| == |script| && NextStep(t.log).Invoke?)
    decreases |script| - |log|
  {
    match NextStep(log)
    case Return(code) =>
      assert RunFrom(script, log) == Transcript(Returned(code), log);
    case Invoke(k) =>
      if |log| < |script| {
        var log' := log + [Call(k, script[|log|])];
        ChainedAppend(log, Call(k, script[|log|]));
        assert AnsweredBy(log', script);
        Advance(script, log, k);
        RunFromShape(script, log');
        var t := RunFrom(script, log');
        assert t.log[..|log|] == t.log[..|log'|][..|log|];
      }
  }

  /** The handshake consumes the script in order, makes exactly the calls
      the state machine asks for, and ends where the machine returns (or
      where the script runs out). */
  lemma RunTranscript(script: seq<int>)
    ensures var t := Run(script);
      && AnsweredBy(t.log, script)
      && Chained(t.log)
      && (t.outcome.Returned? ==> NextStep(t.log) == Return(t.outcome.code))
      && (t.outcome.Blocked? ==> |t.log| == |script| && NextStep(t.log).Invoke?)
  {
    RunFromShape(script, []);
  }

  /** The state machine returns -1 exactly after a fatal answer, 0 only when
      `ret` holds MATRIXSSL_HANDSHAKE_COMPLETE, and nothing else. */
  lemma NextStepReturns(log: seq<Call>)
    ensures NextStep(log) == Return(-1) <==> log != [] && Fatal(log[|log| - 1])
    ensures NextStep(log) == Return(0) ==> LastStatus(log) == MATRIXSSL_HANDSHAKE_COMPLETE
    ensures NextStep(log).Return? ==> NextStep(log).code == 0 || NextStep(log).code == -1
  {
  }

  /** A chained log has no fatal answer before its last call. */
  lemma ChainedHasNoEarlyFatal(log: seq<Call>, i: nat)
    requires Chained(log)
    requires i + 1 < |log|
    ensures !Fatal(log[i])
  {
    ChainedPair(log, i);
    NextStepReturns(log[..i + 1]);
  }

  /** The handshake returns only 0 or -1. It returns 0 only once the engine
      has reported MATRIXSSL_HANDSHAKE_COMPLETE (from matrixSslReceivedData
      or from matrixSslSentData) and no answer was fatal. */
  lemma HandshakeSucceedsOnlyWhenComplete(script: seq<int>)
    ensures var t := Run(script);
      && (t.outcome.Returned? ==> t.outcome.code == 0 || t.outcome.code == -1)
      && (t.outcome == Returned(0) ==>
            && LastStatus(t.log) == MATRIXSSL_HANDSHAKE_COMPLETE
            && forall i :: 0 <= i < |t.log| ==> !Fatal(t.log[i]))
  {
    var t := Run(script);
    RunTranscript(script);
    if t.outcome.Returned? {
      NextStepReturns(t.log);
      if t.outcome == Returned(0) {
        forall i | 0 <= i < |t.log| ensures !Fatal(t.log[i]) {
          if i + 1 < |t.log| { ChainedHasNoEarlyFatal(t.log, i); }
        }
      }
    }
  }

  /** The handshake returns -1 exactly when its last call got a fatal
      answer, and no earlier call did: a failed matrixSslGetReadbuf, a
      negative read, a decode failure, a failed matrixSslGetOutdata, a write
      of -1, or matrixSslSentData answering REQUEST_CLOSE or PS_ARG_FAIL. */
  lemma HandshakeFailsAtFirstFatal(script: seq<int>)
    ensures var t := Run(script);
      && (t.outcome == Returned(-1) <==> t.log != [] && Fatal(t.log[|t.log| - 1]))
      && forall i :: 0 <= i < |t.log| - 1 ==> !Fatal(t.log[i])
  {
    var t := Run(script);
    RunTranscript(script);
    NextStepReturns(t.log);
    forall i | 0 <= i < |t.log| - 1 ensures !Fatal(t.log[i]) {
      ChainedHasNoEarlyFatal(t.log, i);
    }
  }

  /** The calls of the send phase: matrixSslGetOutdata, the raw write and
      matrixSslSentData. */
  predicate InSendPhase(c: Call) {
    c.kind == GetOutdata || c.kind == RawWrite || c.kind == SentData
  }

  /** The send phase: after a non-fatal matrixSslSentData the next call is
      always matrixSslGetOutdata, whatever code it answered (the loop's
      condition `ret != MATRIXSSL_SUCCESS || ret != MATRIXSSL_HANDSHAKE_COMPLETE`
      never fails), and the phase is left only after a matrixSslGetOutdata
      that answered 0. */
  lemma SendPhaseLeftOnlyOnEmptyOutdata(script: seq<int>)
    ensures var t := Run(script);
      && (forall i :: 0 <= i < |t.log| - 1 && t.log[i].kind == SentData && !Fatal(t.log[i]) ==>
            t.log[i + 1].kind == GetOutdata)
      && (forall i :: 0 <= i < |t.log| - 1 && InSendPhase(t.log[i]) && !InSendPhase(t.log[i + 1]) ==>
            t.log[i] == Call(GetOutdata, 0))
      && (t.outcome == Returned(0) && t.log != [] && InSendPhase(t.log[|t.log| - 1]) ==>
            t.log[|t.log| - 1] == Call(GetOutdata, 0))
  {
    var t := Run(script);
    RunTranscript(script);
    forall i | 0 <= i < |t.log| - 1
      ensures t.log[i].kind == SentData && !Fatal(t.log[i]) ==> t.log[i + 1].kind == GetOutdata
      ensures InSendPhase(t.log[i]) && !InSendPhase(t.log[i + 1]) ==> t.log[i] == Call(GetOutdata, 0)
    {
      ChainedPair(t.log, i);
    }
  }

  /** One foreign call: the call the machine asks for, answered with the
      next script entry and added to the log. */
  method Answer(script: seq<int>, log: seq<Call>, k: Kind) returns (rc: int, log': seq<Call>)
    requires |log| < |script|
    requires NextStep(log) == Invoke(k)
    ensures rc == script[|log|] && log' == log + [Call(k, rc)]
    ensures RunFrom(script, log') == RunFrom(script, log)
    ensures LastStatus(log') == if IsStatus(Call(k, rc)) then rc else LastStatus(log)
  {
    rc := script[|log|];
    Advance(script, log, k);
    log' := log + [Call(k, rc)];
  }

  /** `liana_ssl_handshake` as written: an outer loop over
      read-and-feed rounds and a nested send loop. */
  method Negotiate(script: seq<int>) returns (t: Transcript)
    ensures t == Run(script)
  {
    var log: seq<Call> := [];
    var pos := 0;
    var ret := 0;
    var len, bytesRead, bytesSent: int;
    while ret != MATRIXSSL_HANDSHAKE_COMPLETE
      invariant pos == |log| <= |script|
      invariant RunFrom(script, log) == Run(script)
      invariant ret == LastStatus(log)
      invariant NextStep(log) == if ret == MATRIXSSL_HANDSHAKE_COMPLETE then Return(0) else Invoke(GetReadbuf)
      decreases |script| - pos
    {
      // matrixSslGetReadbuf: room for incoming ciphertext
      if pos == |script| { return Transcript(Blocked, log); }
      len, log := Answer(script, log, GetReadbuf);
      pos := pos + 1;
      if len == PS_ARG_FAIL { return Transcript(Returned(-1), log); }

      // raw read from the socket into that room
      if pos == |script| { return Transcript(Blocked, log); }
      bytesRead, log := Answer(script, log, RawRead);
      pos := pos + 1;
      if bytesRead < 0 { return Transcript(Returned(-1), log); }

      // matrixSslReceivedData: feed the bytes read; its answer becomes `ret`
      if pos == |script| { return Transcript(Blocked, log); }
      ret, log := Answer(script, log, ReceivedData);
      pos := pos + 1;
      if ret == MATRIXSSL_REQUEST_RECV { continue; }
      if ret == PS_MEM_FAIL || ret == PS_ARG_FAIL || ret == PS_PROTOCOL_FAIL {
        return Transcript(Returned(-1), log);
      }
      if ret == MATRIXSSL_HANDSHAKE_COMPLETE { return Transcript(Returned(0), log); }

      if ret == MATRIXSSL_REQUEST_SEND {
        // The send phase is a do-while whose condition (`ret` differs from
        // SUCCESS or from HANDSHAKE_COMPLETE) holds for every `ret`; it holds
        // on entry too, so a while loop runs the body as often
        while ret != MATRIXSSL_SUCCESS || ret != MATRIXSSL_HANDSHAKE_COMPLETE
          invariant pos == |log| <= |script|
          invariant RunFrom(script, log) == Run(script)
          invariant ret == LastStatus(log)
          invariant NextStep(log) == Invoke(GetOutdata)
          decreases |script| - pos
        {
          // matrixSslGetOutdata: length of the pending handshake output
          if pos == |script| { return Transcript(Blocked, log); }
          len, log := Answer(script, log, GetOutdata);
          pos := pos + 1;
          if len == 0 { break; }
          if len == PS_ARG_FAIL { return Transcript(Returned(-1), log); }

          // raw write of that output to the socket
          if pos == |script| { return Transcript(Blocked, log); }
          bytesSent, log := Answer(script, log, RawWrite);
          pos := pos + 1;
          if bytesSent == -1 { return Transcript(Returned(-1), log); }

          // matrixSslSentData: report the bytes written; its answer becomes `ret`
          if pos == |script| { return Transcript(Blocked, log); }
          ret, log := Answer(script, log, SentData);
          pos := pos + 1;
          if ret == MATRIXSSL_REQUEST_CLOSE { return Transcript(Returned(-1), log); }
          if ret == PS_ARG_FAIL { return Transcript(Returned(-1), log); }
        }
      }
    }
    return Transcript(Returned(0), log);
  }
}
