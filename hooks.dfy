/** The lifecycle hook `_mkp_event_read`: the first read event on a
    descriptor creates its engine session, registers it and runs the
    handshake. */
module Hooks {
  import opened Engine
  import opened SessionRegistry
  import Handshake

  /** What the hook tells the host: carry on, close the connection, or (in
      the model only) still inside the handshake when the scripted peer has
      nothing more to say. */
  datatype EventResult = EventNext | EventClose | Pending

  /** The hook's answer once the handshake has ended: MK_PLUGIN_RET_EVENT_CLOSE
      for any nonzero return, MK_PLUGIN_RET_EVENT_NEXT for 0. */
  function AfterHandshake(o: Outcome): EventResult {
    match o
    case Returned(code) => if code != 0 then EventClose else EventNext
    case Blocked => Pending
  }

  /** The hook closes the connection exactly when the handshake failed, and
      lets it through exactly when the engine reported completion. */
  lemma EventCloseExactlyOnHandshakeFailure(script: seq<int>)
    ensures var t := Handshake.Run(script);
      && (AfterHandshake(t.outcome) == EventClose <==> t.outcome == Returned(-1))
      && (AfterHandshake(t.outcome) == EventNext ==>
            Handshake.LastStatus(t.log) == MATRIXSSL_HANDSHAKE_COMPLETE)
  {
    Handshake.HandshakeSucceedsOnlyWhenComplete(script);
  }

  /** `_mkp_event_read(socket_fd)`. `created` is the answer of
      matrixSslNewServerSession and `handle` the session it makes;
      `script` answers the handshake's calls. */
  method EventRead(reg: Registry, fd: int, created: int, handle: nat, script: seq<int>)
    returns (ev: EventResult)
    requires reg.Valid()
    modifies reg
    ensures reg.Valid()
    ensures Lookup(old(reg.sessions), fd).Some? ==> ev == EventNext && reg.sessions == old(reg.sessions)
    ensures Lookup(old(reg.sessions), fd).None? && created < 0 ==>
              ev == EventClose && reg.sessions == old(reg.sessions)
    ensures Lookup(old(reg.sessions), fd).None? && created >= 0 ==>
              && reg.sessions == old(reg.sessions) + [Session(handle, fd)]
              && ev == AfterHandshake(Handshake.Run(script).outcome)
  {
    var existing := reg.Find(fd);
    if existing.Some? { return EventNext; }
    if created < 0 {
      // the half-made session is deleted and nothing is registered
      return EventClose;
    }
    var conn := Session(handle, fd);
    reg.Add(conn);
    var t := Handshake.Negotiate(script);
    match t.outcome
    case Blocked => return Pending;
    case Returned(ret) =>
      if ret != 0 { return EventClose; }
      return EventNext;
  }

  /** A worker starts with an empty list (`_mkp_core_thctx`) and sees two
      read events on the same descriptor, each with its own answer from
      matrixSslNewServerSession (`created`, `created2`) and its own handle.
      Once the first event registers a session the second finds it and
      creates nothing, even when the first handshake failed and the host
      closed and reused the descriptor: nothing removes the entry, so the
      reused descriptor skips the handshake. */
  method RepeatedReadEvent(fd: int, created: int, handle: nat, script: seq<int>,
                           created2: int, handle2: nat, again: seq<int>)
    returns (first: EventResult, second: EventResult, sessions: seq<Session>)
    ensures created >= 0 ==> sessions == [Session(handle, fd)] && second == EventNext
    ensures created >= 0 ==> first == AfterHandshake(Handshake.Run(script).outcome)
    ensures created >= 0 && Handshake.Run(script).outcome == Returned(-1) ==>
              first == EventClose && second == EventNext
    ensures created < 0 ==> first == EventClose
    ensures created < 0 && created2 < 0 ==> sessions == [] && second == EventClose
    ensures created < 0 && created2 >= 0 ==>
              sessions == [Session(handle2, fd)] && second == AfterHandshake(Handshake.Run(again).outcome)
  {
    var reg := new Registry();
    first := EventRead(reg, fd, created, handle, script);
    second := EventRead(reg, fd, created2, handle2, again);
    sessions := reg.sessions;
  }
}
