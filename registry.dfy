/** The per-worker list of TLS sessions (`struct mk_liana_ssl` entries on the
    thread's `mk_list`). Every entry point that gets only a socket
    descriptor finds its session by scanning this list from the head. */
module SessionRegistry {
  import opened Engine

  datatype Option<T> = None | Some(value: T)

  /** One registered connection: the engine's session handle and the socket
      it belongs to. */
  datatype Session = Session(ssl: nat, socketFd: int)

  /** The first session, in list order, whose descriptor is `fd`. */
  function Lookup(sessions: seq<Session>, fd: int): (r: Option<Session>)
    ensures r.None? <==> forall i :: 0 <= i < |sessions| ==> sessions[i].socketFd != fd
    ensures r.Some? ==> exists i :: 0 <= i < |sessions| && sessions[i] == r.value
                                    && r.value.socketFd == fd
                                    && forall j :: 0 <= j < i ==> sessions[j].socketFd != fd
    decreases |sessions|
  {
    if sessions == [] then None
    else if sessions[0].socketFd == fd then Some(sessions[0])
    else
      var r := Lookup(sessions[1..], fd);
      assert forall i :: 0 < i < |sessions| ==> sessions[i] == sessions[1..][i - 1];
      if r.Some? then
        ghost var k :| 0 <= k < |sessions[1..]| && sessions[1..][k] == r.value
                      && r.value.socketFd == fd
                      && forall j :: 0 <= j < k ==> sessions[1..][j].socketFd != fd;
        assert sessions[k + 1] == r.value;
        r
      else r
  }

  /** No descriptor appears twice in the list. */
  ghost predicate DistinctDescriptors(sessions: seq<Session>) {
    forall i, j :: 0 <= i < j < |sessions| ==> sessions[i].socketFd != sessions[j].socketFd
  }

  /** With distinct descriptors a lookup names the one session that has
      the descriptor, wherever it sits in the list. */
  lemma LookupUnique(sessions: seq<Session>, i: nat)
    requires DistinctDescriptors(sessions)
    requires i < |sessions|
    ensures Lookup(sessions, sessions[i].socketFd) == Some(sessions[i])
  {
  }

  /** Appending a session for an unregistered descriptor keeps every
      earlier lookup and makes the new descriptor resolve to it. */
  lemma {:induction false} LookupAppend(sessions: seq<Session>, s: Session, fd: int)
    requires Lookup(sessions, s.socketFd).None?
    ensures Lookup(sessions + [s], fd) == if fd == s.socketFd then Some(s) else Lookup(sessions, fd)
    decreases |sessions|
  {
    if sessions == [] {
    } else {
      assert (sessions + [s])[1..] == sessions[1..] + [s];
      if sessions[0].socketFd != fd {
        LookupAppend(sessions[1..], s, fd);
      }
    }
  }

  /** The per-worker registry object. */
  class Registry {
    var sessions: seq<Session>

    ghost predicate Valid()
      reads this
    {
      DistinctDescriptors(sessions)
    }

    /** Worker-thread initialisation: a fresh, empty list. */
    constructor ()
      ensures Valid()
      ensures sessions == []
    {
      sessions := [];
    }

    /** The scan that every network-I/O hook performs: walk the list from
        the head and stop at the first entry with the descriptor. */
    method Find(fd: int) returns (found: Option<Session>)
      ensures found == Lookup(sessions, fd)
    {
      var i := 0;
      while i < |sessions|
        invariant 0 <= i <= |sessions|
        invariant forall j :: 0 <= j < i ==> sessions[j].socketFd != fd
      {
        if sessions[i].socketFd == fd {
          LookupFirstMatch(sessions, i, fd);
          return Some(sessions[i]);
        }
        i := i + 1;
      }
      return None;
    }

    /** `mk_list_add`: link a new entry at the tail. The caller has checked
        that the descriptor is not registered. */
    method Add(s: Session)
      requires Valid()
      requires Lookup(sessions, s.socketFd).None?
      modifies this
      ensures Valid()
      ensures sessions == old(sessions) + [s]
    {
      sessions := sessions + [s];
    }
  }

  /** The first index holding `fd` is the session a lookup returns. */
  lemma LookupFirstMatch(sessions: seq<Session>, i: nat, fd: int)
    requires i < |sessions| && sessions[i].socketFd == fd
    requires forall j :: 0 <= j < i ==> sessions[j].socketFd != fd
    ensures Lookup(sessions, fd) == Some(sessions[i])
  {
  }
}
