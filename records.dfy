/** The record translators behind the host's network-I/O hooks: read,
    write, writev and send_file. Each finds the caller's session by
    descriptor in the worker's registry (which none of them changes) and
    talks to that session's engine, whose answers are given as a script. */
module RecordIO {
  import opened Engine
  import opened SessionRegistry

  // ---------------------------------------------------------------- read

  /** The answer of matrixSslReceivedData in one iteration of the read
      loop, with the plaintext it decoded. The loop also calls
      matrixSslGetReadbuf and the raw read, but checks neither answer, so a
      round does not record them. */
  datatype ReadRound = ReadRound(status: int, plain: seq<byte>)

  /** Where the read loop leaves its rounds. */
  datatype Fed = Stopped(at: nat) | Starved

  /** The loop keeps feeding the engine while it answers REQUEST_RECV: it
      stops at the first round with any other status, or runs out. */
  function FirstNonRecv(rounds: seq<ReadRound>): (r: Fed)
    ensures r.Stopped? ==> r.at < |rounds| && rounds[r.at].status != MATRIXSSL_REQUEST_RECV
    ensures r.Stopped? ==> forall k :: 0 <= k < r.at ==> rounds[k].status == MATRIXSSL_REQUEST_RECV
    ensures r.Starved? ==> forall k :: 0 <= k < |rounds| ==> rounds[k].status == MATRIXSSL_REQUEST_RECV
    decreases |rounds|
  {
    if rounds == [] then Starved
    else if rounds[0].status != MATRIXSSL_REQUEST_RECV then Stopped(0)
    else
      assert forall k :: 0 < k < |rounds| ==> rounds[k] == rounds[1..][k - 1];
      match FirstNonRecv(rounds[1..])
      case Stopped(k) => Stopped(k + 1)
      case Starved => Starved
  }

  /** `_mkp_network_io_read`: decode the next record of the session and
      copy up to `count` plaintext bytes into `buf`. */
  method Read(reg: Registry, fd: int, buf: array<byte>, count: nat, rounds: seq<ReadRound>)
    returns (r: Outcome)
    requires count <= buf.Length
    modifies buf
    ensures Lookup(reg.sessions, fd).None? ==> r == Returned(-1)
    ensures Lookup(reg.sessions, fd).Some? && FirstNonRecv(rounds).Starved? ==> r == Blocked
    ensures Lookup(reg.sessions, fd).Some? && FirstNonRecv(rounds).Stopped? ==>
      var last := rounds[FirstNonRecv(rounds).at];
      if DecodeFailed(last.status) then r == Returned(-1)
      else if last.status == MATRIXSSL_RECEIVED_ALERT then r == Returned(0)
      else
        var n := Min(|last.plain|, count);
        r == Returned(n) && buf[..n] == last.plain[..n] && buf[n..] == old(buf[n..])
    ensures r.Returned? && r.code <= 0 ==> buf[..] == old(buf[..])
    ensures r == Blocked ==> buf[..] == old(buf[..])
  {
    var conn := reg.Find(fd);
    if conn.None? { return Returned(-1); }
    var i := 0;
    var ret := 0;
    var plain: seq<byte> := [];
    var again := true;
    // The source's do-while: feed rounds while the engine asks for more
    while again
      invariant 0 <= i <= |rounds|
      invariant again ==> forall k :: 0 <= k < i ==> rounds[k].status == MATRIXSSL_REQUEST_RECV
      invariant !again ==> forall k :: 0 <= k < i - 1 ==> rounds[k].status == MATRIXSSL_REQUEST_RECV
      invariant !again ==> 0 < i && ret == rounds[i - 1].status && plain == rounds[i - 1].plain
      invariant !again ==> ret != MATRIXSSL_REQUEST_RECV && !DecodeFailed(ret)
      decreases |rounds| - i, again
    {
      if i == |rounds| { return Blocked; }
      // one round: get the read buffer, read the socket, and feed the
      // engine; only the engine's answer is kept
      ret, plain := rounds[i].status, rounds[i].plain;
      i := i + 1;
      if ret == PS_MEM_FAIL || ret == PS_ARG_FAIL || ret == PS_PROTOCOL_FAIL {
        return Returned(-1);
      }
      again := ret == MATRIXSSL_REQUEST_RECV && ret != MATRIXSSL_APP_DATA;
    }
    assert FirstNonRecv(rounds) == Stopped(i - 1);
    if ret == MATRIXSSL_RECEIVED_ALERT {
      // fatal and warning alerts both end the read with 0
      return Returned(0);
    }
    // deliver the decoded plaintext: min(len, count) bytes
    var n := Min(|plain|, count);
    forall k | 0 <= k < n {
      buf[k] := plain[k];
    }
    return Returned(n);
  }

  // --------------------------------------------------------------- write

  /** The engine's answers to one write: matrixSslGetWritebuf (the granted
      plaintext room), matrixSslEncodeWritebuf, matrixSslGetOutdata (the
      ciphertext length), the raw write, and matrixSslSentData. */
  datatype WriteReplies = WriteReplies(granted: int, encoded: int, outdata: int, written: int, sent: int)

  /** The plaintext count a write accepts: the smaller of the granted room
      and the requested count. The source compares the `int` grant with the
      `size_t` count, so a negative grant that is not one of the rejected
      failure codes compares as a huge unsigned value and `count` wins. */
  function Accepted(granted: int, count: nat): (n: nat)
    ensures n <= count
    ensures 0 <= granted ==> n == Min(granted, count)
    ensures granted < 0 ==> n == count
  {
    if 0 <= granted && granted < count then granted else count
  }

  /** What a write returns and which plaintext it hands to the engine, given
      whether the descriptor is registered and the engine's answers. */
  ghost predicate WriteContract(registered: bool, buf: Option<seq<byte>>, count: nat, eng: WriteReplies,
                                r: int, staged: seq<byte>)
  {
    if buf.None? then r == 0 && staged == []
    else if !registered || WritebufFailed(eng.granted) then r == -1 && staged == []
    else
      var n := Accepted(eng.granted, count);
      && n <= |buf.value|
      && staged == buf.value[..n]
      && r == (if EncodeFailed(eng.encoded) || eng.outdata < 0 then -1 else n)
  }

  /** A successful write reports exactly the plaintext it queued: the first
      `min(granted, count)` bytes of the caller's buffer, whatever the
      ciphertext length and the raw write's result. */
  lemma WriteReportsQueuedPlaintext(registered: bool, buf: seq<byte>, count: nat, eng: WriteReplies,
                                    r: int, staged: seq<byte>)
    requires count <= |buf|
    requires WriteContract(registered, Some(buf), count, eng, r, staged)
    requires r != -1
    ensures registered && !WritebufFailed(eng.granted) && !EncodeFailed(eng.encoded) && eng.outdata >= 0
    ensures 0 <= r <= count && r == |staged| && staged == buf[..r]
    ensures eng.granted >= 0 ==> r == Min(eng.granted, count)
  {
  }

  /** The result of a write does not depend on the ciphertext: two engines
      that grant, encode and fail alike give the same answer, whatever
      lengths they produce and however the raw write and matrixSslSentData
      end. */
  lemma WriteIgnoresCiphertext(registered: bool, buf: Option<seq<byte>>, count: nat,
                               e1: WriteReplies, e2: WriteReplies, r: int, staged: seq<byte>)
    requires e1.granted == e2.granted && e1.encoded == e2.encoded
    requires (e1.outdata < 0) == (e2.outdata < 0)
    ensures WriteContract(registered, buf, count, e1, r, staged) == WriteContract(registered, buf, count, e2, r, staged)
  {
  }

  /** `_mkp_network_io_write`: stage up to `count` bytes of `buf` (None is
      a NULL pointer) in the session's engine, encode them, and push the
      resulting record to the socket. */
  method Write(reg: Registry, fd: int, buf: Option<seq<byte>>, count: nat, eng: WriteReplies)
    returns (r: int, staged: seq<byte>)
    requires buf.Some? ==> count <= |buf.value|
    ensures WriteContract(Lookup(reg.sessions, fd).Some?, buf, count, eng, r, staged)
  {
    if buf.None? { return 0, []; }
    var conn := reg.Find(fd);
    if conn.None? { return -1, []; }
    // matrixSslGetWritebuf: plaintext room granted for up to `count` bytes
    var len := eng.granted;
    if len == PS_MEM_FAIL || len == PS_ARG_FAIL || len == PS_FAILURE { return -1, []; }
    var bytesSent := Accepted(len, count);
    // stage the accepted plaintext in that room
    staged := buf.value[..bytesSent];
    // matrixSslEncodeWritebuf: encrypt the staged bytes into a record
    len := eng.encoded;
    if len == PS_ARG_FAIL || len == PS_PROTOCOL_FAIL || len == PS_FAILURE { return -1, staged; }
    // matrixSslGetOutdata: length of the ciphertext to send
    len := eng.outdata;
    if len < 0 { return -1, staged; }
    // The raw write answers eng.written and matrixSslSentData answers
    // eng.sent. A failed raw write is only reported on stderr, and neither
    // answer changes the result.
    return bytesSent, staged;
  }

  // -------------------------------------------------------------- writev

  /** A `struct mk_iov`: the buffers to send, in order, and their total
      length as the host keeps it. */
  datatype Iov = Iov(segments: seq<seq<byte>>, totalLen: nat)

  function Concat(segments: seq<seq<byte>>): seq<byte>
    decreases |segments|
  {
    if segments == [] then [] else Concat(segments[..|segments| - 1]) + segments[|segments| - 1]
  }

  function TotalLen(segments: seq<seq<byte>>): nat
    decreases |segments|
  {
    if segments == [] then 0 else TotalLen(segments[..|segments| - 1]) + |segments[|segments| - 1]|
  }

  /** The concatenation is exactly as long as the host's total. */
  lemma {:induction false} ConcatLength(segments: seq<seq<byte>>)
    ensures |Concat(segments)| == TotalLen(segments)
    decreases |segments|
  {
    if segments != [] {
      ConcatLength(segments[..|segments| - 1]);
    }
  }

  /** Concatenation keeps the order of the buffers: splitting the list
      anywhere splits the bytes at the same place. */
  lemma {:induction false} ConcatSplit(a: seq<seq<byte>>, b: seq<seq<byte>>)
    ensures Concat(a + b) == Concat(a) + Concat(b)
    decreases |b|
  {
    if b == [] {
      assert a + b == a;
    } else {
      assert (a + b)[..|a + b| - 1] == a + b[..|b| - 1];
      ConcatSplit(a, b[..|b| - 1]);
    }
  }

  /** `_mkp_network_io_writev`: join the buffers into one staging buffer
      sized to their total and hand it to a single write. */
  method Writev(reg: Registry, fd: int, iov: Iov, eng: WriteReplies) returns (r: int, staged: seq<byte>)
    requires iov.totalLen == TotalLen(iov.segments)
    ensures WriteContract(Lookup(reg.sessions, fd).Some?, Some(Concat(iov.segments)), iov.totalLen, eng, r, staged)
  {
    var buf: seq<byte> := [];
    for i := 0 to |iov.segments|
      invariant buf == Concat(iov.segments[..i])
    {
      assert iov.segments[..i + 1][..i] == iov.segments[..i];
      buf := buf + iov.segments[i];
    }
    assert iov.segments[..|iov.segments|] == iov.segments;
    ConcatLength(iov.segments);
    r, staged := Write(reg, fd, Some(buf), iov.totalLen, eng);
  }

  // ----------------------------------------------------------- send_file

  /** The answers of one iteration of the send_file loop: what pread
      delivers (negative for a failure) and the answers of the write. */
  datatype SendRound = SendRound(pread: int, write: WriteReplies)

  /** `pread(file_fd, buf, n, off)` on a file with contents `file`: -1 on a
      failure or a negative offset, otherwise some count the kernel chose,
      never more than asked for nor more than the file holds after `off`. */
  function Pread(file: seq<byte>, n: nat, off: int, reply: int): (len: int)
    ensures len == -1 <==> reply < 0 || off < 0
    ensures len != -1 ==> 0 <= len <= n && 0 <= off
    ensures len > 0 ==> off + len <= |file|
  {
    if reply < 0 || off < 0 then -1
    else Min(reply, Min(n, if off < |file| then |file| - off else 0))
  }

  /** A round ends send_file with -1: pread fails, or the write does
      (unregistered descriptor, rejected grant, failed encode, or negative
      ciphertext length). */
  predicate RoundFails(registered: bool, rd: SendRound) {
    || rd.pread < 0
    || !registered
    || WritebufFailed(rd.write.granted)
    || EncodeFailed(rd.write.encoded)
    || rd.write.outdata < 0
  }

  /** None of the first `m` rounds fails. */
  predicate NoRoundFails(registered: bool, rounds: seq<SendRound>, m: nat)
    requires m <= |rounds|
  {
    forall j :: 0 <= j < m ==> !RoundFails(registered, rounds[j])
  }

  /** What one round at `offset` with `left` bytes to go achieves: -1 when
      its pread or its write fails, otherwise the count the write accepts
      out of what pread delivered. */
  function RoundAccepts(registered: bool, file: seq<byte>, offset: int, left: nat, rd: SendRound): (n: int)
    ensures n == -1 <==> offset < 0 || RoundFails(registered, rd)
    ensures n != -1 ==> 0 <= n <= left && (n > 0 ==> 0 <= offset && offset + n <= |file|)
  {
    var len := Pread(file, left, offset, rd.pread);
    if len == -1 || RoundFails(registered, rd) then -1 else Accepted(rd.write.granted, len)
  }

  /** One iteration of the send_file loop: pread the bytes left at the
      offset and hand them to the write path. Returns -1 when either fails,
      otherwise the count accepted and the plaintext staged. */
  method SendChunk(reg: Registry, fd: int, file: seq<byte>, offset: int, left: nat, rd: SendRound)
    returns (n: int, staged: seq<byte>)
    ensures n == RoundAccepts(Lookup(reg.sessions, fd).Some?, file, offset, left, rd)
    ensures n > 0 ==> staged == file[offset..offset + n]
    ensures n == 0 ==> staged == []
  {
    var len := Pread(file, left, offset, rd.pread);
    if len == -1 { return -1, []; }
    var chunk := if len == 0 then [] else file[offset..offset + len];
    n, staged := Write(reg, fd, Some(chunk), len, rd.write);
  }

  /** How the send_file loop ends: every byte accepted, or a failed pread
      or write. */
  datatype SendEnd = Done | Failed

  /** The send_file loop between rounds: still sending from `offset` with
      `left` bytes to go, or finished after `used` rounds. */
  datatype SendState = Sending(offset: int, left: nat) | Finished(end: SendEnd, offset: int, used: nat)

  /** The state of the send_file loop after the first `k` rounds. */
  function SendAfter(registered: bool, file: seq<byte>, offset0: int, fileCount: nat, rounds: seq<SendRound>,
                     k: nat): SendState
    requires k <= |rounds|
  {
    if k == 0 then
      if fileCount == 0 then Finished(Done, offset0, 0) else Sending(offset0, fileCount)
    else
      match SendAfter(registered, file, offset0, fileCount, rounds, k - 1)
      case Finished(e, off, u) => Finished(e, off, u)
      case Sending(off, left) =>
        var n := RoundAccepts(registered, file, off, left, rounds[k - 1]);
        if n == -1 then Finished(Failed, off, k)
        else if n == left then Finished(Done, off + n, k)
        else Sending(off + n, left - n)
  }

  /** One more round applies to a run that is still sending and leaves a
      finished run as it is. */
  lemma SendAfterNext(registered: bool, file: seq<byte>, offset0: int, fileCount: nat, rounds: seq<SendRound>,
                      k: nat)
    requires k < |rounds|
    ensures var s := SendAfter(registered, file, offset0, fileCount, rounds, k);
      SendAfter(registered, file, offset0, fileCount, rounds, k + 1)
        == if s.Finished? then s
           else
             var n := RoundAccepts(registered, file, s.offset, s.left, rounds[k]);
             if n == -1 then Finished(Failed, s.offset, k + 1)
             else if n == s.left then Finished(Done, s.offset + n, k + 1)
             else Sending(s.offset + n, s.left - n)
  {
  }

  /** Once the loop has finished, later rounds change nothing. */
  lemma {:induction false} SendAfterFinished(registered: bool, file: seq<byte>, offset0: int, fileCount: nat,
                                             rounds: seq<SendRound>, k: nat, m: nat)
    requires k <= m <= |rounds|
    requires SendAfter(registered, file, offset0, fileCount, rounds, k).Finished?
    ensures SendAfter(registered, file, offset0, fileCount, rounds, m)
            == SendAfter(registered, file, offset0, fileCount, rounds, k)
    decreases m - k
  {
    if k < m {
      SendAfterNext(registered, file, offset0, fileCount, rounds, k);
      SendAfterFinished(registered, file, offset0, fileCount, rounds, k + 1, m);
    }
  }

  /** send_file returns -1 exactly at the first failing round: a run that
      finishes used at most the rounds given; from a non-negative offset it
      failed exactly when its last round fails; no round before that one
      fails; a run still sending met no failing round. */
  lemma {:induction false} SendFileFailsAtFirstFailingRound(registered: bool, file: seq<byte>, offset0: int,
                                                            fileCount: nat, rounds: seq<SendRound>, k: nat)
    requires k <= |rounds|
    ensures var s := SendAfter(registered, file, offset0, fileCount, rounds, k);
      && (s.Finished? ==> s.used <= k)
      && (s.Finished? && 0 <= offset0 ==>
            (s.end == Failed <==> 0 < s.used && RoundFails(registered, rounds[s.used - 1])))
      && (s.Finished? && 0 < s.used ==> NoRoundFails(registered, rounds, s.used - 1))
      && (s.Sending? ==> NoRoundFails(registered, rounds, k))
    decreases k
  {
    if k > 0 {
      SendFileFailsAtFirstFailingRound(registered, file, offset0, fileCount, rounds, k - 1);
      SendAfterNext(registered, file, offset0, fileCount, rounds, k - 1);
      var p := SendAfter(registered, file, offset0, fileCount, rounds, k - 1);
      if p.Sending? {
        SendFileAdvancesOffset(registered, file, offset0, fileCount, rounds, k - 1);
        var n := RoundAccepts(registered, file, p.offset, p.left, rounds[k - 1]);
        assert 0 <= offset0 ==> (n == -1 <==> RoundFails(registered, rounds[k - 1]));
      }
    }
  }

  /** From a negative offset the first pread fails, so send_file returns -1
      after one round without advancing. */
  lemma {:induction false} SendFileNegativeOffsetFails(registered: bool, file: seq<byte>, offset0: int,
                                                       fileCount: nat, rounds: seq<SendRound>, k: nat)
    requires offset0 < 0 && 0 < fileCount && 0 < k <= |rounds|
    ensures SendAfter(registered, file, offset0, fileCount, rounds, k) == Finished(Failed, offset0, 1)
    decreases k
  {
    SendAfterNext(registered, file, offset0, fileCount, rounds, 0);
    SendAfterFinished(registered, file, offset0, fileCount, rounds, 1, k);
  }

  /** The offset moves forward by exactly what was accepted
      (`offset - offset0 == fileCount - left`), never past the end of the
      file, and the run succeeds exactly when it has advanced by all
      `fileCount` bytes. */
  lemma {:induction false} SendFileAdvancesOffset(registered: bool, file: seq<byte>, offset0: int,
                                                  fileCount: nat, rounds: seq<SendRound>, k: nat)
    requires k <= |rounds|
    ensures var s := SendAfter(registered, file, offset0, fileCount, rounds, k);
      && offset0 <= s.offset <= offset0 + fileCount
      && (s.offset != offset0 ==> 0 <= offset0 && s.offset <= |file|)
      && (s.Sending? ==> 0 < s.left && s.offset - offset0 == fileCount - s.left)
      && (s.Finished? ==> (s.end == Done <==> s.offset == offset0 + fileCount))
    decreases k
  {
    if k > 0 {
      SendFileAdvancesOffset(registered, file, offset0, fileCount, rounds, k - 1);
      SendAfterNext(registered, file, offset0, fileCount, rounds, k - 1);
    }
  }

  /** A single round whose pread delivers every byte and whose write
      accepts them all completes the transfer. */
  lemma SendFileOneRound(registered: bool, file: seq<byte>, offset0: int, fileCount: nat, rd: SendRound)
    requires 0 <= offset0 && 0 < fileCount && offset0 + fileCount <= |file|
    requires !RoundFails(registered, rd) && fileCount <= rd.pread && Accepted(rd.write.granted, fileCount) == fileCount
    ensures SendAfter(registered, file, offset0, fileCount, [rd], 1) == Finished(Done, offset0 + fileCount, 1)
  {
    SendAfterNext(registered, file, offset0, fileCount, [rd], 0);
  }

  /** Appending the bytes one round staged keeps `sent` equal to the file
      range from the starting offset to the new offset. */
  lemma SentGrows(file: seq<byte>, offset0: int, offset: int, sent: seq<byte>, n: int, staged: seq<byte>)
    requires |sent| == offset - offset0
    requires offset != offset0 ==> 0 <= offset0 && offset <= |file| && sent == file[offset0..offset]
    requires n >= 0 && (n > 0 ==> 0 <= offset && offset + n <= |file|)
    requires n > 0 ==> staged == file[offset..offset + n]
    requires n == 0 ==> staged == []
    ensures |sent + staged| == offset + n - offset0
    ensures offset + n != offset0 ==>
              0 <= offset0 && offset + n <= |file| && sent + staged == file[offset0..offset + n]
  {
    if n > 0 && offset != offset0 {
      assert file[offset0..offset] + file[offset..offset + n] == file[offset0..offset + n];
    }
  }

  /** `_mkp_network_io_send_file`: push `fileCount` bytes of the file,
      starting at `offset0`, through the write path, advancing the offset
      by what each write accepts. Returns the outcome and the new
      `*file_offset` that `SendAfter` gives once every round is answered,
      the plaintext the engine accepted, in order, and the rounds used. */
  method SendFile(reg: Registry, fd: int, file: seq<byte>, offset0: int, fileCount: nat, rounds: seq<SendRound>)
    returns (r: Outcome, offset: int, sent: seq<byte>, used: nat)
    ensures var s := SendAfter(Lookup(reg.sessions, fd).Some?, file, offset0, fileCount, rounds, |rounds|);
      && offset == s.offset
      && (s.Sending? ==> r == Blocked && used == |rounds|)
      && (s.Finished? ==> used == s.used && r == if s.end == Done then Returned(fileCount) else Returned(-1))
    ensures |sent| == offset - offset0
    ensures offset != offset0 ==> 0 <= offset0 && offset <= |file| && sent == file[offset0..offset]
  {
    ghost var registered := Lookup(reg.sessions, fd).Some?;
    var bytesLeft: int := fileCount;
    offset, sent := offset0, [];
    var i := 0;
    while bytesLeft != 0
      invariant 0 <= i <= |rounds|
      invariant 0 <= bytesLeft <= fileCount
      invariant SendAfter(registered, file, offset0, fileCount, rounds, i)
                == if bytesLeft == 0 then Finished(Done, offset, i) else Sending(offset, bytesLeft)
      invariant |sent| == offset - offset0
      invariant offset != offset0 ==> 0 <= offset0 && offset <= |file| && sent == file[offset0..offset]
      decreases |rounds| - i
    {
      if i == |rounds| { return Blocked, offset, sent, i; }
      SendAfterNext(registered, file, offset0, fileCount, rounds, i);
      var bytesWritten, staged := SendChunk(reg, fd, file, offset, bytesLeft, rounds[i]);
      i := i + 1;
      if bytesWritten == -1 {
        SendAfterFinished(registered, file, offset0, fileCount, rounds, i, |rounds|);
        return Returned(-1), offset, sent, i;
      }
      SentGrows(file, offset0, offset, sent, bytesWritten, staged);
      offset := offset + bytesWritten;
      bytesLeft := bytesLeft - bytesWritten;
      sent := sent + staged;
    }
    SendAfterFinished(registered, file, offset0, fileCount, rounds, i, |rounds|);
    return Returned(fileCount), offset, sent, i;
  }
}
