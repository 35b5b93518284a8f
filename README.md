# Liana SSL network layer: a Dafny model

Liana SSL is the Monkey HTTP daemon plugin that puts TLS (through the
MatrixSSL engine) under the server's raw-socket hooks. The host calls the
plugin with a bare socket descriptor; the plugin finds the connection's TLS
session in a per-worker list, runs the handshake on the first read event,
and translates every later read and write between plaintext and TLS
records.

This project models the plugin's control logic in
`plugins/liana_ssl/liana_ssl.c`:

- `engine.dfy` (`Engine`): MatrixSSL's result codes, the classes of
  failure codes the plugin checks, and the `Outcome` of a hook.
- `registry.dfy` (`SessionRegistry`): the per-worker session list as a
  class over a `seq<Session>`. Its invariant is that descriptors are
  distinct. It has the head-to-tail scan (`Find`, specified by `Lookup`)
  and the tail insertion of `mk_list_add` (`Add`).
- `handshake.dfy` (`Handshake`): `liana_ssl_handshake`. `Negotiate` is the
  loop as written: an outer read/feed loop with a nested send loop. It is
  proved to produce exactly the transcript of `Run`, a state machine
  (`NextStep`) that maps the calls made so far to the next call or the
  return value. The lemmas about `Run` state what the handshake promises.
- `records.dfy` (`RecordIO`): the read path, the write path, writev and
  send_file.
- `hooks.dfy` (`Hooks`): `_mkp_event_read`, which creates, registers and
  handshakes a session.

The engine and the socket are given as scripts of answers, because their
behaviour is outside the plugin:

- The handshake takes one integer per foreign call, in call order.
- The read path takes one round per loop iteration.
- The write path takes a record with its five answers.
- send_file takes one round per iteration: the pread answer and that
  write's answers.

When a script runs out, the hook's outcome is `Blocked`. The real call
would block or spin at that point. So the loops that need not terminate in
C are bounded by the length of their script.

Result-code values are those of MatrixSSL's public headers, which are not
part of this model. Every proof depends only on the codes being distinct.

Where the code departs from the intended design of the layer, the model
follows the code:

- The handshake treats only a negative raw read as fatal. A read of 0
  bytes is fed to the engine.
- Nothing ever removes a session. A failed handshake leaves its entry
  registered (`Hooks.EventRead`), and `_mkp_network_io_close` only closes
  the descriptor. So when the host closes a descriptor after EVENT_CLOSE
  and the descriptor is reused, the next read event finds the stale entry
  and answers EVENT_NEXT without a handshake (liana_ssl.c:645-648,
  `Hooks.RepeatedReadEvent`).
- The read path returns 0 for warning and fatal alerts alike.
- The inner send loop's condition
  `ret != MATRIXSSL_SUCCESS || ret != MATRIXSSL_HANDSHAKE_COMPLETE` is
  always true. So that loop is left only when matrixSslGetOutdata answers
  0, or by an error return (`Handshake.SendPhaseLeftOnlyOnEmptyOutdata`).
- If the file ends before `file_count` bytes, pread returns 0 and the write
  accepts 0 bytes, unless an engine call fails. A write of 0 bytes still
  calls matrixSslGetWritebuf, matrixSslEncodeToOutdata and
  matrixSslGetOutdata, and a failure there makes send_file return -1.
  Otherwise send_file makes no progress, and the model reports `Blocked`
  once its script runs out.

## Model

| member | source | states |
|---|---|---|
| SessionRegistry.Lookup | plugins/liana_ssl/liana_ssl.c:269-276 | None exactly when no entry has the descriptor; otherwise the first entry in list order that has it |
| SessionRegistry.LookupUnique | plugins/liana_ssl/liana_ssl.c:645-666 | with distinct descriptors, a lookup of any entry's descriptor returns that entry |
| SessionRegistry.LookupAppend | plugins/liana_ssl/liana_ssl.c:664-666 | appending an entry for an absent descriptor makes it resolve to the new entry and leaves every other lookup unchanged |
| SessionRegistry.Registry.constructor | plugins/liana_ssl/liana_ssl.c:629-635 | each worker starts with an empty list that satisfies the distinct-descriptor invariant |
| SessionRegistry.Registry.Find | plugins/liana_ssl/liana_ssl.c:269-276 | the linear scan returns exactly `Lookup` of the list for the descriptor |
| SessionRegistry.Registry.Add | plugins/liana_ssl/liana_ssl.c:666 | for a descriptor not yet registered, the list becomes the old list plus the entry at the tail, and descriptors stay distinct |
| Handshake.Negotiate | plugins/liana_ssl/liana_ssl.c:102-215 | the nested read/feed/send loop produces exactly the outcome and call log of the state machine `Run` on the same script |
| Handshake.RunTranscript | plugins/liana_ssl/liana_ssl.c:115-212 | the calls consume the script in order; each call is the one the state machine asks for after the previous calls; a return is where the machine returns; Blocked only when the whole script was consumed |
| Handshake.NextStepReturns | plugins/liana_ssl/liana_ssl.c:115-214 | the machine returns -1 exactly after a fatal answer, returns 0 only when `ret` holds HANDSHAKE_COMPLETE, and returns no other value |
| Handshake.HandshakeSucceedsOnlyWhenComplete | plugins/liana_ssl/liana_ssl.c:138-214 | the handshake returns only 0 or -1; it returns 0 only when the last ReceivedData/SentData answer was HANDSHAKE_COMPLETE and no answer was fatal |
| Handshake.HandshakeFailsAtFirstFatal | plugins/liana_ssl/liana_ssl.c:115-204 | it returns -1 exactly when the last call got a fatal answer (GetReadbuf PS_ARG_FAIL, negative read, decode failure, GetOutdata PS_ARG_FAIL, write -1, SentData REQUEST_CLOSE or PS_ARG_FAIL); no earlier call got one |
| Handshake.SendPhaseLeftOnlyOnEmptyOutdata | plugins/liana_ssl/liana_ssl.c:165-207 | a non-fatal SentData, whatever its code, is always followed by GetOutdata; the send phase is left, or ends the handshake with 0, only right after GetOutdata answered 0 |
| RecordIO.FirstNonRecv | plugins/liana_ssl/liana_ssl.c:282-304 | the read loop stops at the first round whose status is not REQUEST_RECV; every earlier round answered REQUEST_RECV; it runs out only if all rounds did |
| RecordIO.Read | plugins/liana_ssl/liana_ssl.c:255-324 | -1 for an unregistered descriptor; -1 on a decode failure; 0 on an alert; otherwise min(decoded length, count) bytes of the decoded plaintext copied into the buffer and that count returned; the buffer is untouched when nothing is delivered |
| RecordIO.Accepted | plugins/liana_ssl/liana_ssl.c:367-371 | the accepted count is min(granted, count) for a non-negative grant, and count for a negative grant that is not a rejected failure code (the C comparison is unsigned); it never exceeds count |
| RecordIO.Write | plugins/liana_ssl/liana_ssl.c:326-397 | NULL buffer: 0, whatever the registry holds; unregistered descriptor or rejected GetWritebuf: -1 and nothing staged; encode failure or negative outdata: -1; otherwise the accepted count, with exactly that prefix of the buffer staged |
| RecordIO.WriteReportsQueuedPlaintext | plugins/liana_ssl/liana_ssl.c:355-396 | a write that does not fail returns exactly the number of plaintext bytes it queued (a prefix of the buffer), at most count, and min(granted, count) for a non-negative grant |
| RecordIO.WriteIgnoresCiphertext | plugins/liana_ssl/liana_ssl.c:382-396 | the write's result does not depend on the ciphertext length, on the raw write's result, or on SentData's answer |
| RecordIO.ConcatLength | plugins/liana_ssl/liana_ssl.c:403-412 | the joined buffer is exactly as long as the iov's total length |
| RecordIO.ConcatSplit | plugins/liana_ssl/liana_ssl.c:408-410 | joining keeps the segments in order: splitting the list splits the bytes at the same place |
| RecordIO.Writev | plugins/liana_ssl/liana_ssl.c:399-415 | writev behaves as a single write of the concatenated segments with count equal to the total length |
| RecordIO.Pread | plugins/liana_ssl/liana_ssl.c:474-478 | pread gives -1 on failure; otherwise at most the requested count, and never past the end of the file |
| RecordIO.RoundAccepts | plugins/liana_ssl/liana_ssl.c:474-484 | one round gives -1 exactly when the offset is negative or the round fails (pread -1, unregistered descriptor, rejected grant, failed encode, negative outdata); otherwise a count of at most the bytes left that stays inside the file |
| RecordIO.SendChunk | plugins/liana_ssl/liana_ssl.c:474-484 | one iteration's pread and write return exactly `RoundAccepts`, and the plaintext staged is the file's bytes from the offset for that count |
| RecordIO.SendAfterFinished | plugins/liana_ssl/liana_ssl.c:475-490 | once the loop has returned, later rounds change neither its result nor its offset |
| RecordIO.SendFileFailsAtFirstFailingRound | plugins/liana_ssl/liana_ssl.c:474-484 | a finished run used at most the rounds given; from a non-negative offset it returned -1 exactly when its last round fails; no earlier round fails; a run still sending met no failing round |
| RecordIO.SendFileNegativeOffsetFails | plugins/liana_ssl/liana_ssl.c:474-477 | from a negative offset the first pread fails, so send_file returns -1 after one round with the offset unchanged |
| RecordIO.SendFileAdvancesOffset | plugins/liana_ssl/liana_ssl.c:470-490 | the offset advances by exactly the accepted counts (offset - offset0 == file_count - bytes_left), stays within [offset0, offset0 + file_count] and within the file, and the run succeeds exactly when the offset has advanced by file_count |
| RecordIO.SendFileOneRound | plugins/liana_ssl/liana_ssl.c:472-490 | one round that reads and accepts every byte ends the loop with file_count returned and the offset advanced by file_count |
| RecordIO.SendFile | plugins/liana_ssl/liana_ssl.c:458-491 | the result, the new offset and the rounds used are those of `SendAfter` over the whole script: -1 after a failing round, file_count once bytes_left reaches 0, Blocked only when every round was used while still sending; the accepted plaintext is the file's bytes from offset0 to the new offset |
| Hooks.EventCloseExactlyOnHandshakeFailure | plugins/liana_ssl/liana_ssl.c:668-677 | the hook answers EVENT_CLOSE exactly when the handshake returned -1, and EVENT_NEXT only after HANDSHAKE_COMPLETE |
| Hooks.EventRead | plugins/liana_ssl/liana_ssl.c:637-678 | a registered descriptor gets EVENT_NEXT with the list unchanged; a failed session creation gets EVENT_CLOSE with nothing added; otherwise exactly one entry for the descriptor is appended and kept, and the answer follows the handshake |
| Hooks.RepeatedReadEvent | plugins/liana_ssl/liana_ssl.c:629-666 | from the empty per-thread list, two read events on one descriptor leave at most one entry; once the first registers it, the second finds it and answers EVENT_NEXT, even after the first handshake failed; if the first creation fails, the second event does what a first event does |

## Left out

- Cryptography and record format: every `matrixSsl*` call is a foreign
  call. Its answers come from the scripts and do not depend on the bytes
  fed in.
- Raw `read`, `write` and `pread`: scripted answers. pread is bounded by
  the request and the file's length.
- Socket helpers `_mkp_network_io_accept`, `_mkp_network_io_connect`,
  `_mkp_network_io_create_socket`, `_mkp_network_io_bind` and
  `_mkp_network_io_server` (lines 230-253, 423-456, 493-572): wrappers
  around BSD socket calls with no logic of their own.
- `_mkp_network_io_close` (lines 417-421): it only calls `close`. It does
  not touch the list, so no removal is modelled.
- Key loading `_mkp_core_prctx` (lines 574-627), configuration reading
  `liana_conf` (lines 60-100), `_mkp_init` and `_mkp_exit`: file and
  library plumbing.
- Thread-specific storage (`pthread_getspecific`/`pthread_setspecific`):
  each hook takes the worker's `Registry` as a parameter. Concurrency is
  not modelled.
- Memory allocation failures (`malloc`, `mem_alloc`) and
  `matrixSslDeleteSession` on the creation failure path.
- The original's byte-copy defects, replaced by the intended behaviour:
  - `strncpy` (line 320) stops at a NUL byte, and when the decoded text is
    shorter than `count` it fills the rest of the buffer up to `count`
    with NUL bytes. `RecordIO.Read` copies the delivered bytes and leaves
    the buffer past them untouched.
  - Decoded bytes past `count` are dropped. `RecordIO.Read` keeps no
    leftover plaintext from one call to the next.
  - The read path returns `len` even when it exceeds `count` (line 321).
    `RecordIO.Read` copies and returns min(len, count).
  - `memcpy` copies `len` rather than the accepted count (line 365).
  - writev joins the segments with `strcat` into a freshly allocated,
    uninitialised buffer (lines 403-410). `strcat` needs the buffer to
    start as an empty string and every segment to be NUL-terminated, and it
    stops at a segment's first NUL byte. `RecordIO.Writev` joins the
    segments byte for byte.
- RecordIO.Read: the alert-level byte is not inspected, because both
  branches return 0.
- Integer widths: `int`, `ssize_t`, `size_t` and `off_t` are unbounded
  here. This ignores the truncation of send_file's `size_t` count to its
  `int` result, and `off_t` overflow.
- Logging: the `PLUGIN_TRACE` messages throughout and the `perror`
  reports at lines 393, 476 and 482 only write diagnostics and change no
  result.
- Blocking: a call that would wait on the peer forever shows up as
  `Blocked` when its script is exhausted.
