/** The abstract TLS engine (MatrixSSL) as the plugin sees it: the integer
    result codes its calls return, and the byte type of the buffers it hands
    out. The values are those of MatrixSSL's public headers; every property
    proved in this project depends only on their being pairwise distinct.
    What the engine answers is never computed here: each entry point takes
    the answers as a script. */
module Engine {

  newtype byte = x: int | 0 <= x < 256

  // Generic status codes of the MatrixSSL core.
  const PS_SUCCESS: int := 0
  const PS_FAILURE: int := -1
  const PS_ARG_FAIL: int := -6
  const PS_MEM_FAIL: int := -8
  const PS_PROTOCOL_FAIL: int := -12

  // Result codes of the MatrixSSL session API.
  const MATRIXSSL_SUCCESS: int := PS_SUCCESS
  const MATRIXSSL_REQUEST_SEND: int := 1
  const MATRIXSSL_REQUEST_RECV: int := 2
  const MATRIXSSL_REQUEST_CLOSE: int := 3
  const MATRIXSSL_APP_DATA: int := 4
  const MATRIXSSL_HANDSHAKE_COMPLETE: int := 5
  const MATRIXSSL_RECEIVED_ALERT: int := 6

  /** The answers of matrixSslReceivedData that the plugin treats as a
      failure to decode the bytes it fed. */
  predicate DecodeFailed(rc: int) {
    rc == PS_MEM_FAIL || rc == PS_ARG_FAIL || rc == PS_PROTOCOL_FAIL
  }

  /** The answers of matrixSslGetWritebuf that the write path rejects. */
  predicate WritebufFailed(rc: int) {
    rc == PS_MEM_FAIL || rc == PS_ARG_FAIL || rc == PS_FAILURE
  }

  /** The answers of matrixSslEncodeWritebuf that the write path rejects. */
  predicate EncodeFailed(rc: int) {
    rc == PS_ARG_FAIL || rc == PS_PROTOCOL_FAIL || rc == PS_FAILURE
  }

  /** How a call into the plugin ends: it returns a code, or its script of
      engine and socket answers ran out while it was still waiting for one
      (the real call would block, or spin, at that point). */
  datatype Outcome = Returned(code: int) | Blocked

  function Min(a: int, b: int): (m: int)
    ensures m <= a && m <= b
    ensures m == a || m == b
  {
    if a < b then a else b
  }
}
