/**
 * The I2C request cycle, seen from its caller. `requestCycle(address, n, buf)`
 * selects register 0, reads `n` bytes into `buf` and sends the processing
 * command; it reports failure, without reading or commanding, when the
 * register select is not acknowledged. The bus transactions and settling
 * delays are outside this model: each request cycle is an oracle outcome.
 */
module I2cComm {
  import opened IntTypes

  /** The outcome of one request cycle: failure, or the bytes read into the buffer. */
  datatype Transfer = Failed | Received(bytes: seq<uint8>)

  /** The read loop stores exactly `count` bytes into the buffer whenever the cycle succeeds. */
  predicate Delivers(t: Transfer, count: nat) {
    t.Received? ==> |t.bytes| == count
  }
}
