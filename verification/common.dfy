/** Types shared by every component of the bench_hash harness. */
module Common {

  datatype Option<+T> = None | Some(value: T)

  datatype Result<+T, +E> = Ok(value: T) | Err(error: E)

  /** `Hash`: the 32 bytes of a SHA-256 digest; only byte-wise equality (memcmp) is used here. */
  const HashSize: nat := 32

  type Hash = h: seq<bv8> | |h| == HashSize witness seq(HashSize, _ => 0)

  /**
   * The fatal conditions of the harness. Every one of them ends the process
   * with exit code 1 (src/bench_hash.c).
   */
  datatype Error =
    | NotHashSumFile(manifestPath: string)                          // :217-220
    | IncorrectHashLine(manifestPath: string, lineNumber: nat)      // :82-86
    | StatFailed(filePath: string)                                  // :249-253
    | ClockFailed                                                   // :258-262, :264-268
    | UnexpectedHash(filePath: string, expected: Hash, actual: Hash) // :276-284
}
