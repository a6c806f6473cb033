/** The plain snapshot record that the process listing produces. */
module Models {
  import opened Text

  /** One past the largest value of Rust's `u64`. */
  const U64_LIMIT: int := 0x1_0000_0000_0000_0000

  /** Rust's `u64`. */
  type U64 = x: nat | x < U64_LIMIT

  /**
   `ProcessInfo`: the pid as text, the name as reported, the CPU usage (an
   integer stands in for the `f32` percentage) and the resident memory in bytes.
   */
  datatype ProcessInfo = ProcessInfo(pid: Bytes, name: Bytes, cpuUsage: int, memory: U64)
}
