/** The ruid value: `pg_ruid_t`, sixteen opaque bytes with no further structure (src/ruid.c:28-35). */
module RuidTypes {
  import opened Bytes

  /** RUID_LEN of src/ruid.c:29. */
  const RUID_LEN: nat := 16

  /** Any 16 bytes form a valid ruid, the all-zero one included. */
  type Ruid = s: seq<byte> | |s| == RUID_LEN witness [0, 0, 0, 0, 0, 0, 0, 0, 0, 0, 0, 0, 0, 0, 0, 0]

  const ZERO: Ruid := seq(RUID_LEN, _ => 0)
}
