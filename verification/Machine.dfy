/** Bytes and words of the target, a 32-bit machine. */
module Machine {
  type Byte = bv8
  type Word = bv32

  lemma NumberOfByte(n: nat)
    requires n < 256
    ensures (n as Byte) as nat == n
  {
  }

  /** One more than the greatest unsigned long. */
  const ULONG_LIMIT: nat := 0x1_0000_0000
}
