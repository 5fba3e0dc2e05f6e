/**
  Register widths, byte addresses and the states of a transfer. Addresses are unbounded naturals
  here; the contracts that store them in registers prove that they fit, so the C code's 64-bit sums
  never wrap.
 */
module Words {

  type u64 = x: int | 0 <= x < 0x1_0000_0000_0000_0000

  /** A transfer on its way through the driver. */
  datatype XferState = NEW | SUBMITTED | COMPLETED | FAILED

  datatype Option<+T> = None | Some(value: T)

  /** The n consecutive byte addresses that start at a. */
  function Run(a: nat, n: nat): (r: seq<nat>)
    ensures |r| == n
  {
    seq(n, k requires 0 <= k < n => a + k)
  }

  lemma RunSplit(a: nat, m: nat, n: nat)
    ensures Run(a, m + n) == Run(a, m) + Run(a + m, n)
  {
  }

  // PCI_DMA_L and PCI_DMA_H split an address over two registers.

  function AddrLow(a: nat): nat { a % 0x1_0000_0000 }
  function AddrHigh(a: nat): nat { a / 0x1_0000_0000 % 0x1_0000_0000 }

  /** An address that fits 64 bits survives the split. */
  lemma SplitIsLossless(a: nat)
    requires a < 0x1_0000_0000_0000_0000
    ensures AddrHigh(a) * 0x1_0000_0000 + AddrLow(a) == a
  {
  }
}
