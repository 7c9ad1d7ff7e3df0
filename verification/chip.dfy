/**
 * A model of a 25xx SPI EEPROM with 16-bit addressing (64 KiB, 25LC512-like), used as the
 * device the driver talks to. A frame takes effect when chip-select rises; the internal write
 * cycle is taken to complete at that moment, so the write-in-progress bit always reads 0.
 */
module Chip25xx {
  import opened Commands
  import opened ModArith

  const MemSize: nat := 0x1_0000

  /**
   * Array contents, the page-buffer size, the write-enable latch, the block-protect level
   * (status bits 2-3) and the status-register protect bit (status bit 7).
   */
  datatype Chip = Chip(mem: seq<byte>, pageSize: nat, wel: bool, bp: nat, wpen: bool)

  predicate ValidChip(c: Chip)
  {
    |c.mem| == MemSize && c.pageSize > 0 && c.bp < 4
  }

  /** Where byte `i` of a page write addressed at `a` lands: it wraps within the page of `a`. */
  function Slot(a: nat, p: nat, i: nat): (s: nat)
    requires p > 0
    ensures s < MemSize
  {
    (a - a % p + (a % p + i) % p) % MemSize
  }

  /** The page buffer loaded with `data`, byte after byte; a later byte wins a wrapped slot. */
  function LoadPage(mem: seq<byte>, a: nat, p: nat, data: seq<byte>): (r: seq<byte>)
    requires |mem| == MemSize && p > 0
    ensures |r| == MemSize
    decreases |data|
  {
    if data == [] then mem
    else LoadPage(mem, a, p, data[..|data| - 1])[Slot(a, p, |data| - 1) := data[|data| - 1]]
  }

  /** Byte 0 of a page write lands at the header's address. */
  lemma SlotStart(a: nat, p: nat)
    requires p > 0 && a < MemSize
    ensures Slot(a, p, 0) == a
  {
    ModOfMod(a, p);
    ModSmall(a, MemSize);
  }

  /** Whether the block-protect level covers address `a` (upper quarter, upper half, all). */
  predicate Protected(c: Chip, a: nat)
  {
    (c.bp == 1 && a >= 3 * MemSize / 4) || (c.bp == 2 && a >= MemSize / 2) || c.bp == 3
  }

  /** The status register as RDSR reports it. */
  function StatusByte(c: Chip): (s: byte)
    requires ValidChip(c)
    ensures WelBit(s) == c.wel && !BusyBit(s)
  {
    StatusBits((if c.wpen then 0x80 else 0) + 4 * c.bp as byte + (if c.wel then 2 else 0));
    (if c.wpen then 0x80 else 0) + 4 * c.bp as byte + (if c.wel then 2 else 0)
  }

  /**
   * The effect of a complete frame when chip-select rises. A WRITE frame takes effect only
   * when it carries at least one data byte; one that ends after its address aborts and leaves
   * the latch as it was.
   */
  function Commit(c: Chip, f: Frame): (r: Chip)
    requires ValidChip(c)
    ensures ValidChip(r) && r.pageSize == c.pageSize
  {
    if f == [EEP_WREN] then c.(wel := true)
    else if f == [EEP_WRDI] then c.(wel := false)
    else if |f| == 2 && f[0] == EEP_WRSR then
      if c.wel then c.(bp := (f[1] as nat / 4) % 4, wpen := f[1] >= 0x80, wel := false) else c
    else if |f| > 3 && f[0] == EEP_WRITE then
      if !c.wel then c
      else if Protected(c, HeaderAddr(f)) then c.(wel := false)
      else c.(mem := LoadPage(c.mem, HeaderAddr(f), c.pageSize, f[3..]), wel := false)
    else c
  }

  /** The byte the chip shifts out while the host sends the next byte after `sent`. */
  function Miso(c: Chip, sent: Frame): byte
    requires ValidChip(c)
  {
    if |sent| >= 3 && sent[0] == EEP_READ then c.mem[(HeaderAddr(sent) + |sent| - 3) % MemSize]
    else if |sent| >= 1 && sent[0] == EEP_RDSR then StatusByte(c)
    else 0
  }

  /** The chip after the frames `fs`, committed in order. */
  function Replay(c: Chip, fs: seq<Frame>): (r: Chip)
    requires ValidChip(c)
    ensures ValidChip(r) && r.pageSize == c.pageSize
    decreases |fs|
  {
    if fs == [] then c else Commit(Replay(c, fs[..|fs| - 1]), fs[|fs| - 1])
  }

  /** `n` bytes read sequentially from `a`; the address counter wraps at the end of the array. */
  function ReadBytes(c: Chip, a: nat, n: nat): (r: seq<byte>)
    requires ValidChip(c)
    ensures |r| == n
    ensures a + n <= MemSize ==> r == c.mem[a..a + n]
  {
    seq(n, k requires 0 <= k < n => c.mem[(a % MemSize + k) % MemSize])
  }

  /** The first byte of a sequential read is the byte at the 16-bit address. */
  lemma ReadBytesFirst(c: Chip, a: nat, n: nat)
    requires ValidChip(c) && n > 0
    ensures ReadBytes(c, a, n)[0] == c.mem[a % MemSize]
  {
    ModOfMod(a, MemSize);
  }

  lemma {:induction false} ReplayAppend(c: Chip, fs: seq<Frame>, gs: seq<Frame>)
    requires ValidChip(c)
    ensures Replay(c, fs + gs) == Replay(Replay(c, fs), gs)
    decreases |gs|
  {
    if gs == [] {
      assert fs + gs == fs;
    } else {
      assert (fs + gs)[..|fs + gs| - 1] == fs + gs[..|gs| - 1];
      ReplayAppend(c, fs, gs[..|gs| - 1]);
    }
  }

  /** Replaying a frame sequence that starts with `f` commits `f` first. */
  lemma ReplayCons(c: Chip, f: Frame, fs: seq<Frame>)
    requires ValidChip(c)
    ensures Replay(c, [f] + fs) == Replay(Commit(c, f), fs)
  {
    ReplayAppend(c, [f], fs);
    assert [f][..0] == [];
  }

  /**
   * A page write whose bytes stay inside the page stores byte `i` at `a + i` and leaves every
   * other address alone.
   */
  lemma {:induction false} LoadPageInPage(mem: seq<byte>, a: nat, p: nat, data: seq<byte>)
    requires |mem| == MemSize && p > 0
    requires a % p + |data| <= p && a + |data| <= MemSize
    ensures forall j :: 0 <= j < MemSize ==>
      LoadPage(mem, a, p, data)[j] == if a <= j < a + |data| then data[j - a] else mem[j]
    decreases |data|
  {
    if data != [] {
      var n := |data| - 1;
      LoadPageInPage(mem, a, p, data[..n]);
      ModSmall(a % p + n, p);
      ModSmall(a + n, MemSize);
      assert Slot(a, p, n) == a + n;
    }
  }
}
