/**
 * What the driver's frames do to a 25xx chip: a chunked write reads back, the read-before-write
 * of `write` is idempotent, `init`'s liveness probe succeeds on a responsive part, and a
 * continuous-write session keeps (or, as written, loses) the bytes streamed through it.
 */
module Readback {
  import opened Commands
  import opened ModArith
  import opened Chip25xx
  import opened Paging
  import opened SeqFacts

  /** A write-enabled, unprotected chip stores a page write at the header's address. */
  lemma CommitPageWrite(c: Chip, a: nat, chunk: seq<byte>)
    requires ValidChip(c) && c.wel && c.bp == 0 && chunk != []
    ensures Commit(c, WriteHeader(a) + chunk)
      == c.(mem := LoadPage(c.mem, a % MemSize, c.pageSize, chunk), wel := false)
  {
    var f := WriteHeader(a) + chunk;
    HeaderAddrOf(EEP_WRITE, a, chunk);
    assert f[3..] == chunk;
    assert f != [EEP_WREN] && f != [EEP_WRDI];
  }

  /** Read and status-read frames leave the chip as it was. */
  lemma CommitReadOnly(c: Chip, a: nat, n: nat)
    requires ValidChip(c)
    ensures Commit(c, ReadFrame(a, n)) == c
    ensures Commit(c, [EEP_RDSR, 0]) == c
  {
    var f := ReadFrame(a, n);
    assert f[0] == EEP_READ;
  }

  /**
   * Chip `c'` is chip `c` with `d` stored at `a..a+|d|` and every other byte as it was; the
   * protection settings and the page size are unchanged, and the latch is clear after data.
   */
  predicate Stores(c: Chip, c': Chip, a: nat, d: seq<byte>)
  {
    && |c'.mem| == MemSize && |c.mem| == MemSize
    && c'.bp == c.bp && c'.wpen == c.wpen && c'.pageSize == c.pageSize
    && c'.wel == (d == [] && c.wel)
    && forall j :: 0 <= j < MemSize ==> c'.mem[j] == if a <= j < a + |d| then d[j - a] else c.mem[j]
  }

  /**
   * The frames of `writeEEPROM(a, d)` with the driver's page size `p` store `d` at `a..a+|d|`
   * of an unprotected chip, and change no other byte, whenever `p` divides the chip's page
   * buffer: a chunk that stays in a driver page then stays in a chip page. The page sizes the
   * driver offers divide one another, so any of them up to the part's own page size will do
   * (`ConfiguredPageSizeReadBack`).
   */
  lemma {:induction false} WriteFramesStore(c: Chip, a: nat, d: seq<byte>, p: nat)
    requires ValidChip(c) && c.bp == 0 && a + |d| <= MemSize
    requires p > 0 && c.pageSize % p == 0
    ensures Stores(c, Replay(c, WriteFrames(a, d, p)), a, d)
    decreases |d|
  {
    if d == [] {
      assert WriteFrames(a, d, p) == [];
    } else {
      var ch := ChunkLen(a, |d|, p);
      var c2 := c.(mem := LoadPage(c.mem, a, c.pageSize, d[..ch]), wel := false);
      WriteFramesFirstChunk(c, a, d, p);
      InCoarserPage(a, ch, p, c.pageSize);
      LoadPageInPage(c.mem, a, c.pageSize, d[..ch]);
      assert |d[ch..]| == |d| - ch;
      WriteFramesStore(c2, a + ch, d[ch..], p);
      StoresCons(c, c2, Replay(c2, WriteFrames(a + ch, d[ch..], p)), a, ch, d);
    }
  }

  /** The inductive step of `WriteFramesStore`: the first chunk, then the rest after it. */
  lemma StoresCons(c: Chip, c2: Chip, c': Chip, a: nat, ch: nat, d: seq<byte>)
    requires |c.mem| == MemSize && |c2.mem| == MemSize && 0 < ch <= |d|
    requires c2.bp == c.bp && c2.wpen == c.wpen && c2.pageSize == c.pageSize && !c2.wel
    requires forall j :: 0 <= j < MemSize ==>
      c2.mem[j] == if a <= j < a + |d[..ch]| then d[..ch][j - a] else c.mem[j]
    requires Stores(c2, c', a + ch, d[ch..])
    ensures Stores(c, c', a, d)
  {
    forall j | 0 <= j < MemSize
      ensures c'.mem[j] == if a <= j < a + |d| then d[j - a] else c.mem[j]
    {
      if a + ch <= j < a + |d| {
        assert c'.mem[j] == d[ch..][j - a - ch];
      }
    }
  }

  /** The first WREN and page write of `writeEEPROM` load the first chunk into its page. */
  lemma WriteFramesFirstChunk(c: Chip, a: nat, d: seq<byte>, p: nat)
    requires ValidChip(c) && c.bp == 0 && a + |d| <= MemSize && d != [] && p > 0
    ensures var ch := ChunkLen(a, |d|, p);
      Replay(c, WriteFrames(a, d, p))
        == Replay(c.(mem := LoadPage(c.mem, a, c.pageSize, d[..ch]), wel := false), WriteFrames(a + ch, d[ch..], p))
  {
    var ch := ChunkLen(a, |d|, p);
    var f := WriteHeader(a) + d[..ch];
    var rest := WriteFrames(a + ch, d[ch..], p);
    WriteFramesStep(a, d, p);
    PairCons(WREN_FRAME, f, rest);
    ReplayCons(c, WREN_FRAME, [f] + rest);
    var c1 := Commit(c, WREN_FRAME);
    assert c1 == c.(wel := true);
    ReplayCons(c1, f, rest);
    CommitPageWrite(c1, a, d[..ch]);
    ModSmall(a, MemSize);
  }

  /**
   * Round trip: `writeEEPROM(a, d)` with page size `p` then `readEEPROM(a, |d|)` returns `d`,
   * on an unprotected chip whose page buffer `p` divides.
   */
  lemma WriteThenRead(c: Chip, a: nat, d: seq<byte>, p: nat)
    requires ValidChip(c) && c.bp == 0 && a + |d| <= MemSize
    requires p > 0 && c.pageSize % p == 0
    ensures ReadBytes(Replay(c, WriteFrames(a, d, p)), a, |d|) == d
  {
    WriteFramesStore(c, a, d, p);
    var c' := Replay(c, WriteFrames(a, d, p));
    assert forall k :: 0 <= k < |d| ==> c'.mem[a + k] == d[k];
  }

  /**
   * The round trip for the driver's own settings: `init` leaves the page size at 16 and
   * `setPageSize` offers 16 to 256, so on an unprotected part whose page buffer is one of those
   * sizes, any configured page size not above the part's gives back what was written.
   */
  lemma ConfiguredPageSizeReadBack(c: Chip, a: nat, d: seq<byte>, p: nat)
    requires ValidChip(c) && c.bp == 0 && a + |d| <= MemSize
    requires IsPageSize(p) && IsPageSize(c.pageSize) && p <= c.pageSize
    ensures ReadBytes(Replay(c, WriteFrames(a, d, p)), a, |d|) == d
  {
    assert c.pageSize % p == 0;
    WriteThenRead(c, a, d, p);
  }

  /**
   * The frames of `write(addr, val)` against chip `c`: a one-byte read, then the one-byte page
   * write only when the byte read differs from `val`.
   */
  function WriteByteFrames(c: Chip, addr: nat, val: byte, p: nat): (fs: seq<Frame>)
    requires ValidChip(c) && p > 0
    ensures |fs| >= 1 && fs[0] == ReadFrame(addr, 1)
    ensures |fs| == 1 <==> c.mem[addr % MemSize] == val
  {
    [ReadFrame(addr, 1)] + (if c.mem[addr % MemSize] != val then WriteFrames(addr, [val], p) else [])
  }

  /**
   * After `write(addr, val)` the byte at the 16-bit address is `val`, the rest of the array is
   * unchanged, and a second `write(addr, val)` sends only the read and changes nothing.
   */
  lemma WriteByteIdempotent(c: Chip, addr: nat, val: byte, p: nat)
    requires ValidChip(c) && c.bp == 0 && p > 0
    ensures var c' := Replay(c, WriteByteFrames(c, addr, val, p));
      && c'.mem[addr % MemSize] == val
      && (forall j :: 0 <= j < MemSize && j != addr % MemSize ==> c'.mem[j] == c.mem[j])
      && c'.bp == 0
      && WriteByteFrames(c', addr, val, p) == [ReadFrame(addr, 1)]
      && Replay(c', [ReadFrame(addr, 1)]) == c'
  {
    var a := addr % MemSize;
    WriteByteOnce(c, addr, val, p);
    var c' := Replay(c, WriteByteFrames(c, addr, val, p));
    assert c'.mem[a] == val;
    assert WriteByteFrames(c', addr, val, p) == [ReadFrame(addr, 1)] + [];
    ReplayCons(c', ReadFrame(addr, 1), []);
    CommitReadOnly(c', addr, 1);
  }

  /** `write(addr, val)` leaves the chip with `val` at the 16-bit address and nothing else changed but the latch. */
  lemma WriteByteOnce(c: Chip, addr: nat, val: byte, p: nat)
    requires ValidChip(c) && c.bp == 0 && p > 0
    ensures var a := addr % MemSize;
      Replay(c, WriteByteFrames(c, addr, val, p))
        == c.(mem := c.mem[a := val], wel := if c.mem[a] != val then false else c.wel)
  {
    var a := addr % MemSize;
    var tail := if c.mem[a] != val then WriteFrames(addr, [val], p) else [];
    ReplayCons(c, ReadFrame(addr, 1), tail);
    CommitReadOnly(c, addr, 1);
    if c.mem[a] != val {
      OneByteWrite(c, addr, val, p);
    } else {
      assert c.mem[a := val] == c.mem;
    }
  }

  /** The WREN and one-byte page write of `write` store `val` at the 16-bit address. */
  lemma OneByteWrite(c: Chip, addr: nat, val: byte, p: nat)
    requires ValidChip(c) && c.bp == 0 && p > 0
    ensures Replay(c, WriteFrames(addr, [val], p))
      == c.(mem := c.mem[addr % MemSize := val], wel := false)
  {
    var a := addr % MemSize;
    var f := WriteHeader(addr) + [val];
    ModSmall(addr % p, p);
    assert ChunkLen(addr, 1, p) == 1;
    WriteFramesStep(addr, [val], p);
    assert [val][..1] == [val] && [val][1..] == [];
    assert WriteFrames(addr + 1, [], p) == [];
    assert WriteFrames(addr, [val], p) == [WREN_FRAME] + [f];
    ReplayCons(c, WREN_FRAME, [f]);
    ReplayCons(Commit(c, WREN_FRAME), f, []);
    CommitPageWrite(Commit(c, WREN_FRAME), addr, [val]);
    SlotStart(a, c.pageSize);
    assert LoadPage(c.mem, a, c.pageSize, [val]) == c.mem[a := val];
  }

  /** The frames `init` sends: clear write protection, WREN, read status, and WRDI when it succeeds. */
  function InitFrames(ok: bool): (fs: seq<Frame>)
    ensures |fs| == if ok then 5 else 4
    ensures fs[1] == [EEP_WRSR, 0x80] && fs[3] == [EEP_RDSR, 0]
    ensures fs[|fs| - 1] == [EEP_WRDI] <==> ok
  {
    [WREN_FRAME, [EEP_WRSR, StatusWriteByte(ProtectNone)], WREN_FRAME, [EEP_RDSR, 0]]
      + (if ok then [[EEP_WRDI]] else [])
  }

  /**
   * `writeProtect(sectors)` sets the block-protect level to the selector and always sets the
   * status-register protect bit (bit 7).
   */
  lemma WriteProtectSetsLevel(c: Chip, sectors: WriteProtectSel)
    requires ValidChip(c)
    ensures Replay(c, [WREN_FRAME, [EEP_WRSR, StatusWriteByte(sectors)]])
      == c.(bp := sectors.Ordinal(), wpen := true, wel := false)
  {
    var f: Frame := [EEP_WRSR, StatusWriteByte(sectors)];
    ReplayCons(c, WREN_FRAME, [f]);
    ReplayCons(Commit(c, WREN_FRAME), f, []);
    assert f != [EEP_WREN] && f != [EEP_WRDI];
  }

  /**
   * On a responsive part `init` succeeds: the latch read back after WREN is set. It leaves the
   * array untouched, no block protected and the latch cleared again.
   */
  lemma InitProbeSucceeds(c: Chip)
    requires ValidChip(c)
    ensures WelBit(StatusByte(Replay(c, InitFrames(true)[..3])))
    ensures var c' := Replay(c, InitFrames(true));
      c'.mem == c.mem && c'.bp == 0 && c'.wpen && !c'.wel
  {
    var fs := InitFrames(true);
    var c2 := Replay(c, fs[..2]);
    assert fs[..2] == [WREN_FRAME, [EEP_WRSR, StatusWriteByte(ProtectNone)]];
    WriteProtectSetsLevel(c, ProtectNone);
    assert fs[..3] == fs[..2] + [WREN_FRAME];
    ReplayAppend(c, fs[..2], [WREN_FRAME]);
    var c3 := Replay(c, fs[..3]);
    assert c3 == Commit(c2, WREN_FRAME);
    assert fs == fs[..3] + [[EEP_RDSR, 0], [EEP_WRDI]];
    ReplayAppend(c, fs[..3], [[EEP_RDSR, 0], [EEP_WRDI]]);
    ReplayCons(c3, [EEP_RDSR, 0], [[EEP_WRDI]]);
    CommitReadOnly(c3, 0, 0);
    ReplayCons(c3, [EEP_WRDI], []);
  }

  /** The frames of `init`, sent one operation after another, are `InitFrames(ok)`. */
  lemma InitTrace(t0: seq<Frame>, t2: seq<Frame>, t3: seq<Frame>, t4: seq<Frame>, t5: seq<Frame>, ok: bool)
    requires t2 == t0 + [WREN_FRAME, [EEP_WRSR, StatusWriteByte(ProtectNone)]]
    requires t3 == t2 + [WREN_FRAME] && t4 == t3 + [[EEP_RDSR, 0]]
    requires t5 == if ok then t4 + [[EEP_WRDI]] else t4
    ensures t5 == t0 + InitFrames(ok)
  {
    var fs := InitFrames(ok);
    if ok {
      assert fs == [WREN_FRAME, [EEP_WRSR, StatusWriteByte(ProtectNone)]] + [WREN_FRAME] + [[EEP_RDSR, 0]] + [[EEP_WRDI]];
    } else {
      assert fs == [WREN_FRAME, [EEP_WRSR, StatusWriteByte(ProtectNone)]] + [WREN_FRAME] + [[EEP_RDSR, 0]];
    }
  }

  /**
   * Closing a write frame that carries no data changes no byte of the array: the frame aborts,
   * and only the WREN before it is left in effect.
   */
  lemma EmptyTailKeepsMemory(c: Chip, a: nat, d: seq<byte>, p: nat, reopenOnFill: bool)
    requires ValidChip(c) && p > 0
    ensures var e := EmptyTail(a, d, p, reopenOnFill);
      Replay(c, e) == if e == [] then c else c.(wel := true)
  {
    var e := EmptyTail(a, d, p, reopenOnFill);
    if e != [] {
      var h := WriteHeader(a + |d|);
      ReplayCons(c, WREN_FRAME, [h]);
      ReplayCons(Commit(c, WREN_FRAME), h, []);
      assert h != [EEP_WREN] && h != [EEP_WRDI] && |h| == 3;
    }
  }

  /**
   * With the page-end test `<=`, a session `continuousPutEnable(a)`, `continuousWriteEEPROM(d1)`,
   * `continuousWriteEEPROM(d2)`, `continuousPutDisable()` stores `d1 + d2` at `a` and reads back,
   * on an unprotected chip whose page buffer the driver's page size `p` divides.
   */
  lemma ReopeningSessionReadBack(c: Chip, a: nat, d1: seq<byte>, d2: seq<byte>, p: nat)
    requires ValidChip(c) && c.bp == 0 && a + |d1| + |d2| <= MemSize
    requires p > 0 && c.pageSize % p == 0
    ensures var s1 := StreamFrames(a, WriteHeader(a), d1, p, true);
      var s2 := StreamFrames(a + |d1|, s1.open, d2, p, true);
      ReadBytes(Replay(c, [WREN_FRAME] + s1.closed + s2.closed + [s2.open]), a, |d1| + |d2|) == d1 + d2
  {
    var d := d1 + d2;
    var s1 := StreamFrames(a, WriteHeader(a), d1, p, true);
    var s2 := StreamFrames(a + |d1|, s1.open, d2, p, true);
    ReopeningStreamComposes(a, WriteHeader(a), d1, d2, p);
    SessionMatchesWriteFrames(a, d, p, true);
    var wf := WriteFrames(a, d, p);
    var e := EmptyTail(a, d, p, true);
    assert [WREN_FRAME] + s1.closed + s2.closed + [s2.open] == wf + e;
    ReplayAppend(c, wf, e);
    WriteFramesStore(c, a, d, p);
    WriteThenRead(c, a, d, p);
    var c' := Replay(c, wf);
    EmptyTailKeepsMemory(c', a, d, p, true);
    assert ReadBytes(Replay(c', e), a, |d|) == ReadBytes(c', a, |d|);
  }

  /**
   * The driver as written: enable at 0 on a 16-byte-page chip, write 16 bytes of 1 (exactly one
   * page), write one byte 2, disable. The first call does not reopen, so the 17th byte goes into
   * the old frame and the chip wraps it onto address 0: reading back 17 bytes does not return
   * what was written.
   */
  lemma ExactPageFillCorruptsSession()
    ensures var c := Chip(seq(MemSize, _ => 0), 16, false, 0, false);
      var d1: seq<byte> := seq(16, _ => 1);
      var d2: seq<byte> := [2];
      var s1 := StreamFrames(0, WriteHeader(0), d1, 16, false);
      var s2 := StreamFrames(16, s1.open, d2, 16, false);
      var c' := Replay(c, [WREN_FRAME] + s1.closed + s2.closed + [s2.open]);
      c'.mem[0] == 2 && ReadBytes(c', 0, 17) != d1 + d2
  {
    var c := Chip(seq(MemSize, _ => 0), 16, false, 0, false);
    var d1: seq<byte> := seq(16, _ => 1);
    var d2: seq<byte> := [2];
    ExactFillKeepsFrameOpen(0, WriteHeader(0), d1, 16);
    var s1 := StreamFrames(0, WriteHeader(0), d1, 16, false);
    StreamWhole(16, s1.open, d2, 16, false);
    var s2 := StreamFrames(16, s1.open, d2, 16, false);
    var f := WriteHeader(0) + (d1 + d2);
    assert s2.open == f;
    assert [WREN_FRAME] + s1.closed + s2.closed + [s2.open] == [WREN_FRAME] + [f];
    ReplayCons(c, WREN_FRAME, [f]);
    ReplayCons(Commit(c, WREN_FRAME), f, []);
    CommitPageWrite(Commit(c, WREN_FRAME), 0, d1 + d2);
    var c' := Replay(c, [WREN_FRAME] + [f]);
    assert (d1 + d2)[..16] == d1;
    assert Slot(0, 16, 16) == 0;
    assert c'.mem[0] == 2;
    assert ReadBytes(c', 0, 17)[0] == 2;
  }
}
