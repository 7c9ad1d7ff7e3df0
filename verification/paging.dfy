/**
 * The page-aware write path as values: how `writeEEPROM` splits a buffer into chunks, the
 * frames it emits, and the frames a continuous-write session emits.
 */
module Paging {
  import opened Commands
  import opened ModArith
  import opened SeqFacts

  /**
   * The chunk written next from `addr` when `remaining` bytes are left: the remaining count,
   * cut to the space left in the page when that is strictly smaller.
   */
  function ChunkLen(addr: nat, remaining: nat, p: nat): (c: nat)
    requires p > 0
    ensures c <= remaining && c <= p - addr % p
    ensures remaining > 0 ==> c >= 1
    ensures c == remaining || addr % p + c == p
  {
    var spaceLeftInPage := p - addr % p;
    if spaceLeftInPage < remaining then spaceLeftInPage else remaining
  }

  /** The chunk lengths `writeEEPROM` uses for `n` bytes from `addr`, in order. */
  function Chunks(addr: nat, n: nat, p: nat): seq<nat>
    requires p > 0
    decreases n
  {
    if n == 0 then [] else
      var c := ChunkLen(addr, n, p);
      [c] + Chunks(addr + c, n - c, p)
  }

  function Sum(cs: seq<nat>): nat
  {
    if cs == [] then 0 else cs[0] + Sum(cs[1..])
  }

  /** The frames `writeEEPROM(addr, data, |data|)` emits: per chunk, WREN then the page write. */
  function WriteFrames(addr: nat, data: seq<byte>, p: nat): (fs: seq<Frame>)
    requires p > 0
    ensures data == [] <==> fs == []
    decreases |data|
  {
    if data == [] then [] else
      var c := ChunkLen(addr, |data|, p);
      [WREN_FRAME, WriteHeader(addr) + data[..c]] + WriteFrames(addr + c, data[c..], p)
  }

  lemma WriteFramesStep(addr: nat, data: seq<byte>, p: nat)
    requires p > 0 && data != []
    ensures var c := ChunkLen(addr, |data|, p);
      WriteFrames(addr, data, p) == [WREN_FRAME, WriteHeader(addr) + data[..c]] + WriteFrames(addr + c, data[c..], p)
  {}

  /**
   * Every chunk holds at least one byte and fits in what is left of its page, so no write
   * frame crosses a page boundary; chunk `k` starts where the earlier chunks end, and the
   * chunks add up to exactly `n` bytes.
   */
  lemma ChunksTile(addr: nat, n: nat, p: nat)
    requires p > 0
    ensures var cs := Chunks(addr, n, p);
      && Sum(cs) == n
      && forall k :: 0 <= k < |cs| ==>
           1 <= cs[k] <= p - (addr + Sum(cs[..k])) % p && Sum(cs[..k]) + cs[k] <= n
  {
    ChunksSum(addr, n, p);
    forall k | 0 <= k < |Chunks(addr, n, p)|
      ensures var cs := Chunks(addr, n, p);
        1 <= cs[k] <= p - (addr + Sum(cs[..k])) % p && Sum(cs[..k]) + cs[k] <= n
    {
      ChunkFits(addr, n, p, k);
    }
  }

  lemma {:induction false} ChunksSum(addr: nat, n: nat, p: nat)
    requires p > 0
    ensures Sum(Chunks(addr, n, p)) == n
    decreases n
  {
    if n > 0 {
      var c := ChunkLen(addr, n, p);
      ChunksSum(addr + c, n - c, p);
      ChunksStep(addr, n, p);
      assert ([c] + Chunks(addr + c, n - c, p))[1..] == Chunks(addr + c, n - c, p);
    }
  }

  /** Chunk `k` on its own: at least one byte, within its page, and within the buffer. */
  lemma {:induction false} ChunkFits(addr: nat, n: nat, p: nat, k: nat)
    requires p > 0 && k < |Chunks(addr, n, p)|
    ensures var cs := Chunks(addr, n, p);
      1 <= cs[k] <= p - (addr + Sum(cs[..k])) % p && Sum(cs[..k]) + cs[k] <= n
    decreases k
  {
    var c := ChunkLen(addr, n, p);
    var rest := Chunks(addr + c, n - c, p);
    ChunksStep(addr, n, p);
    if k == 0 {
      assert Chunks(addr, n, p)[..0] == [];
    } else {
      ChunkFits(addr + c, n - c, p, k - 1);
      SumConsPrefix(c, rest, k);
    }
  }

  /** For a non-empty write the number of frames pairs is `ceil((addr % p + n) / p)`. */
  lemma {:induction false} ChunkCount(addr: nat, n: nat, p: nat)
    requires p > 0
    ensures n == 0 ==> Chunks(addr, n, p) == []
    ensures n > 0 ==> |Chunks(addr, n, p)| == (addr % p + n + p - 1) / p
    decreases n
  {
    if n > 0 {
      var c := ChunkLen(addr, n, p);
      if c == n {
        DivAddOne(addr % p + n - 1, p);
        ModSmall(addr % p + n - 1, p);
      } else {
        ChunkCount(addr + c, n - c, p);
        ModToPageEnd(addr, p);
        DivAddOne(n - c + p - 1, p);
      }
    }
  }

  /**
   * Frame pair `k` of `writeEEPROM`: frame `2k` is WREN and frame `2k+1` is the write command
   * at the start address plus the earlier chunk lengths, carrying chunk `k` of the buffer.
   */
  lemma {:induction false} WriteFrameAt(addr: nat, data: seq<byte>, p: nat, k: nat)
    requires p > 0 && k < |Chunks(addr, |data|, p)|
    ensures FramePairAt(Chunks(addr, |data|, p), WriteFrames(addr, data, p), addr, data, k)
    decreases k
  {
    var c := ChunkLen(addr, |data|, p);
    var rest := Chunks(addr + c, |data[c..]|, p);
    var h := WriteHeader(addr) + data[..c];
    var fs' := WriteFrames(addr + c, data[c..], p);
    ChunksStep(addr, |data|, p);
    WriteFramesStep(addr, data, p);
    assert |data[c..]| == |data| - c;
    if k == 0 {
      LayoutHead(Chunks(addr, |data|, p), c, rest, WriteFrames(addr, data, p), fs', addr, data);
    } else {
      WriteFrameAt(addr + c, data[c..], p, k - 1);
      LayoutCons(Chunks(addr, |data|, p), c, rest, WriteFrames(addr, data, p), h, fs', addr, data, k);
    }
  }

  /**
   * Frame pair `k` of `fs` against chunk lengths `cs`: a WREN frame, then the write command
   * at `addr` plus the earlier chunk lengths carrying chunk `k` of `data`.
   */
  predicate FramePairAt(cs: seq<nat>, fs: seq<Frame>, addr: nat, data: seq<byte>, k: nat)
  {
    k < |cs| &&
    var off := Sum(cs[..k]);
    && 2 * k + 1 < |fs|
    && off + cs[k] <= |data|
    && fs[2 * k] == WREN_FRAME
    && fs[2 * k + 1] == WriteHeader(addr + off) + data[off..off + cs[k]]
  }

  /** Pair 0 is the first chunk's WREN and page write. */
  lemma LayoutHead(cs: seq<nat>, c: nat, rest: seq<nat>, fs: seq<Frame>, fs': seq<Frame>,
                   addr: nat, data: seq<byte>)
    requires c <= |data| && cs == [c] + rest && fs == [WREN_FRAME, WriteHeader(addr) + data[..c]] + fs'
    ensures FramePairAt(cs, fs, addr, data, 0)
  {
    assert cs[..0] == [];
    assert data[0..0 + c] == data[..c];
  }

  /**
   * The inductive step of `WriteFrameAt`, on plain sequences: prepending one chunk and its
   * frame pair shifts pair `k - 1` of the rest to pair `k`, `c` bytes further on.
   */
  lemma LayoutCons(cs: seq<nat>, c: nat, rest: seq<nat>, fs: seq<Frame>, h: Frame, fs': seq<Frame>,
                   addr: nat, data: seq<byte>, k: nat)
    requires cs == [c] + rest && fs == [WREN_FRAME, h] + fs' && 0 < k && c <= |data|
    requires FramePairAt(rest, fs', addr + c, data[c..], k - 1)
    ensures FramePairAt(cs, fs, addr, data, k)
  {
    var s := Sum(rest[..k - 1]);
    SumConsPrefix(c, rest, k);
    SliceOfSlice(data, c, s, rest[k - 1]);
    assert cs[k] == rest[k - 1];
    assert fs[2 * k] == fs'[2 * (k - 1)];
    assert fs[2 * k + 1] == fs'[2 * (k - 1) + 1];
  }

  lemma ChunksStep(addr: nat, n: nat, p: nat)
    requires p > 0 && n > 0
    ensures var c := ChunkLen(addr, n, p); Chunks(addr, n, p) == [c] + Chunks(addr + c, n - c, p)
  {}

  /** One iteration of the `writeEEPROM` loop: chunk `c` from buffer index `i`, of `n` bytes. */
  lemma WriteFramesChunk(a: nat, buf: seq<byte>, i: nat, n: nat, p: nat, c: nat)
    requires p > 0 && i < n <= |buf| && c == ChunkLen(a, n - i, p)
    ensures i + c <= n
    ensures WriteFrames(a, buf[i..n], p)
      == [WREN_FRAME, WriteHeader(a) + buf[i..i + c]] + WriteFrames(a + c, buf[i + c..n], p)
  {
    assert |buf[i..n]| == n - i;
    WriteFramesStep(a, buf[i..n], p);
    assert buf[i..n][..c] == buf[i..i + c];
    assert buf[i..n][c..] == buf[i + c..n];
  }

  /** Midway through `writeEEPROM`: the frames `t` already sent, then those of `data` from `a`, are `goal`. */
  predicate FramesRemain(goal: seq<Frame>, t: seq<Frame>, a: nat, data: seq<byte>, p: nat)
    requires p > 0
  {
    goal == t + WriteFrames(a, data, p)
  }

  /** One `writeEEPROM` iteration moves the chunk's WREN and page write from pending to sent. */
  lemma FramesRemainChunk(goal: seq<Frame>, t: seq<Frame>, a: nat, buf: seq<byte>, i: nat, n: nat, p: nat,
                          c: nat, t': seq<Frame>, a': nat, i': nat)
    requires p > 0 && i < n <= |buf| && c == ChunkLen(a, n - i, p)
    requires FramesRemain(goal, t, a, buf[i..n], p)
    requires t' == t + [WREN_FRAME, WriteHeader(a) + buf[i..i + c]] && a' == a + c && i' == i + c
    ensures i' <= n && FramesRemain(goal, t', a', buf[i'..n], p)
  {
    WriteFramesChunk(a, buf, i, n, p, c);
    ShiftDone(goal, t, WriteFrames(a, buf[i..n], p), [WREN_FRAME, WriteHeader(a) + buf[i..i + c]],
      WriteFrames(a + c, buf[i + c..n], p), t');
  }

  /** Once nothing is pending, the frames sent are the goal. */
  lemma FramesRemainDone(goal: seq<Frame>, t: seq<Frame>, a: nat, data: seq<byte>, p: nat)
    requires p > 0 && data == [] && FramesRemain(goal, t, a, data, p)
    ensures goal == t
  {
    assert t + [] == t;
  }

  lemma SumConsPrefix(c: nat, rest: seq<nat>, k: nat)
    requires 0 < k <= |rest| + 1
    ensures Sum(([c] + rest)[..k]) == c + Sum(rest[..k - 1])
    ensures ([c] + rest)[k - 1 + 1..] == rest[k - 1..]
  {
    assert ([c] + rest)[..k][1..] == rest[..k - 1];
  }

  /** `writeEEPROM` emits exactly one WREN frame and one page write per chunk. */
  lemma {:induction false} WriteFramesCount(addr: nat, data: seq<byte>, p: nat)
    requires p > 0
    ensures |WriteFrames(addr, data, p)| == 2 * |Chunks(addr, |data|, p)|
    decreases |data|
  {
    if data != [] {
      var c := ChunkLen(addr, |data|, p);
      var tail := data[c..];
      assert |tail| == |data| - c;
      var rest := WriteFrames(addr + c, tail, p);
      var cs := Chunks(addr + c, |tail|, p);
      WriteFramesCount(addr + c, tail, p);
      assert |rest| == 2 * |cs|;
      WriteFramesStep(addr, data, p);
      assert |WriteFrames(addr, data, p)| == 2 + |rest|;
      ChunksStep(addr, |data|, p);
      assert |Chunks(addr, |data|, p)| == 1 + |cs|;
    }
  }

  /** The data bytes of the page-write frames in `fs`, concatenated in order. */
  function Payloads(fs: seq<Frame>): seq<byte>
  {
    if fs == [] then []
    else (if |fs[0]| >= 3 && fs[0][0] == EEP_WRITE then fs[0][3..] else []) + Payloads(fs[1..])
  }

  /** The page writes of `writeEEPROM` carry the buffer, whole and in order. */
  lemma {:induction false} WriteFramesCarryData(addr: nat, data: seq<byte>, p: nat)
    requires p > 0
    ensures Payloads(WriteFrames(addr, data, p)) == data
    decreases |data|
  {
    if data != [] {
      var c := ChunkLen(addr, |data|, p);
      var f := WriteHeader(addr) + data[..c];
      var fs' := WriteFrames(addr + c, data[c..], p);
      WriteFramesCarryData(addr + c, data[c..], p);
      WriteFramesStep(addr, data, p);
      PayloadsPair(f, fs');
      assert f[3..] == data[..c];
      TakeDrop(data, c);
    }
  }

  /** A WREN frame carries no payload; a write frame carries what follows its header. */
  lemma PayloadsPair(f: Frame, rest: seq<Frame>)
    requires |f| >= 3 && f[0] == EEP_WRITE
    ensures Payloads([WREN_FRAME, f] + rest) == f[3..] + Payloads(rest)
  {
    var fs := [WREN_FRAME, f] + rest;
    assert fs[1..] == [f] + rest;
    assert fs[1..][1..] == rest;
  }

  /** What a continuous-write call leaves behind: frames it closed, and the frame left open. */
  datatype Stream = Stream(closed: seq<Frame>, open: Frame)

  /**
   * `continuousWriteEEPROM`: stream `data` into the open frame from `cont`. When the chunk is
   * cut at a page end the frame is closed and a fresh write frame is opened, after WREN, at the
   * advanced address. `reopenOnFill` chooses the page-end test: false is the strict
   * `spaceLeftInPage < remaining` of the driver, true is `<=`, which also reopens when a chunk
   * exactly fills the page.
   */
  function StreamFrames(cont: nat, open: Frame, data: seq<byte>, p: nat, reopenOnFill: bool): Stream
    requires p > 0
    decreases |data|
  {
    if data == [] then Stream([], open) else
      var spaceLeftInPage := p - cont % p;
      var pageEnd := if reopenOnFill then spaceLeftInPage <= |data| else spaceLeftInPage < |data|;
      if pageEnd then
        var next := cont + spaceLeftInPage;
        var rest := StreamFrames(next, WriteHeader(next), data[spaceLeftInPage..], p, reopenOnFill);
        Stream([open + data[..spaceLeftInPage], WREN_FRAME] + rest.closed, rest.open)
      else
        Stream([], open + data)
  }

  /** One page-end cut of the stream: close the frame at the page end and reopen after WREN. */
  lemma StreamCut(cont: nat, open: Frame, data: seq<byte>, p: nat, reopenOnFill: bool)
    requires p > 0
    requires var sl := p - cont % p; if reopenOnFill then sl <= |data| else sl < |data|
    ensures var sl := p - cont % p;
      var rest := StreamFrames(cont + sl, WriteHeader(cont + sl), data[sl..], p, reopenOnFill);
      StreamFrames(cont, open, data, p, reopenOnFill) == Stream([open + data[..sl], WREN_FRAME] + rest.closed, rest.open)
  {}

  /** No page end is reached: every byte goes into the open frame. */
  lemma StreamWhole(cont: nat, open: Frame, data: seq<byte>, p: nat, reopenOnFill: bool)
    requires p > 0
    requires var sl := p - cont % p; if reopenOnFill then sl > |data| else sl >= |data|
    ensures StreamFrames(cont, open, data, p, reopenOnFill) == Stream([], open + data)
  {}

  /**
   * Midway through `continuousWriteEEPROM`: the frames `t` already closed, followed by what the
   * stream of `data` from `cont` into the open frame `cur` still closes, are the whole call's
   * `closed`, and that stream leaves open the whole call's `open`.
   */
  predicate StreamRemains(closed: seq<Frame>, open: Frame, t: seq<Frame>, cont: nat, cur: Frame, data: seq<byte>,
                          p: nat, reopenOnFill: bool)
    requires p > 0
  {
    var s := StreamFrames(cont, cur, data, p, reopenOnFill);
    closed == t + s.closed && open == s.open
  }

  /** A loop iteration that reaches the page end: close `cur` with the chunk, WREN, reopen at `cont + c`. */
  lemma StreamRemainsCut(closed: seq<Frame>, open: Frame, t: seq<Frame>, cont: nat, cur: Frame,
                         buf: seq<byte>, i: nat, n: nat, p: nat, r: bool, c: nat,
                         g: Frame, t': seq<Frame>, cont': nat, cur': Frame, i': nat)
    requires p > 0 && i < n <= |buf| && c == p - cont % p && (if r then c <= n - i else c < n - i)
    requires StreamRemains(closed, open, t, cont, cur, buf[i..n], p, r)
    requires g == cur + buf[i..i + c] && t' == t + [g, WREN_FRAME]
    requires cont' == cont + c && cur' == WriteHeader(cont') && i' == i + c
    ensures StreamRemains(closed, open, t', cont', cur', buf[i'..n], p, r)
  {
    assert |buf[i..n]| == n - i;
    StreamCut(cont, cur, buf[i..n], p, r);
    assert buf[i..n][..c] == buf[i..i + c];
    assert buf[i..n][c..] == buf[i + c..n];
    var rest := StreamFrames(cont + c, WriteHeader(cont + c), buf[i + c..n], p, r);
    var pair := [cur + buf[i..i + c], WREN_FRAME];
    assert StreamFrames(cont, cur, buf[i..n], p, r) == Stream(pair + rest.closed, rest.open);
    ShiftDone(closed, t, pair + rest.closed, pair, rest.closed, t');
  }

  /** The last loop iteration: the remaining bytes end before the page end and join `cur`. */
  lemma StreamRemainsWhole(closed: seq<Frame>, open: Frame, t: seq<Frame>, cont: nat, cur: Frame,
                           buf: seq<byte>, i: nat, n: nat, p: nat, r: bool, cont': nat, cur': Frame, i': nat)
    requires p > 0 && i <= n <= |buf| && (if r then p - cont % p > n - i else p - cont % p >= n - i)
    requires StreamRemains(closed, open, t, cont, cur, buf[i..n], p, r)
    requires cont' == cont + (n - i) && cur' == cur + buf[i..n] && i' == n
    ensures StreamRemains(closed, open, t, cont', cur', buf[i'..n], p, r)
  {
    assert |buf[i..n]| == n - i;
    StreamWhole(cont, cur, buf[i..n], p, r);
    assert buf[i'..n] == [];
  }

  /** Once no bytes are left, the frames closed so far are the whole call's and `cur` is its open frame. */
  lemma StreamRemainsDone(closed: seq<Frame>, open: Frame, t: seq<Frame>, cont: nat, cur: Frame, data: seq<byte>,
                          p: nat, r: bool)
    requires p > 0 && data == [] && StreamRemains(closed, open, t, cont, cur, data, p, r)
    ensures closed == t && open == cur
  {
    assert t + [] == t;
  }

  /**
   * The frames a session leaves after the header's address `a` when it closes without having
   * written anything since the last (re)open: WREN and a write header with no data.
   */
  function EmptyTail(a: nat, data: seq<byte>, p: nat, reopenOnFill: bool): seq<Frame>
    requires p > 0
  {
    if data == [] || (reopenOnFill && (a + |data|) % p == 0) then [WREN_FRAME, WriteHeader(a + |data|)]
    else []
  }

  /**
   * One call in a fresh session (`continuousPutEnable(a)`, `continuousWriteEEPROM(data)`,
   * `continuousPutDisable()`) emits exactly the frames of `writeEEPROM(a, data)`: the same
   * chunks, headers and WREN frames. Only an empty write, or with `reopenOnFill` a write that
   * ends on a page boundary, adds a trailing write header that carries no data.
   */
  lemma {:induction false} SessionMatchesWriteFrames(a: nat, data: seq<byte>, p: nat, reopenOnFill: bool)
    requires p > 0
    ensures var s := StreamFrames(a, WriteHeader(a), data, p, reopenOnFill);
      [WREN_FRAME] + s.closed + [s.open] == WriteFrames(a, data, p) + EmptyTail(a, data, p, reopenOnFill)
    decreases |data|
  {
    if data != [] {
      var sl := p - a % p;
      if (if reopenOnFill then sl <= |data| else sl < |data|) {
        SessionMatchesWriteFrames(a + sl, data[sl..], p, reopenOnFill);
        SessionCutStep(a, data, p, reopenOnFill);
      } else {
        SessionWholeStep(a, data, p, reopenOnFill);
      }
    }
  }

  lemma SessionCutStep(a: nat, data: seq<byte>, p: nat, reopenOnFill: bool)
    requires p > 0
    requires var sl := p - a % p; if reopenOnFill then sl <= |data| else sl < |data|
    requires var sl := p - a % p;
      var rest := StreamFrames(a + sl, WriteHeader(a + sl), data[sl..], p, reopenOnFill);
      [WREN_FRAME] + rest.closed + [rest.open]
        == WriteFrames(a + sl, data[sl..], p) + EmptyTail(a + sl, data[sl..], p, reopenOnFill)
    ensures var s := StreamFrames(a, WriteHeader(a), data, p, reopenOnFill);
      [WREN_FRAME] + s.closed + [s.open] == WriteFrames(a, data, p) + EmptyTail(a, data, p, reopenOnFill)
  {
    var sl := p - a % p;
    var rest := StreamFrames(a + sl, WriteHeader(a + sl), data[sl..], p, reopenOnFill);
    var s := StreamFrames(a, WriteHeader(a), data, p, reopenOnFill);
    StreamCut(a, WriteHeader(a), data, p, reopenOnFill);
    assert ChunkLen(a, |data|, p) == sl;
    WriteFramesStep(a, data, p);
    var tail := WriteFrames(a + sl, data[sl..], p);
    EmptyTailShift(a, data, p, reopenOnFill);
    var e := EmptyTail(a, data, p, reopenOnFill);
    assert s == Stream([WriteHeader(a) + data[..sl], WREN_FRAME] + rest.closed, rest.open);
    RegroupCut(WREN_FRAME, WriteHeader(a) + data[..sl], rest.closed, rest.open, tail, e);
  }

  /** After a page-end cut the session's trailing frames are those of the remaining data. */
  lemma EmptyTailShift(a: nat, data: seq<byte>, p: nat, reopenOnFill: bool)
    requires p > 0
    requires var sl := p - a % p; if reopenOnFill then sl <= |data| else sl < |data|
    ensures var sl := p - a % p;
      EmptyTail(a + sl, data[sl..], p, reopenOnFill) == EmptyTail(a, data, p, reopenOnFill)
  {
    var sl := p - a % p;
    assert a + sl + |data[sl..]| == a + |data|;
    if data[sl..] == [] {
      ModToPageEnd(a, p);
    }
  }

  lemma SessionWholeStep(a: nat, data: seq<byte>, p: nat, reopenOnFill: bool)
    requires p > 0 && data != []
    requires var sl := p - a % p; if reopenOnFill then sl > |data| else sl >= |data|
    ensures var s := StreamFrames(a, WriteHeader(a), data, p, reopenOnFill);
      [WREN_FRAME] + s.closed + [s.open] == WriteFrames(a, data, p) + EmptyTail(a, data, p, reopenOnFill)
  {
    StreamWhole(a, WriteHeader(a), data, p, reopenOnFill);
    assert ChunkLen(a, |data|, p) == |data|;
    WriteFramesStep(a, data, p);
    assert data[..|data|] == data;
    if reopenOnFill {
      ModAddInPage(a, |data|, p);
    }
    assert EmptyTail(a, data, p, reopenOnFill) == [];
    assert WriteFrames(a + |data|, data[|data|..], p) == [];
  }

  /**
   * With the page-end test `<=`, two calls stream exactly the frames of one call with the
   * concatenated data: how the caller splits its writes does not matter.
   */
  lemma {:induction false} ReopeningStreamComposes(cont: nat, open: Frame, d1: seq<byte>, d2: seq<byte>, p: nat)
    requires p > 0
    ensures var s1 := StreamFrames(cont, open, d1, p, true);
      var s2 := StreamFrames(cont + |d1|, s1.open, d2, p, true);
      StreamFrames(cont, open, d1 + d2, p, true) == Stream(s1.closed + s2.closed, s2.open)
    decreases |d1|
  {
    if d1 == [] {
      assert d1 + d2 == d2;
    } else if p - cont % p <= |d1| {
      var sl := p - cont % p;
      ReopeningStreamComposes(cont + sl, WriteHeader(cont + sl), d1[sl..], d2, p);
      ComposeAfterCut(cont, open, d1, d2, p);
    } else if d2 == [] {
      assert d1 + d2 == d1;
    } else {
      ComposeWithinPage(cont, open, d1, d2, p);
    }
  }

  /** The inductive step of `ReopeningStreamComposes`: the first call reaches a page end. */
  lemma ComposeAfterCut(cont: nat, open: Frame, d1: seq<byte>, d2: seq<byte>, p: nat)
    requires p > 0 && p - cont % p <= |d1|
    requires var sl := p - cont % p;
      var r1 := StreamFrames(cont + sl, WriteHeader(cont + sl), d1[sl..], p, true);
      var r2 := StreamFrames(cont + sl + |d1[sl..]|, r1.open, d2, p, true);
      StreamFrames(cont + sl, WriteHeader(cont + sl), d1[sl..] + d2, p, true) == Stream(r1.closed + r2.closed, r2.open)
    ensures var s1 := StreamFrames(cont, open, d1, p, true);
      var s2 := StreamFrames(cont + |d1|, s1.open, d2, p, true);
      StreamFrames(cont, open, d1 + d2, p, true) == Stream(s1.closed + s2.closed, s2.open)
  {
    var sl := p - cont % p;
    var h := WriteHeader(cont + sl);
    var r1 := StreamFrames(cont + sl, h, d1[sl..], p, true);
    var r2 := StreamFrames(cont + |d1|, r1.open, d2, p, true);
    var head := [open + d1[..sl], WREN_FRAME];
    assert cont + sl + |d1[sl..]| == cont + |d1|;
    StreamCut(cont, open, d1, p, true);
    assert StreamFrames(cont, open, d1, p, true) == Stream(head + r1.closed, r1.open);
    StreamCut(cont, open, d1 + d2, p, true);
    assert (d1 + d2)[sl..] == d1[sl..] + d2;
    assert (d1 + d2)[..sl] == d1[..sl];
    assert StreamFrames(cont, open, d1 + d2, p, true) == Stream(head + (r1.closed + r2.closed), r2.open);
    AppendAssoc(head, r1.closed, r2.closed);
  }

  /** The first call stays inside its page; the second may or may not reach the page end. */
  lemma ComposeWithinPage(cont: nat, open: Frame, d1: seq<byte>, d2: seq<byte>, p: nat)
    requires p > 0 && p - cont % p > |d1| && d1 != [] && d2 != []
    ensures var s1 := StreamFrames(cont, open, d1, p, true);
      var s2 := StreamFrames(cont + |d1|, s1.open, d2, p, true);
      StreamFrames(cont, open, d1 + d2, p, true) == Stream(s1.closed + s2.closed, s2.open)
  {
    StreamWhole(cont, open, d1, p, true);
    ModAddInPage(cont, |d1|, p);
    var sl := p - cont % p;
    var sl2 := p - (cont + |d1|) % p;
    assert sl2 == sl - |d1|;
    var s2 := StreamFrames(cont + |d1|, open + d1, d2, p, true);
    if sl <= |d1| + |d2| {
      ComposeCutInSecond(cont, open, d1, d2, p, sl, sl2);
    } else {
      StreamWhole(cont, open, d1 + d2, p, true);
      StreamWhole(cont + |d1|, open + d1, d2, p, true);
      AppendAssoc(open, d1, d2);
    }
    assert [] + s2.closed == s2.closed;
  }

  /** Both calls together reach the page end inside the second call's data. */
  lemma ComposeCutInSecond(cont: nat, open: Frame, d1: seq<byte>, d2: seq<byte>, p: nat, sl: nat, sl2: nat)
    requires p > 0 && sl == p - cont % p && sl2 == p - (cont + |d1|) % p
    requires sl2 == sl - |d1| && |d1| < sl <= |d1| + |d2|
    ensures StreamFrames(cont, open, d1 + d2, p, true) == StreamFrames(cont + |d1|, open + d1, d2, p, true)
  {
    StreamCut(cont, open, d1 + d2, p, true);
    StreamCut(cont + |d1|, open + d1, d2, p, true);
    assert (d1 + d2)[sl..] == d2[sl2..];
    assert (d1 + d2)[..sl] == d1 + d2[..sl2];
    AppendAssoc(open, d1, d2[..sl2]);
    assert cont + |d1| + sl2 == cont + sl;
  }

  /**
   * With the strict test of the driver, a call whose bytes exactly fill the rest of the page
   * closes nothing: the frame stays open, with its header still addressing the old page, while
   * the address counter has moved to the start of the next page.
   */
  lemma ExactFillKeepsFrameOpen(cont: nat, open: Frame, data: seq<byte>, p: nat)
    requires p > 0 && data != [] && |data| == p - cont % p
    ensures StreamFrames(cont, open, data, p, false) == Stream([], open + data)
    ensures (cont + |data|) % p == 0
  {
    ModToPageEnd(cont, p);
  }

  /**
   * A session that writes `p + 1` bytes from a page start produces exactly two page writes:
   * the first closed at the page end, the second still open, its header `p` bytes further on.
   */
  lemma OneBoundarySession(a: nat, data: seq<byte>, p: nat)
    requires p > 0 && a % p == 0 && |data| == p + 1
    ensures var s := StreamFrames(a, WriteHeader(a), data, p, false);
      && s.closed == [WriteHeader(a) + data[..p], WREN_FRAME]
      && s.open == WriteHeader(a + p) + data[p..]
  {
    ModToPageEnd(a, p);
    assert data[p..][1..] == [];
  }
}
