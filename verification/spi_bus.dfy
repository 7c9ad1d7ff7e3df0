/**
 * The SPI bus with one 25xx chip on it, as the driver sees it: chip-select low opens a frame,
 * `Transfer` clocks one byte out and one byte in, chip-select high closes the frame and the
 * chip acts on it. Bus transactions, clock settings and GPIO are folded into these three steps.
 */
module Spi {
  import opened Commands
  import opened Chip25xx

  class SpiBus {
    var chip: Chip
    var selected: bool
    /** The bytes of the frame that is open while chip-select is low. */
    var frame: Frame
    /** Every frame closed so far, oldest first. */
    ghost var trace: seq<Frame>
    /** The chip before the first frame. */
    ghost var initial: Chip

    ghost predicate Valid()
      reads this
    {
      ValidChip(initial) && chip == Replay(initial, trace) && (!selected ==> frame == [])
    }

    constructor (c: Chip)
      requires ValidChip(c)
      ensures Valid() && chip == c && !selected && trace == []
    {
      chip, selected, frame := c, false, [];
      trace, initial := [], c;
    }

    /** Chip-select low. */
    method Select()
      requires Valid() && !selected
      modifies this
      ensures Valid() && selected && frame == []
      ensures chip == old(chip) && trace == old(trace) && initial == old(initial)
    {
      selected := true;
    }

    /** One full-duplex byte exchange inside the open frame. */
    method Transfer(b: byte) returns (r: byte)
      requires Valid() && selected
      modifies this
      ensures Valid() && selected && frame == old(frame) + [b]
      ensures r == Miso(chip, old(frame))
      ensures chip == old(chip) && trace == old(trace) && initial == old(initial)
    {
      r := Miso(chip, frame);
      frame := frame + [b];
    }

    /** Chip-select high: the frame is complete and the chip commits it. */
    method Deselect()
      requires Valid() && selected
      modifies this
      ensures Valid() && !selected
      ensures trace == old(trace) + [old(frame)] && chip == Commit(old(chip), old(frame))
      ensures initial == old(initial)
    {
      assert (trace + [frame])[..|trace|] == trace;
      chip := Commit(chip, frame);
      trace := trace + [frame];
      frame := [];
      selected := false;
    }
  }
}
