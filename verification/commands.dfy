/**
 * The command set and the small encodings of the 25xx driver: opcodes, the page-size and
 * write-protect selectors, the two address bytes of a frame header, and the status-register
 * bits the driver writes and tests.
 */
module Commands {
  import opened ModArith

  /** One byte on the SPI bus (`uint8_t`). */
  newtype byte = x: int | 0 <= x < 0x100

  /** The bytes sent while chip-select is held low, in order. */
  type Frame = seq<byte>

  // Opcodes of the 25xx command set. EEP_READ is 0x03 and EEP_WRITE is 0x02, as the chips
  // define them; the header's trailing comments on those two lines are swapped.
  const EEP_READ: byte := 0x03
  const EEP_WRITE: byte := 0x02
  const EEP_WREN: byte := 0x06
  const EEP_WRDI: byte := 0x04
  const EEP_RDSR: byte := 0x05
  const EEP_WRSR: byte := 0x01
  const EEP_PE: byte := 0x42
  const EEP_SE: byte := 0xD8
  const EEP_CE: byte := 0xC7
  const EEP_RDID: byte := 0xAB
  const EEP_DPD: byte := 0xB9

  /** Default write-protect pin number, meaning "no write-protect pin is wired". */
  const NO_WP_PIN: int := 999

  /** Largest value of a `uint16_t` (the type of `sizeOfBuf` and of the `pageSize` field). */
  const MAX_U16: nat := 0xFFFF

  /** The one-byte write-enable frame. */
  const WREN_FRAME: Frame := [EEP_WREN]

  /** `eeprom_pageSize`: the enumerators are 0..4. */
  datatype PageSizeSel = PageSize16 | PageSize32 | PageSize64 | PageSize128 | PageSize256
  {
    function Ordinal(): (n: nat)
      ensures n <= 4
    {
      match this
      case PageSize16 => 0
      case PageSize32 => 1
      case PageSize64 => 2
      case PageSize128 => 3
      case PageSize256 => 4
    }
  }

  /** `eeprom_writeProtect`: the enumerators are 0..3. */
  datatype WriteProtectSel = ProtectNone | ProtectUpperQuarter | ProtectUpperHalf | ProtectAll
  {
    function Ordinal(): (n: nat)
      ensures n <= 3
    {
      match this
      case ProtectNone => 0
      case ProtectUpperQuarter => 1
      case ProtectUpperHalf => 2
      case ProtectAll => 3
    }
  }

  function Pow2(k: nat): (r: nat)
    ensures r >= 1
  {
    if k == 0 then 1 else 2 * Pow2(k - 1)
  }

  /** A page size the driver can be configured with: 16, 32, 64, 128 or 256. */
  predicate IsPageSize(p: nat)
  {
    p == 16 || p == 32 || p == 64 || p == 128 || p == 256
  }

  /** `setPageSize`: `16 << eps`. */
  function PageSizeOf(eps: PageSizeSel): (p: nat)
    ensures p == 16 * Pow2(eps.Ordinal())
    ensures IsPageSize(p) && p <= MAX_U16
    ensures 0x1_0000 % p == 0
  {
    ((16 as bv16) << eps.Ordinal()) as nat
  }

  /** The data byte `writeProtect` sends after WRSR: `(sectors << 2) | 0x80`. */
  function StatusWriteByte(sectors: WriteProtectSel): (b: byte)
    ensures b as int == 0x80 + 4 * sectors.Ordinal()
  {
    (((sectors.Ordinal() as bv8) << 2) | 0x80) as byte
  }

  /** `isBusy`: bit 0 (write in progress) of the status register. */
  predicate BusyBit(status: byte)
  {
    (status as bv8) & 0x01 != 0
  }

  /** The write-enable latch, bit 1 of the status register, checked by `init`. */
  predicate WelBit(status: byte)
  {
    (status as bv8) & 0x02 != 0
  }

  /** The two masks pick out the two lowest bits of the status value. */
  lemma StatusBits(status: byte)
    ensures BusyBit(status) <==> status % 2 == 1
    ensures WelBit(status) <==> (status / 2) % 2 == 1
  {}

  /** `(uint8_t)(addr >> 8)`. */
  function AddrHi(addr: nat): byte
  {
    ((addr / 0x100) % 0x100) as byte
  }

  /** `(uint8_t)(addr & 0xFF)`. */
  function AddrLo(addr: nat): byte
  {
    (addr % 0x100) as byte
  }

  /** Opcode followed by the two address bytes, high byte first. */
  function Header(op: byte, addr: nat): (h: Frame)
    ensures |h| == 3 && h[0] == op
  {
    [op, AddrHi(addr), AddrLo(addr)]
  }

  function WriteHeader(addr: nat): (h: Frame)
    ensures |h| == 3 && h[0] == EEP_WRITE
  {
    Header(EEP_WRITE, addr)
  }

  /** The address a 25xx part decodes from the two header bytes. */
  function HeaderAddr(f: Frame): nat
    requires |f| >= 3
  {
    f[1] as nat * 0x100 + f[2] as nat
  }

  /** The header keeps the address modulo 65536: 24-bit parts are not addressable. */
  lemma {:induction false} HeaderAddrOf(op: byte, addr: nat, rest: Frame)
    ensures HeaderAddr(Header(op, addr) + rest) == addr % 0x1_0000
  {
    var q1, lo := addr / 0x100, addr % 0x100;
    var q2, hi := q1 / 0x100, q1 % 0x100;
    assert addr == q1 * 0x100 + lo;
    assert q1 == q2 * 0x100 + hi;
    assert addr == q2 * 0x1_0000 + (hi * 0x100 + lo);
    DivModUnique(addr, q2, hi * 0x100 + lo, 0x1_0000);
  }

  /** The read command followed by `n` clocked dummy bytes. */
  function ReadFrame(addr: nat, n: nat): (f: Frame)
    ensures |f| == 3 + n && f[..3] == Header(EEP_READ, addr)
  {
    Header(EEP_READ, addr) + seq(n, _ => 0 as byte)
  }
}
