/*
 * Register layout of one SPI peripheral block: the bit fields of the
 * control-1 (CR1), control-2 (CR2) and status (SR) words, the order of the
 * nine 32-bit registers inside a block, and the three base addresses.
 *
 * Each C bit-field union becomes an enumeration of its fields with a
 * literal mask. Reading a field is Get(w, f) = (w & Mask(f)) >> lsb(f);
 * writing it is Set(w, f, v) = (w & !Mask(f)) | ((v << lsb(f)) & Mask(f)),
 * which is what the compiler generates for `reg.BitAccess.F = v`: the value
 * is truncated to the field's width and no other bit moves.
 */
module SpiPrivate {

  /*************************************************************************
   * CR1_Reg_t
   *************************************************************************/

  datatype Cr1Field =
    | CPHA | CPOL | MSTR | BR | SPE | LSBFIRST | SSI | SSM | RXONLY | DFF
    | CRCNEXT | CRCEN | BIDIOE | BIDIMODE | Cr1Reserved

  /** Bits of CR1 that field f occupies. */
  function Cr1Mask(f: Cr1Field): bv32 {
    match f
    case CPHA => 0x1          // bit 0
    case CPOL => 0x2          // bit 1
    case MSTR => 0x4          // bit 2
    case BR => 0x38           // bits 3-5
    case SPE => 0x40          // bit 6
    case LSBFIRST => 0x80     // bit 7
    case SSI => 0x100         // bit 8
    case SSM => 0x200         // bit 9
    case RXONLY => 0x400      // bit 10
    case DFF => 0x800         // bit 11
    case CRCNEXT => 0x1000    // bit 12
    case CRCEN => 0xE000      // bits 13-15
    case BIDIOE => 0x1_0000   // bit 16
    case BIDIMODE => 0x2_0000 // bit 17
    case Cr1Reserved => 0xFFFC_0000 // bits 18-31
  }

  /** Largest value field f can hold: 2^width - 1. */
  function Cr1Ones(f: Cr1Field): bv32 {
    match f
    case BR => 0x7
    case CRCEN => 0x7
    case Cr1Reserved => 0x3FFF
    case _ => 0x1
  }

  /** Moves a value from bit 0 up to the lowest bit of field f. */
  function Cr1Up(v: bv32, f: Cr1Field): bv32 {
    match f
    case CPHA => v
    case CPOL => v << 1
    case MSTR => v << 2
    case BR => v << 3
    case SPE => v << 6
    case LSBFIRST => v << 7
    case SSI => v << 8
    case SSM => v << 9
    case RXONLY => v << 10
    case DFF => v << 11
    case CRCNEXT => v << 12
    case CRCEN => v << 13
    case BIDIOE => v << 16
    case BIDIMODE => v << 17
    case Cr1Reserved => v << 18
  }

  /** Moves the lowest bit of field f down to bit 0. */
  function Cr1Down(v: bv32, f: Cr1Field): bv32 {
    match f
    case CPHA => v
    case CPOL => v >> 1
    case MSTR => v >> 2
    case BR => v >> 3
    case SPE => v >> 6
    case LSBFIRST => v >> 7
    case SSI => v >> 8
    case SSM => v >> 9
    case RXONLY => v >> 10
    case DFF => v >> 11
    case CRCNEXT => v >> 12
    case CRCEN => v >> 13
    case BIDIOE => v >> 16
    case BIDIMODE => v >> 17
    case Cr1Reserved => v >> 18
  }

  /** `reg.BitAccess.f` read from the CR1 word w. */
  function Cr1Get(w: bv32, f: Cr1Field): bv32 {
    Cr1Down(w & Cr1Mask(f), f)
  }

  /** The CR1 word after `reg.BitAccess.f = v`. */
  function Cr1Set(w: bv32, f: Cr1Field, v: bv32): bv32 {
    (w & !Cr1Mask(f)) | (Cr1Up(v, f) & Cr1Mask(f))
  }

  lemma Cr1MasksDisjoint(f: Cr1Field, g: Cr1Field)
    requires f != g
    ensures Cr1Mask(f) & Cr1Mask(g) == 0
  {
  }

  /** The fields tile the word: together they cover all 32 bits. */
  lemma Cr1MasksCover()
    ensures Cr1Mask(CPHA) | Cr1Mask(CPOL) | Cr1Mask(MSTR) | Cr1Mask(BR) | Cr1Mask(SPE)
          | Cr1Mask(LSBFIRST) | Cr1Mask(SSI) | Cr1Mask(SSM) | Cr1Mask(RXONLY) | Cr1Mask(DFF)
          | Cr1Mask(CRCNEXT) | Cr1Mask(CRCEN) | Cr1Mask(BIDIOE) | Cr1Mask(BIDIMODE)
          | Cr1Mask(Cr1Reserved) == 0xFFFF_FFFF
  {
  }

  lemma Cr1DownUp(v: bv32, f: Cr1Field)
    ensures Cr1Down(Cr1Up(v, f) & Cr1Mask(f), f) == v & Cr1Ones(f)
  {
    match f
    case CPHA => case CPOL => case MSTR => case BR => case SPE => case LSBFIRST =>
    case SSI => case SSM => case RXONLY => case DFF => case CRCNEXT => case CRCEN =>
    case BIDIOE => case BIDIMODE => case Cr1Reserved =>
  }

  /** Reading back a field gives the value written, truncated to the field's width. */
  lemma Cr1GetSetSame(w: bv32, f: Cr1Field, v: bv32)
    ensures Cr1Get(Cr1Set(w, f, v), f) == v & Cr1Ones(f)
  {
    assert Cr1Set(w, f, v) & Cr1Mask(f) == Cr1Up(v, f) & Cr1Mask(f);
    Cr1DownUp(v, f);
  }

  /** Writing one field leaves every other field as it was. */
  lemma Cr1GetSetOther(w: bv32, f: Cr1Field, g: Cr1Field, v: bv32)
    requires f != g
    ensures Cr1Get(Cr1Set(w, f, v), g) == Cr1Get(w, g)
  {
    Cr1SetFrame(w, f, g, v);
  }

  /** Every field of a cleared word reads 0. */
  lemma Cr1GetZero(f: Cr1Field)
    ensures Cr1Get(0, f) == 0
  {
    match f
    case CPHA => case CPOL => case MSTR => case BR => case SPE => case LSBFIRST =>
    case SSI => case SSM => case RXONLY => case DFF => case CRCNEXT => case CRCEN =>
    case BIDIOE => case BIDIMODE => case Cr1Reserved =>
  }

  /** Writing field `f` leaves every bit of another field `g` as it was. */
  lemma Cr1SetFrame(w: bv32, f: Cr1Field, g: Cr1Field, v: bv32)
    requires f != g
    ensures Cr1Set(w, f, v) & Cr1Mask(g) == w & Cr1Mask(g)
  {
    Cr1MasksDisjoint(f, g);
  }

  /*************************************************************************
   * CR2_Reg_t
   *************************************************************************/

  datatype Cr2Field =
    | RXDMAEN | TXDMAEN | SSOE | Cr2Reserved1 | FRF | ERRIE | RXNEIE | TXEIE | Cr2Reserved2

  function Cr2Mask(f: Cr2Field): bv32 {
    match f
    case RXDMAEN => 0x1       // bit 0
    case TXDMAEN => 0x2       // bit 1
    case SSOE => 0x4          // bit 2
    case Cr2Reserved1 => 0x8  // bit 3
    case FRF => 0x10          // bit 4
    case ERRIE => 0x20        // bit 5
    case RXNEIE => 0x40       // bit 6
    case TXEIE => 0x80        // bit 7
    case Cr2Reserved2 => 0xFFFF_FF00 // bits 8-31
  }

  function Cr2Ones(f: Cr2Field): bv32 {
    match f
    case Cr2Reserved2 => 0xFF_FFFF
    case _ => 0x1
  }

  function Cr2Up(v: bv32, f: Cr2Field): bv32 {
    match f
    case RXDMAEN => v
    case TXDMAEN => v << 1
    case SSOE => v << 2
    case Cr2Reserved1 => v << 3
    case FRF => v << 4
    case ERRIE => v << 5
    case RXNEIE => v << 6
    case TXEIE => v << 7
    case Cr2Reserved2 => v << 8
  }

  function Cr2Down(v: bv32, f: Cr2Field): bv32 {
    match f
    case RXDMAEN => v
    case TXDMAEN => v >> 1
    case SSOE => v >> 2
    case Cr2Reserved1 => v >> 3
    case FRF => v >> 4
    case ERRIE => v >> 5
    case RXNEIE => v >> 6
    case TXEIE => v >> 7
    case Cr2Reserved2 => v >> 8
  }

  function Cr2Get(w: bv32, f: Cr2Field): bv32 {
    Cr2Down(w & Cr2Mask(f), f)
  }

  function Cr2Set(w: bv32, f: Cr2Field, v: bv32): bv32 {
    (w & !Cr2Mask(f)) | (Cr2Up(v, f) & Cr2Mask(f))
  }

  lemma Cr2MasksDisjoint(f: Cr2Field, g: Cr2Field)
    requires f != g
    ensures Cr2Mask(f) & Cr2Mask(g) == 0
  {
  }

  lemma Cr2MasksCover()
    ensures Cr2Mask(RXDMAEN) | Cr2Mask(TXDMAEN) | Cr2Mask(SSOE) | Cr2Mask(Cr2Reserved1)
          | Cr2Mask(FRF) | Cr2Mask(ERRIE) | Cr2Mask(RXNEIE) | Cr2Mask(TXEIE)
          | Cr2Mask(Cr2Reserved2) == 0xFFFF_FFFF
  {
  }

  lemma Cr2DownUp(v: bv32, f: Cr2Field)
    ensures Cr2Down(Cr2Up(v, f) & Cr2Mask(f), f) == v & Cr2Ones(f)
  {
    match f
    case RXDMAEN => case TXDMAEN => case SSOE => case Cr2Reserved1 => case FRF =>
    case ERRIE => case RXNEIE => case TXEIE => case Cr2Reserved2 =>
  }

  lemma Cr2GetSetSame(w: bv32, f: Cr2Field, v: bv32)
    ensures Cr2Get(Cr2Set(w, f, v), f) == v & Cr2Ones(f)
  {
    assert Cr2Set(w, f, v) & Cr2Mask(f) == Cr2Up(v, f) & Cr2Mask(f);
    Cr2DownUp(v, f);
  }

  lemma Cr2GetSetOther(w: bv32, f: Cr2Field, g: Cr2Field, v: bv32)
    requires f != g
    ensures Cr2Get(Cr2Set(w, f, v), g) == Cr2Get(w, g)
  {
    Cr2SetFrame(w, f, g, v);
  }

  /** Every field of a cleared word reads 0. */
  lemma Cr2GetZero(f: Cr2Field)
    ensures Cr2Get(0, f) == 0
  {
    match f
    case RXDMAEN => case TXDMAEN => case SSOE => case Cr2Reserved1 => case FRF =>
    case ERRIE => case RXNEIE => case TXEIE => case Cr2Reserved2 =>
  }

  /** Writing field `f` leaves every bit of another field `g` as it was. */
  lemma Cr2SetFrame(w: bv32, f: Cr2Field, g: Cr2Field, v: bv32)
    requires f != g
    ensures Cr2Set(w, f, v) & Cr2Mask(g) == w & Cr2Mask(g)
  {
    Cr2MasksDisjoint(f, g);
  }

  /*************************************************************************
   * SR_Reg_t
   *************************************************************************/

  datatype SrField =
    | RXNE | TXE | CHSIDE | UDR | CRCERR | MODF | OVR | BSY | FRE | SrReserved

  function SrMask(f: SrField): bv32 {
    match f
    case RXNE => 0x1      // bit 0
    case TXE => 0x2       // bit 1
    case CHSIDE => 0x4    // bit 2
    case UDR => 0x8       // bit 3
    case CRCERR => 0x10   // bit 4
    case MODF => 0x20     // bit 5
    case OVR => 0x40      // bit 6
    case BSY => 0x80      // bit 7
    case FRE => 0x100     // bit 8
    case SrReserved => 0xFFFF_FE00 // bits 9-31
  }

  function SrOnes(f: SrField): bv32 {
    match f
    case SrReserved => 0x7F_FFFF
    case _ => 0x1
  }

  function SrDown(v: bv32, f: SrField): bv32 {
    match f
    case RXNE => v
    case TXE => v >> 1
    case CHSIDE => v >> 2
    case UDR => v >> 3
    case CRCERR => v >> 4
    case MODF => v >> 5
    case OVR => v >> 6
    case BSY => v >> 7
    case FRE => v >> 8
    case SrReserved => v >> 9
  }

  /** The status register is only read by the driver: no Set. */
  function SrGet(w: bv32, f: SrField): bv32 {
    SrDown(w & SrMask(f), f)
  }

  lemma SrMasksDisjoint(f: SrField, g: SrField)
    requires f != g
    ensures SrMask(f) & SrMask(g) == 0
  {
  }

  lemma SrMasksCover()
    ensures SrMask(RXNE) | SrMask(TXE) | SrMask(CHSIDE) | SrMask(UDR) | SrMask(CRCERR)
          | SrMask(MODF) | SrMask(OVR) | SrMask(BSY) | SrMask(FRE) | SrMask(SrReserved) == 0xFFFF_FFFF
  {
  }

  /** `SR.BitAccess.TXE`: the data register can take a word to send (bit 1). */
  predicate Txe(sr: bv32) {
    sr & 0x2 != 0
  }

  /** `SR.BitAccess.RXNE`: the data register holds a received word (bit 0). */
  predicate Rxne(sr: bv32) {
    sr & 0x1 != 0
  }

  /** The two flags the driver polls are the TXE and RXNE fields of the SR layout. */
  lemma FlagBits(sr: bv32)
    ensures Txe(sr) <==> SrGet(sr, TXE) != 0
    ensures Rxne(sr) <==> SrGet(sr, RXNE) != 0
  {
  }

  /*************************************************************************
   * SPI_t: the register block, and the three base addresses
   *************************************************************************/

  datatype Register = CR1 | CR2 | SR | DR | CRCPR | RXCRCR | TXCRCR | I2SCFGR | I2SPR

  /** Byte offset of a register inside the block: the struct's field order, one 32-bit word each. */
  function Offset(r: Register): nat {
    match r
    case CR1 => 0x00
    case CR2 => 0x04
    case SR => 0x08
    case DR => 0x0C
    case CRCPR => 0x10
    case RXCRCR => 0x14
    case TXCRCR => 0x18
    case I2SCFGR => 0x1C
    case I2SPR => 0x20
  }

  /** Size in bytes of SPI_t. */
  const BlockSize: nat := 0x24

  const Spi1BaseAddress: nat := 0x4001_3000
  const Spi2BaseAddress: nat := 0x4001_3800
  const Spi3BaseAddress: nat := 0x4001_3C00

  /** The registers follow each other word by word and fill the block. */
  lemma BlockLayout(r: Register, q: Register)
    ensures Offset(r) % 4 == 0 && Offset(r) + 4 <= BlockSize
    ensures Offset(r) == Offset(q) ==> r == q
  {
  }

  /** The three blocks do not overlap: no address belongs to two of them. */
  lemma BlocksDisjoint()
    ensures Spi1BaseAddress + BlockSize <= Spi2BaseAddress
    ensures Spi2BaseAddress + BlockSize <= Spi3BaseAddress
  {
  }
}
