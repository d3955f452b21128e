/*
 * Public constants of the SPI driver interface: instance ids, data sizes,
 * modes, baud-rate prescalers and interrupt sources, together with the
 * fixed-width integer types the driver's signatures use.
 */
module SpiInterface {

  /** `uint8_t`, `uint16_t` and `uint32_t` as ranges of the mathematical integers. */
  type u8 = x: int | 0 <= x < 0x100
  type u16 = x: int | 0 <= x < 0x1_0000
  type u32 = x: int | 0 <= x < 0x1_0000_0000

  datatype Option<T> = None | Some(value: T)

  /** Instance ids (`SPIx`). */
  const SPI1: u8 := 1
  const SPI2: u8 := 2
  const SPI3: u8 := 3

  /** Data sizes (`SPI_Data_Size`): the driver takes a `bool`, true meaning 16 bits. */
  const DATASIZE_8BIT: bool := false
  const DATASIZE_16BIT: bool := true

  /** Modes (`SPI_Mode`) as the value of the MSTR bit. */
  const MODE_SLAVE: bv32 := 0
  const MODE_MASTER: bv32 := 1

  /** Baud-rate prescalers (`SPI_BaudRate_Prescaler`): the BR code, dividing the bus clock by 2^(code+1). */
  const CLOCK_RATE_FREQ_DIVID_BY_2: u8 := 0
  const CLOCK_RATE_FREQ_DIVID_BY_4: u8 := 1
  const CLOCK_RATE_FREQ_DIVID_BY_8: u8 := 2
  const CLOCK_RATE_FREQ_DIVID_BY_16: u8 := 3
  const CLOCK_RATE_FREQ_DIVID_BY_32: u8 := 4
  const CLOCK_RATE_FREQ_DIVID_BY_64: u8 := 5
  const CLOCK_RATE_FREQ_DIVID_BY_128: u8 := 6
  const CLOCK_RATE_FREQ_DIVID_BY_256: u8 := 7

  /** Interrupt sources (`SPI_Interrupt_definition`): the bit number in CR2. */
  const IT_TXE: u8 := 7
  const IT_RXNE: u8 := 6
  const IT_ERR: u8 := 5
}
