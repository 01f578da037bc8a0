/**
 * Constants and record shapes of the SYS_I2C component: the two FLASH
 * configuration tables (board pins, port assignment and port clocks) and
 * the RAM runtime table that merges them.
 */
module I2cTypes {

  /** An unsigned 8-bit value (uint8_t). */
  type Byte = b: int | 0 <= b < 256

  datatype Option<T> = None | Some(value: T)

  /** SYS_I2C_ADDR_INVALID: first value that is not a 7-bit device address. */
  const ADDR_INVALID: nat := 128
  /** SYS_I2C_CLOCK_MAX: the 1 MHz hardware limit on the bus clock. */
  const CLOCK_MAX: nat := 1000000
  /** I2C_NUM_MAX: number of hardware I2C controllers (ports); the component assumes two. */
  const PORT_COUNT: nat := 2
  /** GPIO_NUM_NC: the "not connected" pin number. */
  const GPIO_NUM_NC: int := -1
  /** I2C_SCLK_SRC_FLAG_FOR_NOMAL | _AWARE_DFS | _LIGHT_SLEEP = 0 | 1 | 2. */
  const CLK_FLAGS_MAX: nat := 3
  /** Executor deadline of a read or write, in milliseconds. */
  const BUS_TIMEOUT_MS: nat := 1000
  /** Executor deadline of a probe, in milliseconds. */
  const PROBE_TIMEOUT_MS: nat := 30
  /** Inclusive address range covered by the scan. */
  const SCAN_ADDR_MIN: nat := 0x00
  const SCAN_ADDR_MAX: nat := 0x7F

  /** A device address passes the engine's range check iff it is a 7-bit value. */
  predicate ValidAddress(addr: int) {
    0 <= addr < ADDR_INVALID
  }

  /** One entry of a board's pin table, BSP_I2C_config[bsp_id].unit[sys_i2c_id]. */
  datatype PinPair = PinPair(sda: int, scl: int)

  /** BSP_I2C_CONFIG: the pin table of one board, indexed by sys_i2c_id. */
  datatype BoardPins = BoardPins(unit: seq<PinPair>)

  /** Clock parameters of one port, SYS_I2C_config.port[port_num]. */
  datatype PortClock = PortClock(clkSpeed: nat, clkFlags: nat)

  /**
   * SYS_I2C_CONFIG: the port of each bus, indexed by sys_i2c_id, and the
   * clock parameters of each port, indexed by port_num.
   */
  datatype SysConfig = SysConfig(unitPort: seq<nat>, port: seq<PortClock>)

  /**
   * One entry of SYS_I2C_runtime.unit, indexed by sys_i2c_id: the merged
   * view of one logical bus.
   */
  datatype RuntimeUnit = RuntimeUnit(sda: int, scl: int, port: nat, clkSpeed: nat, clkFlags: nat)

  /** The zero-initialised entry of the global runtime table before it is built. */
  const ZERO_UNIT: RuntimeUnit := RuntimeUnit(0, 0, 0, 0, 0)
}
