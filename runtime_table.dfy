/**
 * The pure specification of the runtime-table builder: how one runtime
 * entry is merged from the two configuration tables (pins by board and bus,
 * port by bus, clock by port) and which of the builder's checks an entry
 * fails first.
 */
module RuntimeTable {
  import opened I2cTypes

  /** The check that stops the builder (each one is a C `assert`, so it aborts). */
  datatype ConfigError = InvalidController | InvalidPin | ClockOutOfRange | InvalidFlags

  /**
   * The array sizes the C declarations fix: every board lists `count` buses,
   * the port assignment lists `count` buses and the clock table one entry per port.
   */
  predicate TablesShaped(count: nat, boards: seq<BoardPins>, cfg: SysConfig) {
    && (forall b | b in boards :: |b.unit| == count)
    && |cfg.unitPort| == count
    && |cfg.port| == PORT_COUNT
  }

  /** Both pins are connected, distinct and able to drive an output. */
  predicate PinsUsable(u: RuntimeUnit, outputPins: set<int>) {
    && u.scl != GPIO_NUM_NC && u.sda != GPIO_NUM_NC
    && u.scl != u.sda
    && u.scl in outputPins && u.sda in outputPins
  }

  /** The invariant every entry of a built runtime table satisfies. */
  predicate UnitValid(u: RuntimeUnit, outputPins: set<int>, flagsOn: bool) {
    && u.port < PORT_COUNT
    && PinsUsable(u, outputPins)
    && 0 < u.clkSpeed <= CLOCK_MAX
    && (flagsOn ==> u.clkFlags <= CLK_FLAGS_MAX)
  }

  /** Runtime entry of bus `id`: pins from the board table, port from the bus's assignment, clock from that port's entry. */
  function MergeUnit(board: BoardPins, cfg: SysConfig, id: nat): RuntimeUnit
    requires id < |board.unit| && id < |cfg.unitPort| && cfg.unitPort[id] < |cfg.port|
  {
    var port := cfg.unitPort[id];
    RuntimeUnit(board.unit[id].sda, board.unit[id].scl, port, cfg.port[port].clkSpeed, cfg.port[port].clkFlags)
  }

  /** The first of the pin, clock and flag checks that a merged entry fails, in the order the builder asserts them. */
  function UnitError(u: RuntimeUnit, outputPins: set<int>, flagsOn: bool): Option<ConfigError> {
    if u.scl == GPIO_NUM_NC || u.sda == GPIO_NUM_NC || u.scl == u.sda then Some(InvalidPin)
    else if u.scl !in outputPins || u.sda !in outputPins then Some(InvalidPin)
    else if !(0 < u.clkSpeed <= CLOCK_MAX) then Some(ClockOutOfRange)
    else if flagsOn && u.clkFlags > CLK_FLAGS_MAX then Some(InvalidFlags)
    else None
  }

  /** The first check bus `id` fails: the port range first, then the merged entry's checks. */
  function BusError(board: BoardPins, cfg: SysConfig, id: nat, outputPins: set<int>, flagsOn: bool): Option<ConfigError>
    requires id < |board.unit| && id < |cfg.unitPort| && |cfg.port| == PORT_COUNT
  {
    if !(cfg.unitPort[id] < PORT_COUNT) then Some(InvalidController)
    else UnitError(MergeUnit(board, cfg, id), outputPins, flagsOn)
  }

  /** Every bus of the board passes every check. */
  predicate BoardValid(count: nat, board: BoardPins, cfg: SysConfig, outputPins: set<int>, flagsOn: bool)
    requires |board.unit| == count && |cfg.unitPort| == count && |cfg.port| == PORT_COUNT
  {
    forall id | 0 <= id < count :: BusError(board, cfg, id, outputPins, flagsOn) == None
  }

  /** The runtime table the builder produces from a valid board: one merged entry per bus. */
  function MergedTable(count: nat, board: BoardPins, cfg: SysConfig): seq<RuntimeUnit>
    requires |board.unit| == count && |cfg.unitPort| == count && |cfg.port| == PORT_COUNT
    requires forall id | 0 <= id < count :: cfg.unitPort[id] < PORT_COUNT
  {
    seq(count, id requires 0 <= id < count => MergeUnit(board, cfg, id))
  }

  /** Index of the first bus assigned to port `p`, or the table size when no bus is. */
  function FirstOn(units: seq<RuntimeUnit>, p: nat): (i: nat)
    ensures i <= |units|
    ensures i < |units| ==> units[i].port == p
    ensures forall j | 0 <= j < i :: units[j].port != p
  {
    if units == [] then 0
    else if units[0].port == p then 0
    else 1 + FirstOn(units[1..], p)
  }

  // ---------------------------------------------------------------------
  // Lemmas

  /** The checks accept exactly the entries that satisfy the table invariant. */
  lemma BusErrorNoneIffValid(board: BoardPins, cfg: SysConfig, id: nat, outputPins: set<int>, flagsOn: bool)
    requires id < |board.unit| && id < |cfg.unitPort| && |cfg.port| == PORT_COUNT
    ensures BusError(board, cfg, id, outputPins, flagsOn) == None
        <==> cfg.unitPort[id] < PORT_COUNT && UnitValid(MergeUnit(board, cfg, id), outputPins, flagsOn)
  {
  }

  /** A valid board yields a table whose every entry satisfies the invariant and comes from the two tables. */
  lemma {:induction false} ValidBoardTable(count: nat, board: BoardPins, cfg: SysConfig, outputPins: set<int>, flagsOn: bool)
    requires |board.unit| == count && |cfg.unitPort| == count && |cfg.port| == PORT_COUNT
    requires BoardValid(count, board, cfg, outputPins, flagsOn)
    ensures forall id | 0 <= id < count :: cfg.unitPort[id] < PORT_COUNT
    ensures var t := MergedTable(count, board, cfg);
      forall id | 0 <= id < count ::
        && UnitValid(t[id], outputPins, flagsOn)
        && t[id].sda == board.unit[id].sda && t[id].scl == board.unit[id].scl
        && t[id].port == cfg.unitPort[id]
        && t[id].clkSpeed == cfg.port[t[id].port].clkSpeed
        && t[id].clkFlags == cfg.port[t[id].port].clkFlags
  {
    forall id | 0 <= id < count ensures cfg.unitPort[id] < PORT_COUNT {
      assert BusError(board, cfg, id, outputPins, flagsOn) == None;
    }
    var t := MergedTable(count, board, cfg);
    forall id | 0 <= id < count ensures UnitValid(t[id], outputPins, flagsOn) {
      assert BusError(board, cfg, id, outputPins, flagsOn) == None;
      BusErrorNoneIffValid(board, cfg, id, outputPins, flagsOn);
    }
  }

  /**
   * Clock speed and flags are keyed by port, not by bus: two buses assigned
   * to the same port get the same clock whatever their own entries say.
   */
  lemma ClockKeyedByPort(board: BoardPins, cfg: SysConfig, i: nat, j: nat)
    requires i < |board.unit| && i < |cfg.unitPort| && cfg.unitPort[i] < |cfg.port|
    requires j < |board.unit| && j < |cfg.unitPort| && cfg.unitPort[j] < |cfg.port|
    requires cfg.unitPort[i] == cfg.unitPort[j]
    ensures MergeUnit(board, cfg, i).clkSpeed == MergeUnit(board, cfg, j).clkSpeed
    ensures MergeUnit(board, cfg, i).clkFlags == MergeUnit(board, cfg, j).clkFlags
  {
  }

  /**
   * Each rejection of the builder, one per violated constraint: equal pins,
   * a zero clock, a clock above the maximum, a port out of range.
   */
  lemma RejectsViolations(board: BoardPins, cfg: SysConfig, id: nat, outputPins: set<int>, flagsOn: bool)
    requires id < |board.unit| && id < |cfg.unitPort| && |cfg.port| == PORT_COUNT
    ensures cfg.unitPort[id] >= PORT_COUNT ==> BusError(board, cfg, id, outputPins, flagsOn) == Some(InvalidController)
    ensures cfg.unitPort[id] < PORT_COUNT && board.unit[id].sda == board.unit[id].scl
      ==> BusError(board, cfg, id, outputPins, flagsOn) == Some(InvalidPin)
    ensures cfg.unitPort[id] < PORT_COUNT && PinsUsable(MergeUnit(board, cfg, id), outputPins)
      && (cfg.port[cfg.unitPort[id]].clkSpeed == 0 || cfg.port[cfg.unitPort[id]].clkSpeed > CLOCK_MAX)
      ==> BusError(board, cfg, id, outputPins, flagsOn) == Some(ClockOutOfRange)
  {
  }

  /**
   * The shipped default configuration (one bus on sda 4 / scl 3, port 0 at
   * 400 kHz, port 1 at 100 kHz, no clock flags) passes every check when pins
   * 3 and 4 can drive outputs.
   */
  lemma DefaultConfigValid(outputPins: set<int>, flagsOn: bool)
    requires 3 in outputPins && 4 in outputPins
    ensures var board := BoardPins([PinPair(4, 3)]);
      var cfg := SysConfig([0], [PortClock(400000, 0), PortClock(100000, 0)]);
      && BoardValid(1, board, cfg, outputPins, flagsOn)
      && MergedTable(1, board, cfg) == [RuntimeUnit(4, 3, 0, 400000, 0)]
  {
    var board := BoardPins([PinPair(4, 3)]);
    var cfg := SysConfig([0], [PortClock(400000, 0), PortClock(100000, 0)]);
    assert BusError(board, cfg, 0, outputPins, flagsOn) == None;
  }
}
