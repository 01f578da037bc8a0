/**
 * The command lists the transaction engine composes on an I2C command link,
 * and a bus monitor's reading of them. Framing follows the I2C-bus
 * specification (NXP UM10204): START / repeated START and STOP (section
 * 3.1.4), acknowledge and not-acknowledge (section 3.1.6), and the 7-bit
 * address followed by the R/W bit (section 3.1.10).
 */
module I2cCommands {
  import opened I2cTypes

  /** The R/W bit after the address: I2C_MASTER_WRITE = 0, I2C_MASTER_READ = 1. */
  datatype Dir = WriteDir | ReadDir

  function DirBit(d: Dir): nat {
    if d == WriteDir then 0 else 1
  }

  /** What the master answers after receiving a byte: ACK (ESP32_I2C_ACK_VAL) or NACK (ESP32_I2C_NACK_VAL). */
  datatype Reply = Ack | Nack

  /** One element of a command link. */
  datatype Cmd =
    | Start               // START, or a repeated START when it is not the first
    | Stop
    | Write(b: Byte)      // the master transmits b and checks the slave's ACK (ack_en = 1)
    | Read(reply: Reply)  // the master receives one byte and answers with `reply`

  /** The address byte: `addr << 1 | dir`, i.e. the 7-bit address followed by the R/W bit. */
  function AddrByte(addr: nat, d: Dir): (b: Byte)
    requires ValidAddress(addr)
    ensures b / 2 == addr && b % 2 == DirBit(d)
  {
    addr * 2 + DirBit(d)
  }

  /** What i2c_master_read appends for `n` bytes answered with `reply`. */
  function Reads(n: nat, reply: Reply): seq<Cmd> {
    if n == 0 then [] else [Read(reply)] + Reads(n - 1, reply)
  }

  /** What i2c_master_write appends for a payload. */
  function Writes(data: seq<Byte>): seq<Cmd> {
    if data == [] then [] else [Write(data[0])] + Writes(data[1..])
  }

  /** Register read of `n` bytes: START, address+W, register, repeated START, address+R, n-1 ACKed reads, one NACKed read, STOP. */
  function ReadCommands(addr: nat, reg: Byte, n: nat): seq<Cmd>
    requires ValidAddress(addr) && n >= 1
  {
    [Start, Write(AddrByte(addr, WriteDir)), Write(reg), Start, Write(AddrByte(addr, ReadDir))]
    + Reads(n - 1, Ack) + [Read(Nack), Stop]
  }

  /** Register write: START, address+W, register, the payload in order, STOP. */
  function WriteCommands(addr: nat, reg: Byte, data: seq<Byte>): seq<Cmd>
    requires ValidAddress(addr)
  {
    [Start, Write(AddrByte(addr, WriteDir)), Write(reg)] + Writes(data) + [Stop]
  }

  /** Address strobe: START, address+W, STOP. */
  function ProbeCommands(addr: nat): seq<Cmd>
    requires ValidAddress(addr)
  {
    [Start, Write(AddrByte(addr, WriteDir)), Stop]
  }

  /** The pieces a register read appends, one per i2c_master_* call; the ACKed reads are one call, made only for n > 1. */
  function ReadChunks(addr: nat, reg: Byte, n: nat): seq<seq<Cmd>>
    requires ValidAddress(addr) && n >= 1
  {
    [[Start], [Write(AddrByte(addr, WriteDir))], [Write(reg)], [Start], [Write(AddrByte(addr, ReadDir))]]
    + (if n > 1 then [Reads(n - 1, Ack)] else [])
    + [[Read(Nack)], [Stop]]
  }

  /** The pieces a register write appends: the whole payload is one i2c_master_write call. */
  function WriteChunks(addr: nat, reg: Byte, data: seq<Byte>): seq<seq<Cmd>>
    requires ValidAddress(addr)
  {
    [[Start], [Write(AddrByte(addr, WriteDir))], [Write(reg)], Writes(data), [Stop]]
  }

  /** The pieces an address probe appends. */
  function ProbeChunks(addr: nat): seq<seq<Cmd>>
    requires ValidAddress(addr)
  {
    [[Start], [Write(AddrByte(addr, WriteDir))], [Stop]]
  }

  /** The command list that appending the pieces in order builds. */
  function Join(chunks: seq<seq<Cmd>>): seq<Cmd> {
    if chunks == [] then [] else Join(chunks[..|chunks| - 1]) + chunks[|chunks| - 1]
  }

  // ---------------------------------------------------------------------
  // The partner: how a bus monitor reads a command list back.

  datatype Transfer =
    | RegisterRead(addr: nat, reg: Byte, count: nat)
    | RegisterWrite(addr: nat, reg: Byte, data: seq<Byte>)
    | AddressProbe(addr: nat)

  /** Reads a tail `Read(Ack)* Read(Nack) Stop`: the number of bytes the master receives. */
  function ReceivedCount(s: seq<Cmd>): Option<nat> {
    if s == [Read(Nack), Stop] then Some(1)
    else if |s| > 2 && s[0] == Read(Ack) then
      match ReceivedCount(s[1..])
      case Some(k) => Some(k + 1)
      case None => None
    else None
  }

  /** Reads a tail `Write(d)* Stop`: the payload the master transmits. */
  function Payload(s: seq<Cmd>): Option<seq<Byte>> {
    if s == [Stop] then Some([])
    else if |s| > 1 && s[0].Write? then
      match Payload(s[1..])
      case Some(d) => Some([s[0].b] + d)
      case None => None
    else None
  }

  /** The transfer a command list encodes, if it is one of the three shapes above. */
  function Parse(s: seq<Cmd>): Option<Transfer> {
    if |s| < 3 || s[0] != Start || !s[1].Write? || s[1].b % 2 != 0 then None
    else if s[2] == Stop then
      if |s| == 3 then Some(AddressProbe(s[1].b / 2)) else None
    else if !s[2].Write? then None
    else if |s| > 5 && s[3] == Start && s[4].Write? && s[4].b == s[1].b + 1 then
      match ReceivedCount(s[5..])
      case Some(n) => Some(RegisterRead(s[1].b / 2, s[2].b, n))
      case None => None
    else
      match Payload(s[3..])
      case Some(d) => Some(RegisterWrite(s[1].b / 2, s[2].b, d))
      case None => None
  }

  // ---------------------------------------------------------------------
  // Lemmas

  /** Distinct addresses or directions give distinct address bytes. */
  lemma AddrByteInjective(a1: nat, d1: Dir, a2: nat, d2: Dir)
    requires ValidAddress(a1) && ValidAddress(a2)
    ensures AddrByte(a1, d1) == AddrByte(a2, d2) ==> a1 == a2 && d1 == d2
  {
    if AddrByte(a1, d1) == AddrByte(a2, d2) {
      assert DirBit(d1) == DirBit(d2);
    }
  }

  lemma {:induction false} ReadsAt(n: nat, reply: Reply)
    ensures |Reads(n, reply)| == n
    ensures forall i | 0 <= i < n :: Reads(n, reply)[i] == Read(reply)
  {
    if n > 0 {
      ReadsAt(n - 1, reply);
    }
  }

  lemma {:induction false} WritesAt(data: seq<Byte>)
    ensures |Writes(data)| == |data|
    ensures forall i | 0 <= i < |data| :: Writes(data)[i] == Write(data[i])
  {
    if data != [] {
      WritesAt(data[1..]);
    }
  }

  /**
   * The master receiver acknowledges every byte but the last and signals
   * the end of the transfer with a NACK on the last byte, then STOP
   * (UM10204 section 3.1.6); the read is framed by a START and a repeated
   * START with the write and read address bytes.
   */
  lemma ReadCommandsFraming(addr: nat, reg: Byte, n: nat)
    requires ValidAddress(addr) && n >= 1
    ensures var s := ReadCommands(addr, reg, n);
      && |s| == n + 6
      && s[0] == Start && s[3] == Start && s[|s| - 1] == Stop
      && s[1] == Write(addr * 2) && s[2] == Write(reg) && s[4] == Write(addr * 2 + 1)
      && (forall i | 5 <= i < n + 4 :: s[i] == Read(Ack))
      && s[n + 4] == Read(Nack)
  {
    ReadsAt(n - 1, Ack);
  }

  /** A register write transmits exactly the payload bytes, in order, between the register byte and STOP. */
  lemma WriteCommandsFraming(addr: nat, reg: Byte, data: seq<Byte>)
    requires ValidAddress(addr)
    ensures var s := WriteCommands(addr, reg, data);
      && |s| == |data| + 4
      && s[0] == Start && s[1] == Write(addr * 2) && s[2] == Write(reg) && s[|s| - 1] == Stop
      && (forall i | 0 <= i < |data| :: s[3 + i] == Write(data[i]))
      && Start !in s[1..]
  {
    WritesAt(data);
    var s := WriteCommands(addr, reg, data);
    forall i | 1 <= i < |s| ensures s[i] != Start {
      if 3 <= i < |s| - 1 {
        assert s[i] == Writes(data)[i - 3];
      }
    }
  }

  lemma {:induction false} ReceivedCountOfReads(k: nat)
    ensures ReceivedCount(Reads(k, Ack) + [Read(Nack), Stop]) == Some(k + 1)
  {
    if k > 0 {
      var tail := Reads(k - 1, Ack) + [Read(Nack), Stop];
      assert Reads(k, Ack) + [Read(Nack), Stop] == [Read(Ack)] + tail;
      assert ([Read(Ack)] + tail)[1..] == tail;
      ReceivedCountOfReads(k - 1);
    }
  }

  lemma {:induction false} PayloadOfWrites(data: seq<Byte>)
    ensures Payload(Writes(data) + [Stop]) == Some(data)
  {
    if data != [] {
      var tail := Writes(data[1..]) + [Stop];
      assert Writes(data) + [Stop] == [Write(data[0])] + tail;
      assert ([Write(data[0])] + tail)[1..] == tail;
      PayloadOfWrites(data[1..]);
      assert [data[0]] + data[1..] == data;
    }
  }

  /** Round trip: the read command list is read back as the register read that produced it. */
  lemma ParseReadCommands(addr: nat, reg: Byte, n: nat)
    requires ValidAddress(addr) && n >= 1
    ensures Parse(ReadCommands(addr, reg, n)) == Some(RegisterRead(addr, reg, n))
  {
    var s := ReadCommands(addr, reg, n);
    ReceivedCountOfReads(n - 1);
    assert s[5..] == Reads(n - 1, Ack) + [Read(Nack), Stop];
    ReadsAt(n - 1, Ack);
  }

  /** Round trip: the write command list is read back as the register write that produced it. */
  lemma ParseWriteCommands(addr: nat, reg: Byte, data: seq<Byte>)
    requires ValidAddress(addr)
    ensures Parse(WriteCommands(addr, reg, data)) == Some(RegisterWrite(addr, reg, data))
  {
    var s := WriteCommands(addr, reg, data);
    PayloadOfWrites(data);
    assert s[3..] == Writes(data) + [Stop];
    WritesAt(data);
    if |s| > 5 {
      assert s[3] == Write(data[0]);
    }
  }

  /** Round trip: the probe command list is read back as an address strobe. */
  lemma ParseProbeCommands(addr: nat)
    requires ValidAddress(addr)
    ensures Parse(ProbeCommands(addr)) == Some(AddressProbe(addr))
  {
  }

  /** Joining the pieces of two chunk lists joins their command lists. */
  lemma {:induction false} JoinConcat(a: seq<seq<Cmd>>, b: seq<seq<Cmd>>)
    ensures Join(a + b) == Join(a) + Join(b)
    decreases |b|
  {
    if b == [] {
      assert a + b == a;
    } else {
      var b' := b[..|b| - 1];
      assert (a + b)[..|a + b| - 1] == a + b';
      JoinConcat(a, b');
    }
  }

  /** Appending one more piece extends the command list by that piece. */
  lemma JoinSnoc(chunks: seq<seq<Cmd>>, c: seq<Cmd>)
    ensures Join(chunks + [c]) == Join(chunks) + c
  {
    assert (chunks + [c])[..|chunks|] == chunks;
  }

  /** Two one-command pieces join to the two commands. */
  lemma JoinTwo(a: Cmd, b: Cmd)
    ensures Join([[a], [b]]) == [a, b]
  {
    JoinSnoc([], [a]);
    assert [] + [[a]] == [[a]];
    JoinSnoc([[a]], [b]);
    assert [[a]] + [[b]] == [[a], [b]];
  }

  /** Three one-command pieces join to the three commands. */
  lemma JoinThree(a: Cmd, b: Cmd, c: Cmd)
    ensures Join([[a], [b], [c]]) == [a, b, c]
  {
    JoinTwo(a, b);
    JoinSnoc([[a], [b]], [c]);
    assert [[a], [b]] + [[c]] == [[a], [b], [c]];
  }

  /** Five one-command pieces join to the five commands. */
  lemma JoinFive(a: Cmd, b: Cmd, c: Cmd, d: Cmd, e: Cmd)
    ensures Join([[a], [b], [c], [d], [e]]) == [a, b, c, d, e]
  {
    JoinThree(a, b, c);
    JoinTwo(d, e);
    JoinConcat([[a], [b], [c]], [[d], [e]]);
    assert [[a], [b], [c]] + [[d], [e]] == [[a], [b], [c], [d], [e]];
  }

  /** The calls a register read makes append exactly its command list. */
  lemma JoinReadChunks(addr: nat, reg: Byte, n: nat)
    requires ValidAddress(addr) && n >= 1
    ensures Join(ReadChunks(addr, reg, n)) == ReadCommands(addr, reg, n)
  {
    var w, r := Write(AddrByte(addr, WriteDir)), Write(AddrByte(addr, ReadDir));
    var head := [[Start], [w], [Write(reg)], [Start], [r]];
    var mid: seq<seq<Cmd>> := if n > 1 then [Reads(n - 1, Ack)] else [];
    var tail := [[Read(Nack)], [Stop]];
    JoinFive(Start, w, Write(reg), Start, r);
    JoinTwo(Read(Nack), Stop);
    JoinConcat(head + mid, tail);
    JoinConcat(head, mid);
    assert Join(mid) == Reads(n - 1, Ack) by {
      if n > 1 {
        JoinSnoc([], Reads(n - 1, Ack));
        assert [] + [Reads(n - 1, Ack)] == mid;
      }
    }
    assert ReadChunks(addr, reg, n) == head + mid + tail;
  }

  /** The calls a register write makes append exactly its command list. */
  lemma JoinWriteChunks(addr: nat, reg: Byte, data: seq<Byte>)
    requires ValidAddress(addr)
    ensures Join(WriteChunks(addr, reg, data)) == WriteCommands(addr, reg, data)
  {
    var w := Write(AddrByte(addr, WriteDir));
    var head := [[Start], [w], [Write(reg)]];
    JoinThree(Start, w, Write(reg));
    JoinSnoc(head, Writes(data));
    JoinSnoc(head + [Writes(data)], [Stop]);
    assert head + [Writes(data)] + [[Stop]] == WriteChunks(addr, reg, data);
  }

  /** The calls a probe makes append exactly its command list. */
  lemma JoinProbeChunks(addr: nat)
    requires ValidAddress(addr)
    ensures Join(ProbeChunks(addr)) == ProbeCommands(addr)
  {
    JoinThree(Start, Write(AddrByte(addr, WriteDir)), Stop);
  }
}
