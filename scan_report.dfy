/**
 * What the bus scan reports: the order in which it probes (bus, address)
 * pairs, the presence flag of each probe and the device count.
 */
module ScanReport {
  import opened I2cTypes
  import opened EventTrace

  /** Number of addresses probed per bus, SCAN_ADDR_MIN..SCAN_ADDR_MAX inclusive. */
  const SCAN_WIDTH: nat := SCAN_ADDR_MAX - SCAN_ADDR_MIN + 1

  /**
   * One probe the scan issued: its target, whether the probe succeeded, the
   * flag it reported, what the executor returned if it ran, and the calls
   * into the dependencies it made.
   */
  datatype ProbeCall =
    ProbeCall(id: nat, addr: nat, ok: bool, found: bool, executed: Option<ExecResult>, log: seq<Event>)

  /** The (bus, address) targets of one bus, in scan order. */
  function Row(id: nat): seq<(nat, nat)> {
    seq(SCAN_WIDTH, a => (id, SCAN_ADDR_MIN + a))
  }

  /** Every (bus, address) target of buses 0..count-1, in scan order. */
  function Targets(count: nat): seq<(nat, nat)> {
    if count == 0 then [] else Targets(count - 1) + Row(count - 1)
  }

  /** The targets of a sequence of probes. */
  function Aimed(calls: seq<ProbeCall>): seq<(nat, nat)> {
    if calls == [] then []
    else Aimed(calls[..|calls| - 1]) + [(calls[|calls| - 1].id, calls[|calls| - 1].addr)]
  }

  /** The presence flags a sequence of probes reported. */
  function FoundFlags(calls: seq<ProbeCall>): seq<bool> {
    if calls == [] then [] else FoundFlags(calls[..|calls| - 1]) + [calls[|calls| - 1].found]
  }

  /** Every probe of the sequence succeeded. */
  predicate AllProbed(calls: seq<ProbeCall>) {
    forall c | c in calls :: c.ok
  }

  /** The sequence stopped at its first failed probe: the last one failed and every earlier one succeeded. */
  predicate StoppedAtLast(calls: seq<ProbeCall>) {
    calls != [] && !calls[|calls| - 1].ok && forall i | 0 <= i < |calls| - 1 :: calls[i].ok
  }

  /** The calls a sequence of probes made, one probe after the other. */
  function Logs(calls: seq<ProbeCall>): seq<Event> {
    if calls == [] then [] else Logs(calls[..|calls| - 1]) + calls[|calls| - 1].log
  }

  /** How many of the flags are set. */
  function CountTrue(s: seq<bool>): nat {
    if s == [] then 0 else CountTrue(s[..|s| - 1]) + (if s[|s| - 1] then 1 else 0)
  }

  // ---------------------------------------------------------------------
  // Lemmas

  /** The k-th target is bus k / SCAN_WIDTH at address SCAN_ADDR_MIN + k % SCAN_WIDTH. */
  lemma {:induction false} TargetsAt(count: nat)
    ensures |Targets(count)| == count * SCAN_WIDTH
    ensures forall k | 0 <= k < count * SCAN_WIDTH ::
      Targets(count)[k] == (k / SCAN_WIDTH, SCAN_ADDR_MIN + k % SCAN_WIDTH)
  {
    if count > 0 {
      TargetsAt(count - 1);
      var t := Targets(count);
      forall k | (count - 1) * SCAN_WIDTH <= k < count * SCAN_WIDTH
        ensures t[k] == (k / SCAN_WIDTH, SCAN_ADDR_MIN + k % SCAN_WIDTH)
      {
        var a := k - (count - 1) * SCAN_WIDTH;
        assert t[k] == Row(count - 1)[a];
        assert k == (count - 1) * SCAN_WIDTH + a;
      }
    }
  }

  /** A position is determined by its bus and its address. */
  lemma PositionDetermined(i: nat, j: nat)
    requires i / SCAN_WIDTH == j / SCAN_WIDTH && i % SCAN_WIDTH == j % SCAN_WIDTH
    ensures i == j
  {
    assert SCAN_WIDTH == 128;
  }

  /** The scan never probes the same (bus, address) twice. */
  lemma TargetsDistinct(count: nat)
    ensures forall i, j | 0 <= i < j < |Targets(count)| :: Targets(count)[i] != Targets(count)[j]
  {
    TargetsAt(count);
    var t := Targets(count);
    forall i, j | 0 <= i < j < |t| ensures t[i] != t[j] {
      assert t[i] == (i / SCAN_WIDTH, SCAN_ADDR_MIN + i % SCAN_WIDTH);
      assert t[j] == (j / SCAN_WIDTH, SCAN_ADDR_MIN + j % SCAN_WIDTH);
      if t[i] == t[j] {
        PositionDetermined(i, j);
      }
    }
  }

  /** The scan probes every address of every configured bus. */
  lemma TargetsCover(count: nat, id: nat, addr: nat)
    requires id < count && SCAN_ADDR_MIN <= addr <= SCAN_ADDR_MAX
    ensures (id, addr) in Targets(count)
  {
    TargetsAt(count);
    var k := id * SCAN_WIDTH + (addr - SCAN_ADDR_MIN);
    assert k < count * SCAN_WIDTH by {
      assert id * SCAN_WIDTH <= (count - 1) * SCAN_WIDTH;
    }
    assert Targets(count)[k] == (id, addr);
  }

  /** The targets of the first buses are a prefix of the targets of more buses. */
  lemma {:induction false} TargetsPrefix(c1: nat, c2: nat)
    requires c1 <= c2
    ensures |Targets(c1)| <= |Targets(c2)|
    ensures Targets(c2)[..|Targets(c1)|] == Targets(c1)
    decreases c2
  {
    if c1 < c2 {
      TargetsPrefix(c1, c2 - 1);
      var t := Targets(c2 - 1);
      assert Targets(c2)[..|t|] == t;
    }
  }

  /** The device count is at most the number of flags. */
  lemma {:induction false} CountTrueBound(s: seq<bool>)
    ensures CountTrue(s) <= |s|
  {
    if s != [] {
      CountTrueBound(s[..|s| - 1]);
    }
  }

  /** Recording one more probe extends the targets and the count by that probe's. */
  lemma RecordProbe(calls: seq<ProbeCall>, c: ProbeCall)
    ensures Aimed(calls + [c]) == Aimed(calls) + [(c.id, c.addr)]
    ensures CountTrue(FoundFlags(calls + [c])) == CountTrue(FoundFlags(calls)) + (if c.found then 1 else 0)
  {
    assert (calls + [c])[..|calls|] == calls;
    var f := FoundFlags(calls);
    assert (f + [c.found])[..|f|] == f;
  }

  /** The targets of two probe sequences run one after the other. */
  lemma {:induction false} AimedConcat(a: seq<ProbeCall>, b: seq<ProbeCall>)
    ensures Aimed(a + b) == Aimed(a) + Aimed(b)
    decreases |b|
  {
    if b == [] {
      assert a + b == a;
    } else {
      assert (a + b)[..|a + b| - 1] == a + b[..|b| - 1];
      AimedConcat(a, b[..|b| - 1]);
    }
  }

  /** The calls of two probe sequences run one after the other. */
  lemma {:induction false} LogsConcat(a: seq<ProbeCall>, b: seq<ProbeCall>)
    ensures Logs(a + b) == Logs(a) + Logs(b)
    decreases |b|
  {
    if b == [] {
      assert a + b == a;
    } else {
      assert (a + b)[..|a + b| - 1] == a + b[..|b| - 1];
      LogsConcat(a, b[..|b| - 1]);
    }
  }

  /** The device count of two probe sequences run one after the other. */
  lemma {:induction false} CountConcat(a: seq<ProbeCall>, b: seq<ProbeCall>)
    ensures CountTrue(FoundFlags(a + b)) == CountTrue(FoundFlags(a)) + CountTrue(FoundFlags(b))
    decreases |b|
  {
    if b == [] {
      assert a + b == a;
    } else {
      assert (a + b)[..|a + b| - 1] == a + b[..|b| - 1];
      CountConcat(a, b[..|b| - 1]);
      var f := FoundFlags(a + b[..|b| - 1]);
      assert (f + [b[|b| - 1].found])[..|f|] == f;
      var g := FoundFlags(b[..|b| - 1]);
      assert (g + [b[|b| - 1].found])[..|g|] == g;
    }
  }

  /** Following successful probes with a bus's probes keeps their outcome. */
  lemma ScanStep(before: seq<ProbeCall>, bus: seq<ProbeCall>)
    requires AllProbed(before)
    ensures AllProbed(bus) ==> AllProbed(before + bus)
    ensures StoppedAtLast(bus) ==> StoppedAtLast(before + bus)
  {
    if StoppedAtLast(bus) {
      var all := before + bus;
      forall i | 0 <= i < |all| - 1 ensures all[i].ok {
        if i < |before| {
          assert all[i] in before;
        } else {
          assert all[i] == bus[i - |before|];
        }
      }
    }
  }

  /** A probe sequence aims at as many targets as it has probes. */
  lemma {:induction false} AimedLength(calls: seq<ProbeCall>)
    ensures |Aimed(calls)| == |calls|
  {
    if calls != [] {
      AimedLength(calls[..|calls| - 1]);
    }
  }

  /** The flags of a probe sequence, one per probe. */
  lemma {:induction false} FoundFlagsLength(calls: seq<ProbeCall>)
    ensures |FoundFlags(calls)| == |calls|
  {
    if calls != [] {
      FoundFlagsLength(calls[..|calls| - 1]);
    }
  }

  /** The targets of the first buses and the first addresses of the next are a prefix of all targets. */
  lemma ScanPrefix(count: nat, id: nat, k: nat)
    requires id < count && k <= SCAN_WIDTH
    ensures |Targets(id)| + k <= |Targets(count)|
    ensures Targets(count)[..|Targets(id)| + k] == Targets(id) + Row(id)[..k]
  {
    TargetsPrefix(id + 1, count);
    assert Targets(id + 1) == Targets(id) + Row(id);
    PrefixThrough(Targets(count), Targets(id), Row(id), k);
  }

  /** When `a + b` is a prefix of `s`, so is `a` followed by a prefix of `b`. */
  lemma PrefixThrough<T>(s: seq<T>, a: seq<T>, b: seq<T>, k: nat)
    requires |a + b| <= |s| && s[..|a + b|] == a + b && k <= |b|
    ensures |a| + k <= |s| && s[..|a| + k] == a + b[..k]
  {
    assert s[..|a| + k] == (a + b)[..|a| + k];
  }

  /** One bus's scan: the addresses probed in order, stopping at the first failed probe, and the acknowledgements counted. */
  predicate BusScanned(id: nat, ok: bool, bus: seq<ProbeCall>, found: nat) {
    && found == CountTrue(FoundFlags(bus))
    && |bus| <= SCAN_WIDTH && Aimed(bus) == Row(id)[..|bus|]
    && (ok ==> |bus| == SCAN_WIDTH && AllProbed(bus))
    && (!ok ==> StoppedAtLast(bus))
  }

  /** Part of one bus's scan: the first addresses probed in order, all successfully, and the acknowledgements counted. */
  predicate BusSoFar(id: nat, calls: seq<ProbeCall>, found: nat) {
    && |calls| <= SCAN_WIDTH && Aimed(calls) == Row(id)[..|calls|]
    && AllProbed(calls) && found == CountTrue(FoundFlags(calls))
  }

  /**
   * Probing the next address of the bus: a successful probe extends the
   * bus's scan and counts its acknowledgement; a failed one, which reports
   * no device, ends the bus's scan with a failure.
   */
  lemma BusStep(id: nat, calls: seq<ProbeCall>, found: nat, c: ProbeCall)
    requires BusSoFar(id, calls, found) && |calls| < SCAN_WIDTH
    requires c.id == id && c.addr == SCAN_ADDR_MIN + |calls| && (!c.ok ==> !c.found)
    ensures c.ok ==> BusSoFar(id, calls + [c], found + (if c.found then 1 else 0))
    ensures !c.ok ==> BusScanned(id, false, calls + [c], found)
  {
    RecordProbe(calls, c);
    assert Row(id)[..|calls| + 1] == Row(id)[..|calls|] + [(id, c.addr)];
    var all := calls + [c];
    assert forall i | 0 <= i < |all| - 1 :: all[i] in calls;
  }

  /** A bus whose every address was probed successfully is scanned completely. */
  lemma BusDone(id: nat, calls: seq<ProbeCall>, found: nat)
    requires BusSoFar(id, calls, found) && |calls| == SCAN_WIDTH
    ensures BusScanned(id, true, calls, found)
  {
    assert Row(id)[..|calls|] == Row(id);
  }

  /** `calls` are the successful probes of every address of buses 0..id-1, and `found` counts their acknowledgements. */
  predicate BusesScanned(id: nat, calls: seq<ProbeCall>, found: nat) {
    Aimed(calls) == Targets(id) && AllProbed(calls) && found == CountTrue(FoundFlags(calls))
  }

  /**
   * The outcome of a scan of `count` buses: the probes follow the scan
   * order, cover every target when the scan succeeds and stop at the first
   * failed probe otherwise, and `found` counts the acknowledgements.
   */
  predicate ScanOutcome(count: nat, ok: bool, calls: seq<ProbeCall>, found: nat) {
    && found == CountTrue(FoundFlags(calls)) && found <= |calls|
    && |calls| <= |Targets(count)| && Aimed(calls) == Targets(count)[..|calls|]
    && (ok ==> Aimed(calls) == Targets(count) && AllProbed(calls))
    && (!ok ==> StoppedAtLast(calls))
  }

  /**
   * Appending the scan of bus `id` to the scans of the buses before it:
   * a complete bus extends the scanned buses by one, an interrupted one
   * ends the scan with a failure.
   */
  lemma AfterBus(count: nat, id: nat, calls: seq<ProbeCall>, found: nat, busOk: bool, bus: seq<ProbeCall>, busFound: nat)
    requires id < count && BusesScanned(id, calls, found) && BusScanned(id, busOk, bus, busFound)
    ensures busOk ==> BusesScanned(id + 1, calls + bus, found + busFound)
    ensures !busOk ==> ScanOutcome(count, false, calls + bus, found + busFound)
  {
    var all := calls + bus;
    AimedConcat(calls, bus);
    CountConcat(calls, bus);
    AimedLength(calls);
    AimedLength(bus);
    ScanPrefix(count, id, |bus|);
    ScanStep(calls, bus);
    FoundFlagsLength(all);
    CountTrueBound(FoundFlags(all));
    if busOk {
      assert Row(id)[..SCAN_WIDTH] == Row(id);
    }
  }

  /** A scan that went through every bus is a successful scan outcome. */
  lemma ScanComplete(count: nat, calls: seq<ProbeCall>, found: nat)
    requires BusesScanned(count, calls, found)
    ensures ScanOutcome(count, true, calls, found)
  {
    AimedLength(calls);
    FoundFlagsLength(calls);
    CountTrueBound(FoundFlags(calls));
  }
}
