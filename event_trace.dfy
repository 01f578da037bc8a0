/**
 * The record of calls the component makes into the code it depends on
 * (ESP-IDF I2C driver, GPIO configuration, FreeRTOS mutexes), with the
 * result each call returned, and the projections used to state the lock
 * and routing discipline over such a record.
 */
module EventTrace {
  import opened I2cTypes
  import opened I2cCommands

  /** What i2c_master_cmd_begin returns: ESP_OK, ESP_FAIL (no ACK), or another error. */
  datatype ExecResult = EspOk | EspFail | ErrTimeout | ErrInvalidArg | ErrInvalidState

  /** The i2c_config_t handed to i2c_param_config: pins, clock, flags and pull-up policy. */
  datatype PortParams = PortParams(sda: int, scl: int, clkSpeed: nat, clkFlags: nat, pullUp: bool)

  /** One call into a dependency and what it returned. */
  datatype Event =
    | ParamConfig(port: nat, params: PortParams, ok: bool)  // i2c_param_config: configure the port and route its pins
    | DriverInstall(port: nat, ok: bool)                    // i2c_driver_install
    | MutexCreate(port: nat, ok: bool)                      // xSemaphoreCreateMutex for the port's lock
    | MutexDelete(port: nat)                                // vSemaphoreDelete of the port's lock
    | Take(port: nat, ok: bool)                             // xSemaphoreTake, waiting forever
    | Give(port: nat, ok: bool)                             // xSemaphoreGive
    | PinIdle(pin: int, pullUp: bool, ok: bool)             // gpio_config: open-drain input/output, no controller
    | LinkCreate(ok: bool)                                  // i2c_cmd_link_create
    | LinkAppend(cmds: seq<Cmd>, ok: bool)                  // i2c_master_start / _write_byte / _write / _read / _read_byte / _stop
    | Execute(port: nat, cmds: seq<Cmd>, timeoutMs: nat, result: ExecResult, received: seq<Byte>)  // i2c_master_cmd_begin
    | LinkDelete(live: bool)                                // i2c_cmd_link_delete; `live` is false for an already deleted handle

  /** Which events a projection keeps. */
  datatype Filter =
    | LockOps(port: nat) // takes and gives of one port's lock
    | Deletes            // command-link deletions
    | PortSetup(port: nat) // controller set-up of one port: configuration, driver, lock creation and deletion

  predicate Keeps(f: Filter, e: Event) {
    match f
    case LockOps(p) => (e.Take? || e.Give?) && e.port == p
    case Deletes => e.LinkDelete?
    case PortSetup(p) => (e.ParamConfig? || e.DriverInstall? || e.MutexCreate? || e.MutexDelete?) && e.port == p
  }

  /** The events of `t` that `f` keeps, in order. */
  function Select(t: seq<Event>, f: Filter): seq<Event> {
    if t == [] then []
    else Select(t[..|t| - 1], f) + (if Keeps(f, t[|t| - 1]) then [t[|t| - 1]] else [])
  }

  /** The last operation of `t` on port `p`'s lock was a successful take: the caller still owns it. */
  predicate Owns(t: seq<Event>, p: nat) {
    var s := Select(t, LockOps(p));
    |s| > 0 && s[|s| - 1] == Take(p, true)
  }

  /**
   * The call reported success. Deletions return nothing, and what the
   * executor returned is judged by the caller, so those always count as
   * accepted.
   */
  predicate Accepted(e: Event) {
    match e
    case ParamConfig(_, _, ok) => ok
    case DriverInstall(_, ok) => ok
    case MutexCreate(_, ok) => ok
    case MutexDelete(_) => true
    case Take(_, ok) => ok
    case Give(_, ok) => ok
    case PinIdle(_, _, ok) => ok
    case LinkCreate(ok) => ok
    case LinkAppend(_, ok) => ok
    case Execute(_, _, _, _, _) => true
    case LinkDelete(_) => true
  }

  /** Every call of `t` reported success. */
  predicate AllAccepted(t: seq<Event>) {
    forall e | e in t :: Accepted(e)
  }

  /** One successful i2c_master_* append per chunk, in order. */
  function Appends(chunks: seq<seq<Cmd>>): seq<Event> {
    if chunks == [] then [] else Appends(chunks[..|chunks| - 1]) + [LinkAppend(chunks[|chunks| - 1], true)]
  }

  /** No executor run is recorded in `t`. */
  predicate Quiet(t: seq<Event>) {
    forall e | e in t :: !e.Execute?
  }

  /**
   * `executed` is what the executor answered in `t`: nothing when it never
   * ran, otherwise the answer of every run recorded.
   */
  predicate Answered(t: seq<Event>, executed: Option<ExecResult>) {
    && (Quiet(t) <==> executed.None?)
    && forall e | e in t && e.Execute? :: executed == Some(e.result)
  }

  // ---------------------------------------------------------------------
  // Lemmas

  /** Projection distributes over concatenation. */
  lemma {:induction false} SelectConcat(a: seq<Event>, b: seq<Event>, f: Filter)
    ensures Select(a + b, f) == Select(a, f) + Select(b, f)
    decreases |b|
  {
    if b == [] {
      assert a + b == a;
    } else {
      var b' := b[..|b| - 1];
      assert (a + b)[..|a + b| - 1] == a + b';
      SelectConcat(a, b', f);
    }
  }

  /** What a projection keeps is exactly the kept events of the trace. */
  lemma {:induction false} SelectMembers(t: seq<Event>, f: Filter, e: Event)
    ensures e in Select(t, f) <==> e in t && Keeps(f, e)
  {
    if t != [] {
      var t' := t[..|t| - 1];
      assert t == t' + [t[|t| - 1]];
      SelectMembers(t', f, e);
    }
  }

  /** A trace with no kept event projects to nothing. */
  lemma SelectNone(t: seq<Event>, f: Filter)
    requires forall e | e in t :: !Keeps(f, e)
    ensures Select(t, f) == []
  {
    if Select(t, f) != [] {
      SelectMembers(t, f, Select(t, f)[0]);
    }
  }

  /** Appending one event extends the projection by that event exactly when the filter keeps it. */
  lemma SelectSnoc(t: seq<Event>, e: Event, f: Filter)
    ensures Select(t + [e], f) == Select(t, f) + (if Keeps(f, e) then [e] else [])
  {
    assert (t + [e])[..|t|] == t;
  }

  /** The projection of four calls appended to `t`, one call at a time. */
  lemma SelectFour(t: seq<Event>, a: Event, b: Event, c: Event, d: Event, f: Filter)
    ensures Select(t + [a, b, c, d], f)
         == Select(t, f) + (if Keeps(f, a) then [a] else []) + (if Keeps(f, b) then [b] else [])
            + (if Keeps(f, c) then [c] else []) + (if Keeps(f, d) then [d] else [])
  {
    SelectSnoc(t, a, f);
    SelectSnoc(t + [a], b, f);
    SelectSnoc(t + [a] + [b], c, f);
    SelectSnoc(t + [a] + [b] + [c], d, f);
    assert t + [a] + [b] + [c] + [d] == t + [a, b, c, d];
  }

  /** A caller that owns a lock took it successfully at some point. */
  lemma OwnsHasTake(t: seq<Event>, p: nat)
    ensures Owns(t, p) ==> Take(p, true) in t
  {
    var s := Select(t, LockOps(p));
    if Owns(t, p) {
      SelectMembers(t, LockOps(p), s[|s| - 1]);
    }
  }

  /** A trace that ends with a give of a lock does not own it. */
  lemma GiveEndsOwnership(t: seq<Event>, p: nat, ok: bool)
    ensures !Owns(t + [Give(p, ok)], p)
  {
    SelectSnoc(t, Give(p, ok), LockOps(p));
  }

  /** A trace whose last event is a give of a lock does not own it. */
  lemma LastGiveReleases(t: seq<Event>, p: nat)
    requires t != [] && t[|t| - 1].Give? && t[|t| - 1].port == p
    ensures !Owns(t, p)
  {
    assert t == t[..|t| - 1] + [t[|t| - 1]];
    GiveEndsOwnership(t[..|t| - 1], p, t[|t| - 1].ok);
  }

  /** A trace whose every event the filter keeps projects to itself. */
  lemma {:induction false} SelectAll(t: seq<Event>, f: Filter)
    requires forall e | e in t :: Keeps(f, e)
    ensures Select(t, f) == t
  {
    if t != [] {
      var t' := t[..|t| - 1];
      assert t == t' + [t[|t| - 1]];
      SelectAll(t', f);
    }
  }

  /** The composition record holds one successful append per piece and nothing else. */
  lemma {:induction false} AppendsOnly(chunks: seq<seq<Cmd>>)
    ensures |Appends(chunks)| == |chunks|
    ensures forall e | e in Appends(chunks) :: e.LinkAppend? && e.ok
  {
    if chunks != [] {
      AppendsOnly(chunks[..|chunks| - 1]);
    }
  }

  /** A refused call stays in the record whatever follows it. */
  lemma RefusalKept(a: seq<Event>, b: seq<Event>)
    requires !AllAccepted(a)
    ensures !AllAccepted(a + b)
  {
    var e :| e in a && !Accepted(e);
    assert e in a + b;
  }

  /** Set-up calls of one port, appended to a trace, extend that port's projection and leave the other port's alone. */
  lemma SetUpOfPort(pre: seq<Event>, plog: seq<Event>, port: nat)
    requires port < PORT_COUNT
    requires forall e | e in plog :: Keeps(PortSetup(port), e)
    ensures Select(pre + plog, PortSetup(port)) == Select(pre, PortSetup(port)) + plog
    ensures Select(pre + plog, PortSetup(1 - port)) == Select(pre, PortSetup(1 - port))
  {
    SelectConcat(pre, plog, PortSetup(port));
    SelectConcat(pre, plog, PortSetup(1 - port));
    SelectAll(plog, PortSetup(port));
    SelectNone(plog, PortSetup(1 - port));
  }

  /** Deleting port `q`'s lock, when `d` says so, adds the deletion to port `q`'s projection only. */
  lemma DeleteIf(pre: seq<Event>, d: bool, q: nat, p: nat)
    ensures Select(pre + (if d then [MutexDelete(q)] else []), PortSetup(p))
         == Select(pre, PortSetup(p)) + (if d && p == q then [MutexDelete(q)] else [])
  {
    if d {
      SelectSnoc(pre, MutexDelete(q), PortSetup(p));
    } else {
      assert pre + [] == pre;
    }
  }

  /** Deleting the locks of the marked ports adds each deletion to its own port's projection only. */
  lemma DeletesProjection(pre: seq<Event>, d0: bool, d1: bool)
    ensures var log := (if d0 then [MutexDelete(0)] else []) + (if d1 then [MutexDelete(1)] else []);
      && Select(pre + log, PortSetup(0)) == Select(pre, PortSetup(0)) + (if d0 then [MutexDelete(0)] else [])
      && Select(pre + log, PortSetup(1)) == Select(pre, PortSetup(1)) + (if d1 then [MutexDelete(1)] else [])
  {
    var a, b := (if d0 then [MutexDelete(0)] else []), (if d1 then [MutexDelete(1)] else []);
    AppendAssoc(pre, a, b);
    DeleteIf(pre, d0, 0, 0);
    DeleteIf(pre, d0, 0, 1);
    DeleteIf(pre + a, d1, 1, 0);
    DeleteIf(pre + a, d1, 1, 1);
  }

  /** Calls with no executor run before a stretch leave what it answered unchanged. */
  lemma QuietThen(a: seq<Event>, b: seq<Event>, executed: Option<ExecResult>)
    requires Quiet(a) && Answered(b, executed)
    ensures Answered(a + b, executed)
  {
    if executed.Some? {
      var e :| e in b && e.Execute?;
      assert e in a + b;
    }
  }

  /** Calls with no executor run after a stretch leave what it answered unchanged. */
  lemma AnsweredThen(a: seq<Event>, b: seq<Event>, executed: Option<ExecResult>)
    requires Answered(a, executed) && Quiet(b)
    ensures Answered(a + b, executed)
  {
    if executed.Some? {
      var e :| e in a && e.Execute?;
      assert e in a + b;
    }
  }

  /**
   * Calls with no executor run around one run answer with that run's
   * result, whether or not the calls after it were made.
   */
  lemma RanOnce(pre: seq<Event>, exec: Event, post: seq<Event>)
    requires Quiet(pre) && Quiet(post) && exec.Execute?
    ensures exec in pre + [exec] + post
    ensures Answered(pre + [exec], Some(exec.result))
    ensures Answered(pre + [exec] + post, Some(exec.result))
  {
    assert exec in pre + [exec];
    assert exec in pre + [exec] + post;
  }

  /** Recording a further stretch of calls after a recorded prefix. */
  lemma AppendAssoc(a: seq<Event>, b: seq<Event>, c: seq<Event>)
    ensures a + (b + c) == (a + b) + c
  {
  }
}
