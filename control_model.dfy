/**
 * The control node as a pure state machine: the state it keeps (mode,
 * stored password, two capture buffers, the delay length, unread serial
 * input, the ordered trace of what it does, the EEPROM bus) and one spec
 * function for every operation and every mode handler of CONTROL_ECU/control_main.c.
 * A result of `None` means the node would wait for ever on serial input
 * that never comes, or the string receive would write past a buffer.
 */
module ControlModel {
  import opened SystemModes
  import opened Options
  import opened Uart
  import opened ExternalEeprom

  /** Where the password is kept in the external EEPROM. */
  const EEPROM_PASSWORD_ADDRESS: nat := 0x0320
  /** Timer1 runs at F_CPU / 1024 and matches every 7812 counts. */
  const TIMER_PRESCALER_VALUE: nat := 1024
  const TIMER_TOP_VALUE: nat := 7812

  // ---------------------------------------------------------------------------
  // Trace of actions
  // ---------------------------------------------------------------------------

  datatype Motion = CW | ACW | STOP

  /** What the control node does, in the order it does it. */
  datatype Event =
    | Rotate(motion: Motion)   // DcMotor_Rotate
    | Buzzer(on: bool)         // Buzzer_ON / Buzzer_OFF
    | Delay(seconds: byte)     // delay_sec: the timer runs seconds + 1 periods
    | Sent(b: byte)            // UART_sendByte

  /** The bytes the node has put on the serial link, in order. */
  function SentBytes(trace: seq<Event>): (bytes: seq<byte>)
    ensures |bytes| <= |trace|
  {
    if trace == [] then []
    else
      var last := trace[|trace| - 1];
      SentBytes(trace[..|trace| - 1]) + (if last.Sent? then [last.b] else [])
  }

  /** A byte string as the trace of its sends. */
  function Sends(bytes: seq<byte>): (events: seq<Event>)
    ensures |events| == |bytes|
  {
    seq(|bytes|, j requires 0 <= j < |bytes| => Sent(bytes[j]))
  }

  lemma SentBytesAppend(trace: seq<Event>, more: seq<Event>)
    ensures SentBytes(trace + more) == SentBytes(trace) + SentBytes(more)
    decreases |more|
  {
    if more != [] {
      var init := more[..|more| - 1];
      assert (trace + more)[..|trace + more| - 1] == trace + init;
      SentBytesAppend(trace, init);
    } else {
      assert trace + more == trace;
    }
  }

  /** Sending a string and reading back what was sent gives the string. */
  lemma {:induction false} SentBytesOfSends(bytes: seq<byte>)
    ensures SentBytes(Sends(bytes)) == bytes
    decreases |bytes|
  {
    if bytes != [] {
      var init := bytes[..|bytes| - 1];
      assert Sends(bytes)[..|bytes| - 1] == Sends(init);
      SentBytesOfSends(init);
    }
  }

  // ---------------------------------------------------------------------------
  // Timer callback and delay length
  // ---------------------------------------------------------------------------

  /** The static `tick` counter of Control_Delay_Callback and the `delay_over` flag. */
  datatype Timer = Timer(tick: byte, delayOver: bool)

  /**
   * One compare-match interrupt: when the counter has reached `timerTicks`
   * it restarts at 0 and the delay is over, otherwise it counts up (8 bits).
   */
  function Callback(t: Timer, timerTicks: byte): Timer {
    if t.tick == timerTicks then Timer(0, true)
    else Timer((t.tick + 1) % 0x100, t.delayOver)
  }

  /** The timer after k interrupts, starting from a cleared counter and flag. */
  function AfterCallbacks(timerTicks: byte, k: nat): Timer {
    if k == 0 then Timer(0, false) else Callback(AfterCallbacks(timerTicks, k - 1), timerTicks)
  }

  /** The first n interrupts only count up. */
  lemma {:induction false} CallbacksCount(n: byte, k: nat)
    requires k <= n
    ensures AfterCallbacks(n, k) == Timer(k, false)
  {
    if k > 0 {
      CallbacksCount(n, k - 1);
    }
  }

  /** With `timer_ticks = n` the flag rises at interrupt n + 1, which also clears the counter. */
  lemma DelaySpansPeriods(n: byte)
    ensures forall k :: 0 <= k <= n ==> AfterCallbacks(n, k) == Timer(k, false)
    ensures AfterCallbacks(n, n + 1) == Timer(0, true)
  {
    forall k | 0 <= k <= n
      ensures AfterCallbacks(n, k) == Timer(k, false)
    {
      CallbacksCount(n, k);
    }
  }

  // ---------------------------------------------------------------------------
  // State
  // ---------------------------------------------------------------------------

  /** The globals of control_main.c together with the serial input, the trace and the EEPROM. */
  datatype Ctrl = Ctrl(
    mode: byte,             // HMI_status
    password: seq<byte>,    // g_password
    buffer1: seq<byte>,     // g_pass_buffer1
    buffer2: seq<byte>,     // g_pass_buffer2
    timerTicks: byte,       // timer_ticks
    rx: seq<byte>,          // serial bytes not read yet
    trace: seq<Event>,
    bus: Bus)

  /** The three buffers have PASSWORD_LENGTH slots and the EEPROM its full size. */
  predicate Shaped(c: Ctrl) {
    |c.password| == PASSWORD_LENGTH && |c.buffer1| == PASSWORD_LENGTH && |c.buffer2| == PASSWORD_LENGTH
    && |c.bus.cells| == CELL_COUNT
  }

  /** The state at reset: first boot, zeroed buffers, nothing received or done. */
  function Initial(rx: seq<byte>, cells: seq<byte>): (c: Ctrl)
    requires |cells| == CELL_COUNT
    ensures Shaped(c) && c.mode == MODE_FIRST_BOOT
  {
    var zeros := [0, 0, 0, 0, 0, 0, 0];
    Ctrl(MODE_FIRST_BOOT, zeros, zeros, zeros, 0, rx, [], Bus(cells, 0, []))
  }

  // ---------------------------------------------------------------------------
  // Operations
  // ---------------------------------------------------------------------------

  function Emit(c: Ctrl, e: Event): Ctrl {
    c.(trace := c.trace + [e])
  }

  /** Discard serial input up to and including the next SYNC_HANDSHAKE. */
  function AfterSync(c: Ctrl): Option<Ctrl> {
    var rest :- SkipToSync(c.rx);
    Some(c.(rx := rest))
  }

  /** UART_receiveString into g_pass_buffer1. */
  function Capture1(c: Ctrl): Option<Ctrl> {
    var r := ReceiveUntilEos(c.buffer1, c.rx, 0);
    if r.Received? then Some(c.(buffer1 := r.buffer, rx := r.rest)) else None
  }

  /** UART_receiveString into g_pass_buffer2. */
  function Capture2(c: Ctrl): Option<Ctrl> {
    var r := ReceiveUntilEos(c.buffer2, c.rx, 0);
    if r.Received? then Some(c.(buffer2 := r.buffer, rx := r.rest)) else None
  }

  /** One capture of an authentication round: wait for SYNC_HANDSHAKE, then receive into g_pass_buffer1. */
  function Round(c: Ctrl): (r: Option<Ctrl>)
    ensures r.Some? ==> r.value == c.(buffer1 := r.value.buffer1, rx := r.value.rx) && |r.value.buffer1| == |c.buffer1|
  {
    var c1 :- AfterSync(c);
    Capture1(c1)
  }

  /** Set HMI_status to `mode`, then send `code` and HMI_status. */
  function Reply(c: Ctrl, code: byte, mode: byte): Ctrl {
    var d := c.(mode := mode);
    Emit(Emit(d, Sent(code)), Sent(d.mode))
  }

  /** A reply adds the sends of the code and the mode to the trace. */
  lemma ReplySends(c: Ctrl, code: byte, mode: byte)
    ensures Reply(c, code, mode).trace == c.trace + Sends([code, mode])
  {
    assert Sends([code, mode]) == [Sent(code), Sent(mode)];
  }

  /** pass_compare: the five effective characters agree. */
  predicate Matches(x: seq<byte>, y: seq<byte>)
    requires |x| >= EFFECTIVE_LENGTH && |y| >= EFFECTIVE_LENGTH
  {
    forall i :: 0 <= i < EFFECTIVE_LENGTH ==> x[i] == y[i]
  }

  /** The end-of-string mark and the NUL never take part in a comparison. */
  lemma MatchesIgnoresTail(x: seq<byte>, y: seq<byte>)
    requires |x| >= EFFECTIVE_LENGTH && |y| >= EFFECTIVE_LENGTH
    ensures Matches(x, y) <==> x[..EFFECTIVE_LENGTH] == y[..EFFECTIVE_LENGTH]
  {
    if Matches(x, y) {
      assert forall i :: 0 <= i < EFFECTIVE_LENGTH ==> x[..EFFECTIVE_LENGTH][i] == y[..EFFECTIVE_LENGTH][i];
    } else {
      var i :| 0 <= i < EFFECTIVE_LENGTH && x[i] != y[i];
      assert x[..EFFECTIVE_LENGTH][i] != y[..EFFECTIVE_LENGTH][i];
    }
  }

  /**
   * delay_sec(seconds): timer_ticks is loaded with the rounded number of
   * timer periods in `seconds`, which is `seconds` itself (ControlMain.TimerTicks),
   * and the wait is recorded.
   */
  function Delayed(c: Ctrl, seconds: byte): Ctrl {
    c.(timerTicks := seconds, trace := c.trace + [Delay(seconds)])
  }

  /**
   * set_password(src): the first five slots of g_password take src's, the
   * other two keep theirs, and the five bytes are written to the EEPROM at
   * EEPROM_PASSWORD_ADDRESS; the status of that write is not looked at.
   */
  function SetPasswordSpec(status: nat -> byte, c: Ctrl, src: seq<byte>): (d: Ctrl)
    requires Shaped(c) && |src| >= EFFECTIVE_LENGTH
    ensures Shaped(d)
  {
    var pw := src[..EFFECTIVE_LENGTH] + c.password[EFFECTIVE_LENGTH..];
    c.(password := pw, bus := WriteStringFrom(status, c.bus, EEPROM_PASSWORD_ADDRESS, pw[..EFFECTIVE_LENGTH], 0).0)
  }

  /**
   * confirmPasswordAttempts(target) from round i on: each round waits for
   * SYNC_HANDSHAKE and captures a password; a match sets the mode to
   * `target`, replies SUCCESS and the mode and ends with `true`; a miss
   * before the last round sets LOCKED and replies ERROR and the mode. After
   * the last miss the mode is ALARM, the reply ERROR and ALARM, and the
   * result `false`.
   */
  function ConfirmFrom(c: Ctrl, target: byte, i: nat): Option<(Ctrl, bool)>
    requires Shaped(c)
    decreases MAX_PASSWORD_TRIES - i
  {
    if i >= MAX_PASSWORD_TRIES then
      Some((Reply(c, ERROR, MODE_ALARM_MODE), false))
    else
      var c1 :- Round(c);
      if Matches(c1.buffer1, c1.password) then
        Some((Reply(c1, SUCCESS, target), true))
      else if i < MAX_PASSWORD_TRIES - 1 then
        ConfirmFrom(Reply(c1, ERROR, MODE_NORMAL_BOOT_LOCKED), target, i + 1)
      else
        ConfirmFrom(c1, target, i + 1)
  }

  /** The door cycle after an accepted open request. */
  function DoorCycle(c: Ctrl): Ctrl {
    var open := Delayed(Emit(c, Rotate(CW)), 15);
    var held := Delayed(Emit(open, Rotate(STOP)), 3);
    var closing := Delayed(Emit(Emit(held, Sent(SYNC_HANDSHAKE)), Rotate(ACW)), 15);
    Emit(Emit(closing, Rotate(STOP)), Sent(SYNC_HANDSHAKE))
  }

  /** The two sync-prefixed captures of first boot, into g_pass_buffer1 and g_pass_buffer2. */
  function Captures(c: Ctrl): (r: Option<Ctrl>)
    ensures r.Some? ==>
      r.value == c.(buffer1 := r.value.buffer1, buffer2 := r.value.buffer2, rx := r.value.rx)
      && |r.value.buffer1| == |c.buffer1| && |r.value.buffer2| == |c.buffer2|
  {
    var c1 :- AfterSync(c);
    var c2 :- Capture1(c1);
    var c3 :- AfterSync(c2);
    Capture2(c3)
  }

  /** The MODE_FIRST_BOOT case of the super-loop. */
  function FirstBootSpec(status: nat -> byte, c: Ctrl): Option<Ctrl>
    requires Shaped(c)
  {
    var c4 :- Captures(c);
    if Matches(c4.buffer1, c4.buffer2) then
      var d := Emit(Emit(c4, Sent(SYNC_HANDSHAKE)), Sent(SUCCESS)).(mode := MODE_NORMAL_BOOT_MAIN);
      Some(SetPasswordSpec(status, d, d.buffer1))
    else
      Some(Emit(Emit(c4, Sent(SYNC_HANDSHAKE)), Sent(ERROR)))
  }

  /** The MODE_NORMAL_BOOT_LOCKED case: authenticate towards the main menu. */
  function LockedSpec(c: Ctrl): Option<Ctrl>
    requires Shaped(c)
  {
    var v :- ConfirmFrom(c, MODE_NORMAL_BOOT_MAIN, 0);
    Some(v.0)
  }

  /**
   * The MODE_NORMAL_BOOT_MAIN case: after SYNC_HANDSHAKE one request byte;
   * OPEN_DOOR_REQUEST authenticates towards the main menu and runs the door
   * cycle on success, every other byte authenticates towards first boot.
   */
  function MainSpec(c: Ctrl): Option<Ctrl>
    requires Shaped(c)
  {
    var c1 :- AfterSync(c);
    if c1.rx == [] then None
    else
      var c2 := c1.(rx := c1.rx[1..]);
      if c1.rx[0] == OPEN_DOOR_REQUEST then
        var v :- ConfirmFrom(c2, MODE_NORMAL_BOOT_MAIN, 0);
        Some(if v.1 then DoorCycle(v.0) else v.0)
      else
        var v :- ConfirmFrom(c2, MODE_FIRST_BOOT, 0);
        Some(v.0)
  }

  /** The MODE_ALARM_MODE case: sound the buzzer for 60 s, go back to the main menu and say so. */
  function AlarmSpec(c: Ctrl): Ctrl {
    var sounded := Emit(Delayed(Emit(c, Buzzer(true)), 60), Buzzer(false));
    var d := sounded.(mode := MODE_NORMAL_BOOT_MAIN);
    Emit(Emit(d, Sent(SYNC_HANDSHAKE)), Sent(d.mode))
  }

  /** One pass of the super-loop: the case for the current mode; other values match no case. */
  function Step(status: nat -> byte, c: Ctrl): Option<Ctrl>
    requires Shaped(c)
  {
    if c.mode == MODE_FIRST_BOOT then FirstBootSpec(status, c)
    else if c.mode == MODE_NORMAL_BOOT_LOCKED then LockedSpec(c)
    else if c.mode == MODE_NORMAL_BOOT_MAIN then MainSpec(c)
    else if c.mode == MODE_ALARM_MODE then Some(AlarmSpec(c))
    else Some(c)
  }

  // ---------------------------------------------------------------------------
  // Properties
  // ---------------------------------------------------------------------------

  /** `n` ERROR, LOCKED reply pairs. */
  function LockedPairs(n: nat): seq<byte> {
    if n == 0 then [] else [ERROR, MODE_NORMAL_BOOT_LOCKED] + LockedPairs(n - 1)
  }

  lemma SendsAppend(a: seq<byte>, b: seq<byte>)
    ensures Sends(a + b) == Sends(a) + Sends(b)
  {
    assert forall j :: 0 <= j < |a + b| ==> Sends(a + b)[j] == (Sends(a) + Sends(b))[j];
  }

  /** A trace without sends puts nothing on the link. */
  lemma {:induction false} QuietTrace(t: seq<Event>)
    requires forall j :: 0 <= j < |t| ==> !t[j].Sent?
    ensures SentBytes(t) == []
    decreases |t|
  {
    if t != [] {
      QuietTrace(t[..|t| - 1]);
    }
  }

  /** Appending sends to a trace appends their bytes to what was sent. */
  lemma SentBytesOfReply(t: seq<Event>, bytes: seq<byte>)
    ensures SentBytes(t + Sends(bytes)) == SentBytes(t) + bytes
  {
    SentBytesAppend(t, Sends(bytes));
    SentBytesOfSends(bytes);
  }

  /** `d` has the password, the second capture, the EEPROM and the delay length of `c`. */
  predicate Keeps(c: Ctrl, d: Ctrl) {
    d.password == c.password && |d.buffer1| == |c.buffer1| && d.buffer2 == c.buffer2
    && d.bus == c.bus && d.timerTicks == c.timerTicks
  }

  /** A round that captures a matching password ends the authentication. */
  lemma ConfirmMatchStep(c: Ctrl, target: byte, i: nat)
    requires Shaped(c) && i < MAX_PASSWORD_TRIES && Round(c).Some?
    requires Matches(Round(c).value.buffer1, Round(c).value.password)
    ensures ConfirmFrom(c, target, i) == Some((Reply(Round(c).value, SUCCESS, target), true))
  {
  }

  /** A round that blocks blocks the whole authentication. */
  lemma ConfirmBlocked(c: Ctrl, target: byte, i: nat)
    requires Shaped(c) && i < MAX_PASSWORD_TRIES && Round(c).None?
    ensures ConfirmFrom(c, target, i).None?
  {
  }

  /** Once the rounds are used up the authentication raises the alarm. */
  lemma ConfirmExhausted(c: Ctrl, target: byte, i: nat)
    requires Shaped(c) && i >= MAX_PASSWORD_TRIES
    ensures ConfirmFrom(c, target, i) == Some((Reply(c, ERROR, MODE_ALARM_MODE), false))
  {
  }

  /** A round before the last that captures a wrong password replies LOCKED and goes on. */
  lemma ConfirmMissStep(c: Ctrl, target: byte, i: nat)
    requires Shaped(c) && i < MAX_PASSWORD_TRIES - 1 && Round(c).Some?
    requires !Matches(Round(c).value.buffer1, Round(c).value.password)
    ensures ConfirmFrom(c, target, i) == ConfirmFrom(Reply(Round(c).value, ERROR, MODE_NORMAL_BOOT_LOCKED), target, i + 1)
  {
  }

  /** A last round that captures a wrong password raises the alarm. */
  lemma ConfirmLastMiss(c: Ctrl, target: byte)
    requires Shaped(c) && Round(c).Some?
    requires !Matches(Round(c).value.buffer1, Round(c).value.password)
    ensures ConfirmFrom(c, target, MAX_PASSWORD_TRIES - 1) == Some((Reply(Round(c).value, ERROR, MODE_ALARM_MODE), false))
  {
  }

  /**
   * An authentication leaves g_password, g_pass_buffer2, the EEPROM and the
   * delay length alone; it ends in the target mode when it reports a match
   * and in ALARM otherwise.
   */
  lemma {:induction false} ConfirmKeeps(c: Ctrl, target: byte, i: nat)
    requires Shaped(c)
    ensures var r := ConfirmFrom(c, target, i);
      r.Some? ==> Keeps(c, r.value.0) && r.value.0.mode == (if r.value.1 then target else MODE_ALARM_MODE)
    decreases MAX_PASSWORD_TRIES - i, 1
  {
    var r := ConfirmFrom(c, target, i);
    if i >= MAX_PASSWORD_TRIES {
      assert r == Some((Reply(c, ERROR, MODE_ALARM_MODE), false)) by {
        ConfirmExhausted(c, target, i);
      }
    } else if Round(c).None? {
      assert r.None? by {
        ConfirmBlocked(c, target, i);
      }
    } else if Matches(Round(c).value.buffer1, Round(c).value.password) {
      assert r == Some((Reply(Round(c).value, SUCCESS, target), true)) by {
        ConfirmMatchStep(c, target, i);
      }
    } else if i < MAX_PASSWORD_TRIES - 1 {
      var c2 := Reply(Round(c).value, ERROR, MODE_NORMAL_BOOT_LOCKED);
      assert r == ConfirmFrom(c2, target, i + 1) by {
        ConfirmMissStep(c, target, i);
      }
      assert Keeps(c, c2);
      ConfirmMissKeeps(c, c2, target, i);
    } else {
      assert r == Some((Reply(Round(c).value, ERROR, MODE_ALARM_MODE), false)) by {
        ConfirmLastMiss(c, target);
      }
    }
  }

  /** The case of ConfirmKeeps where a round before the last one misses and c2 is the state after its reply. */
  lemma {:induction false} ConfirmMissKeeps(c: Ctrl, c2: Ctrl, target: byte, i: nat)
    requires Shaped(c2) && Keeps(c, c2) && i < MAX_PASSWORD_TRIES - 1
    ensures var r := ConfirmFrom(c2, target, i + 1);
      r.Some? ==> Keeps(c, r.value.0) && r.value.0.mode == (if r.value.1 then target else MODE_ALARM_MODE)
    decreases MAX_PASSWORD_TRIES - i, 0
  {
    ConfirmKeeps(c2, target, i + 1);
  }

  /** One more ERROR, LOCKED pair in front of a reply. */
  lemma PairThen(t: seq<Event>, k: nat, last: seq<byte>)
    ensures t + Sends([ERROR, MODE_NORMAL_BOOT_LOCKED]) + Sends(LockedPairs(k) + last) == t + Sends(LockedPairs(k + 1) + last)
  {
    assert LockedPairs(k + 1) + last == [ERROR, MODE_NORMAL_BOOT_LOCKED] + (LockedPairs(k) + last);
    SendsAppend([ERROR, MODE_NORMAL_BOOT_LOCKED], LockedPairs(k) + last);
  }

  /**
   * The replies of an authentication that succeeds, from round i on: k
   * ERROR, LOCKED pairs, one for each failed round, then SUCCESS and the
   * target mode.
   */
  lemma {:induction false} ConfirmSuccessReplies(c: Ctrl, target: byte, i: nat)
    requires Shaped(c)
    requires ConfirmFrom(c, target, i).Some? && ConfirmFrom(c, target, i).value.1
    ensures exists k :: (0 <= k < MAX_PASSWORD_TRIES - i
      && ConfirmFrom(c, target, i).value.0.trace == c.trace + Sends(LockedPairs(k) + [SUCCESS, target]))
    decreases MAX_PASSWORD_TRIES - i, 1
  {
    var r := ConfirmFrom(c, target, i);
    var c1 := Round(c).value;
    assert c1.trace == c.trace;
    if Matches(c1.buffer1, c1.password) {
      assert r == Some((Reply(c1, SUCCESS, target), true)) by {
        ConfirmMatchStep(c, target, i);
      }
      assert r.value.0.trace == c.trace + Sends(LockedPairs(0) + [SUCCESS, target]) by {
        ReplySends(c1, SUCCESS, target);
        assert LockedPairs(0) + [SUCCESS, target] == [SUCCESS, target];
      }
    } else if i < MAX_PASSWORD_TRIES - 1 {
      var c2 := Reply(c1, ERROR, MODE_NORMAL_BOOT_LOCKED);
      assert r == ConfirmFrom(c2, target, i + 1) by {
        ConfirmMissStep(c, target, i);
      }
      ReplySends(c1, ERROR, MODE_NORMAL_BOOT_LOCKED);
      ConfirmSuccessAfterMiss(c, c2, r.value.0, target, i);
    } else {
      ConfirmLastMiss(c, target);
      assert false;
    }
  }

  /** The case of ConfirmSuccessReplies where a round before the last one misses, c2 is the state after its reply and v the final state. */
  lemma {:induction false} ConfirmSuccessAfterMiss(c: Ctrl, c2: Ctrl, v: Ctrl, target: byte, i: nat)
    requires Shaped(c2) && i < MAX_PASSWORD_TRIES - 1
    requires c2.trace == c.trace + Sends([ERROR, MODE_NORMAL_BOOT_LOCKED])
    requires ConfirmFrom(c2, target, i + 1) == Some((v, true))
    ensures exists k :: 0 <= k < MAX_PASSWORD_TRIES - i && v.trace == c.trace + Sends(LockedPairs(k) + [SUCCESS, target])
    decreases MAX_PASSWORD_TRIES - i, 0
  {
    ConfirmSuccessReplies(c2, target, i + 1);
    PairsThenSuccess(c.trace, c2.trace, v.trace, target, MAX_PASSWORD_TRIES - (i + 1));
  }

  /** A trace that is one ERROR, LOCKED pair past t0 and then k pairs and SUCCESS is k + 1 pairs past t0. */
  lemma PairsThenSuccess(t0: seq<Event>, t2: seq<Event>, final: seq<Event>, target: byte, n: nat)
    requires t2 == t0 + Sends([ERROR, MODE_NORMAL_BOOT_LOCKED])
    requires exists k :: 0 <= k < n && final == t2 + Sends(LockedPairs(k) + [SUCCESS, target])
    ensures exists k :: 0 <= k < n + 1 && final == t0 + Sends(LockedPairs(k) + [SUCCESS, target])
  {
    var k :| 0 <= k < n && final == t2 + Sends(LockedPairs(k) + [SUCCESS, target]);
    PairThen(t0, k, [SUCCESS, target]);
    assert final == t0 + Sends(LockedPairs(k + 1) + [SUCCESS, target]);
  }

  /**
   * The replies of an authentication that fails, from round i on: an
   * ERROR, LOCKED pair for each round before the last, then ERROR and ALARM;
   * the last miss sends no pair of its own.
   */
  lemma {:induction false} ConfirmAlarmReplies(c: Ctrl, target: byte, i: nat)
    requires Shaped(c) && i < MAX_PASSWORD_TRIES
    requires ConfirmFrom(c, target, i).Some? && !ConfirmFrom(c, target, i).value.1
    ensures ConfirmFrom(c, target, i).value.0.trace
      == c.trace + Sends(LockedPairs(MAX_PASSWORD_TRIES - 1 - i) + [ERROR, MODE_ALARM_MODE])
    decreases MAX_PASSWORD_TRIES - i, 1
  {
    var r := ConfirmFrom(c, target, i);
    var c1 := Round(c).value;
    assert c1.trace == c.trace;
    if Matches(c1.buffer1, c1.password) {
      ConfirmMatchStep(c, target, i);
      assert false;
    }
    if i < MAX_PASSWORD_TRIES - 1 {
      var c2 := Reply(c1, ERROR, MODE_NORMAL_BOOT_LOCKED);
      assert r == ConfirmFrom(c2, target, i + 1) by {
        ConfirmMissStep(c, target, i);
      }
      ReplySends(c1, ERROR, MODE_NORMAL_BOOT_LOCKED);
      ConfirmAlarmAfterMiss(c, c2, r.value.0, target, i);
    } else {
      assert r == Some((Reply(c1, ERROR, MODE_ALARM_MODE), false)) by {
        ConfirmLastMiss(c, target);
      }
      ReplySends(c1, ERROR, MODE_ALARM_MODE);
      assert LockedPairs(0) + [ERROR, MODE_ALARM_MODE] == [ERROR, MODE_ALARM_MODE];
    }
  }

  /** The case of ConfirmAlarmReplies where a round before the last one misses, c2 is the state after its reply and v the final state. */
  lemma {:induction false} ConfirmAlarmAfterMiss(c: Ctrl, c2: Ctrl, v: Ctrl, target: byte, i: nat)
    requires Shaped(c2) && i < MAX_PASSWORD_TRIES - 1
    requires c2.trace == c.trace + Sends([ERROR, MODE_NORMAL_BOOT_LOCKED])
    requires ConfirmFrom(c2, target, i + 1) == Some((v, false))
    ensures v.trace == c.trace + Sends(LockedPairs(MAX_PASSWORD_TRIES - 1 - i) + [ERROR, MODE_ALARM_MODE])
    decreases MAX_PASSWORD_TRIES - i, 0
  {
    ConfirmAlarmReplies(c2, target, i + 1);
    PairsThenAlarm(c.trace, c2.trace, v.trace, MAX_PASSWORD_TRIES - 2 - i);
  }

  /** A trace that is one ERROR, LOCKED pair past t0 and then n pairs and the alarm reply is n + 1 pairs past t0. */
  lemma PairsThenAlarm(t0: seq<Event>, t2: seq<Event>, final: seq<Event>, n: nat)
    requires t2 == t0 + Sends([ERROR, MODE_NORMAL_BOOT_LOCKED])
    requires final == t2 + Sends(LockedPairs(n) + [ERROR, MODE_ALARM_MODE])
    ensures final == t0 + Sends(LockedPairs(n + 1) + [ERROR, MODE_ALARM_MODE])
  {
    PairThen(t0, n, [ERROR, MODE_ALARM_MODE]);
  }

  /** No authentication reply contains SYNC_HANDSHAKE when the target is a mode. */
  lemma {:induction false} LockedPairsHaveNoSync(n: nat)
    ensures SYNC_HANDSHAKE !in LockedPairs(n)
  {
    if n > 0 {
      LockedPairsHaveNoSync(n - 1);
    }
  }

  /**
   * The door cycle: motor clockwise for 15 s, stop for 3 s, SYNC_HANDSHAKE,
   * motor anticlockwise for 15 s, stop, SYNC_HANDSHAKE; exactly two bytes
   * are sent and nothing but the trace and the delay length changes.
   */
  lemma DoorCycleTrace(c: Ctrl)
    ensures DoorCycle(c).trace == c.trace + [Rotate(CW), Delay(15), Rotate(STOP), Delay(3),
      Sent(SYNC_HANDSHAKE), Rotate(ACW), Delay(15), Rotate(STOP), Sent(SYNC_HANDSHAKE)]
    ensures DoorCycle(c) == c.(timerTicks := 15, trace := DoorCycle(c).trace)
  {
  }

  /** The door cycle sends exactly two bytes, both SYNC_HANDSHAKE. */
  lemma DoorCycleSends(c: Ctrl)
    ensures SentBytes(DoorCycle(c).trace) == SentBytes(c.trace) + [SYNC_HANDSHAKE, SYNC_HANDSHAKE]
  {
    var opening := [Rotate(CW), Delay(15), Rotate(STOP), Delay(3)];
    var closing := [Rotate(ACW), Delay(15), Rotate(STOP)];
    var sync := Sends([SYNC_HANDSHAKE]);
    assert sync == [Sent(SYNC_HANDSHAKE)];
    assert DoorCycle(c).trace == c.trace + opening + sync + closing + sync by {
      DoorCycleTrace(c);
    }
    QuietTrace(opening);
    QuietTrace(closing);
    SentBytesAppend(c.trace, opening);
    SentBytesOfReply(c.trace + opening, [SYNC_HANDSHAKE]);
    SentBytesAppend(c.trace + opening + sync, closing);
    SentBytesOfReply(c.trace + opening + sync + closing, [SYNC_HANDSHAKE]);
  }

  /** The alarm: buzzer on for 60 s, buzzer off, mode MAIN, then SYNC_HANDSHAKE and the mode are sent. */
  lemma AlarmTrace(c: Ctrl)
    ensures AlarmSpec(c).trace == c.trace + [Buzzer(true), Delay(60), Buzzer(false),
      Sent(SYNC_HANDSHAKE), Sent(MODE_NORMAL_BOOT_MAIN)]
    ensures AlarmSpec(c) == c.(mode := MODE_NORMAL_BOOT_MAIN, timerTicks := 60, trace := AlarmSpec(c).trace)
    ensures SentBytes(AlarmSpec(c).trace) == SentBytes(c.trace) + [SYNC_HANDSHAKE, MODE_NORMAL_BOOT_MAIN]
  {
    var sounding := [Buzzer(true), Delay(60), Buzzer(false)];
    QuietTrace(sounding);
    SentBytesAppend(c.trace, sounding);
    SentBytesOfReply(c.trace + sounding, [SYNC_HANDSHAKE, MODE_NORMAL_BOOT_MAIN]);
    assert Sends([SYNC_HANDSHAKE, MODE_NORMAL_BOOT_MAIN]) == [Sent(SYNC_HANDSHAKE), Sent(MODE_NORMAL_BOOT_MAIN)];
    assert AlarmSpec(c).trace == c.trace + sounding + Sends([SYNC_HANDSHAKE, MODE_NORMAL_BOOT_MAIN]);
  }

  /**
   * set_password stores the first five bytes of `src` in g_password, keeps
   * g_password's last two slots, and leaves the EEPROM holding some prefix
   * of those five bytes at EEPROM_PASSWORD_ADDRESS, all five when every
   * write of the string succeeds. Nothing else changes.
   */
  lemma SetPasswordStores(status: nat -> byte, c: Ctrl, src: seq<byte>)
    requires Shaped(c) && |src| >= EFFECTIVE_LENGTH
    ensures var d := SetPasswordSpec(status, c, src);
      d == c.(password := d.password, bus := d.bus)
      && d.password == src[..EFFECTIVE_LENGTH] + c.password[EFFECTIVE_LENGTH..]
      && (exists n :: 0 <= n <= EFFECTIVE_LENGTH && d.bus.cells == Committed(c.bus.cells, EEPROM_PASSWORD_ADDRESS, src[..n]))
    ensures var w := WriteStringFrom(status, c.bus, EEPROM_PASSWORD_ADDRESS, src[..EFFECTIVE_LENGTH], 0);
      w.1 == SUCCESS ==> SetPasswordSpec(status, c, src).bus.cells == Committed(c.bus.cells, EEPROM_PASSWORD_ADDRESS, src[..EFFECTIVE_LENGTH])
  {
    var pw := src[..EFFECTIVE_LENGTH] + c.password[EFFECTIVE_LENGTH..];
    var data := src[..EFFECTIVE_LENGTH];
    assert pw[..EFFECTIVE_LENGTH] == data;
    assert c.bus.cells == Committed(c.bus.cells, EEPROM_PASSWORD_ADDRESS, data[..0]);
    WriteStringPrefix(status, c.bus, EEPROM_PASSWORD_ADDRESS, data, 0, c.bus.cells);
    var n :| 0 <= n <= EFFECTIVE_LENGTH
      && WriteStringFrom(status, c.bus, EEPROM_PASSWORD_ADDRESS, data, 0).0.cells == Committed(c.bus.cells, EEPROM_PASSWORD_ADDRESS, data[..n]);
    assert data[..n] == src[..n];
    assert data[..EFFECTIVE_LENGTH] == data;
  }

  /** First boot with matching captures: SYNC_HANDSHAKE, SUCCESS, mode MAIN, then set_password of the first capture. */
  lemma FirstBootMatchStep(status: nat -> byte, c: Ctrl)
    requires Shaped(c) && Captures(c).Some?
    requires Matches(Captures(c).value.buffer1, Captures(c).value.buffer2)
    ensures var d := Emit(Emit(Captures(c).value, Sent(SYNC_HANDSHAKE)), Sent(SUCCESS)).(mode := MODE_NORMAL_BOOT_MAIN);
      FirstBootSpec(status, c) == Some(SetPasswordSpec(status, d, d.buffer1))
  {
  }

  /** First boot with differing captures: SYNC_HANDSHAKE, ERROR and nothing else. */
  lemma FirstBootMissStep(status: nat -> byte, c: Ctrl)
    requires Shaped(c) && Captures(c).Some?
    requires !Matches(Captures(c).value.buffer1, Captures(c).value.buffer2)
    ensures FirstBootSpec(status, c) == Some(Emit(Emit(Captures(c).value, Sent(SYNC_HANDSHAKE)), Sent(ERROR)))
  {
  }

  /**
   * First boot: two captures, then SYNC_HANDSHAKE and the verdict. On a match
   * the mode becomes MAIN, and g_password and the EEPROM are set from the
   * first capture as SetPasswordStores states. On a mismatch the mode,
   * g_password and the EEPROM stay.
   */
  lemma FirstBootOutcome(status: nat -> byte, c: Ctrl)
    requires Shaped(c) && c.mode == MODE_FIRST_BOOT
    ensures var r := FirstBootSpec(status, c);
      r.Some? ==>
        var d := r.value;
        Shaped(d) && d.timerTicks == c.timerTicks
        && (Matches(d.buffer1, d.buffer2) <==> d.mode == MODE_NORMAL_BOOT_MAIN)
        && (Matches(d.buffer1, d.buffer2) ==>
              d.trace == c.trace + [Sent(SYNC_HANDSHAKE), Sent(SUCCESS)]
              && d.password == d.buffer1[..EFFECTIVE_LENGTH] + c.password[EFFECTIVE_LENGTH..]
              && exists n :: 0 <= n <= EFFECTIVE_LENGTH && d.bus.cells == Committed(c.bus.cells, EEPROM_PASSWORD_ADDRESS, d.buffer1[..n]))
        && (!Matches(d.buffer1, d.buffer2) ==>
              d.trace == c.trace + [Sent(SYNC_HANDSHAKE), Sent(ERROR)]
              && d.mode == c.mode && d.password == c.password && d.bus == c.bus)
  {
    var r := FirstBootSpec(status, c);
    if r.Some? {
      var c4 := Captures(c).value;
      if Matches(c4.buffer1, c4.buffer2) {
        var d := Emit(Emit(c4, Sent(SYNC_HANDSHAKE)), Sent(SUCCESS)).(mode := MODE_NORMAL_BOOT_MAIN);
        assert r == Some(SetPasswordSpec(status, d, d.buffer1)) by {
          FirstBootMatchStep(status, c);
        }
        SetPasswordStores(status, d, d.buffer1);
      } else {
        FirstBootMissStep(status, c);
      }
    }
  }

  /**
   * LOCKED is never the mode at the top of the super-loop: from a mode code,
   * a pass ends in FIRST_BOOT, MAIN or ALARM.
   */
  lemma StepLeavesLocked(status: nat -> byte, c: Ctrl)
    requires Shaped(c) && IsMode(c.mode)
    ensures var r := Step(status, c);
      r.Some? ==> Shaped(r.value) && IsMode(r.value.mode) && r.value.mode != MODE_NORMAL_BOOT_LOCKED
  {
    if c.mode == MODE_FIRST_BOOT {
      FirstBootOutcome(status, c);
    } else if c.mode == MODE_NORMAL_BOOT_LOCKED {
      ConfirmKeeps(c, MODE_NORMAL_BOOT_MAIN, 0);
    } else if c.mode == MODE_NORMAL_BOOT_MAIN {
      var r := MainSpec(c);
      if r.Some? {
        var c1 := AfterSync(c).value;
        var c2 := c1.(rx := c1.rx[1..]);
        if c1.rx[0] == OPEN_DOOR_REQUEST {
          ConfirmKeeps(c2, MODE_NORMAL_BOOT_MAIN, 0);
          DoorCycleTrace(ConfirmFrom(c2, MODE_NORMAL_BOOT_MAIN, 0).value.0);
        } else {
          ConfirmKeeps(c2, MODE_FIRST_BOOT, 0);
        }
      }
    } else {
      AlarmTrace(c);
    }
  }
}
