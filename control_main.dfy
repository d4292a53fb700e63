/**
 * The control node of CONTROL_ECU/control_main.c as a class: its globals are
 * fields, its three password buffers arrays, and every function and mode
 * case a method proved against the spec functions of ControlModel. The
 * serial link is a Port, the EEPROM an EepromBus, and the motor, the buzzer,
 * the delays and the bytes sent are recorded in order in `trace`.
 */
module ControlMain {
  import opened SystemModes
  import opened Options
  import opened Uart
  import opened ExternalEeprom
  import opened ControlModel

  /**
   * pass_compare: TRUE exactly when the two buffers agree on their first
   * PASSWORD_LENGTH - 2 slots; the end-of-string mark and the NUL are not read.
   */
  method PassCompare(a: array<byte>, b: array<byte>) returns (eq: bool)
    requires a.Length >= EFFECTIVE_LENGTH && b.Length >= EFFECTIVE_LENGTH
    ensures eq <==> Matches(a[..], b[..])
  {
    for i := 0 to EFFECTIVE_LENGTH
      invariant forall j :: 0 <= j < i ==> a[j] == b[j]
    {
      if a[i] != b[i] {
        return false;
      }
    }
    return true;
  }

  /**
   * The number of timer periods delay_sec asks for:
   * `round(seconds / ((1024 / F_CPU) * 7812))`, computed exactly rather than
   * in floating point, rounding halves up. A period is 7999488 / 8000000 s,
   * so for every uint8 the rounding gives back the number of seconds.
   */
  method TimerTicks(seconds: byte) returns (ticks: nat)
    ensures ticks == seconds
  {
    var period := TIMER_PRESCALER_VALUE * TIMER_TOP_VALUE;
    var n := 2 * seconds * F_CPU + period;
    assert period == 7999488 && n == 15998976 * seconds + (1024 * seconds + 7999488);
    ticks := n / (2 * period);
  }

  class ControlNode {
    /** HMI_status: the mode the node believes both nodes are in. */
    var mode: byte
    /** timer_ticks: the compare matches a delay waits for, less one. */
    var timerTicks: byte
    /** The static `tick` counter of Control_Delay_Callback. */
    var tick: byte
    /** delay_over: set by the callback when the delay has run. */
    var delayOver: bool
    /** Motor, buzzer, delay and send actions, in order. */
    var trace: seq<Event>
    const password: array<byte>   // g_password
    const buffer1: array<byte>    // g_pass_buffer1
    const buffer2: array<byte>    // g_pass_buffer2
    const port: Port
    const eeprom: EepromBus

    /**
     * The buffers are distinct and PASSWORD_LENGTH long, the timer is idle
     * between delays, and the port has sent exactly the sends in the trace.
     */
    ghost predicate Valid()
      reads this, port, eeprom
    {
      password.Length == PASSWORD_LENGTH && buffer1.Length == PASSWORD_LENGTH && buffer2.Length == PASSWORD_LENGTH
      && password != buffer1 && password != buffer2 && buffer1 != buffer2
      && eeprom.Valid()
      && tick == 0 && !delayOver
      && port.tx == SentBytes(trace)
    }

    /** The node's state as a value of the pure model. */
    function Model(): Ctrl
      reads this, port, eeprom, password, buffer1, buffer2
    {
      Ctrl(mode, password[..], buffer1[..], buffer2[..], timerTicks, port.rx, trace, eeprom.Snapshot())
    }

    /** Reset: zeroed buffers, first-boot mode, the timer stopped. */
    constructor (script: seq<byte>, contents: seq<byte>, statuses: nat -> byte)
      requires |contents| == CELL_COUNT
      ensures Valid() && Model() == Initial(script, contents) && eeprom.status == statuses
      ensures fresh(port) && fresh(eeprom) && fresh(password) && fresh(buffer1) && fresh(buffer2)
    {
      mode, timerTicks, tick, delayOver, trace := MODE_FIRST_BOOT, 0, 0, false, [];
      password := new byte[PASSWORD_LENGTH](_ => 0);
      buffer1 := new byte[PASSWORD_LENGTH](_ => 0);
      buffer2 := new byte[PASSWORD_LENGTH](_ => 0);
      port := new Port(script);
      eeprom := new EepromBus(contents, statuses);
    }

    // -------------------------------------------------------------------------
    // Timer
    // -------------------------------------------------------------------------

    /** Control_Delay_Callback: one compare-match interrupt of Timer1. */
    method OnTimerTick()
      modifies this
      ensures Timer(tick, delayOver) == Callback(old(Timer(tick, delayOver)), timerTicks)
      ensures mode == old(mode) && timerTicks == old(timerTicks) && trace == old(trace)
    {
      if tick == timerTicks {
        tick := 0;
        delayOver := true;
      } else {
        tick := (tick + 1) % 0x100;
      }
    }

    /**
     * The busy wait of delay_sec: the timer runs from an idle counter until
     * the callback raises delay_over, which takes timer_ticks + 1 compare
     * matches and leaves the counter at zero.
     */
    method AwaitDelayOver() returns (periods: nat)
      requires tick == 0 && !delayOver
      modifies this
      ensures delayOver && tick == 0 && periods == timerTicks + 1
      ensures mode == old(mode) && timerTicks == old(timerTicks) && trace == old(trace)
    {
      periods := 0;
      while !delayOver
        invariant periods <= timerTicks + 1
        invariant Timer(tick, delayOver) == AfterCallbacks(timerTicks, periods)
        invariant delayOver <==> periods == timerTicks + 1
        invariant mode == old(mode) && timerTicks == old(timerTicks) && trace == old(trace)
        decreases timerTicks + 1 - periods
      {
        CallbacksCount(timerTicks, periods);
        OnTimerTick();
        periods := periods + 1;
      }
      CallbacksCount(timerTicks, timerTicks);
    }

    /**
     * delay_sec: load timer_ticks, let the timer run until the callback
     * raises delay_over, then stop it and clear the flag. The wait lasts
     * seconds + 1 compare matches.
     */
    method DelaySec(seconds: byte) returns (periods: nat)
      requires Valid()
      modifies this
      ensures Valid()
      ensures Model() == Delayed(old(Model()), seconds)
      ensures periods == seconds + 1
    {
      var ticks := TimerTicks(seconds);
      timerTicks := ticks;
      periods := AwaitDelayOver();
      delayOver := false;
      trace := trace + [Delay(seconds)];
      SentBytesAppend(old(trace), [Delay(seconds)]);
    }

    // -------------------------------------------------------------------------
    // Peripherals
    // -------------------------------------------------------------------------

    /** UART_sendByte, recorded in the trace. */
    method Send(b: byte)
      requires Valid()
      modifies this, port
      ensures Valid()
      ensures Model() == Emit(old(Model()), Sent(b))
    {
      port.SendByte(b);
      trace := trace + [Sent(b)];
      SentBytesAppend(old(trace), [Sent(b)]);
    }

    /** The reply of confirmPasswordAttempts: set HMI_status, then send `code` and the new status. */
    method SendReply(code: byte, newMode: byte)
      requires Valid()
      modifies this, port
      ensures Valid()
      ensures Model() == Reply(old(Model()), code, newMode)
    {
      mode := newMode;
      Send(code);
      Send(mode);
    }

    /** DcMotor_Rotate. */
    method RotateMotor(motion: Motion)
      requires Valid()
      modifies this
      ensures Valid()
      ensures Model() == Emit(old(Model()), Rotate(motion))
    {
      trace := trace + [Rotate(motion)];
      SentBytesAppend(old(trace), [Rotate(motion)]);
    }

    /** Buzzer_ON / Buzzer_OFF. */
    method SetBuzzer(on: bool)
      requires Valid()
      modifies this
      ensures Valid()
      ensures Model() == Emit(old(Model()), Buzzer(on))
    {
      trace := trace + [Buzzer(on)];
      SentBytesAppend(old(trace), [Buzzer(on)]);
    }

    /** One round's capture: wait for SYNC_HANDSHAKE, then UART_receiveString into g_pass_buffer1. */
    method CaptureAttempt() returns (live: bool)
      requires Valid()
      modifies port, buffer1
      ensures Valid()
      ensures live == Round(old(Model())).Some?
      ensures live ==> Model() == Round(old(Model())).value
    {
      live := port.AwaitSync();
      if live {
        live := port.ReceiveStringUntilEos(buffer1);
      }
    }

    /** `while (UART_receiveByte() != SYNC_HANDSHAKE);` */
    method AwaitSync() returns (live: bool)
      requires Valid()
      modifies port
      ensures Valid()
      ensures live == AfterSync(old(Model())).Some?
      ensures live ==> Model() == AfterSync(old(Model())).value
    {
      live := port.AwaitSync();
    }

    // -------------------------------------------------------------------------
    // Password handling
    // -------------------------------------------------------------------------

    /**
     * set_password: copy the first PASSWORD_LENGTH - 2 slots of `src` into
     * g_password, then write those slots to the EEPROM at
     * EEPROM_PASSWORD_ADDRESS; the status of the write is dropped.
     */
    method SetPassword(src: array<byte>)
      requires Valid() && src.Length >= EFFECTIVE_LENGTH
      modifies password, eeprom
      ensures Valid()
      ensures Model() == SetPasswordSpec(eeprom.status, old(Model()), old(src[..]))
    {
      for i := 0 to EFFECTIVE_LENGTH
        invariant password[..i] == old(src[..i])
        invariant password[i..] == old(password[i..])
        invariant src[i..] == old(src[i..])
        invariant unchanged(eeprom)
      {
        password[i] := src[i];
      }
      assert password[..] == old(src[..])[..EFFECTIVE_LENGTH] + old(password[..])[EFFECTIVE_LENGTH..] by {
        assert password[..] == password[..EFFECTIVE_LENGTH] + password[EFFECTIVE_LENGTH..];
      }
      assert password[..EFFECTIVE_LENGTH] == old(src[..])[..EFFECTIVE_LENGTH];
      var _ := eeprom.WriteString(EEPROM_PASSWORD_ADDRESS, password, EFFECTIVE_LENGTH);
    }

    /**
     * One pass of the loop in confirmPasswordAttempts (round `i`): capture
     * and compare; on a match, reply SUCCESS and `target` and finish; on a
     * miss before the last round, reply ERROR and LOCKED.
     */
    method AttemptRound(target: byte, i: nat) returns (done: bool, ok: bool, live: bool)
      requires Valid() && i < MAX_PASSWORD_TRIES
      modifies this, port, buffer1
      ensures Valid()
      ensures !live ==> ConfirmFrom(old(Model()), target, i).None?
      ensures live && done ==> ConfirmFrom(old(Model()), target, i) == Some((Model(), ok))
      ensures live && !done ==> ConfirmFrom(Model(), target, i + 1) == ConfirmFrom(old(Model()), target, i)
    {
      ghost var head := Model();
      done, ok := false, false;
      live := CaptureAttempt();
      if !live {
        ConfirmBlocked(head, target, i);
        return;
      }
      var eq := PassCompare(buffer1, password);
      if eq {
        ConfirmMatchStep(head, target, i);
        SendReply(SUCCESS, target);
        done, ok := true, true;
      } else if i < MAX_PASSWORD_TRIES - 1 {
        ConfirmMissStep(head, target, i);
        SendReply(ERROR, MODE_NORMAL_BOOT_LOCKED);
      } else {
        ConfirmLastMiss(head, target);
        ConfirmExhausted(Model(), target, i + 1);
      }
    }

    /**
     * confirmPasswordAttempts: up to MAX_PASSWORD_TRIES rounds of sync,
     * capture and compare; `ok` tells whether a round matched and `live`
     * whether the node got through without blocking.
     */
    method ConfirmPasswordAttempts(target: byte) returns (ok: bool, live: bool)
      requires Valid()
      modifies this, port, buffer1
      ensures Valid()
      ensures var r := ConfirmFrom(old(Model()), target, 0);
        live == r.Some? && (live ==> (Model(), ok) == r.value)
    {
      ghost var r := ConfirmFrom(Model(), target, 0);
      var i := 0;
      while i < MAX_PASSWORD_TRIES
        invariant i <= MAX_PASSWORD_TRIES && Valid()
        invariant ConfirmFrom(Model(), target, i) == r
      {
        var done;
        ghost var before := Model();
        done, ok, live := AttemptRound(target, i);
        if !live || done {
          return;
        }
        assert ConfirmFrom(Model(), target, i + 1) == ConfirmFrom(before, target, i);
        i := i + 1;
      }
      ghost var last := Model();
      assert r == Some((Reply(last, ERROR, MODE_ALARM_MODE), false)) by {
        ConfirmExhausted(last, target, i);
      }
      SendReply(ERROR, MODE_ALARM_MODE);
      ok, live := false, true;
    }

    // -------------------------------------------------------------------------
    // The cases of the super-loop
    // -------------------------------------------------------------------------

    /** The captures of first boot: sync, g_pass_buffer1, sync, g_pass_buffer2. */
    method CapturePasswords() returns (live: bool)
      requires Valid()
      modifies port, buffer1, buffer2
      ensures Valid()
      ensures live == Captures(old(Model())).Some?
      ensures live ==> Model() == Captures(old(Model())).value
    {
      live := port.AwaitSync();
      if !live {
        return;
      }
      live := port.ReceiveStringUntilEos(buffer1);
      if !live {
        return;
      }
      live := port.AwaitSync();
      if !live {
        return;
      }
      live := port.ReceiveStringUntilEos(buffer2);
    }

    /** case MODE_FIRST_BOOT */
    method FirstBoot() returns (live: bool)
      requires Valid()
      modifies this, port, buffer1, buffer2, password, eeprom
      ensures Valid()
      ensures live == FirstBootSpec(eeprom.status, old(Model())).Some?
      ensures live ==> Model() == FirstBootSpec(eeprom.status, old(Model())).value
    {
      ghost var c := Model();
      live := CapturePasswords();
      if !live {
        return;
      }
      var eq := PassCompare(buffer1, buffer2);
      if eq {
        FirstBootMatchStep(eeprom.status, c);
        AcceptPassword();
      } else {
        FirstBootMissStep(eeprom.status, c);
        Send(SYNC_HANDSHAKE);
        Send(ERROR);
      }
    }

    /** First boot with matching captures: SYNC_HANDSHAKE and SUCCESS, mode MAIN, set_password(g_pass_buffer1). */
    method AcceptPassword()
      requires Valid()
      modifies this, port, password, eeprom
      ensures Valid()
      ensures var d := Emit(Emit(old(Model()), Sent(SYNC_HANDSHAKE)), Sent(SUCCESS)).(mode := MODE_NORMAL_BOOT_MAIN);
        Model() == SetPasswordSpec(eeprom.status, d, d.buffer1)
    {
      Send(SYNC_HANDSHAKE);
      Send(SUCCESS);
      mode := MODE_NORMAL_BOOT_MAIN;
      SetPassword(buffer1);
    }

    /** The door cycle run after an accepted open request. */
    method OperateDoor()
      requires Valid()
      modifies this, port
      ensures Valid()
      ensures Model() == DoorCycle(old(Model()))
    {
      RotateMotor(CW);
      var periods := DelaySec(15);
      RotateMotor(STOP);
      periods := DelaySec(3);
      Send(SYNC_HANDSHAKE);
      RotateMotor(ACW);
      periods := DelaySec(15);
      RotateMotor(STOP);
      Send(SYNC_HANDSHAKE);
    }

    /** case MODE_NORMAL_BOOT_MAIN */
    method MainMenu() returns (live: bool)
      requires Valid()
      modifies this, port, buffer1
      ensures Valid()
      ensures live == MainSpec(old(Model())).Some?
      ensures live ==> Model() == MainSpec(old(Model())).value
    {
      live := AwaitSync();
      if !live {
        return;
      }
      var request: byte;
      request, live := port.ReceiveByte();
      if !live {
        return;
      }
      var ok: bool;
      if request == OPEN_DOOR_REQUEST {
        ok, live := ConfirmPasswordAttempts(MODE_NORMAL_BOOT_MAIN);
        if live && ok {
          OperateDoor();
        }
      } else {
        ok, live := ConfirmPasswordAttempts(MODE_FIRST_BOOT);
      }
    }

    /** case MODE_ALARM_MODE */
    method Alarm()
      requires Valid()
      modifies this, port
      ensures Valid()
      ensures Model() == AlarmSpec(old(Model()))
    {
      SetBuzzer(true);
      var _ := DelaySec(60);
      SetBuzzer(false);
      mode := MODE_NORMAL_BOOT_MAIN;
      Send(SYNC_HANDSHAKE);
      Send(mode);
    }

    /** One pass of the super-loop: the switch on HMI_status. */
    method RunMode() returns (live: bool)
      requires Valid()
      modifies this, port, buffer1, buffer2, password, eeprom
      ensures Valid()
      ensures live == Step(eeprom.status, old(Model())).Some?
      ensures live ==> Model() == Step(eeprom.status, old(Model())).value
    {
      if mode == MODE_FIRST_BOOT {
        live := FirstBoot();
      } else if mode == MODE_NORMAL_BOOT_LOCKED {
        var _, alive := ConfirmPasswordAttempts(MODE_NORMAL_BOOT_MAIN);
        live := alive;
      } else if mode == MODE_NORMAL_BOOT_MAIN {
        live := MainMenu();
      } else if mode == MODE_ALARM_MODE {
        Alarm();
        live := true;
      } else {
        live := true;
      }
    }
  }
}
