/**
 * The HMI node of HMI_ECU/hmi_main.c as pure functions on a value that
 * holds its globals (HMI_status, password_match, g_password_buffer), the
 * keypad presses still to come, the bytes still to arrive from the control
 * node and the bytes sent to it so far. A function is `None` where the node
 * would wait for ever: the keypad or the serial input runs out.
 */
module HmiModel {
  import opened SystemModes
  import opened Options
  import opened Uart

  /** The keypad code of '+', the main-menu key that asks to open the door. */
  const KEY_OPEN_DOOR: byte := 0x2B
  /** The keypad code of '-', the main-menu key that asks to change the password. */
  const KEY_CHANGE_PASS: byte := 0x2D

  /** The globals of hmi_main.c together with the keypad script and both directions of the serial link. */
  datatype Hmi = Hmi(
    mode: byte,             // HMI_status
    passwordMatch: byte,    // password_match, a local of main passed by address
    buffer: seq<byte>,      // g_password_buffer
    keys: seq<byte>,        // keypad presses still to come
    rx: seq<byte>,          // bytes still to arrive from the control node
    tx: seq<byte>)          // bytes sent to the control node

  /**
   * The buffer has PASSWORD_LENGTH slots, the one before last holds the
   * end-of-string mark and the last one the NUL that stops UART_sendString.
   */
  predicate Shaped(h: Hmi) {
    |h.buffer| == PASSWORD_LENGTH
    && h.buffer[PASSWORD_LENGTH - 2] == UART_EOS && h.buffer[PASSWORD_LENGTH - 1] == 0
  }

  /**
   * The state main sets up before its super-loop: a zeroed buffer but for
   * the end-of-string mark and the NUL, first-boot mode, no match yet.
   */
  function Initial(keys: seq<byte>, rx: seq<byte>): (h: Hmi)
    ensures Shaped(h) && h.mode == MODE_FIRST_BOOT && h.passwordMatch == 0 && h.tx == []
    ensures h.buffer[..EFFECTIVE_LENGTH] == [0, 0, 0, 0, 0]
  {
    Hmi(MODE_FIRST_BOOT, 0, [0, 0, 0, 0, 0, UART_EOS, 0], keys, rx, [])
  }

  /**
   * The character stored for a key press: digit keys 0..9 become the ASCII
   * digits, so that no stored character is a NUL; symbol keys are kept.
   */
  function KeyChar(k: byte): (ch: byte)
    ensures ch != 0
    ensures k < 10 ==> IsAsciiDigit(ch) && ch - 0x30 == k
    ensures k >= 10 ==> ch == k
  {
    if k < 10 then k + 0x30 else k
  }

  /** The characters stored for a run of key presses. */
  function KeyChars(keys: seq<byte>): (chars: seq<byte>)
    ensures |chars| == |keys| && 0 !in chars
  {
    seq(|keys|, i requires 0 <= i < |keys| => KeyChar(keys[i]))
  }

  /** '#' is only ever stored for the '#' key. */
  lemma KeyCharIsEosOnlyForEosKey(keys: seq<byte>)
    ensures UART_EOS in KeyChars(keys) <==> UART_EOS in keys
  {
    if UART_EOS in keys {
      var i :| 0 <= i < |keys| && keys[i] == UART_EOS;
      assert KeyChars(keys)[i] == UART_EOS;
    }
  }

  /** What one password entry puts on the wire: SYNC_HANDSHAKE, five characters, '#'. */
  function Frame(keys: seq<byte>): seq<byte>
    requires |keys| >= EFFECTIVE_LENGTH
  {
    [SYNC_HANDSHAKE] + KeyChars(keys[..EFFECTIVE_LENGTH]) + [UART_EOS]
  }

  /**
   * getSendPasswordSync: the next five key presses, adjusted by KeyChar,
   * fill the first five slots of the buffer; then SYNC_HANDSHAKE and the
   * buffer up to its first NUL are sent.
   */
  function SendPasswordSpec(h: Hmi): (r: Option<Hmi>)
    requires Shaped(h)
    ensures r.Some? <==> |h.keys| >= EFFECTIVE_LENGTH
    ensures r.Some? ==>
      Shaped(r.value) && r.value.keys == h.keys[EFFECTIVE_LENGTH..]
      && r.value.mode == h.mode && r.value.passwordMatch == h.passwordMatch && r.value.rx == h.rx
    ensures r.Some? ==>
      r.value.buffer == KeyChars(h.keys[..EFFECTIVE_LENGTH]) + [UART_EOS, 0]
      && r.value.tx == h.tx + Frame(h.keys)
  {
    if |h.keys| < EFFECTIVE_LENGTH then None
    else
      var buffer := KeyChars(h.keys[..EFFECTIVE_LENGTH]) + h.buffer[EFFECTIVE_LENGTH..];
      assert buffer == KeyChars(h.keys[..EFFECTIVE_LENGTH]) + [UART_EOS, 0];
      assert NulIndex(buffer) == PASSWORD_LENGTH - 1;
      Some(h.(buffer := buffer, keys := h.keys[EFFECTIVE_LENGTH..], tx := h.tx + [SYNC_HANDSHAKE] + buffer[..NulIndex(buffer)]))
  }

  /**
   * attemptPassword: enter and send a password, then take the match byte
   * and the next mode from the control node; repeat while the match byte
   * is zero and the mode is not ALARM.
   */
  function AttemptSpec(h: Hmi): (r: Option<Hmi>)
    requires Shaped(h)
    ensures r.Some? ==> Shaped(r.value) && (r.value.passwordMatch != 0 || r.value.mode == MODE_ALARM_MODE)
    ensures r.Some? ==> h.tx <= r.value.tx
    decreases |h.keys|
  {
    var h1 :- SendPasswordSpec(h);
    if |h1.rx| < 2 then None
    else
      var h2 := h1.(passwordMatch := h1.rx[0], mode := h1.rx[1], rx := h1.rx[2..]);
      if h2.passwordMatch == 0 && h2.mode != MODE_ALARM_MODE then AttemptSpec(h2) else Some(h2)
  }

  /**
   * The MODE_FIRST_BOOT case: enter and send the password twice, wait for
   * SYNC_HANDSHAKE and take the match byte; a nonzero one is cleared and
   * moves the node to the main menu.
   */
  function FirstBootSpec(h: Hmi): Option<Hmi>
    requires Shaped(h)
  {
    var h1 :- SendPasswordSpec(h);
    var h2 :- SendPasswordSpec(h1);
    var rest :- SkipToSync(h2.rx);
    if rest == [] then None
    else
      var h3 := h2.(passwordMatch := rest[0], rx := rest[1..]);
      if h3.passwordMatch != 0 then Some(h3.(passwordMatch := 0, mode := MODE_NORMAL_BOOT_MAIN)) else Some(h3)
  }

  /** The main-menu keys. */
  predicate IsMenuKey(k: byte) {
    k == KEY_OPEN_DOOR || k == KEY_CHANGE_PASS
  }

  /**
   * The main menu's wait for '+' or '-': the first such key press and the
   * presses after it; `None` when the keypad never produces one.
   */
  function MenuKey(keys: seq<byte>): (r: Option<(byte, seq<byte>)>)
    ensures r.None? <==> forall j :: 0 <= j < |keys| ==> !IsMenuKey(keys[j])
    ensures r.Some? ==>
      var p := |keys| - |r.value.1| - 1;
      0 <= p && keys[p] == r.value.0 && IsMenuKey(r.value.0) && r.value.1 == keys[p + 1..]
      && forall j :: 0 <= j < p ==> !IsMenuKey(keys[j])
  {
    if keys == [] then None
    else if IsMenuKey(keys[0]) then Some((keys[0], keys[1..]))
    else
      var r := MenuKey(keys[1..]);
      assert forall j :: 1 <= j < |keys| ==> keys[j] == keys[1..][j - 1];
      r
  }

  /**
   * The '+' branch of the main menu: send SYNC_HANDSHAKE and
   * OPEN_DOOR_REQUEST, authenticate, and unless that ended in ALARM wait
   * for the two SYNC_HANDSHAKEs of the door cycle (unlocked, then locked).
   */
  function OpenDoorSpec(h: Hmi): (r: Option<Hmi>)
    requires Shaped(h)
    ensures r.Some? ==> h.tx + [SYNC_HANDSHAKE, OPEN_DOOR_REQUEST] <= r.value.tx
  {
    var h1 :- AttemptSpec(h.(tx := h.tx + [SYNC_HANDSHAKE, OPEN_DOOR_REQUEST]));
    if h1.mode != MODE_ALARM_MODE then
      var unlocked :- SkipToSync(h1.rx);
      var locked :- SkipToSync(unlocked);
      Some(h1.(rx := locked))
    else
      Some(h1)
  }

  /** The '-' branch of the main menu: send SYNC_HANDSHAKE and CHANGE_PASS_REQUEST, authenticate. */
  function ChangePassSpec(h: Hmi): (r: Option<Hmi>)
    requires Shaped(h)
    ensures r.Some? ==> h.tx + [SYNC_HANDSHAKE, CHANGE_PASS_REQUEST] <= r.value.tx
  {
    AttemptSpec(h.(tx := h.tx + [SYNC_HANDSHAKE, CHANGE_PASS_REQUEST]))
  }

  /** The MODE_NORMAL_BOOT_MAIN case: wait for '+' or '-', then take its branch. */
  function MainSpec(h: Hmi): Option<Hmi>
    requires Shaped(h)
  {
    var m :- MenuKey(h.keys);
    if m.0 == KEY_OPEN_DOOR then OpenDoorSpec(h.(keys := m.1)) else ChangePassSpec(h.(keys := m.1))
  }

  /** The MODE_ALARM_MODE case: wait for SYNC_HANDSHAKE, then take the next byte as the mode. */
  function AlarmSpec(h: Hmi): Option<Hmi> {
    var rest :- SkipToSync(h.rx);
    if rest == [] then None else Some(h.(mode := rest[0], rx := rest[1..]))
  }

  /** One pass of the super-loop: the case for HMI_status; other values match no case. */
  function Step(h: Hmi): Option<Hmi>
    requires Shaped(h)
  {
    if h.mode == MODE_FIRST_BOOT then FirstBootSpec(h)
    else if h.mode == MODE_NORMAL_BOOT_LOCKED then AttemptSpec(h)
    else if h.mode == MODE_NORMAL_BOOT_MAIN then MainSpec(h)
    else if h.mode == MODE_ALARM_MODE then AlarmSpec(h)
    else Some(h)
  }

  // ---------------------------------------------------------------------------
  // Properties
  // ---------------------------------------------------------------------------

  /**
   * First boot: both entries go out as frames, the verdict is the byte after
   * the control node's SYNC_HANDSHAKE; a nonzero verdict moves the node to
   * the main menu, a zero one keeps it in first boot, and password_match is
   * zero afterwards either way.
   */
  lemma FirstBootOutcome(h: Hmi)
    requires Shaped(h) && h.mode == MODE_FIRST_BOOT
    ensures var r := FirstBootSpec(h);
      r.Some? <==> |h.keys| >= 2 * EFFECTIVE_LENGTH && SkipToSync(h.rx).Some? && SkipToSync(h.rx).value != []
    ensures var r := FirstBootSpec(h);
      r.Some? ==>
        var verdict := SkipToSync(h.rx).value[0];
        r.value.passwordMatch == 0
        && (r.value.mode == MODE_NORMAL_BOOT_MAIN <==> verdict != 0)
        && (verdict == 0 ==> r.value.mode == MODE_FIRST_BOOT)
        && r.value.tx == h.tx + Frame(h.keys) + Frame(h.keys[EFFECTIVE_LENGTH..])
        && r.value.keys == h.keys[2 * EFFECTIVE_LENGTH..]
        && r.value.rx == SkipToSync(h.rx).value[1..]
  {
    if |h.keys| >= 2 * EFFECTIVE_LENGTH {
      assert h.keys[EFFECTIVE_LENGTH..][EFFECTIVE_LENGTH..] == h.keys[2 * EFFECTIVE_LENGTH..];
    }
  }

  /** A key press other than '+' and '-' in the main menu is read and dropped. */
  lemma MainSkipsOtherKeys(h: Hmi, k: byte)
    requires Shaped(h) && !IsMenuKey(k)
    ensures MainSpec(h.(keys := [k] + h.keys)) == MainSpec(h)
  {
    assert ([k] + h.keys)[1..] == h.keys;
  }

  /**
   * The main menu opens with SYNC_HANDSHAKE and the request of the menu key:
   * OPEN_DOOR_REQUEST for '+', CHANGE_PASS_REQUEST for '-'.
   */
  lemma MainRequest(h: Hmi)
    requires Shaped(h)
    ensures var r := MainSpec(h);
      r.Some? ==>
        MenuKey(h.keys).Some?
        && var request := if MenuKey(h.keys).value.0 == KEY_OPEN_DOOR then OPEN_DOOR_REQUEST else CHANGE_PASS_REQUEST;
        |r.value.tx| >= |h.tx| + 2 && r.value.tx[..|h.tx| + 2] == h.tx + [SYNC_HANDSHAKE, request]
  {
    var r := MainSpec(h);
    if r.Some? {
      var m := MenuKey(h.keys).value;
      var request := if m.0 == KEY_OPEN_DOOR then OPEN_DOOR_REQUEST else CHANGE_PASS_REQUEST;
      assert h.tx + [SYNC_HANDSHAKE, request] <= r.value.tx;
    }
  }

  /**
   * Alarm: whatever arrives before the control node's SYNC_HANDSHAKE is
   * dropped, and the byte after it becomes the mode; nothing is sent.
   */
  lemma AlarmAdoptsMode(h: Hmi, noise: seq<byte>, mode: byte, rest: seq<byte>)
    requires SYNC_HANDSHAKE !in noise
    ensures AlarmSpec(h.(rx := noise + [SYNC_HANDSHAKE, mode] + rest)) == Some(h.(mode := mode, rx := rest))
  {
    var rx := noise + [SYNC_HANDSHAKE, mode] + rest;
    assert rx == noise + [SYNC_HANDSHAKE] + ([mode] + rest);
    SkipToSyncPast(noise, [mode] + rest);
    AlarmStep(h.(rx := rx), [mode] + rest);
    assert ([mode] + rest)[1..] == rest;
  }

  /** An attempt whose reply has a nonzero match byte or the ALARM mode ends there. */
  lemma AttemptStops(h: Hmi)
    requires Shaped(h) && |h.keys| >= EFFECTIVE_LENGTH && |h.rx| >= 2
    requires h.rx[0] != 0 || h.rx[1] == MODE_ALARM_MODE
    ensures AttemptSpec(h) == Some(SendPasswordSpec(h).value.(passwordMatch := h.rx[0], mode := h.rx[1], rx := h.rx[2..]))
  {
  }

  /** An attempt whose reply has a zero match byte and a mode other than ALARM goes round again. */
  lemma AttemptRepeats(h: Hmi)
    requires Shaped(h) && |h.keys| >= EFFECTIVE_LENGTH && |h.rx| >= 2
    requires h.rx[0] == 0 && h.rx[1] != MODE_ALARM_MODE
    ensures AttemptSpec(h) == AttemptSpec(SendPasswordSpec(h).value.(passwordMatch := 0, mode := h.rx[1], rx := h.rx[2..]))
  {
  }

  /** The alarm case once the SYNC_HANDSHAKE wait has left `after`. */
  lemma AlarmStep(h: Hmi, after: seq<byte>)
    requires SkipToSync(h.rx) == Some(after) && after != []
    ensures AlarmSpec(h) == Some(h.(mode := after[0], rx := after[1..]))
  {
  }
}
