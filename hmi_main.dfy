/**
 * The HMI node of HMI_ECU/hmi_main.c as a class: HMI_status and
 * password_match are fields, g_password_buffer an array, the keypad a
 * script of presses and the serial link a Port. Every function and mode
 * case is a method proved against the spec functions of HmiModel.
 */
module HmiMain {
  import opened SystemModes
  import opened Options
  import opened Uart
  import opened HmiModel

  class HmiNode {
    /** HMI_status: the mode the node believes both nodes are in. */
    var mode: byte
    /** password_match: the last match byte from the control node. */
    var passwordMatch: byte
    /** Keypad presses still to come; KEYPAD_getPressedKey takes the next one. */
    var keys: seq<byte>
    const buffer: array<byte>   // g_password_buffer
    const port: Port

    /** The buffer keeps its end-of-string mark and its NUL. */
    ghost predicate Valid()
      reads this, buffer
    {
      buffer.Length == PASSWORD_LENGTH
      && buffer[PASSWORD_LENGTH - 2] == UART_EOS && buffer[PASSWORD_LENGTH - 1] == 0
    }

    /** The node's state as a value of the pure model. */
    function Model(): Hmi
      reads this, buffer, port
    {
      Hmi(mode, passwordMatch, buffer[..], keys, port.rx, port.tx)
    }

    /** Reset and the start of main: the buffer gets its NUL and its end-of-string mark. */
    constructor (keypad: seq<byte>, script: seq<byte>)
      ensures Valid() && Model() == Initial(keypad, script)
      ensures fresh(buffer) && fresh(port)
    {
      mode, passwordMatch, keys := MODE_FIRST_BOOT, 0, keypad;
      buffer := new byte[PASSWORD_LENGTH](_ => 0);
      port := new Port(script);
      new;
      buffer[PASSWORD_LENGTH - 1] := 0;
      buffer[PASSWORD_LENGTH - 2] := UART_EOS;
    }

    /** KEYPAD_getPressedKey: the next press; `live` is false when none ever comes. */
    method NextKey() returns (k: byte, live: bool)
      modifies this
      ensures live <==> old(keys) != []
      ensures live ==> k == old(keys)[0] && keys == old(keys)[1..]
      ensures !live ==> keys == old(keys)
      ensures mode == old(mode) && passwordMatch == old(passwordMatch)
    {
      if keys == [] {
        return 0, false;
      }
      k, keys := keys[0], keys[1..];
      live := true;
    }

    /**
     * The keypad loop of getSendPasswordSync: five presses into the first
     * five slots of the buffer, digit keys turned into ASCII digits.
     */
    method EnterPassword() returns (live: bool)
      requires Valid()
      modifies this, buffer
      ensures Valid()
      ensures live <==> |old(keys)| >= EFFECTIVE_LENGTH
      ensures live ==>
        buffer[..] == KeyChars(old(keys)[..EFFECTIVE_LENGTH]) + old(buffer[EFFECTIVE_LENGTH..])
        && keys == old(keys)[EFFECTIVE_LENGTH..]
      ensures mode == old(mode) && passwordMatch == old(passwordMatch)
    {
      for i := 0 to EFFECTIVE_LENGTH
        invariant i <= |old(keys)| && keys == old(keys)[i..]
        invariant buffer[..i] == KeyChars(old(keys)[..i])
        invariant buffer[i..] == old(buffer[i..])
        invariant mode == old(mode) && passwordMatch == old(passwordMatch)
      {
        var k;
        k, live := NextKey();
        if !live {
          return;
        }
        ghost var tail := buffer[i + 1..];
        assert tail == old(buffer[i + 1..]) by {
          assert buffer[i + 1..] == buffer[i..][1..];
        }
        buffer[i] := k;
        assert buffer[i + 1..] == tail;
        if buffer[i] < 10 {
          buffer[i] := buffer[i] + 0x30;
        }
        assert buffer[..i + 1] == buffer[..i] + [KeyChar(k)];
        assert old(keys)[..i + 1] == old(keys)[..i] + [k];
      }
      assert buffer[..] == buffer[..EFFECTIVE_LENGTH] + buffer[EFFECTIVE_LENGTH..];
      live := true;
    }

    /** getSendPasswordSync: enter a password, then send SYNC_HANDSHAKE and the buffer as a string. */
    method GetSendPasswordSync() returns (live: bool)
      requires Valid()
      modifies this, buffer, port
      ensures Valid()
      ensures live == SendPasswordSpec(old(Model())).Some?
      ensures live ==> Model() == SendPasswordSpec(old(Model())).value
    {
      live := EnterPassword();
      if !live {
        return;
      }
      port.SendByte(SYNC_HANDSHAKE);
      port.SendString(buffer);
    }

    /**
     * attemptPassword: send a password, take the match byte and the next
     * mode; again while the match byte is zero and the mode is not ALARM.
     */
    method AttemptPassword() returns (live: bool)
      requires Valid()
      modifies this, buffer, port
      ensures Valid()
      ensures live == AttemptSpec(old(Model())).Some?
      ensures live ==> Model() == AttemptSpec(old(Model())).value
    {
      while true
        invariant Valid()
        invariant AttemptSpec(Model()) == AttemptSpec(old(Model()))
        decreases |keys|
      {
        var done;
        live, done := AttemptRound();
        if !live || done {
          return;
        }
      }
    }

    /**
     * One pass of attemptPassword's loop: send a password, take the match
     * byte and the mode; `done` when the loop ends there.
     */
    method AttemptRound() returns (live: bool, done: bool)
      requires Valid()
      modifies this, buffer, port
      ensures Valid()
      ensures !live ==> AttemptSpec(old(Model())).None?
      ensures live && done ==> AttemptSpec(old(Model())) == Some(Model())
      ensures live && !done ==> AttemptSpec(Model()) == AttemptSpec(old(Model())) && |keys| < |old(keys)|
    {
      ghost var h := Model();
      done := false;
      live := GetSendPasswordSync();
      if !live {
        return;
      }
      var b: byte;
      b, live := port.ReceiveByte();
      if !live {
        return;
      }
      passwordMatch := b;
      b, live := port.ReceiveByte();
      if !live {
        return;
      }
      mode := b;
      if passwordMatch != 0 || mode == MODE_ALARM_MODE {
        AttemptStops(h);
        done := true;
      } else {
        AttemptRepeats(h);
      }
    }

    /** case MODE_FIRST_BOOT */
    method FirstBoot() returns (live: bool)
      requires Valid()
      modifies this, buffer, port
      ensures Valid()
      ensures live == FirstBootSpec(old(Model())).Some?
      ensures live ==> Model() == FirstBootSpec(old(Model())).value
    {
      live := GetSendPasswordSync();
      if !live {
        return;
      }
      live := GetSendPasswordSync();
      if !live {
        return;
      }
      live := port.AwaitSync();
      if !live {
        return;
      }
      var b: byte;
      b, live := port.ReceiveByte();
      if !live {
        return;
      }
      passwordMatch := b;
      if passwordMatch != 0 {
        passwordMatch := 0;
        mode := MODE_NORMAL_BOOT_MAIN;
      }
    }

    /** The main menu's wait for '+' or '-'. */
    method AwaitMenuKey() returns (k: byte, live: bool)
      modifies this
      ensures live == MenuKey(old(keys)).Some?
      ensures live ==> (k, keys) == MenuKey(old(keys)).value
      ensures mode == old(mode) && passwordMatch == old(passwordMatch)
    {
      while true
        invariant MenuKey(keys) == MenuKey(old(keys))
        invariant mode == old(mode) && passwordMatch == old(passwordMatch)
        decreases |keys|
      {
        k, live := NextKey();
        if !live || IsMenuKey(k) {
          return;
        }
      }
    }

    /** The '+' branch of the main menu. */
    method RequestOpenDoor() returns (live: bool)
      requires Valid()
      modifies this, buffer, port
      ensures Valid()
      ensures live == OpenDoorSpec(old(Model())).Some?
      ensures live ==> Model() == OpenDoorSpec(old(Model())).value
    {
      port.SendByte(SYNC_HANDSHAKE);
      port.SendByte(OPEN_DOOR_REQUEST);
      assert Model() == old(Model()).(tx := old(port.tx) + [SYNC_HANDSHAKE, OPEN_DOOR_REQUEST]);
      live := AttemptPassword();
      if !live {
        return;
      }
      if mode != MODE_ALARM_MODE {
        live := port.AwaitSync();
        if !live {
          return;
        }
        live := port.AwaitSync();
      }
    }

    /** The '-' branch of the main menu. */
    method RequestChangePass() returns (live: bool)
      requires Valid()
      modifies this, buffer, port
      ensures Valid()
      ensures live == ChangePassSpec(old(Model())).Some?
      ensures live ==> Model() == ChangePassSpec(old(Model())).value
    {
      port.SendByte(SYNC_HANDSHAKE);
      port.SendByte(CHANGE_PASS_REQUEST);
      assert Model() == old(Model()).(tx := old(port.tx) + [SYNC_HANDSHAKE, CHANGE_PASS_REQUEST]);
      live := AttemptPassword();
    }

    /** case MODE_NORMAL_BOOT_MAIN */
    method MainMenu() returns (live: bool)
      requires Valid()
      modifies this, buffer, port
      ensures Valid()
      ensures live == MainSpec(old(Model())).Some?
      ensures live ==> Model() == MainSpec(old(Model())).value
    {
      var key;
      key, live := AwaitMenuKey();
      if !live {
        return;
      }
      if key == KEY_OPEN_DOOR {
        live := RequestOpenDoor();
      } else {
        live := RequestChangePass();
      }
    }

    /** case MODE_ALARM_MODE */
    method Alarm() returns (live: bool)
      requires Valid()
      modifies this, port
      ensures Valid()
      ensures live == AlarmSpec(old(Model())).Some?
      ensures live ==> Model() == AlarmSpec(old(Model())).value
    {
      live := port.AwaitSync();
      if !live {
        return;
      }
      var b: byte;
      b, live := port.ReceiveByte();
      if !live {
        return;
      }
      mode := b;
    }

    /** One pass of the super-loop: the switch on HMI_status. */
    method RunMode() returns (live: bool)
      requires Valid()
      modifies this, buffer, port
      ensures Valid()
      ensures live == Step(old(Model())).Some?
      ensures live ==> Model() == Step(old(Model())).value
    {
      if mode == MODE_FIRST_BOOT {
        live := FirstBoot();
      } else if mode == MODE_NORMAL_BOOT_LOCKED {
        live := AttemptPassword();
      } else if mode == MODE_NORMAL_BOOT_MAIN {
        live := MainMenu();
      } else if mode == MODE_ALARM_MODE {
        live := Alarm();
      } else {
        live := true;
      }
    }
  }
}
