/**
 * The two nodes together over a lossless serial link: what the HMI node
 * sends in one pass of its super-loop is exactly what the control node
 * reads in its pass, and the other way round, and both passes end in the
 * same mode.
 */
module Lockstep {
  import opened SystemModes
  import opened Options
  import opened Uart
  import C = ControlModel
  import H = HmiModel

  // ---------------------------------------------------------------------------
  // One authentication
  // ---------------------------------------------------------------------------

  /**
   * The bytes of an authentication: the frames the HMI node sends, the
   * replies of the control node, the key presses left over, and whether a
   * round matched.
   */
  datatype Exchange = Exchange(sent: seq<byte>, replies: seq<byte>, keysLeft: seq<byte>, ok: bool)

  /**
   * Enough key presses for the rounds from `i` on when the stored password
   * is `pw`: a password's worth for this round, and another round's worth
   * only when this one misses and is not the last.
   */
  predicate KeysForRounds(keys: seq<byte>, pw: seq<byte>, i: nat)
    decreases MAX_PASSWORD_TRIES - i
  {
    i < MAX_PASSWORD_TRIES && |keys| >= EFFECTIVE_LENGTH && |pw| >= EFFECTIVE_LENGTH
    && (H.KeyChars(keys[..EFFECTIVE_LENGTH]) != pw[..EFFECTIVE_LENGTH] && i < MAX_PASSWORD_TRIES - 1
        ==> KeysForRounds(keys[EFFECTIVE_LENGTH..], pw, i + 1))
  }

  /** Five presses that type the stored password are enough, whatever follows them. */
  lemma KeysForRoundsOnMatch(keys: seq<byte>, pw: seq<byte>, i: nat)
    requires i < MAX_PASSWORD_TRIES && |keys| >= EFFECTIVE_LENGTH && |pw| >= EFFECTIVE_LENGTH
    requires H.KeyChars(keys[..EFFECTIVE_LENGTH]) == pw[..EFFECTIVE_LENGTH]
    ensures KeysForRounds(keys, pw, i)
  {
  }

  /** EFFECTIVE_LENGTH presses for each round left are enough, whatever the rounds give. */
  lemma {:induction false} KeysForRoundsByLength(keys: seq<byte>, pw: seq<byte>, i: nat)
    requires i < MAX_PASSWORD_TRIES && |pw| >= EFFECTIVE_LENGTH
    requires |keys| >= EFFECTIVE_LENGTH * (MAX_PASSWORD_TRIES - i)
    ensures KeysForRounds(keys, pw, i)
    decreases MAX_PASSWORD_TRIES - i
  {
    if i < MAX_PASSWORD_TRIES - 1 {
      KeysForRoundsByLength(keys[EFFECTIVE_LENGTH..], pw, i + 1);
    }
  }

  /**
   * The authentication that starts at round `i` when the user types `keys`
   * and the stored password is `pw`: each round is one frame; a match is
   * answered SUCCESS and `target`, a miss before the last round ERROR and
   * LOCKED, the last miss ERROR and ALARM.
   */
  function Authenticate(keys: seq<byte>, pw: seq<byte>, target: byte, i: nat): Exchange
    requires KeysForRounds(keys, pw, i) && |pw| >= EFFECTIVE_LENGTH
    decreases MAX_PASSWORD_TRIES - i
  {
    var frame := H.Frame(keys);
    if H.KeyChars(keys[..EFFECTIVE_LENGTH]) == pw[..EFFECTIVE_LENGTH] then
      Exchange(frame, [SUCCESS, target], keys[EFFECTIVE_LENGTH..], true)
    else if i == MAX_PASSWORD_TRIES - 1 then
      Exchange(frame, [ERROR, MODE_ALARM_MODE], keys[EFFECTIVE_LENGTH..], false)
    else
      var e := Authenticate(keys[EFFECTIVE_LENGTH..], pw, target, i + 1);
      Exchange(frame + e.sent, [ERROR, MODE_NORMAL_BOOT_LOCKED] + e.replies, e.keysLeft, e.ok)
  }

  /**
   * The frame of a password entry, seen by the control node: the wait for
   * SYNC_HANDSHAKE leaves the five characters and the end-of-string mark,
   * and the string receive puts them, with the NUL, into a PASSWORD_LENGTH
   * buffer and consumes the input up to the mark.
   */
  lemma FrameLands(buf: seq<byte>, keys: seq<byte>, tail: seq<byte>)
    requires |buf| == PASSWORD_LENGTH && |keys| >= EFFECTIVE_LENGTH && UART_EOS !in keys
    ensures var typed := H.KeyChars(keys[..EFFECTIVE_LENGTH]);
      SkipToSync(H.Frame(keys) + tail) == Some(typed + [UART_EOS] + tail)
      && ReceiveUntilEos(buf, typed + [UART_EOS] + tail, 0) == Received(typed + [UART_EOS, 0], tail)
  {
    var typed := H.KeyChars(keys[..EFFECTIVE_LENGTH]);
    H.KeyCharIsEosOnlyForEosKey(keys[..EFFECTIVE_LENGTH]);
    assert UART_EOS !in keys[..EFFECTIVE_LENGTH];
    assert H.Frame(keys) + tail == [] + [SYNC_HANDSHAKE] + (typed + [UART_EOS] + tail);
    SkipToSyncPast([], typed + [UART_EOS] + tail);
    ReceiveFrame(buf, typed, tail, 0);
    assert Spliced(buf, 0, typed + [UART_EOS, 0]) == typed + [UART_EOS, 0];
  }

  /**
   * One round of the control node on the frame of `keys`: the typed
   * characters land in g_pass_buffer1, and they match the stored password
   * exactly when they equal its five effective characters.
   */
  lemma RoundOnKeys(c: C.Ctrl, keys: seq<byte>, tail: seq<byte>)
    requires C.Shaped(c) && |keys| >= EFFECTIVE_LENGTH && UART_EOS !in keys
    ensures var typed := H.KeyChars(keys[..EFFECTIVE_LENGTH]);
      C.Round(c.(rx := H.Frame(keys) + tail)) == Some(c.(buffer1 := typed + [UART_EOS, 0], rx := tail))
      && (C.Matches(typed + [UART_EOS, 0], c.password) <==> typed == c.password[..EFFECTIVE_LENGTH])
  {
    var typed := H.KeyChars(keys[..EFFECTIVE_LENGTH]);
    FrameLands(c.buffer1, keys, tail);
    C.MatchesIgnoresTail(typed + [UART_EOS, 0], c.password);
    assert (typed + [UART_EOS, 0])[..EFFECTIVE_LENGTH] == typed;
  }

  /** A round whose frame matches ends the exchange with SUCCESS and the target. */
  lemma AuthenticateMatch(keys: seq<byte>, pw: seq<byte>, target: byte, i: nat)
    requires KeysForRounds(keys, pw, i) && |pw| >= EFFECTIVE_LENGTH
    requires H.KeyChars(keys[..EFFECTIVE_LENGTH]) == pw[..EFFECTIVE_LENGTH]
    ensures Authenticate(keys, pw, target, i) == Exchange(H.Frame(keys), [SUCCESS, target], keys[EFFECTIVE_LENGTH..], true)
  {
  }

  /** A last round whose frame misses ends the exchange with ERROR and ALARM. */
  lemma AuthenticateLastMiss(keys: seq<byte>, pw: seq<byte>, target: byte)
    requires KeysForRounds(keys, pw, MAX_PASSWORD_TRIES - 1) && |pw| >= EFFECTIVE_LENGTH
    requires H.KeyChars(keys[..EFFECTIVE_LENGTH]) != pw[..EFFECTIVE_LENGTH]
    ensures Authenticate(keys, pw, target, MAX_PASSWORD_TRIES - 1)
         == Exchange(H.Frame(keys), [ERROR, MODE_ALARM_MODE], keys[EFFECTIVE_LENGTH..], false)
  {
  }

  /** An earlier round whose frame misses is answered ERROR and LOCKED, and the exchange goes on. */
  lemma AuthenticateMiss(keys: seq<byte>, pw: seq<byte>, target: byte, i: nat)
    requires KeysForRounds(keys, pw, i) && i < MAX_PASSWORD_TRIES - 1 && |pw| >= EFFECTIVE_LENGTH
    requires H.KeyChars(keys[..EFFECTIVE_LENGTH]) != pw[..EFFECTIVE_LENGTH]
    ensures var e2 := Authenticate(keys[EFFECTIVE_LENGTH..], pw, target, i + 1);
      Authenticate(keys, pw, target, i)
      == Exchange(H.Frame(keys) + e2.sent, [ERROR, MODE_NORMAL_BOOT_LOCKED] + e2.replies, e2.keysLeft, e2.ok)
  {
  }

  /**
   * How an authentication with exchange `e`, started in state `c`, ends on
   * the control node (`r` is what confirmPasswordAttempts gives back): it
   * reports the exchange's match, has read exactly the frames, keeps the
   * stored password, is in the target mode after a match and in ALARM
   * otherwise, and has sent exactly the exchange's replies.
   */
  predicate ControlOutcome(c: C.Ctrl, e: Exchange, target: byte, rest: seq<byte>, r: Option<(C.Ctrl, bool)>) {
    r.Some? && r.value.1 == e.ok && r.value.0.rx == rest && r.value.0.password == c.password
    && r.value.0.mode == (if e.ok then target else MODE_ALARM_MODE)
    && C.SentBytes(r.value.0.trace) == C.SentBytes(c.trace) + e.replies
  }

  /** confirmPasswordAttempts from round i, fed the frames of `keys` and then `rest`. */
  function ConfirmOnFrames(c: C.Ctrl, keys: seq<byte>, target: byte, i: nat, rest: seq<byte>): Option<(C.Ctrl, bool)>
    requires C.Shaped(c) && KeysForRounds(keys, c.password, i)
  {
    C.ConfirmFrom(c.(rx := Authenticate(keys, c.password, target, i).sent + rest), target, i)
  }

  /**
   * The control node's side of an authentication: fed the HMI node's
   * frames, confirmPasswordAttempts reads exactly them, reports the match of
   * the exchange, ends in the target mode or ALARM accordingly, keeps the
   * stored password and sends exactly the exchange's replies.
   */
  lemma {:induction false} ControlAuthenticates(c: C.Ctrl, keys: seq<byte>, target: byte, i: nat, rest: seq<byte>)
    requires C.Shaped(c) && KeysForRounds(keys, c.password, i) && UART_EOS !in keys
    ensures ControlOutcome(c, Authenticate(keys, c.password, target, i), target, rest, ConfirmOnFrames(c, keys, target, i, rest))
    decreases MAX_PASSWORD_TRIES - i, 1
  {
    if H.KeyChars(keys[..EFFECTIVE_LENGTH]) == c.password[..EFFECTIVE_LENGTH] {
      ControlLastRound(c, keys, target, i, rest);
    } else if i == MAX_PASSWORD_TRIES - 1 {
      ControlLastRound(c, keys, target, i, rest);
    } else {
      ControlMissRound(c, keys, target, i, rest);
    }
  }

  /** ControlAuthenticates for a round that ends the exchange: a match, or a miss in the last round. */
  lemma ControlLastRound(c: C.Ctrl, keys: seq<byte>, target: byte, i: nat, rest: seq<byte>)
    requires C.Shaped(c) && KeysForRounds(keys, c.password, i) && UART_EOS !in keys
    requires H.KeyChars(keys[..EFFECTIVE_LENGTH]) == c.password[..EFFECTIVE_LENGTH] || i == MAX_PASSWORD_TRIES - 1
    ensures ControlOutcome(c, Authenticate(keys, c.password, target, i), target, rest, ConfirmOnFrames(c, keys, target, i, rest))
  {
    var typed := H.KeyChars(keys[..EFFECTIVE_LENGTH]);
    var e := Authenticate(keys, c.password, target, i);
    var c0 := c.(rx := H.Frame(keys) + rest);
    var c1 := c.(buffer1 := typed + [UART_EOS, 0], rx := rest);
    RoundOnKeys(c, keys, rest);
    if typed == c.password[..EFFECTIVE_LENGTH] {
      assert e == Exchange(H.Frame(keys), [SUCCESS, target], keys[EFFECTIVE_LENGTH..], true) by {
        AuthenticateMatch(keys, c.password, target, i);
      }
      assert C.ConfirmFrom(c0, target, i) == Some((C.Reply(c1, SUCCESS, target), true)) by {
        C.ConfirmMatchStep(c0, target, i);
      }
      C.ReplySends(c1, SUCCESS, target);
      C.SentBytesOfReply(c.trace, [SUCCESS, target]);
    } else {
      assert e == Exchange(H.Frame(keys), [ERROR, MODE_ALARM_MODE], keys[EFFECTIVE_LENGTH..], false) by {
        AuthenticateLastMiss(keys, c.password, target);
      }
      assert C.ConfirmFrom(c0, target, i) == Some((C.Reply(c1, ERROR, MODE_ALARM_MODE), false)) by {
        C.ConfirmLastMiss(c0, target);
      }
      C.ReplySends(c1, ERROR, MODE_ALARM_MODE);
      C.SentBytesOfReply(c.trace, [ERROR, MODE_ALARM_MODE]);
    }
  }

  /** ControlAuthenticates for a round before the last that misses. */
  lemma {:induction false} ControlMissRound(c: C.Ctrl, keys: seq<byte>, target: byte, i: nat, rest: seq<byte>)
    requires C.Shaped(c) && KeysForRounds(keys, c.password, i) && UART_EOS !in keys
    requires H.KeyChars(keys[..EFFECTIVE_LENGTH]) != c.password[..EFFECTIVE_LENGTH] && i < MAX_PASSWORD_TRIES - 1
    ensures ControlOutcome(c, Authenticate(keys, c.password, target, i), target, rest, ConfirmOnFrames(c, keys, target, i, rest))
    decreases MAX_PASSWORD_TRIES - i, 0
  {
    var c2 := ControlMissStep(c, keys, target, i, rest);
    assert UART_EOS !in keys[EFFECTIVE_LENGTH..];
    ControlAuthenticates(c2, keys[EFFECTIVE_LENGTH..], target, i + 1, rest);
    ControlOutcomeShift(c, c2, Authenticate(keys, c.password, target, i),
      Authenticate(keys[EFFECTIVE_LENGTH..], c.password, target, i + 1), target, rest,
      ConfirmOnFrames(c2, keys[EFFECTIVE_LENGTH..], target, i + 1, rest));
  }

  /** An ERROR, LOCKED reply in front of an outcome. */
  lemma ControlOutcomeShift(c: C.Ctrl, c2: C.Ctrl, e: Exchange, e2: Exchange, target: byte, rest: seq<byte>, r: Option<(C.Ctrl, bool)>)
    requires ControlOutcome(c2, e2, target, rest, r)
    requires c2.password == c.password && e.ok == e2.ok && e.replies == [ERROR, MODE_NORMAL_BOOT_LOCKED] + e2.replies
    requires C.SentBytes(c2.trace) == C.SentBytes(c.trace) + [ERROR, MODE_NORMAL_BOOT_LOCKED]
    ensures ControlOutcome(c, e, target, rest, r)
  {
  }

  /**
   * A missed round before the last on the control node: the state `c2`
   * after its ERROR, LOCKED reply, from which the rest of the exchange runs.
   */
  lemma ControlMissStep(c: C.Ctrl, keys: seq<byte>, target: byte, i: nat, rest: seq<byte>) returns (c2: C.Ctrl)
    requires C.Shaped(c) && KeysForRounds(keys, c.password, i) && UART_EOS !in keys
    requires H.KeyChars(keys[..EFFECTIVE_LENGTH]) != c.password[..EFFECTIVE_LENGTH] && i < MAX_PASSWORD_TRIES - 1
    ensures C.Shaped(c2) && c2.password == c.password
    ensures var e := Authenticate(keys, c.password, target, i);
      var e2 := Authenticate(keys[EFFECTIVE_LENGTH..], c.password, target, i + 1);
      e.replies == [ERROR, MODE_NORMAL_BOOT_LOCKED] + e2.replies && e.ok == e2.ok
      && ConfirmOnFrames(c, keys, target, i, rest) == ConfirmOnFrames(c2, keys[EFFECTIVE_LENGTH..], target, i + 1, rest)
      && C.SentBytes(c2.trace) == C.SentBytes(c.trace) + [ERROR, MODE_NORMAL_BOOT_LOCKED]
  {
    var typed := H.KeyChars(keys[..EFFECTIVE_LENGTH]);
    var e2 := Authenticate(keys[EFFECTIVE_LENGTH..], c.password, target, i + 1);
    var e := Authenticate(keys, c.password, target, i);
    assert e == Exchange(H.Frame(keys) + e2.sent, [ERROR, MODE_NORMAL_BOOT_LOCKED] + e2.replies, e2.keysLeft, e2.ok) by {
      AuthenticateMiss(keys, c.password, target, i);
    }
    var tail := e2.sent + rest;
    var c0 := c.(rx := H.Frame(keys) + tail);
    assert c.(rx := e.sent + rest) == c0;
    RoundOnKeys(c, keys, tail);
    var c1 := c.(buffer1 := typed + [UART_EOS, 0], rx := tail);
    c2 := C.Reply(c1, ERROR, MODE_NORMAL_BOOT_LOCKED);
    assert c2.(rx := e2.sent + rest) == c2;
    assert C.ConfirmFrom(c0, target, i) == C.ConfirmFrom(c2, target, i + 1) by {
      C.ConfirmMissStep(c0, target, i);
    }
    C.ReplySends(c1, ERROR, MODE_NORMAL_BOOT_LOCKED);
    C.SentBytesOfReply(c.trace, [ERROR, MODE_NORMAL_BOOT_LOCKED]);
  }

  /**
   * How an authentication with exchange `e`, started in state `h`, ends on
   * the HMI node (`r` is what attemptPassword leaves): it has read exactly
   * the replies, sent exactly the frames, used up exactly the exchange's key
   * presses and holds the last reply's match byte and mode.
   */
  predicate HmiOutcome(h: H.Hmi, e: Exchange, target: byte, rest: seq<byte>, r: Option<H.Hmi>) {
    r.Some? && r.value.rx == rest && r.value.tx == h.tx + e.sent && r.value.keys == e.keysLeft
    && r.value.mode == (if e.ok then target else MODE_ALARM_MODE)
    && r.value.passwordMatch == (if e.ok then SUCCESS else ERROR)
  }

  /** attemptPassword fed the replies of the exchange and then `rest`. */
  function AttemptOnReplies(h: H.Hmi, pw: seq<byte>, target: byte, i: nat, rest: seq<byte>): Option<H.Hmi>
    requires H.Shaped(h) && KeysForRounds(h.keys, pw, i) && |pw| >= EFFECTIVE_LENGTH
  {
    H.AttemptSpec(h.(rx := Authenticate(h.keys, pw, target, i).replies + rest))
  }

  /**
   * The HMI node's side of an authentication: fed the control node's
   * replies, attemptPassword sends exactly the exchange's frames, uses up
   * exactly its key presses and ends with the reply's match byte and mode.
   */
  lemma {:induction false} HmiAuthenticates(h: H.Hmi, pw: seq<byte>, target: byte, i: nat, rest: seq<byte>)
    requires H.Shaped(h) && KeysForRounds(h.keys, pw, i) && |pw| >= EFFECTIVE_LENGTH
    ensures HmiOutcome(h, Authenticate(h.keys, pw, target, i), target, rest, AttemptOnReplies(h, pw, target, i, rest))
    decreases MAX_PASSWORD_TRIES - i, 1
  {
    if H.KeyChars(h.keys[..EFFECTIVE_LENGTH]) == pw[..EFFECTIVE_LENGTH] {
      HmiLastRound(h, pw, target, i, rest);
    } else if i == MAX_PASSWORD_TRIES - 1 {
      HmiLastRound(h, pw, target, i, rest);
    } else {
      HmiMissRound(h, pw, target, i, rest);
    }
  }

  /** HmiAuthenticates for a round that ends the exchange. */
  lemma HmiLastRound(h: H.Hmi, pw: seq<byte>, target: byte, i: nat, rest: seq<byte>)
    requires H.Shaped(h) && KeysForRounds(h.keys, pw, i) && |pw| >= EFFECTIVE_LENGTH
    requires H.KeyChars(h.keys[..EFFECTIVE_LENGTH]) == pw[..EFFECTIVE_LENGTH] || i == MAX_PASSWORD_TRIES - 1
    ensures HmiOutcome(h, Authenticate(h.keys, pw, target, i), target, rest, AttemptOnReplies(h, pw, target, i, rest))
  {
    var e := Authenticate(h.keys, pw, target, i);
    if H.KeyChars(h.keys[..EFFECTIVE_LENGTH]) == pw[..EFFECTIVE_LENGTH] {
      assert e == Exchange(H.Frame(h.keys), [SUCCESS, target], h.keys[EFFECTIVE_LENGTH..], true) by {
        AuthenticateMatch(h.keys, pw, target, i);
      }
    } else {
      assert e == Exchange(H.Frame(h.keys), [ERROR, MODE_ALARM_MODE], h.keys[EFFECTIVE_LENGTH..], false) by {
        AuthenticateLastMiss(h.keys, pw, target);
      }
    }
    var h0 := h.(rx := e.replies + rest);
    assert h0.rx[2..] == rest;
    H.AttemptStops(h0);
  }

  /** HmiAuthenticates for a round before the last that misses. */
  lemma {:induction false} HmiMissRound(h: H.Hmi, pw: seq<byte>, target: byte, i: nat, rest: seq<byte>)
    requires H.Shaped(h) && KeysForRounds(h.keys, pw, i) && |pw| >= EFFECTIVE_LENGTH
    requires H.KeyChars(h.keys[..EFFECTIVE_LENGTH]) != pw[..EFFECTIVE_LENGTH] && i < MAX_PASSWORD_TRIES - 1
    ensures HmiOutcome(h, Authenticate(h.keys, pw, target, i), target, rest, AttemptOnReplies(h, pw, target, i, rest))
    decreases MAX_PASSWORD_TRIES - i, 0
  {
    var h2 := HmiMissStep(h, pw, target, i, rest);
    HmiAuthenticates(h2, pw, target, i + 1, rest);
    HmiOutcomeShift(h, h2, Authenticate(h.keys, pw, target, i), Authenticate(h2.keys, pw, target, i + 1), target, rest,
      AttemptOnReplies(h2, pw, target, i + 1, rest));
  }

  /** A frame sent in front of an outcome. */
  lemma HmiOutcomeShift(h: H.Hmi, h2: H.Hmi, e: Exchange, e2: Exchange, target: byte, rest: seq<byte>, r: Option<H.Hmi>)
    requires HmiOutcome(h2, e2, target, rest, r)
    requires |h.keys| >= EFFECTIVE_LENGTH && h2.tx == h.tx + H.Frame(h.keys)
    requires e.sent == H.Frame(h.keys) + e2.sent && e.keysLeft == e2.keysLeft && e.ok == e2.ok
    ensures HmiOutcome(h, e, target, rest, r)
  {
    assert h.tx + H.Frame(h.keys) + e2.sent == h.tx + e.sent;
  }

  /**
   * A missed round before the last on the HMI node: the state `h2` after
   * it took ERROR and LOCKED, from which the rest of the exchange runs.
   */
  lemma HmiMissStep(h: H.Hmi, pw: seq<byte>, target: byte, i: nat, rest: seq<byte>) returns (h2: H.Hmi)
    requires H.Shaped(h) && KeysForRounds(h.keys, pw, i) && |pw| >= EFFECTIVE_LENGTH
    requires H.KeyChars(h.keys[..EFFECTIVE_LENGTH]) != pw[..EFFECTIVE_LENGTH] && i < MAX_PASSWORD_TRIES - 1
    ensures H.Shaped(h2) && h2.keys == h.keys[EFFECTIVE_LENGTH..] && KeysForRounds(h2.keys, pw, i + 1)
    ensures var e := Authenticate(h.keys, pw, target, i);
      var e2 := Authenticate(h2.keys, pw, target, i + 1);
      e.sent == H.Frame(h.keys) + e2.sent && e.keysLeft == e2.keysLeft && e.ok == e2.ok
      && h2.tx == h.tx + H.Frame(h.keys)
      && AttemptOnReplies(h, pw, target, i, rest) == AttemptOnReplies(h2, pw, target, i + 1, rest)
  {
    var e2 := Authenticate(h.keys[EFFECTIVE_LENGTH..], pw, target, i + 1);
    var e := Authenticate(h.keys, pw, target, i);
    assert e == Exchange(H.Frame(h.keys) + e2.sent, [ERROR, MODE_NORMAL_BOOT_LOCKED] + e2.replies, e2.keysLeft, e2.ok) by {
      AuthenticateMiss(h.keys, pw, target, i);
    }
    var h0 := h.(rx := e.replies + rest);
    assert h0.rx[..2] == [ERROR, MODE_NORMAL_BOOT_LOCKED];
    assert h0.rx[2..] == e2.replies + rest;
    h2 := H.SendPasswordSpec(h0).value.(passwordMatch := 0, mode := MODE_NORMAL_BOOT_LOCKED, rx := e2.replies + rest);
    assert h2.(rx := e2.replies + rest) == h2;
    H.AttemptRepeats(h0);
  }

  // ---------------------------------------------------------------------------
  // One pass of both super-loops
  // ---------------------------------------------------------------------------

  /**
   * The bytes of one pass: what the HMI node sends to the control node,
   * what the control node sends back, the key presses left over and the
   * mode both nodes are in afterwards.
   */
  datatype Traffic = Traffic(toControl: seq<byte>, toHmi: seq<byte>, keysLeft: seq<byte>, mode: byte)

  /** The control node's first-boot verdict on two password entries. */
  function FirstBootVerdict(keys: seq<byte>): byte
    requires |keys| >= 2 * EFFECTIVE_LENGTH
  {
    if H.KeyChars(keys[..EFFECTIVE_LENGTH]) == H.KeyChars(keys[EFFECTIVE_LENGTH..][..EFFECTIVE_LENGTH]) then SUCCESS else ERROR
  }

  /** Enough key presses for a pass in `mode` to finish on the HMI node. */
  predicate KeysForPass(mode: byte, keys: seq<byte>, pw: seq<byte>) {
    if mode == MODE_FIRST_BOOT then |keys| >= 2 * EFFECTIVE_LENGTH
    else if mode == MODE_NORMAL_BOOT_LOCKED then KeysForRounds(keys, pw, 0)
    else if mode == MODE_NORMAL_BOOT_MAIN then H.MenuKey(keys).Some? && KeysForRounds(H.MenuKey(keys).value.1, pw, 0)
    else true
  }

  /**
   * The traffic of one pass in `mode` when the user types `keys` and the
   * control node stores `pw`.
   * First boot: two frames; SYNC_HANDSHAKE and the verdict; MAIN after a
   * match, FIRST_BOOT otherwise.
   * Locked: an authentication towards MAIN.
   * Main menu: SYNC_HANDSHAKE and the request of the menu key, then an
   * authentication, towards MAIN for '+' (followed by the door cycle's two
   * SYNC_HANDSHAKEs when it succeeds) and towards FIRST_BOOT for '-'.
   * Alarm: SYNC_HANDSHAKE and MAIN from the control node only.
   */
  function PassTraffic(mode: byte, keys: seq<byte>, pw: seq<byte>): Traffic
    requires KeysForPass(mode, keys, pw) && |pw| >= EFFECTIVE_LENGTH
  {
    if mode == MODE_FIRST_BOOT then
      var verdict := FirstBootVerdict(keys);
      Traffic(H.Frame(keys) + H.Frame(keys[EFFECTIVE_LENGTH..]), [SYNC_HANDSHAKE, verdict], keys[2 * EFFECTIVE_LENGTH..],
        if verdict == SUCCESS then MODE_NORMAL_BOOT_MAIN else MODE_FIRST_BOOT)
    else if mode == MODE_NORMAL_BOOT_LOCKED then
      var e := Authenticate(keys, pw, MODE_NORMAL_BOOT_MAIN, 0);
      Traffic(e.sent, e.replies, e.keysLeft, if e.ok then MODE_NORMAL_BOOT_MAIN else MODE_ALARM_MODE)
    else if mode == MODE_NORMAL_BOOT_MAIN then
      var m := H.MenuKey(keys).value;
      if m.0 == H.KEY_OPEN_DOOR then
        var e := Authenticate(m.1, pw, MODE_NORMAL_BOOT_MAIN, 0);
        Traffic([SYNC_HANDSHAKE, OPEN_DOOR_REQUEST] + e.sent,
          e.replies + (if e.ok then [SYNC_HANDSHAKE, SYNC_HANDSHAKE] else []), e.keysLeft,
          if e.ok then MODE_NORMAL_BOOT_MAIN else MODE_ALARM_MODE)
      else
        var e := Authenticate(m.1, pw, MODE_FIRST_BOOT, 0);
        Traffic([SYNC_HANDSHAKE, CHANGE_PASS_REQUEST] + e.sent, e.replies, e.keysLeft,
          if e.ok then MODE_FIRST_BOOT else MODE_ALARM_MODE)
    else if mode == MODE_ALARM_MODE then
      Traffic([], [SYNC_HANDSHAKE, MODE_NORMAL_BOOT_MAIN], keys, MODE_NORMAL_BOOT_MAIN)
    else
      Traffic([], [], keys, mode)
  }

  /**
   * The control node finished a pass with traffic `t`: it read exactly
   * `t.toControl`, is in the mode of `t` and sent exactly `t.toHmi`.
   */
  predicate ControlPass(c: C.Ctrl, t: Traffic, restC: seq<byte>, rc: Option<C.Ctrl>) {
    rc.Some? && rc.value.mode == t.mode && rc.value.rx == restC
    && C.SentBytes(rc.value.trace) == C.SentBytes(c.trace) + t.toHmi
  }

  /**
   * The HMI node finished a pass with traffic `t`: it read exactly
   * `t.toHmi`, is in the mode of `t`, sent exactly `t.toControl` and has
   * `t.keysLeft` to go.
   */
  predicate HmiPass(h: H.Hmi, t: Traffic, restH: seq<byte>, rh: Option<H.Hmi>) {
    rh.Some? && rh.value.mode == t.mode && rh.value.rx == restH
    && rh.value.tx == h.tx + t.toControl && rh.value.keys == t.keysLeft
  }

  /**
   * Lockstep: started in the same mode, with no '#' among the key presses
   * and enough of them for the pass, the two nodes run one pass of their
   * super-loops over a link that loses nothing; each reads exactly the
   * bytes the other sends, and both end in the same mode.
   */
  lemma Lockstep(status: nat -> byte, c: C.Ctrl, h: H.Hmi, restC: seq<byte>, restH: seq<byte>)
    requires C.Shaped(c) && H.Shaped(h) && c.mode == h.mode
    requires UART_EOS !in h.keys && KeysForPass(h.mode, h.keys, c.password)
    ensures var t := PassTraffic(h.mode, h.keys, c.password);
      var rc := C.Step(status, c.(rx := t.toControl + restC));
      var rh := H.Step(h.(rx := t.toHmi + restH));
      rc.Some? && rh.Some? && rc.value.mode == rh.value.mode
      && ControlPass(c, t, restC, rc) && HmiPass(h, t, restH, rh)
  {
    ControlSide(status, c, h.keys, restC);
    HmiSide(h, c.password, restH);
  }

  /** The control node's half of Lockstep. */
  lemma ControlSide(status: nat -> byte, c: C.Ctrl, keys: seq<byte>, restC: seq<byte>)
    requires C.Shaped(c) && UART_EOS !in keys && KeysForPass(c.mode, keys, c.password)
    ensures var t := PassTraffic(c.mode, keys, c.password);
      ControlPass(c, t, restC, C.Step(status, c.(rx := t.toControl + restC)))
  {
    var t := PassTraffic(c.mode, keys, c.password);
    var c0 := c.(rx := t.toControl + restC);
    if c.mode == MODE_FIRST_BOOT {
      assert C.Step(status, c0) == C.FirstBootSpec(status, c0);
      ControlFirstBoot(status, c, keys, restC);
    } else if c.mode == MODE_NORMAL_BOOT_LOCKED {
      assert C.Step(status, c0) == C.LockedSpec(c0);
      ControlAuthenticates(c, keys, MODE_NORMAL_BOOT_MAIN, 0, restC);
    } else if c.mode == MODE_NORMAL_BOOT_MAIN {
      assert C.Step(status, c0) == C.MainSpec(c0);
      var m := H.MenuKey(keys).value;
      assert UART_EOS !in m.1;
      if m.0 == H.KEY_OPEN_DOOR {
        ControlOpenDoor(c, m.1, restC);
      } else {
        ControlChangePass(c, m.1, restC);
      }
    } else if c.mode == MODE_ALARM_MODE {
      assert C.Step(status, c0) == Some(C.AlarmSpec(c0));
      assert c0 == c.(rx := restC);
      C.AlarmTrace(c0);
    } else {
      assert c0 == c.(rx := restC);
    }
  }

  /** The HMI node's half of Lockstep. */
  lemma HmiSide(h: H.Hmi, pw: seq<byte>, restH: seq<byte>)
    requires H.Shaped(h) && |pw| >= EFFECTIVE_LENGTH && KeysForPass(h.mode, h.keys, pw)
    ensures var t := PassTraffic(h.mode, h.keys, pw);
      HmiPass(h, t, restH, H.Step(h.(rx := t.toHmi + restH)))
  {
    var t := PassTraffic(h.mode, h.keys, pw);
    var h0 := h.(rx := t.toHmi + restH);
    if h.mode == MODE_FIRST_BOOT {
      assert H.Step(h0) == H.FirstBootSpec(h0);
      HmiFirstBoot(h, restH);
    } else if h.mode == MODE_NORMAL_BOOT_LOCKED {
      assert H.Step(h0) == H.AttemptSpec(h0);
      HmiAuthenticates(h, pw, MODE_NORMAL_BOOT_MAIN, 0, restH);
    } else if h.mode == MODE_NORMAL_BOOT_MAIN {
      assert H.Step(h0) == H.MainSpec(h0);
      var m := H.MenuKey(h.keys).value;
      if m.0 == H.KEY_OPEN_DOOR {
        assert H.MainSpec(h0) == H.OpenDoorSpec(h0.(keys := m.1));
        HmiOpenDoor(h.(keys := m.1), pw, restH);
      } else {
        assert H.MainSpec(h0) == H.ChangePassSpec(h0.(keys := m.1));
        HmiChangePass(h.(keys := m.1), pw, restH);
      }
    } else if h.mode == MODE_ALARM_MODE {
      assert H.Step(h0) == H.AlarmSpec(h0);
      assert h0.rx == [] + [SYNC_HANDSHAKE, MODE_NORMAL_BOOT_MAIN] + restH;
      H.AlarmAdoptsMode(h, [], MODE_NORMAL_BOOT_MAIN, restH);
    } else {
      assert h0 == h.(rx := restH);
    }
  }

  /** The two first-boot captures of the control node on the HMI node's two frames. */
  lemma CapturesOnKeys(c: C.Ctrl, keys: seq<byte>, tail: seq<byte>)
    requires C.Shaped(c) && |keys| >= 2 * EFFECTIVE_LENGTH && UART_EOS !in keys
    ensures var first := H.KeyChars(keys[..EFFECTIVE_LENGTH]);
      var second := H.KeyChars(keys[EFFECTIVE_LENGTH..][..EFFECTIVE_LENGTH]);
      C.Captures(c.(rx := H.Frame(keys) + H.Frame(keys[EFFECTIVE_LENGTH..]) + tail))
      == Some(c.(buffer1 := first + [UART_EOS, 0], buffer2 := second + [UART_EOS, 0], rx := tail))
  {
    var later := H.Frame(keys[EFFECTIVE_LENGTH..]) + tail;
    assert H.Frame(keys) + H.Frame(keys[EFFECTIVE_LENGTH..]) + tail == H.Frame(keys) + later;
    FrameLands(c.buffer1, keys, later);
    assert UART_EOS !in keys[EFFECTIVE_LENGTH..];
    FrameLands(c.buffer2, keys[EFFECTIVE_LENGTH..], tail);
  }

  /** The control node in first boot, fed the HMI node's two frames. */
  lemma ControlFirstBoot(status: nat -> byte, c: C.Ctrl, keys: seq<byte>, restC: seq<byte>)
    requires C.Shaped(c) && UART_EOS !in keys && |keys| >= 2 * EFFECTIVE_LENGTH
    ensures var verdict := FirstBootVerdict(keys);
      var r := C.FirstBootSpec(status, c.(rx := H.Frame(keys) + H.Frame(keys[EFFECTIVE_LENGTH..]) + restC));
      r.Some? && r.value.mode == (if verdict == SUCCESS then MODE_NORMAL_BOOT_MAIN else c.mode) && r.value.rx == restC
      && C.SentBytes(r.value.trace) == C.SentBytes(c.trace) + [SYNC_HANDSHAKE, verdict]
  {
    var verdict := FirstBootVerdict(keys);
    var first := H.KeyChars(keys[..EFFECTIVE_LENGTH]);
    var second := H.KeyChars(keys[EFFECTIVE_LENGTH..][..EFFECTIVE_LENGTH]);
    var c0 := c.(rx := H.Frame(keys) + H.Frame(keys[EFFECTIVE_LENGTH..]) + restC);
    var c4 := c.(buffer1 := first + [UART_EOS, 0], buffer2 := second + [UART_EOS, 0], rx := restC);
    assert C.Captures(c0) == Some(c4) by {
      CapturesOnKeys(c, keys, restC);
    }
    assert C.Matches(c4.buffer1, c4.buffer2) <==> verdict == SUCCESS by {
      C.MatchesIgnoresTail(c4.buffer1, c4.buffer2);
      assert c4.buffer1[..EFFECTIVE_LENGTH] == first && c4.buffer2[..EFFECTIVE_LENGTH] == second;
    }
    FirstBootOnCaptures(status, c0, c4, verdict);
  }

  /** First boot on the control node once the captures are known: the verdict goes out after SYNC_HANDSHAKE. */
  lemma FirstBootOnCaptures(status: nat -> byte, c0: C.Ctrl, c4: C.Ctrl, verdict: byte)
    requires C.Shaped(c0) && C.Captures(c0) == Some(c4) && (verdict == SUCCESS || verdict == ERROR)
    requires C.Matches(c4.buffer1, c4.buffer2) <==> verdict == SUCCESS
    ensures var r := C.FirstBootSpec(status, c0);
      r.Some? && r.value.mode == (if verdict == SUCCESS then MODE_NORMAL_BOOT_MAIN else c4.mode) && r.value.rx == c4.rx
      && C.SentBytes(r.value.trace) == C.SentBytes(c4.trace) + [SYNC_HANDSHAKE, verdict]
  {
    var d := C.Emit(C.Emit(c4, C.Sent(SYNC_HANDSHAKE)), C.Sent(verdict));
    if verdict == SUCCESS {
      var m := d.(mode := MODE_NORMAL_BOOT_MAIN);
      assert C.FirstBootSpec(status, c0) == Some(C.SetPasswordSpec(status, m, m.buffer1)) by {
        C.FirstBootMatchStep(status, c0);
      }
      PasswordStoreKeepsTrace(status, m, m.buffer1);
    } else {
      assert C.FirstBootSpec(status, c0) == Some(d) by {
        C.FirstBootMissStep(status, c0);
      }
    }
    assert d.trace == c4.trace + C.Sends([SYNC_HANDSHAKE, verdict]);
    C.SentBytesOfReply(c4.trace, [SYNC_HANDSHAKE, verdict]);
  }

  /** set_password touches neither the mode, the serial input nor the trace. */
  lemma PasswordStoreKeepsTrace(status: nat -> byte, c: C.Ctrl, src: seq<byte>)
    requires C.Shaped(c) && |src| >= EFFECTIVE_LENGTH
    ensures var d := C.SetPasswordSpec(status, c, src);
      d.mode == c.mode && d.rx == c.rx && d.trace == c.trace
  {
    C.SetPasswordStores(status, c, src);
  }

  /** The HMI node in first boot, fed SYNC_HANDSHAKE and the verdict. */
  lemma HmiFirstBoot(h: H.Hmi, restH: seq<byte>)
    requires H.Shaped(h) && h.mode == MODE_FIRST_BOOT && |h.keys| >= 2 * EFFECTIVE_LENGTH
    ensures var verdict := FirstBootVerdict(h.keys);
      var r := H.FirstBootSpec(h.(rx := [SYNC_HANDSHAKE, verdict] + restH));
      r.Some? && r.value.mode == (if verdict == SUCCESS then MODE_NORMAL_BOOT_MAIN else MODE_FIRST_BOOT)
      && r.value.rx == restH && r.value.keys == h.keys[2 * EFFECTIVE_LENGTH..]
      && r.value.tx == h.tx + (H.Frame(h.keys) + H.Frame(h.keys[EFFECTIVE_LENGTH..]))
  {
    var verdict := FirstBootVerdict(h.keys);
    var h0 := h.(rx := [SYNC_HANDSHAKE, verdict] + restH);
    assert h0.rx == [] + [SYNC_HANDSHAKE] + ([verdict] + restH);
    SkipToSyncPast([], [verdict] + restH);
    assert ([verdict] + restH)[1..] == restH;
    var r := H.FirstBootSpec(h0);
    assert r.Some? && (r.value.mode == MODE_NORMAL_BOOT_MAIN <==> verdict != 0)
      && (verdict == 0 ==> r.value.mode == MODE_FIRST_BOOT)
      && r.value.rx == restH && r.value.keys == h.keys[2 * EFFECTIVE_LENGTH..]
      && r.value.tx == h.tx + H.Frame(h.keys) + H.Frame(h.keys[EFFECTIVE_LENGTH..]) by {
      H.FirstBootOutcome(h0);
    }
    Regroup(h.tx, H.Frame(h.keys), H.Frame(h.keys[EFFECTIVE_LENGTH..]));
  }

  /** The control node's main menu on an open-door request, given how the authentication ends. */
  lemma MainOpenStep(c: C.Ctrl, tail: seq<byte>, v: (C.Ctrl, bool))
    requires C.Shaped(c) && C.ConfirmFrom(c.(rx := tail), MODE_NORMAL_BOOT_MAIN, 0) == Some(v)
    ensures C.MainSpec(c.(rx := [SYNC_HANDSHAKE, OPEN_DOOR_REQUEST] + tail)) == Some(if v.1 then C.DoorCycle(v.0) else v.0)
  {
    var rx := [SYNC_HANDSHAKE, OPEN_DOOR_REQUEST] + tail;
    assert rx == [] + [SYNC_HANDSHAKE] + ([OPEN_DOOR_REQUEST] + tail);
    SkipToSyncPast([], [OPEN_DOOR_REQUEST] + tail);
    assert ([OPEN_DOOR_REQUEST] + tail)[1..] == tail;
  }

  /**
   * The control node's main menu on any request byte other than
   * OPEN_DOOR_REQUEST, CHANGE_PASS_REQUEST among them: it authenticates
   * towards FIRST_BOOT, given how that authentication ends.
   */
  lemma MainChangeStep(c: C.Ctrl, b: byte, tail: seq<byte>, v: (C.Ctrl, bool))
    requires b != OPEN_DOOR_REQUEST
    requires C.Shaped(c) && C.ConfirmFrom(c.(rx := tail), MODE_FIRST_BOOT, 0) == Some(v)
    ensures C.MainSpec(c.(rx := [SYNC_HANDSHAKE, b] + tail)) == Some(v.0)
  {
    var rx := [SYNC_HANDSHAKE, b] + tail;
    assert rx == [] + [SYNC_HANDSHAKE] + ([b] + tail);
    SkipToSyncPast([], [b] + tail);
    assert ([b] + tail)[1..] == tail;
  }

  /** The HMI node's '+' branch after an authentication that did not raise the alarm: it waits out the door cycle. */
  lemma OpenDoorUnlocks(h: H.Hmi, h1: H.Hmi, rest: seq<byte>)
    requires H.Shaped(h) && H.AttemptSpec(h.(tx := h.tx + [SYNC_HANDSHAKE, OPEN_DOOR_REQUEST])) == Some(h1)
    requires h1.mode != MODE_ALARM_MODE && h1.rx == [SYNC_HANDSHAKE, SYNC_HANDSHAKE] + rest
    ensures H.OpenDoorSpec(h) == Some(h1.(rx := rest))
  {
    assert h1.rx == [] + [SYNC_HANDSHAKE] + ([SYNC_HANDSHAKE] + rest);
    SkipToSyncPast([], [SYNC_HANDSHAKE] + rest);
    assert [SYNC_HANDSHAKE] + rest == [] + [SYNC_HANDSHAKE] + rest;
    SkipToSyncPast([], rest);
  }

  /** The HMI node's '+' branch after an authentication that raised the alarm. */
  lemma OpenDoorAlarms(h: H.Hmi, h1: H.Hmi)
    requires H.Shaped(h) && H.AttemptSpec(h.(tx := h.tx + [SYNC_HANDSHAKE, OPEN_DOOR_REQUEST])) == Some(h1)
    requires h1.mode == MODE_ALARM_MODE
    ensures H.OpenDoorSpec(h) == Some(h1)
  {
  }

  /** The control node in the main menu, fed an open-door request and the HMI node's frames. */
  lemma ControlOpenDoor(c: C.Ctrl, keys: seq<byte>, restC: seq<byte>)
    requires C.Shaped(c) && c.mode == MODE_NORMAL_BOOT_MAIN && UART_EOS !in keys && KeysForRounds(keys, c.password, 0)
    ensures var e := Authenticate(keys, c.password, MODE_NORMAL_BOOT_MAIN, 0);
      var r := C.MainSpec(c.(rx := [SYNC_HANDSHAKE, OPEN_DOOR_REQUEST] + e.sent + restC));
      r.Some? && r.value.mode == (if e.ok then MODE_NORMAL_BOOT_MAIN else MODE_ALARM_MODE) && r.value.rx == restC
      && C.SentBytes(r.value.trace) == C.SentBytes(c.trace) + (e.replies + (if e.ok then [SYNC_HANDSHAKE, SYNC_HANDSHAKE] else []))
  {
    var e := Authenticate(keys, c.password, MODE_NORMAL_BOOT_MAIN, 0);
    Regroup([SYNC_HANDSHAKE, OPEN_DOOR_REQUEST], e.sent, restC);
    ControlAuthenticates(c, keys, MODE_NORMAL_BOOT_MAIN, 0, restC);
    var v := ConfirmOnFrames(c, keys, MODE_NORMAL_BOOT_MAIN, 0, restC).value;
    MainOpenStep(c, e.sent + restC, v);
    if v.1 {
      DoorCycleAfter(c, e, restC, v.0);
    }
  }

  /** After a successful authentication the door cycle adds its two SYNC_HANDSHAKEs to the replies. */
  lemma DoorCycleAfter(c: C.Ctrl, e: Exchange, restC: seq<byte>, v: C.Ctrl)
    requires ControlOutcome(c, e, MODE_NORMAL_BOOT_MAIN, restC, Some((v, true)))
    ensures C.DoorCycle(v).mode == MODE_NORMAL_BOOT_MAIN && C.DoorCycle(v).rx == restC
    ensures C.SentBytes(C.DoorCycle(v).trace) == C.SentBytes(c.trace) + (e.replies + [SYNC_HANDSHAKE, SYNC_HANDSHAKE])
  {
    C.DoorCycleTrace(v);
    C.DoorCycleSends(v);
  }

  /** The control node in the main menu, fed a change-password request and the HMI node's frames. */
  lemma ControlChangePass(c: C.Ctrl, keys: seq<byte>, restC: seq<byte>)
    requires C.Shaped(c) && UART_EOS !in keys && KeysForRounds(keys, c.password, 0)
    ensures var e := Authenticate(keys, c.password, MODE_FIRST_BOOT, 0);
      var r := C.MainSpec(c.(rx := [SYNC_HANDSHAKE, CHANGE_PASS_REQUEST] + e.sent + restC));
      r.Some? && r.value.mode == (if e.ok then MODE_FIRST_BOOT else MODE_ALARM_MODE) && r.value.rx == restC
      && C.SentBytes(r.value.trace) == C.SentBytes(c.trace) + e.replies
  {
    var e := Authenticate(keys, c.password, MODE_FIRST_BOOT, 0);
    Regroup([SYNC_HANDSHAKE, CHANGE_PASS_REQUEST], e.sent, restC);
    ControlAuthenticates(c, keys, MODE_FIRST_BOOT, 0, restC);
    var v := ConfirmOnFrames(c, keys, MODE_FIRST_BOOT, 0, restC).value;
    MainChangeStep(c, CHANGE_PASS_REQUEST, e.sent + restC, v);
  }

  /** The HMI node's '+' branch, fed the control node's replies and, after a match, the door cycle's two SYNC_HANDSHAKEs. */
  lemma HmiOpenDoor(h: H.Hmi, pw: seq<byte>, restH: seq<byte>)
    requires H.Shaped(h) && |pw| >= EFFECTIVE_LENGTH && KeysForRounds(h.keys, pw, 0)
    ensures var e := Authenticate(h.keys, pw, MODE_NORMAL_BOOT_MAIN, 0);
      var r := H.OpenDoorSpec(h.(rx := e.replies + (if e.ok then [SYNC_HANDSHAKE, SYNC_HANDSHAKE] else []) + restH));
      r.Some? && r.value.mode == (if e.ok then MODE_NORMAL_BOOT_MAIN else MODE_ALARM_MODE) && r.value.rx == restH
      && r.value.tx == h.tx + ([SYNC_HANDSHAKE, OPEN_DOOR_REQUEST] + e.sent) && r.value.keys == e.keysLeft
  {
    var e := Authenticate(h.keys, pw, MODE_NORMAL_BOOT_MAIN, 0);
    var cycle: seq<byte> := if e.ok then [SYNC_HANDSHAKE, SYNC_HANDSHAKE] else [];
    var tailH := cycle + restH;
    var h0 := h.(rx := e.replies + cycle + restH);
    var hh := h.(tx := h.tx + [SYNC_HANDSHAKE, OPEN_DOOR_REQUEST]);
    Regroup(e.replies, cycle, restH);
    assert h0.(tx := h0.tx + [SYNC_HANDSHAKE, OPEN_DOOR_REQUEST]) == hh.(rx := e.replies + tailH);
    var r := AttemptOnReplies(hh, pw, MODE_NORMAL_BOOT_MAIN, 0, tailH);
    HmiAuthenticates(hh, pw, MODE_NORMAL_BOOT_MAIN, 0, tailH);
    PrefixedOutcome(h, hh, e, [SYNC_HANDSHAKE, OPEN_DOOR_REQUEST], MODE_NORMAL_BOOT_MAIN, tailH, r);
    if e.ok {
      OpenDoorUnlocks(h0, r.value, restH);
    } else {
      OpenDoorAlarms(h0, r.value);
    }
  }

  /** The HMI node's '-' branch, fed the control node's replies. */
  lemma HmiChangePass(h: H.Hmi, pw: seq<byte>, restH: seq<byte>)
    requires H.Shaped(h) && |pw| >= EFFECTIVE_LENGTH && KeysForRounds(h.keys, pw, 0)
    ensures var e := Authenticate(h.keys, pw, MODE_FIRST_BOOT, 0);
      var r := H.ChangePassSpec(h.(rx := e.replies + restH));
      r.Some? && r.value.mode == (if e.ok then MODE_FIRST_BOOT else MODE_ALARM_MODE) && r.value.rx == restH
      && r.value.tx == h.tx + ([SYNC_HANDSHAKE, CHANGE_PASS_REQUEST] + e.sent) && r.value.keys == e.keysLeft
  {
    var e := Authenticate(h.keys, pw, MODE_FIRST_BOOT, 0);
    var hh := h.(tx := h.tx + [SYNC_HANDSHAKE, CHANGE_PASS_REQUEST]);
    assert h.(rx := e.replies + restH).(tx := h.tx + [SYNC_HANDSHAKE, CHANGE_PASS_REQUEST]) == hh.(rx := e.replies + restH);
    var r := AttemptOnReplies(hh, pw, MODE_FIRST_BOOT, 0, restH);
    HmiAuthenticates(hh, pw, MODE_FIRST_BOOT, 0, restH);
    PrefixedOutcome(h, hh, e, [SYNC_HANDSHAKE, CHANGE_PASS_REQUEST], MODE_FIRST_BOOT, restH, r);
    assert H.ChangePassSpec(h.(rx := e.replies + restH)) == r;
  }

  /** An outcome of an authentication that began after `prefix` was sent. */
  lemma PrefixedOutcome(h: H.Hmi, hh: H.Hmi, e: Exchange, prefix: seq<byte>, target: byte, restH: seq<byte>, r: Option<H.Hmi>)
    requires HmiOutcome(hh, e, target, restH, r) && hh.tx == h.tx + prefix
    ensures r.Some? && r.value.mode == (if e.ok then target else MODE_ALARM_MODE) && r.value.rx == restH
      && r.value.tx == h.tx + (prefix + e.sent) && r.value.keys == e.keysLeft
  {
    assert h.tx + prefix + e.sent == h.tx + (prefix + e.sent);
  }

  lemma Regroup(a: seq<byte>, b: seq<byte>, c: seq<byte>)
    ensures a + b + c == a + (b + c)
  {
  }
}
