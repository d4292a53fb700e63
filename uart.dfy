/**
 * The serial driver of the HMI node (HMI_ECU/uart.c) over an abstract link.
 *
 * A `Port` stands for the UART of one node: `rx` holds the bytes the peer has
 * sent that this node has not read yet (a finite script), `tx` every byte this
 * node has sent. Reading from an empty `rx` is where the C code polls for ever;
 * the model reports it as a failed read instead.
 */
module Uart {
  import opened SystemModes
  import opened Options

  // ---------------------------------------------------------------------------
  // Baud-rate divisor (UART_init)
  // ---------------------------------------------------------------------------

  /** The CPU clock the divisor formula is written for. */
  const F_CPU: nat := 8000000

  /**
   * UBRR for double-speed mode: 8 MHz / (8 * baud) - 1, computed in unsigned
   * arithmetic and truncated to 16 bits by the cast. `baudRate` is the 16-bit
   * configuration field; zero would divide by zero.
   */
  function UbrrValue(baudRate: nat): (ubrr: nat)
    requires 0 < baudRate < 0x10000
    ensures ubrr < 0x10000
  {
    (F_CPU / (8 * baudRate) - 1) % 0x10000
  }

  /**
   * From 16 baud up nothing is truncated, and UBRR is the largest divisor for
   * which (UBRR + 1) * 8 clock periods per bit do not exceed the bit time.
   */
  lemma UbrrIsLargestFittingDivisor(baudRate: nat)
    requires 16 <= baudRate < 0x10000
    ensures (UbrrValue(baudRate) + 1) * (8 * baudRate) <= F_CPU < (UbrrValue(baudRate) + 2) * (8 * baudRate)
  {
    var d := 8 * baudRate;
    var q, r := F_CPU / d, F_CPU % d;
    assert F_CPU == q * d + r && r < d;
    MulIsMonotonic(q, 128, d);
    assert 1 <= q <= 62500;
    assert UbrrValue(baudRate) == q - 1;
  }

  lemma MulIsMonotonic(a: nat, b: nat, c: nat)
    requires b <= c
    ensures a * b <= a * c
  {
  }

  /** UBRRH and UBRRL: the high and the low byte of the divisor, which together give it back. */
  function UbrrRegisters(ubrr: nat): (regs: (byte, byte))
    requires ubrr < 0x10000
    ensures regs.0 * 0x100 + regs.1 == ubrr
  {
    (ubrr / 0x100, ubrr % 0x100)
  }

  /** At 9600 baud the divisor is 103: UBRRH = 0 and UBRRL = 103. */
  lemma UbrrAt9600()
    ensures UbrrValue(9600) == 103
    ensures UbrrRegisters(UbrrValue(9600)) == (0, 103)
  {
  }

  /** Below 16 baud the quotient does not fit in 16 bits and the cast truncates it. */
  lemma UbrrTruncatesAt1Baud()
    ensures UbrrValue(1) == 999999 - 15 * 0x10000
  {
  }

  // ---------------------------------------------------------------------------
  // Pure views of the receive loops
  // ---------------------------------------------------------------------------

  /**
   * What is left of `rx` after discarding bytes up to and including the first
   * SYNC_HANDSHAKE; `None` when no such byte ever arrives.
   */
  function SkipToSync(rx: seq<byte>): (rest: Option<seq<byte>>)
    ensures rest.Some? <==> SYNC_HANDSHAKE in rx
    ensures rest.Some? ==>
      var k := |rx| - |rest.value| - 1;
      0 <= k && rx[k] == SYNC_HANDSHAKE && SYNC_HANDSHAKE !in rx[..k] && rest.value == rx[k + 1..]
  {
    if rx == [] then None
    else if rx[0] == SYNC_HANDSHAKE then Some(rx[1..])
    else
      var rest := SkipToSync(rx[1..]);
      assert rest.Some? ==> rx[1..][..|rx| - |rest.value| - 2] == rx[1..|rx| - |rest.value| - 1];
      rest
  }

  /** The wait for SYNC_HANDSHAKE discards exactly the bytes in front of the first one. */
  lemma SkipToSyncPast(noise: seq<byte>, rest: seq<byte>)
    requires SYNC_HANDSHAKE !in noise
    ensures SkipToSync(noise + [SYNC_HANDSHAKE] + rest) == Some(rest)
  {
    var rx := noise + [SYNC_HANDSHAKE] + rest;
    var r := SkipToSync(rx);
    assert rx[|noise|] == SYNC_HANDSHAKE;
    assert rx[|noise| + 1..] == rest;
  }

  /** The index of the first NUL of `s`: the bytes before it are what UART_sendString sends. */
  function NulIndex(s: seq<byte>): (k: nat)
    requires 0 in s
    ensures k < |s| && s[k] == 0
    ensures forall j :: 0 <= j < k ==> s[j] != 0
  {
    if s[0] == 0 then 0 else 1 + NulIndex(s[1..])
  }

  /** The increment of the 8-bit buffer index, which wraps to 0 after 255. */
  function NextIndex(i: nat): (j: nat)
    ensures j < 0x100
    ensures i + 1 < 0x100 ==> j == i + 1
  {
    (i + 1) % 0x100
  }

  /** The result of a string receive into a buffer. */
  datatype Reception =
    | Received(buffer: seq<byte>, rest: seq<byte>)
    | Blocked   // the input ran out: the C code waits for ever
    | Overrun   // the next access would fall outside the buffer

  /**
   * UART_receiveString as written: store the next byte at `i`, advance the
   * 8-bit index, and stop when the slot the index now names, which has not
   * been written yet, holds UART_EOS; that slot then receives the NUL.
   */
  function ReceiveAsWritten(buf: seq<byte>, rx: seq<byte>, i: nat): (r: Reception)
    ensures r.Received? ==> |r.buffer| == |buf|
    decreases |rx|
  {
    if rx == [] then Blocked
    else if i >= |buf| then Overrun
    else
      var stored := buf[i := rx[0]];
      var next := NextIndex(i);
      if next >= |buf| then Overrun
      else if stored[next] == UART_EOS then Received(stored[next := 0], rx[1..])
      else ReceiveAsWritten(stored, rx[1..], next)
  }

  /**
   * The string receive the protocol relies on: store the next byte at `i`,
   * advance the 8-bit index, and stop once the byte just stored is UART_EOS;
   * the slot after it receives the NUL.
   */
  function ReceiveUntilEos(buf: seq<byte>, rx: seq<byte>, i: nat): (r: Reception)
    ensures r.Received? ==> |r.buffer| == |buf|
    decreases |rx|
  {
    if rx == [] then Blocked
    else if i >= |buf| then Overrun
    else
      var stored := buf[i := rx[0]];
      var next := NextIndex(i);
      if rx[0] == UART_EOS then
        if next >= |buf| then Overrun else Received(stored[next := 0], rx[1..])
      else ReceiveUntilEos(stored, rx[1..], next)
  }

  /** `buf` with the slots from `i` on overwritten by `s`. */
  function Spliced(buf: seq<byte>, i: nat, s: seq<byte>): seq<byte>
    requires i + |s| <= |buf|
  {
    buf[..i] + s + buf[i + |s|..]
  }

  /** Writing `s` one slot at a time, from slot i on, is splicing it in. */
  lemma SplicedStep(buf: seq<byte>, i: nat, s: seq<byte>)
    requires s != [] && i + |s| <= |buf|
    ensures Spliced(buf[i := s[0]], i + 1, s[1..]) == Spliced(buf, i, s)
  {
    var stored := buf[i := s[0]];
    assert stored[..i + 1] == buf[..i] + [s[0]];
    assert [s[0]] + s[1..] == s;
  }

  /**
   * A frame of bytes other than UART_EOS, followed by UART_EOS, is received
   * into the slots from `i` on, with the NUL after the mark; the other slots
   * keep their contents and the input is consumed exactly up to the mark.
   */
  lemma {:induction false} ReceiveFrame(buf: seq<byte>, f: seq<byte>, rest: seq<byte>, i: nat)
    requires UART_EOS !in f
    requires i + |f| + 2 <= |buf| <= 0x100
    ensures ReceiveUntilEos(buf, f + [UART_EOS] + rest, i) == Received(Spliced(buf, i, f + [UART_EOS, 0]), rest)
    decreases |f|
  {
    if f == [] {
      ReceiveMark(buf, rest, i);
      assert f + [UART_EOS] + rest == [UART_EOS] + rest;
    } else {
      var rx := f + [UART_EOS] + rest;
      var stored := buf[i := f[0]];
      assert rx[0] == f[0] && rx[1..] == f[1..] + [UART_EOS] + rest;
      ReceiveOrdinaryByte(buf, rx, i);
      ReceiveFrame(stored, f[1..], rest, i + 1);
      assert (f + [UART_EOS, 0])[1..] == f[1..] + [UART_EOS, 0];
      SplicedStep(buf, i, f + [UART_EOS, 0]);
    }
  }

  /** A byte other than the mark is stored and the receive goes on at the next slot. */
  lemma ReceiveOrdinaryByte(buf: seq<byte>, rx: seq<byte>, i: nat)
    requires rx != [] && rx[0] != UART_EOS && i + 1 < |buf| <= 0x100
    ensures ReceiveUntilEos(buf, rx, i) == ReceiveUntilEos(buf[i := rx[0]], rx[1..], i + 1)
  {
  }

  /** The end-of-string mark itself is stored, followed by the NUL. */
  lemma ReceiveMark(buf: seq<byte>, rest: seq<byte>, i: nat)
    requires i + 2 <= |buf| <= 0x100
    ensures ReceiveUntilEos(buf, [UART_EOS] + rest, i) == Received(Spliced(buf, i, [UART_EOS, 0]), rest)
  {
    var stored := buf[i := UART_EOS];
    assert ([UART_EOS] + rest)[1..] == rest;
    assert ReceiveUntilEos(buf, [UART_EOS] + rest, i) == Received(stored[i + 1 := 0], rest);
    SplicedStep(buf, i, [UART_EOS, 0]);
    SplicedStep(stored, i + 1, [0]);
    assert Spliced(stored[i + 1 := 0], i + 2, []) == stored[i + 1 := 0];
  }


  /**
   * The receive as written stops at the first slot after the start whose OLD
   * content is UART_EOS, whatever bytes arrive: the received bytes fill the
   * slots before it, it becomes NUL, and the input is consumed up to it.
   */
  lemma {:induction false} AsWrittenStopsAtStaleEos(buf: seq<byte>, f: seq<byte>, rest: seq<byte>, i: nat)
    requires f != [] && i + |f| < |buf| <= 0x100
    requires buf[i + |f|] == UART_EOS && forall j :: i < j < i + |f| ==> buf[j] != UART_EOS
    ensures ReceiveAsWritten(buf, f + rest, i) == Received(Spliced(buf, i, f + [0]), rest)
    decreases |f|
  {
    var stored := buf[i := f[0]];
    assert Spliced(stored, i + 1, f[1..] + [0]) == Spliced(buf, i, f + [0]) by {
      assert (f + [0])[1..] == f[1..] + [0];
      SplicedStep(buf, i, f + [0]);
    }
    if |f| == 1 {
      assert ReceiveAsWritten(buf, f + rest, i) == Received(stored[i + 1 := 0], rest) by {
        assert (f + rest)[1..] == rest;
        AsWrittenStep(buf, f + rest, i);
      }
      assert stored[i + 1 := 0] == Spliced(stored, i + 1, [0]) by {
        SplicedStep(stored, i + 1, [0]);
      }
    } else {
      assert ReceiveAsWritten(buf, f + rest, i) == ReceiveAsWritten(stored, f[1..] + rest, i + 1) by {
        assert (f + rest)[1..] == f[1..] + rest;
        AsWrittenStep(buf, f + rest, i);
      }
      assert ReceiveAsWritten(stored, f[1..] + rest, i + 1) == Received(Spliced(stored, i + 1, f[1..] + [0]), rest) by {
        assert stored[i + 1 + |f[1..]|] == UART_EOS;
        assert forall j :: i + 1 < j < i + 1 + |f[1..]| ==> stored[j] != UART_EOS;
        AsWrittenStopsAtStaleEos(stored, f[1..], rest, i + 1);
      }
    }
  }

  /** One step of the receive as written: the decision looks at the old content of the next slot. */
  lemma AsWrittenStep(buf: seq<byte>, rx: seq<byte>, i: nat)
    requires rx != [] && i + 1 < |buf| <= 0x100
    ensures ReceiveAsWritten(buf, rx, i)
         == if buf[i + 1] == UART_EOS then Received(buf[i := rx[0]][i + 1 := 0], rx[1..])
            else ReceiveAsWritten(buf[i := rx[0]], rx[1..], i + 1)
  {
  }


  /**
   * When no slot after the start holds UART_EOS, the receive as written never
   * stops inside the buffer: given enough input it runs off the end, whatever
   * bytes arrive, the received UART_EOS included.
   */
  lemma {:induction false} AsWrittenOverrunsWithoutStaleEos(buf: seq<byte>, rx: seq<byte>, i: nat)
    requires i < |buf| < 0x100
    requires forall j :: i < j < |buf| ==> buf[j] != UART_EOS
    requires |buf| - i <= |rx|
    ensures ReceiveAsWritten(buf, rx, i) == Overrun
    decreases |buf| - i
  {
    if i + 1 < |buf| {
      AsWrittenOverrunsWithoutStaleEos(buf[i := rx[0]], rx[1..], i + 1);
    }
  }

  /**
   * The discrepancy of the receive as written: into a cleared 7-byte buffer,
   * the frame "12345#" followed by the next SYNC_HANDSHAKE is not received as
   * a frame (the loop reads past the '#' and runs off the buffer), while the
   * receive that tests the byte just stored takes exactly the frame.
   */
  lemma AsWrittenMissesEos()
    ensures ReceiveAsWritten([0, 0, 0, 0, 0, 0, 0], [0x31, 0x32, 0x33, 0x34, 0x35, UART_EOS, SYNC_HANDSHAKE], 0) == Overrun
    ensures ReceiveUntilEos([0, 0, 0, 0, 0, 0, 0], [0x31, 0x32, 0x33, 0x34, 0x35, UART_EOS, SYNC_HANDSHAKE], 0)
         == Received([0x31, 0x32, 0x33, 0x34, 0x35, UART_EOS, 0], [SYNC_HANDSHAKE])
  {
    var f: seq<byte> := [0x31, 0x32, 0x33, 0x34, 0x35];
    AsWrittenOverrunsWithoutStaleEos([0, 0, 0, 0, 0, 0, 0], [0x31, 0x32, 0x33, 0x34, 0x35, UART_EOS, SYNC_HANDSHAKE], 0);
    assert [0x31, 0x32, 0x33, 0x34, 0x35, UART_EOS, SYNC_HANDSHAKE] == f + [UART_EOS] + [SYNC_HANDSHAKE];
    ReceiveFrame([0, 0, 0, 0, 0, 0, 0], f, [SYNC_HANDSHAKE], 0);
    assert Spliced([0, 0, 0, 0, 0, 0, 0], 0, f + [UART_EOS, 0]) == [0x31, 0x32, 0x33, 0x34, 0x35, UART_EOS, 0];
  }

  // ---------------------------------------------------------------------------
  // The port
  // ---------------------------------------------------------------------------

  class Port {
    /** Bytes the peer has sent that this node has not read yet. */
    var rx: seq<byte>
    /** Every byte this node has sent, in order. */
    var tx: seq<byte>

    constructor (script: seq<byte>)
      ensures rx == script && tx == []
    {
      rx, tx := script, [];
    }

    /** UART_sendByte: the byte joins the outgoing stream. */
    method SendByte(b: byte)
      modifies this
      ensures rx == old(rx) && tx == old(tx) + [b]
    {
      tx := tx + [b];
    }

    /** UART_receiveByte: the oldest unread byte, or `live == false` when none will come. */
    method ReceiveByte() returns (b: byte, live: bool)
      modifies this
      ensures tx == old(tx)
      ensures live <==> old(rx) != []
      ensures live ==> b == old(rx)[0] && rx == old(rx)[1..]
      ensures !live ==> rx == old(rx)
    {
      if rx == [] {
        return 0, false;
      }
      b, live := rx[0], true;
      rx := rx[1..];
    }

    /** The inline `while (UART_receiveByte() != SYNC_HANDSHAKE);` loop of both nodes. */
    method AwaitSync() returns (live: bool)
      modifies this
      ensures tx == old(tx)
      ensures live == SkipToSync(old(rx)).Some?
      ensures live ==> rx == SkipToSync(old(rx)).value
    {
      while true
        invariant tx == old(tx)
        invariant SkipToSync(rx) == SkipToSync(old(rx))
        decreases |rx|
      {
        var b, ok := ReceiveByte();
        if !ok {
          return false;
        }
        if b == SYNC_HANDSHAKE {
          return true;
        }
      }
    }

    /**
     * UART_sendString: sends the bytes of `str` before its first NUL, in order;
     * the NUL itself is not sent. The caller must supply a NUL.
     */
    method SendString(str: array<byte>)
      requires 0 in str[..]
      modifies this
      ensures rx == old(rx)
      ensures tx == old(tx) + str[..NulIndex(str[..])]
    {
      var end := NulIndex(str[..]);
      var i := 0;
      while str[i] != 0
        invariant 0 <= i <= end
        invariant rx == old(rx) && tx == old(tx) + str[..i]
        decreases end - i
      {
        SendByte(str[i]);
        i := i + 1;
      }
    }

    /**
     * UART_receiveString exactly as HMI_ECU/uart.c writes it: the exit test
     * reads the slot after the one just written. Where the C code would
     * access outside `str` the model stops with `live == false`.
     */
    method ReceiveString(str: array<byte>) returns (live: bool)
      modifies this, str
      ensures tx == old(tx)
      ensures var r := ReceiveAsWritten(old(str[..]), old(rx), 0);
        live == r.Received? && (live ==> str[..] == r.buffer && rx == r.rest)
    {
      var i: nat := 0;
      while true
        invariant tx == old(tx)
        invariant ReceiveAsWritten(str[..], rx, i) == ReceiveAsWritten(old(str[..]), old(rx), 0)
        decreases |rx|
      {
        var b, ok := ReceiveByte();
        if !ok || i >= str.Length {
          return false;
        }
        str[i] := b;
        i := NextIndex(i);
        if i >= str.Length {
          return false;
        }
        if str[i] == UART_EOS {
          str[i] := 0;
          return true;
        }
      }
    }

    /**
     * The string receive the control node uses: the exit test reads the byte
     * just stored, so the buffer ends with the received UART_EOS and a NUL.
     */
    method ReceiveStringUntilEos(str: array<byte>) returns (live: bool)
      modifies this, str
      ensures tx == old(tx)
      ensures var r := ReceiveUntilEos(old(str[..]), old(rx), 0);
        live == r.Received? && (live ==> str[..] == r.buffer && rx == r.rest)
    {
      var i: nat := 0;
      while true
        invariant tx == old(tx)
        invariant ReceiveUntilEos(str[..], rx, i) == ReceiveUntilEos(old(str[..]), old(rx), 0)
        decreases |rx|
      {
        var b, ok := ReceiveByte();
        if !ok || i >= str.Length {
          return false;
        }
        str[i] := b;
        i := NextIndex(i);
        if b == UART_EOS {
          if i >= str.Length {
            return false;
          }
          str[i] := 0;
          return true;
        }
      }
    }
  }
}
