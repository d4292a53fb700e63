# Door lock: HMI_ECU and CONTROL_ECU in Dafny

The system is a door lock built from two ATmega16 nodes joined by a UART.

- **HMI_ECU**, the front node, reads a keypad and drives an LCD.
- **CONTROL_ECU**, the back node, holds the password in an external I2C EEPROM and drives the door motor and the buzzer.

Both nodes run the same four-mode state machine: FIRST_BOOT, NORMAL_BOOT_LOCKED, NORMAL_BOOT_MAIN and ALARM_MODE. They keep their modes in step by exchanging single control bytes. Every exchange begins with SYNC_HANDSHAKE (0xED). A password travels as five characters followed by `#`.

The model has one module per source file, and two pure modules beside the two node programs.

- `SystemModes` (system_modes.dfy) holds the shared constants and the `byte` type. `Options` (options.dfy) is an Option type with failure propagation.
- `Uart` (uart.dfy) has:
  - the baud-rate register computation;
  - skipping serial input up to the next SYNC_HANDSHAKE;
  - `UART_receiveString`, both as written and corrected;
  - a `Port` class: a lossless FIFO channel with `rx` (bytes still to arrive) and `tx` (bytes sent).
- `ExternalEeprom` (external_eeprom.dfy) models the EEPROM driver over a modelled TWI bus:
  - an oracle `status: nat -> byte` answers each `TWI_getStatus` poll;
  - a log records the frames on the bus;
  - a 2048-cell memory is programmed when a write frame ends.
  There are pure specification functions and an `EepromBus` class whose methods are proved against them.
- `ControlModel` (control_model.dfy) is the back node as pure functions over a `Ctrl` state. The state holds:
  - the mode, `g_password`, the two capture buffers and `timer_ticks`;
  - the serial input;
  - one trace of events (bytes sent, motor moves, buzzer changes and delays, in order);
  - the EEPROM bus.
- `ControlMain` (control_main.dfy) is the back node as a class. Its globals are fields, its buffers are arrays, and every function and mode case is a method proved against `ControlModel`.
- `HmiModel` (hmi_model.dfy) and `HmiMain` (hmi_main.dfy) do the same for the front node. The keypad is a script of presses.
- `Lockstep` (lockstep.dfy) runs both nodes over one lossless link. It proves that one pass of each super-loop, each fed the other's bytes, leaves the two nodes in the same mode. It also proves that each node reads exactly what the other sent.

A read that would block forever makes a specification function return `None` and a method return `live == false`. Examples are a missing SYNC_HANDSHAKE, a key that is never pressed, and a string that overruns its buffer (undefined behaviour in C).

Two behaviours of the code are easy to miss. The model follows the code in both:

- **Delay length.** The delay primitive does not wait for `timer_ticks` timer periods. `Control_Delay_Callback` sets `delay_over` on the `(timer_ticks + 1)`-th compare match, so `delay_sec(n)` spans n + 1 periods.
- **Request byte in the main menu.** The back node's main menu treats every request byte other than OPEN_DOOR_REQUEST as a change-password request, not only CHANGE_PASS_REQUEST.

## Model

| member | source | states |
|---|---|---|
| SystemModes.PasswordLayout | CONTROL_ECU/system_modes.h:17-19 | seven slots are five password characters plus `#` and NUL; three tries |
| SystemModes.ModeCodesDistinct | CONTROL_ECU/system_modes.h:24-30 | the four mode codes are pairwise distinct and differ from both request codes |
| SystemModes.SyncIsUnambiguous | CONTROL_ECU/system_modes.h:20-33 | SYNC_HANDSHAKE is no mode, request, verdict, `#` or ASCII digit, so a wait for it cannot stop on any other protocol byte |
| SystemModes.ErrorAliasesLocked | CONTROL_ECU/system_modes.h:25-33 | ERROR has the same code as NORMAL_BOOT_LOCKED; SUCCESS is no mode |
| Uart.UbrrValue | HMI_ECU/uart.c:96 | the register value for a baud rate fits in 16 bits |
| Uart.UbrrIsLargestFittingDivisor | HMI_ECU/uart.c:96 | (UBRR + 1) · 8 · baud is the largest such multiple not above F_CPU = 8 MHz, which is the integer division the code does |
| Uart.UbrrRegisters | HMI_ECU/uart.c:100-101 | UBRRH and UBRRL together give back the 16-bit value |
| Uart.UbrrAt9600 | HMI_ECU/uart.c:96-101 | at 9600 baud UBRR is 103, with UBRRH 0 and UBRRL 103 |
| Uart.UbrrTruncatesAt1Baud | HMI_ECU/uart.c:96 | the `(uint16)` cast wraps a value above 16 bits (1 baud) modulo 2^16 |
| Uart.SkipToSync | HMI_ECU/hmi_main.c:182-183 | the wait succeeds exactly when SYNC_HANDSHAKE arrives; what remains is everything after its first occurrence, and nothing before it was a SYNC_HANDSHAKE |
| Uart.SkipToSyncPast | CONTROL_ECU/control_main.c:140-141 | noise without SYNC_HANDSHAKE, then SYNC_HANDSHAKE: the wait consumes exactly that much |
| Uart.Port.SendByte | HMI_ECU/uart.c:103-110 | appends the byte to what was sent; the input is untouched |
| Uart.Port.ReceiveByte | HMI_ECU/uart.c:111-118 | takes the first pending byte, or blocks (`live` false) when there is none |
| Uart.Port.AwaitSync | HMI_ECU/hmi_main.c:182-183 | the receive loop consumes input exactly as SkipToSync says |
| Uart.NulIndex | HMI_ECU/uart.c:123 | the first NUL in a buffer: a NUL is there and none comes before it |
| Uart.Port.SendString | HMI_ECU/uart.c:120-128 | sends the buffer up to, and not including, its first NUL |
| Uart.NextIndex | HMI_ECU/uart.c:130-134 | the `uint8` index wraps at 256 |
| Uart.Port.ReceiveString | HMI_ECU/uart.c:129-138 | the loop as written: it stores each byte and then tests the next, not yet written, slot against `#` |
| Uart.AsWrittenStopsAtStaleEos | HMI_ECU/uart.c:132-137 | as written, the receive ends one slot before a `#` already in the buffer, whatever was received |
| Uart.AsWrittenOverrunsWithoutStaleEos | HMI_ECU/uart.c:132-135 | as written, with no `#` left in the buffer past the start, the receive runs off the end of the buffer |
| Uart.AsWrittenStep | HMI_ECU/uart.c:132-137 | proof step (one unfolding): as written: one iteration stores the byte; the string ends there, with NUL overwriting the next slot, exactly when that next slot already held `#` |
| Uart.AsWrittenMissesEos | HMI_ECU/uart.c:129-138 | "12345#" into a zeroed 7-byte buffer: the as-written loop overruns, while the corrected one stores "12345#", NUL and leaves SYNC_HANDSHAKE unread |
| Uart.ReceiveUntilEos | HMI_ECU/uart.c:129-138 | the corrected receive (test the byte just received) keeps the buffer's length |
| Uart.ReceiveFrame | HMI_ECU/uart.c:129-138 | corrected receive: a frame without `#`, then `#`: the buffer gets the frame, `#` and NUL in place, the rest of the input stays unread |
| Uart.ReceiveOrdinaryByte | HMI_ECU/uart.c:130-134 | proof step (one unfolding): corrected receive: a byte other than `#` is stored at the index and reception goes on at the next slot |
| Uart.ReceiveMark | HMI_ECU/uart.c:129-138 | proof step (one unfolding): corrected receive: a `#` is stored, NUL follows it, and everything after it stays unread |
| Uart.Port.ReceiveStringUntilEos | HMI_ECU/uart.c:129-138 | the corrected loop over an array, proved against ReceiveUntilEos |
| ExternalEeprom.DeviceSelect | CONTROL_ECU/external_eeprom.c:31 | the device-select byte is 0xA_ with R/W = 0 and carries address bits A8-A10 |
| ExternalEeprom.DeviceCellDecodes | CONTROL_ECU/external_eeprom.c:29-39 | select byte plus low address byte address cell `addr mod 2048` |
| ExternalEeprom.PasswordAddressBytes | CONTROL_ECU/control_main.c:36 | the password address 0x0320 selects device 0xA6 (read 0xA7) and word 0x20 |
| ExternalEeprom.WriteByteAborts | CONTROL_ECU/external_eeprom.c:22-51 | writeByte polls the status after each of its four steps and stops at the first unexpected one with ERROR and no STOP; SUCCESS exactly when all four were as expected, and only then is the cell programmed |
| ExternalEeprom.EepromBus.WriteByte | CONTROL_ECU/external_eeprom.c:22-51 | the driver method, proved against WriteByteSpec |
| ExternalEeprom.ReadByteSpec | CONTROL_ECU/external_eeprom.c:52-92 | a read never changes the memory |
| ExternalEeprom.ReadByteAborts | CONTROL_ECU/external_eeprom.c:52-92 | readByte's six steps and polls; ERROR at the first unexpected status; the out-parameter gets the addressed cell only once the NACK read was issued |
| ExternalEeprom.EepromBus.ReadByte | CONTROL_ECU/external_eeprom.c:52-92 | the driver method, proved against ReadByteSpec |
| ExternalEeprom.WriteStringPrefix | CONTROL_ECU/external_eeprom.c:94-102 | writeString programs a prefix of the string, in order, and reports SUCCESS exactly when the prefix is the whole string |
| ExternalEeprom.WriteStringSuccess | CONTROL_ECU/external_eeprom.c:94-102 | a SUCCESS writeString has programmed every byte |
| ExternalEeprom.EepromBus.WriteString | CONTROL_ECU/external_eeprom.c:94-102 | the loop, proved against WriteStringFrom |
| ExternalEeprom.ReadStringPrefix | CONTROL_ECU/external_eeprom.c:103-111 | readString fills a prefix with the stored bytes, leaves later slots as they were, and reports SUCCESS exactly when the prefix is the whole size |
| ExternalEeprom.ReadStringSuccess | CONTROL_ECU/external_eeprom.c:103-111 | a SUCCESS readString delivers the stored bytes |
| ExternalEeprom.EepromBus.ReadString | CONTROL_ECU/external_eeprom.c:103-111 | the loop, proved against ReadStringFrom |
| ExternalEeprom.EepromBus.constructor | CONTROL_ECU/external_eeprom.c:22-111 | a bus with the given memory contents, no polls and an empty log |
| ExternalEeprom.CommittedAt | CONTROL_ECU/external_eeprom.c:94-102 | after the string is committed, byte i of the string sits at address addr + i |
| ExternalEeprom.StoredCommitted | CONTROL_ECU/external_eeprom.c:94-111 | reading back |data| bytes at the address of a committed string gives the string |
| ExternalEeprom.WriteThenReadRoundTrip | CONTROL_ECU/external_eeprom.c:94-111 | a successful writeString followed by a successful readString at the same address gives back the string written |
| ExternalEeprom.CellsDistinct | CONTROL_ECU/external_eeprom.c:96-97 | the bytes of a string under 256 long land in distinct cells |
| ControlModel.CallbacksCount | CONTROL_ECU/control_main.c:54-65 | the first n callbacks with `timer_ticks` = n only count `tick` up and do not end the delay |
| ControlModel.DelaySpansPeriods | CONTROL_ECU/control_main.c:54-65 | the (n + 1)-th callback ends the delay and resets `tick`, so a delay of n spans n + 1 periods |
| ControlMain.ControlNode.OnTimerTick | CONTROL_ECU/control_main.c:54-65 | the callback: `tick` reset and `delay_over` set when it equals `timer_ticks`, else incremented |
| ControlMain.ControlNode.AwaitDelayOver | CONTROL_ECU/control_main.c:88-95 | polling `delay_over` with the callback firing once per period takes exactly `timer_ticks` + 1 periods |
| ControlMain.TimerTicks | CONTROL_ECU/control_main.c:82-83 | the rounded tick count for `a_sec` seconds at 8 MHz, prescaler 1024, top 7812, is `a_sec` itself |
| ControlMain.ControlNode.DelaySec | CONTROL_ECU/control_main.c:75-97 | sets `timer_ticks`, waits seconds + 1 periods, records the delay; the rest of the state is unchanged |
| ControlMain.ControlNode.Send | CONTROL_ECU/control_main.c:146-147 | UART_sendByte: the byte is appended to the event trace and to what the port sent |
| ControlMain.ControlNode.SendReply | CONTROL_ECU/control_main.c:152-154 | a verdict followed by a mode is sent, and the mode field takes the sent mode |
| ControlMain.ControlNode.RotateMotor | CONTROL_ECU/control_main.c:248-260 | a motor command is recorded in the trace and nothing else changes |
| ControlMain.ControlNode.SetBuzzer | CONTROL_ECU/control_main.c:274-276 | a buzzer change is recorded in the trace and nothing else changes |
| ControlMain.ControlNode.AwaitSync | CONTROL_ECU/control_main.c:140-141 | the node waits for SYNC_HANDSHAKE, consuming input as SkipToSync says |
| ControlModel.Round | CONTROL_ECU/control_main.c:140-142 | one try changes only the capture buffer (same length) and the input |
| ControlMain.ControlNode.CaptureAttempt | CONTROL_ECU/control_main.c:140-142 | sync then a string into buffer 1, proved against Round |
| ControlMain.PassCompare | CONTROL_ECU/control_main.c:102-115 | true exactly when the first five slots agree |
| ControlModel.MatchesIgnoresTail | CONTROL_ECU/control_main.c:102-115 | a comparison depends on the five effective characters only, never on `#` or NUL |
| ControlMain.ControlNode.SetPassword | CONTROL_ECU/control_main.c:120-126 | copies five bytes into `g_password` and writes them to the EEPROM, proved against SetPasswordSpec |
| ControlModel.SetPasswordStores | CONTROL_ECU/control_main.c:120-126 | set_password changes only the password and the bus: the first five slots take the source's, the last two stay, and the EEPROM holds a prefix of them (all five on SUCCESS) |
| ControlModel.ConfirmMatchStep | CONTROL_ECU/control_main.c:144-148 | proof step (one unfolding): a matching capture ends the authentication with mode `target`, SUCCESS and `target` sent, result true |
| ControlModel.ConfirmMissStep | CONTROL_ECU/control_main.c:149-155 | proof step (one unfolding): a wrong capture before the last try sets LOCKED, sends ERROR and LOCKED and goes on to the next try |
| ControlModel.ConfirmLastMiss | CONTROL_ECU/control_main.c:139-161 | proof step (one unfolding): a wrong third capture gives mode ALARM, ERROR and ALARM sent, result false |
| ControlModel.ConfirmExhausted | CONTROL_ECU/control_main.c:157-161 | proof step (one unfolding): once the tries are used up, ERROR and ALARM are sent, the mode becomes ALARM, and the result is false |
| ControlModel.ConfirmBlocked | CONTROL_ECU/control_main.c:140-142 | proof step (one unfolding): a try that never receives its password blocks the whole authentication |
| ControlModel.ConfirmKeeps | CONTROL_ECU/control_main.c:136-162 | an authentication changes neither the password, the second buffer, the EEPROM nor `timer_ticks`; it ends in `target` when it reports true and in ALARM otherwise |
| ControlModel.ConfirmSuccessReplies | CONTROL_ECU/control_main.c:136-162 | a successful authentication sends k ERROR, LOCKED pairs (k < 3) and then SUCCESS and `target`, and nothing else |
| ControlModel.ConfirmAlarmReplies | CONTROL_ECU/control_main.c:136-162 | a failed authentication sends two ERROR, LOCKED pairs and then ERROR and ALARM: three tries in all, the first one included |
| ControlModel.LockedPairsHaveNoSync | CONTROL_ECU/control_main.c:146-160 | no authentication reply contains SYNC_HANDSHAKE |
| ControlMain.ControlNode.AttemptRound | CONTROL_ECU/control_main.c:139-156 | one pass of the for loop, proved against the remaining tries of ConfirmFrom |
| ControlMain.ControlNode.ConfirmPasswordAttempts | CONTROL_ECU/control_main.c:136-162 | the loop and its alarm tail, proved against ConfirmFrom |
| ControlMain.ControlNode.CapturePasswords | CONTROL_ECU/control_main.c:214-221 | sync, capture into buffer 1, sync, capture into buffer 2, proved against Captures |
| ControlModel.Captures | CONTROL_ECU/control_main.c:214-221 | the captures change only the two buffers and the input, and keep the buffers' length |
| ControlModel.FirstBootMatchStep | CONTROL_ECU/control_main.c:225-229 | proof step (one unfolding): equal captures: SYNC_HANDSHAKE and SUCCESS are sent, the mode becomes MAIN, then buffer 1 is stored as the password |
| ControlModel.FirstBootMissStep | CONTROL_ECU/control_main.c:231-234 | proof step (one unfolding): different captures: SYNC_HANDSHAKE and ERROR are sent and nothing else changes |
| ControlModel.FirstBootOutcome | CONTROL_ECU/control_main.c:213-235 | after first boot the mode is MAIN exactly when the captures match. On a match the trace gains SYNC, SUCCESS and the password and EEPROM take buffer 1. On a miss the trace gains SYNC, ERROR and mode, password and EEPROM stay |
| ControlMain.ControlNode.AcceptPassword | CONTROL_ECU/control_main.c:226-229 | the match branch as a method |
| ControlMain.ControlNode.FirstBoot | CONTROL_ECU/control_main.c:213-235 | the FIRST_BOOT case, proved against FirstBootSpec |
| ControlModel.DoorCycleTrace | CONTROL_ECU/control_main.c:247-262 | the door cycle's exact event order: CW, 15 s, STOP, 3 s, SYNC_HANDSHAKE, ACW, 15 s, STOP, SYNC_HANDSHAKE; only the trace and `timer_ticks` change |
| ControlModel.DoorCycleSends | CONTROL_ECU/control_main.c:247-262 | the door cycle sends exactly two bytes, both SYNC_HANDSHAKE |
| ControlMain.ControlNode.OperateDoor | CONTROL_ECU/control_main.c:247-262 | the door cycle as a method, proved against DoorCycle |
| ControlMain.ControlNode.MainMenu | CONTROL_ECU/control_main.c:240-270 | the MAIN case: sync, request byte, authentication, and the door cycle after a successful open request; proved against MainSpec |
| ControlModel.AlarmTrace | CONTROL_ECU/control_main.c:272-283 | the alarm: buzzer on, 60 s, buzzer off, then SYNC_HANDSHAKE and MAIN sent; the mode becomes MAIN and nothing else changes |
| ControlMain.ControlNode.Alarm | CONTROL_ECU/control_main.c:272-283 | the ALARM case, proved against AlarmSpec |
| ControlModel.StepLeavesLocked | CONTROL_ECU/control_main.c:209-284 | a pass of the super-loop from a valid mode ends in a valid mode and never in LOCKED |
| ControlModel.Initial | CONTROL_ECU/control_main.c:40-45 | reset state: FIRST_BOOT, zeroed seven-slot buffers |
| ControlMain.ControlNode.constructor | CONTROL_ECU/control_main.c:40-45 | the globals at reset, equal to ControlModel.Initial |
| ControlMain.ControlNode.RunMode | CONTROL_ECU/control_main.c:210-284 | the switch on HMI_status, proved against ControlModel.Step |
| HmiModel.KeyChar | HMI_ECU/hmi_main.c:51-53 | a key below 10 becomes its ASCII digit and any other key is kept, so no stored character is NUL |
| HmiModel.KeyChars | HMI_ECU/hmi_main.c:45-56 | the typed characters, one per key, none of them NUL |
| HmiModel.KeyCharIsEosOnlyForEosKey | HMI_ECU/hmi_main.c:51-53 | a typed character is `#` exactly when the key was `#` |
| HmiMain.HmiNode.NextKey | HMI_ECU/hmi_main.c:46 | KEYPAD_getPressedKey takes the next scripted press, or blocks |
| HmiMain.HmiNode.EnterPassword | HMI_ECU/hmi_main.c:45-56 | five presses fill the first five slots with their characters; the `#` and NUL slots are untouched |
| HmiModel.SendPasswordSpec | HMI_ECU/hmi_main.c:43-61 | wire format: SYNC_HANDSHAKE, the five typed characters and `#`; the buffer holds them followed by `#` and NUL; it needs exactly five presses |
| HmiMain.HmiNode.GetSendPasswordSync | HMI_ECU/hmi_main.c:43-61 | getSendPasswordSync, proved against SendPasswordSpec |
| HmiModel.AttemptSpec | HMI_ECU/hmi_main.c:133-145 | attemptPassword ends only with a nonzero match byte or mode ALARM; it only appends to what was sent |
| HmiModel.AttemptStops | HMI_ECU/hmi_main.c:140-143 | proof step (one unfolding): a nonzero match byte or ALARM ends the loop after one password, adopting both bytes |
| HmiModel.AttemptRepeats | HMI_ECU/hmi_main.c:140-143 | proof step (one unfolding): a zero match byte with a mode other than ALARM sends another password |
| HmiMain.HmiNode.AttemptRound | HMI_ECU/hmi_main.c:134-143 | one pass of the do-while, proved against AttemptSpec |
| HmiMain.HmiNode.AttemptPassword | HMI_ECU/hmi_main.c:133-145 | the do-while, proved against AttemptSpec |
| HmiModel.FirstBootOutcome | HMI_ECU/hmi_main.c:174-190 | first boot sends two frames of the next ten presses, waits for SYNC_HANDSHAKE and a verdict, and moves to MAIN exactly when the verdict is nonzero (else stays in FIRST_BOOT); `password_match` ends at 0 |
| HmiMain.HmiNode.FirstBoot | HMI_ECU/hmi_main.c:174-190 | the FIRST_BOOT case, proved against FirstBootSpec |
| HmiModel.MenuKey | HMI_ECU/hmi_main.c:198-200 | the first `+` or `-` press, with every earlier press skipped; none when no such press comes |
| HmiMain.HmiNode.AwaitMenuKey | HMI_ECU/hmi_main.c:198-200 | the key loop, proved against MenuKey |
| HmiModel.MainSkipsOtherKeys | HMI_ECU/hmi_main.c:198-200 | a press other than `+` and `-` in front of the script changes nothing in the main menu |
| HmiModel.MainRequest | HMI_ECU/hmi_main.c:195-246 | the main menu first sends SYNC_HANDSHAKE and OPEN_DOOR_REQUEST after `+`, or CHANGE_PASS_REQUEST after `-` |
| HmiModel.OpenDoorSpec | HMI_ECU/hmi_main.c:207-232 | the `+` branch sends SYNC_HANDSHAKE and OPEN_DOOR_REQUEST before anything else |
| HmiMain.HmiNode.RequestOpenDoor | HMI_ECU/hmi_main.c:207-232 | request, attemptPassword, and two SYNC_HANDSHAKE waits unless the mode is ALARM; proved against OpenDoorSpec |
| HmiModel.ChangePassSpec | HMI_ECU/hmi_main.c:236-245 | the `-` branch sends SYNC_HANDSHAKE and CHANGE_PASS_REQUEST before anything else |
| HmiMain.HmiNode.RequestChangePass | HMI_ECU/hmi_main.c:236-245 | request then attemptPassword, proved against ChangePassSpec |
| HmiMain.HmiNode.MainMenu | HMI_ECU/hmi_main.c:195-246 | the MAIN case, proved against MainSpec |
| HmiModel.AlarmAdoptsMode | HMI_ECU/hmi_main.c:248-254 | the alarm skips noise up to SYNC_HANDSHAKE and adopts the very next byte as its mode, changing nothing else |
| HmiModel.AlarmStep | HMI_ECU/hmi_main.c:251-253 | proof step (one unfolding): the byte after the first SYNC_HANDSHAKE becomes the mode |
| HmiMain.HmiNode.Alarm | HMI_ECU/hmi_main.c:248-254 | the ALARM case, proved against AlarmSpec |
| HmiModel.Initial | HMI_ECU/hmi_main.c:147-153 | FIRST_BOOT, `password_match` 0, nothing sent, five zero slots then `#` and NUL |
| HmiMain.HmiNode.constructor | HMI_ECU/hmi_main.c:147-153 | the buffer gets `#` and NUL in its last two slots before the super-loop |
| HmiMain.HmiNode.RunMode | HMI_ECU/hmi_main.c:171-255 | the switch on HMI_status, proved against HmiModel.Step |
| Lockstep.FrameLands | HMI_ECU/hmi_main.c:58-59 | a frame the front node sends lands in the back node's capture buffer as the five typed characters, `#` and NUL |
| Lockstep.RoundOnKeys | CONTROL_ECU/control_main.c:140-144 | one back-node try fed a frame captures it, and compares equal exactly when the typed characters are the stored password |
| Lockstep.KeysForRoundsOnMatch | HMI_ECU/hmi_main.c:133-145 | five presses that type the stored password are enough for an authentication: a first-try match needs no further presses |
| Lockstep.KeysForRoundsByLength | HMI_ECU/hmi_main.c:43-61 | five key presses for every try left are enough for the front node to finish an authentication, whatever the tries give |
| Lockstep.AuthenticateMatch | CONTROL_ECU/control_main.c:144-148 | proof step (one unfolding): in the joint exchange, a typed password equal to the stored one gets SUCCESS and `target` |
| Lockstep.AuthenticateMiss | CONTROL_ECU/control_main.c:149-155 | proof step (one unfolding): in the joint exchange, a wrong password before the last try gets ERROR and LOCKED, then the rest of the exchange follows |
| Lockstep.AuthenticateLastMiss | CONTROL_ECU/control_main.c:157-161 | proof step (one unfolding): in the joint exchange, a wrong password at the last try gets ERROR and ALARM |
| Lockstep.ControlLastRound | CONTROL_ECU/control_main.c:140-161 | a matching or last try on the back node produces the exchange's replies and outcome |
| Lockstep.ControlMissRound | CONTROL_ECU/control_main.c:149-155 | a wrong try before the last on the back node produces the exchange's replies and outcome |
| Lockstep.HmiLastRound | HMI_ECU/hmi_main.c:133-145 | the front node's round that gets a verdict ending the loop sends the exchange's frames and ends in its mode |
| Lockstep.HmiMissRound | HMI_ECU/hmi_main.c:133-145 | the front node's round that gets ERROR and LOCKED goes on and still follows the exchange |
| Lockstep.FirstBootOnCaptures | CONTROL_ECU/control_main.c:223-234 | after the captures, the back node sends SYNC_HANDSHAKE and the verdict, and reaches MAIN exactly on SUCCESS |
| Lockstep.PasswordStoreKeepsTrace | CONTROL_ECU/control_main.c:120-126 | storing the password sends nothing, reads nothing and keeps the mode |
| Lockstep.MainOpenStep | CONTROL_ECU/control_main.c:243-264 | proof step (one unfolding): the back node's MAIN case on an open request is the authentication towards MAIN, followed by the door cycle when it succeeds |
| Lockstep.MainChangeStep | CONTROL_ECU/control_main.c:243-269 | the back node's MAIN case on any request byte other than OPEN_DOOR_REQUEST (CHANGE_PASS_REQUEST or any other) is the authentication towards FIRST_BOOT |
| Lockstep.OpenDoorUnlocks | HMI_ECU/hmi_main.c:207-232 | after a successful authentication the front node waits for the two door-cycle SYNC_HANDSHAKEs |
| Lockstep.OpenDoorAlarms | HMI_ECU/hmi_main.c:207-232 | proof step (one unfolding): after a failed authentication (ALARM) the front node waits for nothing more |
| Lockstep.DoorCycleAfter | CONTROL_ECU/control_main.c:247-262 | after a successful open request, the door cycle adds its two SYNC_HANDSHAKEs to the replies and keeps MAIN |
| Lockstep.ControlAuthenticates | CONTROL_ECU/control_main.c:136-162 | fed the frames of successive groups of five key presses, confirmPasswordAttempts reads exactly those frames, sends exactly the replies of the joint exchange, keeps the password and ends in `target` or ALARM with the exchange's verdict |
| Lockstep.HmiAuthenticates | HMI_ECU/hmi_main.c:133-145 | fed those replies, attemptPassword reads exactly them, sends exactly the joint exchange's frames, uses up its key presses and ends in the same mode with `password_match` SUCCESS or ERROR |
| Lockstep.ControlFirstBoot | CONTROL_ECU/control_main.c:213-235 | the back node fed the two first-boot frames sends SYNC_HANDSHAKE and the verdict that the front node's keys determine |
| Lockstep.HmiFirstBoot | HMI_ECU/hmi_main.c:174-190 | the front node fed that verdict ends in MAIN on SUCCESS and FIRST_BOOT on ERROR |
| Lockstep.ControlOpenDoor | CONTROL_ECU/control_main.c:243-264 | the back node fed an open request and the frames replies and, on success, runs the door cycle with its two SYNC_HANDSHAKEs |
| Lockstep.HmiOpenDoor | HMI_ECU/hmi_main.c:207-232 | the front node fed those replies ends in the same mode with nothing left unread |
| Lockstep.ControlChangePass | CONTROL_ECU/control_main.c:265-269 | the change-password request ends in FIRST_BOOT or ALARM with the exchange's replies sent |
| Lockstep.HmiChangePass | HMI_ECU/hmi_main.c:236-245 | the front node's `-` branch fed those replies ends in the same mode |
| Lockstep.ControlSide | CONTROL_ECU/control_main.c:209-284 | for every mode, one back-node pass fed the front node's bytes reads exactly them and sends the bytes the front node expects |
| Lockstep.HmiSide | HMI_ECU/hmi_main.c:170-255 | for every mode, one front-node pass fed the back node's bytes reads exactly them and sends the bytes the back node expects |
| Lockstep.Lockstep | HMI_ECU/hmi_main.c:170-255 | two nodes in the same mode, each fed the other's bytes over a lossless link, both complete one pass, end in the same mode again, and leave no byte of the exchange unread |

## Left out

- Floating point: `delay_sec` computes `timer_ticks` with `float` and `round`. ControlMain.TimerTicks computes it in exact integer arithmetic. For every `uint8` second count the float result is the same (the ratio is 8e6 / (1024 · 7812) ≈ 1.000064).
- Timer1, `Timer_resetTimerValue`, `Timer_resume` and `Timer_stop` (timer.c) are not part of this model. The callback is called once per period by the method that waits. Interrupts arriving at other moments are not modelled.
- TWI (twi.c) is not part of this model. Each `TWI_getStatus` answer comes from an oracle function of the poll count. The device commits a write when the frame's STOP is sent.
- CONTROL_ECU/uart.c is not part of this model. Its `UART_receiveString` is taken to be the corrected receive (see Findings). Only with the corrected receive does a seven-slot buffer hold five characters, `#` and NUL, which is the layout system_modes.h:17 describes.
- Motor and buzzer drivers (dc_motor.c, buzzer.c) are kept only as trace events.
- The LCD, keypad scanning, `_delay_ms` and the menu prints are left out. Key presses are a script.
- Interrupt service routines and UART callbacks are left out.
- The super-loops run forever. The model covers one pass (`RunMode`, `Step`) and proves properties of that pass.
- Lockstep.Lockstep: requires that no key press is `#` (UART_EOS). In the source, a typed `#` ends the back node's capture early, and the rest of that frame is then read as noise. The lemma also requires enough key presses for the tries that actually run: five for a try, and five more only after a wrong try that is not the third. With fewer, the front node blocks forever at the keypad, as the source does.
- Lockstep.ControlSide and Lockstep.HmiSide: state the bytes read and sent, the mode reached and the keys used. They do not state the back node's password, EEPROM or motor events; ControlModel's lemmas state those per mode.
- ControlModel.StepLeavesLocked: states only that LOCKED is always left. Each mode's exact outcome is in the per-mode lemmas.

## Findings

| source | as written | input that shows it | evidently intended | confidence | as-written member | corrected member |
|---|---|---|---|---|---|---|
| HMI_ECU/uart.c:132-135 | after storing a byte at `str[i]` and incrementing `i`, the loop tests `str[i]`, a slot not yet written, against `#` | a zeroed 7-byte buffer receiving `31 32 33 34 35 23 ED` ("12345#", then SYNC_HANDSHAKE) never sees `#` in the slot it tests, keeps reading past the frame and writes beyond the buffer | test the byte just received, `str[i-1]`, so the `#` ends the string and a NUL follows it | not executed | Uart.AsWrittenMissesEos | Uart.ReceiveFrame |
