/**
 * The protocol vocabulary shared by the HMI node and the control node:
 * the password buffer layout, the retry bound, the synchronisation byte,
 * the end-of-string mark, the four mode codes, the two request codes and
 * the two reply codes.
 */
module SystemModes {

  /** An unsigned 8-bit value, the type of every byte on the serial link. */
  type byte = x: int | 0 <= x < 0x100

  /** Slots of a password buffer: 5 characters, the end-of-string mark and a NUL. */
  const PASSWORD_LENGTH: nat := 7
  /** The characters of a password that are compared and stored. */
  const EFFECTIVE_LENGTH: nat := PASSWORD_LENGTH - 2
  /** Rounds of an authentication exchange; the last failing one raises the alarm. */
  const MAX_PASSWORD_TRIES: nat := 3
  /** The byte a receiver waits for before it interprets anything else. */
  const SYNC_HANDSHAKE: byte := 0xED
  /** The end-of-string mark '#' that closes a password on the wire. */
  const UART_EOS: byte := 0x23

  const MODE_FIRST_BOOT: byte := 0xFF
  const MODE_NORMAL_BOOT_LOCKED: byte := 0x00
  const MODE_NORMAL_BOOT_MAIN: byte := 0x02
  const MODE_ALARM_MODE: byte := 0x03

  const OPEN_DOOR_REQUEST: byte := 0x04
  const CHANGE_PASS_REQUEST: byte := 0x05

  const ERROR: byte := 0x00
  const SUCCESS: byte := 0x01

  /** The ASCII digits '0'..'9', which is what the HMI node sends for digit keys. */
  predicate IsAsciiDigit(b: byte) {
    0x30 <= b <= 0x39
  }

  /** The four codes a node's mode variable is meant to hold. */
  predicate IsMode(b: byte) {
    b == MODE_FIRST_BOOT || b == MODE_NORMAL_BOOT_LOCKED || b == MODE_NORMAL_BOOT_MAIN || b == MODE_ALARM_MODE
  }

  /** A password buffer holds five effective characters, the end-of-string mark and a NUL. */
  lemma PasswordLayout()
    ensures EFFECTIVE_LENGTH == 5 && PASSWORD_LENGTH == EFFECTIVE_LENGTH + 2
    ensures MAX_PASSWORD_TRIES == 3
  {
  }

  /** The mode codes are pairwise distinct and none of them is a request code. */
  lemma ModeCodesDistinct()
    ensures MODE_FIRST_BOOT != MODE_NORMAL_BOOT_LOCKED && MODE_FIRST_BOOT != MODE_NORMAL_BOOT_MAIN
    ensures MODE_FIRST_BOOT != MODE_ALARM_MODE && MODE_NORMAL_BOOT_LOCKED != MODE_NORMAL_BOOT_MAIN
    ensures MODE_NORMAL_BOOT_LOCKED != MODE_ALARM_MODE && MODE_NORMAL_BOOT_MAIN != MODE_ALARM_MODE
    ensures forall m :: IsMode(m) ==> m != OPEN_DOOR_REQUEST && m != CHANGE_PASS_REQUEST
    ensures OPEN_DOOR_REQUEST != CHANGE_PASS_REQUEST
  {
  }

  /**
   * The synchronisation byte can be mistaken for no other protocol byte:
   * not a mode, a request, a reply code, the end-of-string mark or a digit.
   */
  lemma SyncIsUnambiguous()
    ensures !IsMode(SYNC_HANDSHAKE)
    ensures SYNC_HANDSHAKE != OPEN_DOOR_REQUEST && SYNC_HANDSHAKE != CHANGE_PASS_REQUEST
    ensures SYNC_HANDSHAKE != SUCCESS && SYNC_HANDSHAKE != ERROR && SYNC_HANDSHAKE != UART_EOS
    ensures forall d :: IsAsciiDigit(d) ==> d != SYNC_HANDSHAKE
  {
  }

  /**
   * The error reply and the locked mode share one code, so in a two-byte
   * reply only the position tells the match byte from the mode byte.
   */
  lemma ErrorAliasesLocked()
    ensures ERROR == MODE_NORMAL_BOOT_LOCKED
    ensures SUCCESS != ERROR && !IsMode(SUCCESS)
  {
  }
}
