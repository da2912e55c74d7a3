/** The XInput controller state the Windows back end compares, its
    in-memory byte layout, and the table of the eighteen controls that
    `joymacs-read` walks in order. */
module XInputState {
  import opened MachineInt
  import opened Events

  /** Button bits of `XINPUT_GAMEPAD.wButtons` (xinput.h). */
  const DPAD_UP: bv16 := 0x0001
  const DPAD_DOWN: bv16 := 0x0002
  const DPAD_LEFT: bv16 := 0x0004
  const DPAD_RIGHT: bv16 := 0x0008
  const START: bv16 := 0x0010
  const BACK: bv16 := 0x0020
  const LEFT_THUMB: bv16 := 0x0040
  const RIGHT_THUMB: bv16 := 0x0080
  const LEFT_SHOULDER: bv16 := 0x0100
  const RIGHT_SHOULDER: bv16 := 0x0200
  const BUTTON_A: bv16 := 0x1000
  const BUTTON_B: bv16 := 0x2000
  const BUTTON_X: bv16 := 0x4000
  const BUTTON_Y: bv16 := 0x8000

  /** `XINPUT_GAMEPAD`; the thumb-stick fields hold the bits of a `SHORT`. */
  datatype Gamepad = Gamepad(
    wButtons: bv16,
    bLeftTrigger: bv8,
    bRightTrigger: bv8,
    sThumbLX: bv16,
    sThumbLY: bv16,
    sThumbRX: bv16,
    sThumbRY: bv16
  )

  /** `XINPUT_STATE`. */
  datatype XState = XState(dwPacketNumber: bv32, gamepad: Gamepad)

  /** The `SHORT` a thumb-stick field holds (two's complement). */
  function Signed16(x: bv16): int16 {
    var n := x as int;
    if n < 0x8000 then n else n - 0x1_0000
  }

  // ---------------------------------------------------------------------
  // Byte layout: 16 bytes, little-endian, no padding
  // ---------------------------------------------------------------------

  const STATE_SIZE: nat := 16

  function Bytes16(x: bv16): seq<bv8> {
    [(x & 0xFF) as bv8, (x >> 8) as bv8]
  }

  function Bytes32(x: bv32): seq<bv8> {
    [(x & 0xFF) as bv8, ((x >> 8) & 0xFF) as bv8, ((x >> 16) & 0xFF) as bv8, (x >> 24) as bv8]
  }

  function Word16(lo: bv8, hi: bv8): bv16 {
    (hi as bv16 << 8) | lo as bv16
  }

  function Word32(b0: bv8, b1: bv8, b2: bv8, b3: bv8): bv32 {
    (b3 as bv32 << 24) | (b2 as bv32 << 16) | (b1 as bv32 << 8) | b0 as bv32
  }

  /** The bytes of an `XINPUT_STATE` in memory. */
  function Encode(s: XState): (b: seq<bv8>)
    ensures |b| == STATE_SIZE
  {
    var g := s.gamepad;
    Bytes32(s.dwPacketNumber) + Bytes16(g.wButtons) + [g.bLeftTrigger, g.bRightTrigger]
      + Bytes16(g.sThumbLX) + Bytes16(g.sThumbLY) + Bytes16(g.sThumbRX) + Bytes16(g.sThumbRY)
  }

  /** Reads an `XINPUT_STATE` back from its bytes. */
  function Decode(b: seq<bv8>): XState
    requires |b| == STATE_SIZE
  {
    XState(
      Word32(b[0], b[1], b[2], b[3]),
      Gamepad(
        Word16(b[4], b[5]), b[6], b[7],
        Word16(b[8], b[9]), Word16(b[10], b[11]), Word16(b[12], b[13]), Word16(b[14], b[15])))
  }

  lemma DecodeEncode(s: XState)
    ensures Decode(Encode(s)) == s
  {
  }

  /** `*p ^= (unsigned char)-1` over every byte. */
  function Flip(b: seq<bv8>): (f: seq<bv8>)
    ensures |f| == |b|
    ensures forall i :: 0 <= i < |b| ==> f[i] == !b[i]
  {
    seq(|b|, i requires 0 <= i < |b| => b[i] ^ 0xFF)
  }

  /** The state with every byte of its memory complemented. */
  function Invert(s: XState): XState {
    Decode(Flip(Encode(s)))
  }

  /** Every field of `s` complemented. */
  function Complement(s: XState): XState {
    var g := s.gamepad;
    XState(!s.dwPacketNumber,
      Gamepad(!g.wButtons, !g.bLeftTrigger, !g.bRightTrigger,
              !g.sThumbLX, !g.sThumbLY, !g.sThumbRX, !g.sThumbRY))
  }

  /** Complementing every byte complements every field. */
  lemma InvertFieldwise(s: XState)
    ensures Invert(s) == Complement(s)
  {
  }

  // ---------------------------------------------------------------------
  // The eighteen controls, in the order joymacs-read walks them
  // ---------------------------------------------------------------------

  /** Controls 0..7 are axes (sticks, triggers, the two d-pad axes);
      8..17 are buttons. */
  const CONTROLS: nat := 18
  const AXES: nat := 8

  type Control = k: nat | k < CONTROLS

  /** Buttons 0..9 in report order. */
  const BUTTON_ORDER: seq<bv16> := [BUTTON_A, BUTTON_B, BUTTON_X, BUTTON_Y, LEFT_THUMB,
                                    RIGHT_THUMB, BACK, START, LEFT_SHOULDER, RIGHT_SHOULDER]

  function ButtonMask(k: Control): bv16
    requires k >= AXES
  {
    BUTTON_ORDER[k - AXES]
  }

  /** Does control `k` read differently in `g0` and `g1`?  The d-pad axes
      compare both of their direction bits; a button compares its own bit. */
  predicate Changed(g0: Gamepad, g1: Gamepad, k: Control) {
    if k < AXES then AxisChanged(g0, g1, k)
    else (g0.wButtons ^ g1.wButtons) & ButtonMask(k) != 0
  }

  predicate AxisChanged(g0: Gamepad, g1: Gamepad, k: Control)
    requires k < AXES
  {
    var diff := g0.wButtons ^ g1.wButtons;
    match k
    case 0 => g0.sThumbLX != g1.sThumbLX
    case 1 => g0.sThumbLY != g1.sThumbLY
    case 2 => g0.bLeftTrigger != g1.bLeftTrigger
    case 3 => g0.sThumbRX != g1.sThumbRX
    case 4 => g0.sThumbRY != g1.sThumbRY
    case 5 => g0.bRightTrigger != g1.bRightTrigger
    case 6 => diff & DPAD_LEFT != 0 || diff & DPAD_RIGHT != 0
    case 7 => diff & DPAD_UP != 0 || diff & DPAD_DOWN != 0
  }

  /** A d-pad axis: -1 when the first direction is held, else +1 when the
      second is, else 0. */
  function DpadLevel(buttons: bv16, negative: bv16, positive: bv16): (n: int)
    ensures -1 <= n <= 1
    ensures n == -1 <==> buttons & negative != 0
    ensures n == 1 <==> buttons & negative == 0 && buttons & positive != 0
  {
    if buttons & negative != 0 then -1 else if buttons & positive != 0 then 1 else 0
  }

  /** Slot 2 of the report of control `k`, from the new state `g1`. */
  function Reading(g1: Gamepad, k: Control): Value {
    if k < AXES then AxisReading(g1, k)
    else Flag(g1.wButtons & ButtonMask(k) != 0)
  }

  function AxisReading(g1: Gamepad, k: Control): Value
    requires k < AXES
  {
    match k
    case 0 => Scaled(Signed16(g1.sThumbLX), LeftThumbZone)
    case 1 => Scaled(Signed16(g1.sThumbLY), LeftThumbZone)
    case 2 => Scaled(g1.bLeftTrigger as int, TriggerRange)
    case 3 => Scaled(Signed16(g1.sThumbRX), RightThumbZone)
    case 4 => Scaled(Signed16(g1.sThumbRY), RightThumbZone)
    case 5 => Scaled(g1.bRightTrigger as int, TriggerRange)
    case 6 => Level(DpadLevel(g1.wButtons, DPAD_LEFT, DPAD_RIGHT))
    case 7 => Level(DpadLevel(g1.wButtons, DPAD_UP, DPAD_DOWN))
  }

  /** The ten button masks are distinct single bits, none of them a d-pad bit. */
  lemma ButtonMasksDistinctBits(k: Control, j: Control)
    requires k >= AXES && j >= AXES
    ensures ButtonMask(k) != 0 && ButtonMask(k) & (ButtonMask(k) - 1) == 0
    ensures k != j ==> ButtonMask(k) & ButtonMask(j) == 0
    ensures ButtonMask(k) & (DPAD_UP | DPAD_DOWN | DPAD_LEFT | DPAD_RIGHT) == 0
  {
  }

  /** Against its own complement every control reads differently: this is
      what makes the first pass after opening report every control. */
  lemma InvertChangesEveryControl(s: XState, k: Control)
    ensures Changed(Invert(s).gamepad, s.gamepad, k)
  {
    InvertFieldwise(s);
    if k >= AXES {
      ButtonMasksDistinctBits(k, k);
    }
  }
}
