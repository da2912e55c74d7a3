# joymacs in Dafny

joymacs is an Emacs dynamic module that exposes joysticks to Emacs Lisp through
three functions: `joymacs-open`, `joymacs-close` and `joymacs-read`. This
project models both back ends of `joymacs.c` as pure functions over immutable
records, and proves properties about them.

- **Linux** (`__unix__`). A handle is the descriptor of `/dev/input/js<N>`,
  opened non-blocking. `joymacs-read` drains every pending `struct js_event`.
  It keeps only the newest full record and decodes it into the event vector
  `[time type value number init-p]`. A failed read signals `file-error` with
  the `strerror` text. Close and the finalizer share a -1 sentinel.
- **Windows** (`__WIN32__`). A handle holds the previously reported XInput
  state `prev`, the newest state `next`, a cursor `report` in 0..18 and an
  `init` flag. Each read resumes at the cursor and walks the eighteen controls
  in a fixed order: six analog axes, d-pad X, d-pad Y, then ten buttons. It
  reports the first control that differs. When the walk is complete, the read
  makes `next` the new `prev` and fetches a fresh state. At open, `prev` is
  `next` with every byte complemented, so the first walk reports every control
  as a start-up event. A global `handle_count` turns XInput on at 0 -> 1 and
  off at 1 -> 0.

Modules:

- `MachineInt`: the C integer conversions the code performs implicitly.
- `Decimal`: `%d` formatting and its parser.
- `Events`: the event vector and the replies.
- `LinuxJoystick`: the Linux back end.
- `XInputState`: the XInput state, its 16-byte layout and the control table.
- `FileTime`: `uepoch`.
- `XInputJoystick`: the per-handle read state machine.
- `XInputRuntime`: `handle_count`, `XInputEnable` and the user-pointer objects.

Environment calls become inputs:

- Linux: `open(2)` becomes the descriptor it returned. The successive `read(2)`
  calls become a list of `ReadCall` results. Once that list is exhausted, the
  descriptor answers `EAGAIN`.
- Windows: `XInputGetState` and `GetSystemTimeAsFileTime` become a list of
  `Poll` values. Each holds one state answer (or a failure) and the clock
  reading taken after it.
- `close(2)` and `XInputEnable` calls are recorded in logs (`released`,
  `enableCalls`).

Facts about the code that shape the model:

- A `struct js_event` is 8 bytes (u32 time, s16 value, u8 type, u8 number).
  The drain compares each read's byte count with that size.
- A failed read signals `file-error`, the same error symbol as a failed open.
  No separate I/O error kind exists.
- The Linux `joymacs-read` fills the vector passed as its second argument and
  returns that vector. It does not allocate a new one.

The XInput button masks (`XINPUT_GAMEPAD_A` = 0x1000 and so on) and the
`XINPUT_STATE` layout (`DWORD`, then `WORD`, two `BYTE`s and four `SHORT`s)
come from `xinput.h`. The `js_event` layout and the `JS_EVENT_BUTTON` and
`JS_EVENT_INIT` bits come from `linux/joystick.h`. Neither header is part of
this model. Their documented values are written into `XInputState` and
`LinuxJoystick`. The stick dead zones also come from `xinput.h`, but the model
holds no dead-zone value. They appear only as the `LeftThumbZone` and
`RightThumbZone` scaling tags (see "## Left out").

## Model

| member | source | states |
|---|---|---|
| `MachineInt.ToInt32` | joymacs.c:51 | storing the argument into an `int` keeps it modulo 2^32 inside the signed range, and leaves it unchanged when it already fits |
| `MachineInt.ToUint32` | joymacs.c:183 | storing the argument into a `DWORD` reduces it modulo 2^32 |
| `MachineInt.WrapUint64` | joymacs.c:170-175 | `uint64_t` arithmetic is the exact result modulo 2^64 |
| `MachineInt.ToInt64` | joymacs.c:227 | handing a `uint64_t` timestamp to `make_integer` gives a value in the `intmax_t` range that agrees modulo 2^64 |
| `Decimal.ParseShow` | joymacs.c:55 | parsing the `%d` rendering of any integer gives back that integer |
| `Decimal.ShowInt32Length` | joymacs.c:54-55 | every `int` prints in at most 11 characters |
| `LinuxJoystick.Open` | joymacs.c:46-64 | open fails exactly when `open(2)` returned -1; otherwise the handle holds the returned descriptor |
| `LinuxJoystick.OpenFailureNamesDevice` | joymacs.c:54-61 | the `file-error` payload of a failed open is `/dev/input/js` followed by text that parses back to the joystick number as an `int` |
| `LinuxJoystick.DevicePathFits` | joymacs.c:54-55 | the formatted path and its NUL always fit in the 64-byte buffer |
| `LinuxJoystick.Close` | joymacs.c:67-80 | after close the handle holds the sentinel; at most one descriptor is released, and it is the live one |
| `LinuxJoystick.Finalize` | joymacs.c:38-44 | the finalizer releases at most the handle's own descriptor, and never the sentinel |
| `LinuxJoystick.CloseIdempotent` | joymacs.c:72-79 | a second close releases nothing and leaves the sentinel |
| `LinuxJoystick.ReleasedExactlyOnce` | joymacs.c:38-79 | whatever the number of explicit closes before collection, a live descriptor is released exactly once and the sentinel never |
| `LinuxJoystick.OpenedDescriptorReleasedOnce` | joymacs.c:56-79 | the descriptor of a successful open is released exactly once over the handle's life |
| `LinuxJoystick.StopIndex` | joymacs.c:96-100 | the drain loop ends at the first failing read: every earlier call returned bytes |
| `LinuxJoystick.LastRecord` | joymacs.c:107-110 | the kept record is a full-size record with no full-size record after it; none means no full record was read |
| `LinuxJoystick.DrainMatchesSpec` | joymacs.c:92-115 | the drain fold returns the error of a failing read other than `EAGAIN`, and otherwise the newest full record read before the loop stopped |
| `LinuxJoystick.PartialReadIgnored` | joymacs.c:107-111 | a short read before the loop stops has no effect on the outcome |
| `LinuxJoystick.DrainLoop` | joymacs.c:92-115 | the imperative drain loop computes the reference description of the drain |
| `LinuxJoystick.Decode` | joymacs.c:117-132 | slot 1 is `:button` iff the button bit is set; slot 4 is `t` iff the init bit is set; time and number are copied unchanged |
| `LinuxJoystick.DecodeValue` | joymacs.c:119-126 | a button's value is `t` iff the raw value is non-zero; an axis carries the raw value for division by `INT16_MAX` |
| `LinuxJoystick.InitBitOnlyAffectsInitP` | joymacs.c:119-132 | setting the init bit changes slot 4 only, so a start-up button report is still `:button` with the same value and number |
| `LinuxJoystick.Read` | joymacs.c:82-135 | read signals `file-error` with the `strerror` text iff a read other than `EAGAIN` failed, discarding drained records; it returns `nil` iff no full record preceded the stop; otherwise it returns the newest full record before the stop, decoded |
| `FileTime.Ticks` | joymacs.c:170-172 | the two `FILETIME` halves form the 64-bit tick count, with the high half above bit 32 |
| `FileTime.TicksRoundTrip` | joymacs.c:170-172 | splitting a tick count into halves and joining them back are inverse |
| `FileTime.UEpochSinceUnixEpoch` | joymacs.c:165-176 | from 1970 on, `uepoch` is the number of microseconds elapsed since 1970-01-01 |
| `FileTime.UEpochMonotonic` | joymacs.c:165-176 | from 1970 on, a later system time never gives a smaller timestamp |
| `FileTime.UEpochAsSigned` | joymacs.c:173-175 | after conversion to `intmax_t`, the timestamp is the signed microsecond count since 1970 for every system time, including those before 1970 |
| `XInputState.DecodeEncode` | joymacs.c:199-203 | reading an `XINPUT_STATE` back from its 16 bytes gives the same state |
| `XInputState.Flip` | joymacs.c:201-203 | complementing a byte sequence complements every byte and keeps the length |
| `XInputState.InvertFieldwise` | joymacs.c:199-203 | complementing every byte of the state complements every field: packet number, buttons, triggers and sticks |
| `XInputState.DpadLevel` | joymacs.c:317-338 | a d-pad axis reads -1 iff left/up is held; +1 iff right/down is held and left/up is not; 0 otherwise |
| `XInputState.ButtonMasksDistinctBits` | joymacs.c:343-432 | the ten button masks are distinct single bits, none of them a d-pad bit |
| `XInputState.InvertChangesEveryControl` | joymacs.c:199-203 | each of the 18 controls compares as changed between a state and its bytewise complement |
| `XInputJoystick.OpenedHandle` | joymacs.c:197-208 | a new handle starts at cursor 0 with `init` clear, and every control differs between `prev` and `next` |
| `XInputJoystick.NextChange` | joymacs.c:260-432 | the walk from cursor r stops at the least control k >= r that changed, or reaches 18 when no control from r on changed |
| `XInputJoystick.Report` | joymacs.c:224-244 | a report names the control it was built for, and its init-p slot is `t` exactly while `init` is clear |
| `XInputJoystick.ReportNumbering` | joymacs.c:224-244 | axes are numbered k (0..7) and buttons k-8 (0..9); slot 1 is `:axis` iff k < 8; time is the handle's timestamp; init-p is `t` iff `init` is clear |
| `XInputJoystick.ReportButtonValue` | joymacs.c:343-432 | a button's value is `t` iff its bit is set in `next` |
| `XInputJoystick.ReportDpadValue` | joymacs.c:313-340 | a d-pad axis reads -1 if left/up is set in `next`, else +1 if right/down is set, else 0 |
| `XInputJoystick.Read` | joymacs.c:246-454 | uses no more state answers than given; once `init` is set it stays set; every reported event names the control just before the cursor, with init-p `t` iff `init` is clear; `nil` leaves the cursor at 18 with equal packet numbers; a failed fetch leaves `prev` = `next`, `init` set and the fixed message |
| `XInputJoystick.Refresh` | joymacs.c:434-450 | after case 18, `init` is set; any event reported after a restart is not a start-up report; `nil` means the packet number did not change |
| `XInputJoystick.ReadReportsFirstChange` | joymacs.c:260-432 | from cursor r, read reports the least changed control k >= r, moves the cursor to k+1 and fetches nothing |
| `XInputJoystick.ReadReachesRefresh` | joymacs.c:260-434 | when no control from the cursor on changed, read goes on to case 18 |
| `XInputJoystick.RefreshStops` | joymacs.c:434-447 | at case 18, an unchanged packet number returns `nil` with the cursor left at 18; a failed fetch signals `file-error` after `prev` and `init` were updated |
| `XInputJoystick.RefreshRestarts` | joymacs.c:446-450 | at case 18, a new packet number restarts the walk at control 0 over the new state, with the old `next` as `prev` and a fresh timestamp |
| `XInputJoystick.FirstPassReportsEveryControl` | joymacs.c:199-242 | the first 18 reads after open report controls 0..17 once each, in walk order, all with init-p `t` |
| `XInputJoystick.LaterEventsAreLive` | joymacs.c:436-437 | once a walk has completed, no event carries init-p `t` |
| `XInputRuntime.InitialGood` | joymacs.c:153 | at load time no handle is live and the count is 0 |
| `XInputRuntime.Open` | joymacs.c:178-210 | a failed open leaves the count and the objects unchanged; XInput is switched on then off if the count was 0. A successful open adds one live handle and raises the count by one; XInput is switched on iff the count was 0 |
| `XInputRuntime.OpenKeepsGood` | joymacs.c:186-196 | after any open, the count still equals the number of live handles, and XInput is on exactly while one is live |
| `XInputRuntime.Close` | joymacs.c:456-469 | close nulls the pointer and leaves every other object alone; closing a live handle decrements the count and switches XInput off iff the count was 1; a null pointer changes nothing |
| `XInputRuntime.Finalize` | joymacs.c:155-163 | the finalizer removes the object; for a live handle it decrements the count and switches XInput off iff the count was 1 |
| `XInputRuntime.CloseKeepsGood` | joymacs.c:461-467 | close keeps the count equal to the number of live handles |
| `XInputRuntime.FinalizeKeepsGood` | joymacs.c:155-163 | the finalizer keeps the count equal to the number of live handles |
| `XInputRuntime.CloseThenFinalizeReleasesOnce` | joymacs.c:155-163 | closing and then collecting an object decrements the count once for a live handle, never twice |
| `XInputRuntime.EnabledIffSomeLive` | joymacs.c:153-163 | XInput is on exactly while some handle is live, and the count is never negative |
| `XInputRuntime.ReadObject` | joymacs.c:246-253 | a null pointer reads as `nil` and changes nothing; a live handle gives the reply of the per-handle read, and the handle that read leaves behind is stored back in the same object; a read never changes the count, the XInput calls or which objects are live |
| `XInputRuntime.ReadObjectKeepsGood` | joymacs.c:246-253 | a read keeps the count equal to the number of live handles |
| `XInputRuntime.ReadAfterCloseIsNil` | joymacs.c:251-253 | a read after close finds the null pointer and returns `nil` |

## Left out

- The Emacs module plumbing is not modelled. This covers symbol interning, `make_function`, `vec_set`, `make_user_ptr` and `get_user_ptr`, the `non_local_exit_check` early returns, and the registration and `provide` in `emacs_module_init` (joymacs.c:473-496). Results are datatypes instead.
- Floating-point values are not computed. The model leaves out `value / INT16_MAX`, the dead-zone `normalize` and the trigger scaling `* 2.0 / UINT8_MAX - 1`. An analog slot records the raw reading and which formula applies (`Scaled(raw, scaling)`).
- The text `strerror` returns is not modelled; a read error's payload is the errno (`Strerror(errno)`).
- The return value of `joymacs-close` (`nil` on Linux, `t` on Windows) is a constant and is not modelled.
- `malloc` and `free` become the `objects` map of the runtime. The pointer/integer punning becomes the `fd` and `Option<Handle>` fields.
- `XInputJoystick.Read` takes a finite list of `XInputGetState` answers. The real loop keeps fetching as long as the packet number changes with no visible difference. When the list runs out first, the model reports `OutOfPolls` instead of looping further.
- `XInputJoystick.Refresh`: the model assumes a failed `XInputGetState` leaves `next` unchanged. What the function writes into its output on failure is not specified.
- `LinuxJoystick.Read`: the drain loop (joymacs.c:96-112) never ends on a descriptor that never answers `EAGAIN` or an error, for example one that keeps returning short or zero-byte reads. The model takes a finite list of `read(2)` results that ends in an implied `EAGAIN`, so it always stops and cannot represent that non-termination.
- Stick dead zones: the `XINPUT_GAMEPAD_LEFT_THUMB_DEADZONE` and `XINPUT_GAMEPAD_RIGHT_THUMB_DEADZONE` constants are not written into the model. The zone used is recorded only as the `LeftThumbZone` or `RightThumbZone` tag, because the computation that uses them (`normalize`) is floating point and is left out.
- `LinuxJoystick.Read` takes the list of `read(2)` results as given. It does not model which errno the kernel returns for a closed (-1) descriptor.
- `XInputJoystick.Read` does not restate, inside its own contract, that the reported control differs between `prev` and `next`. `XInputJoystick.ReadReportsFirstChange` and `XInputJoystick.NextChange` state this.
