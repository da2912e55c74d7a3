/** The values both platform back ends hand back to Emacs: the five-slot
    event vector `[time type value number init-p]` and the outcome of a
    module function (a normal return or a `file-error` signal). */
module Events {

  /** Slot 1 of the event vector: the keyword `:button` or `:axis`. */
  datatype Kind = Button | Axis

  /** Which floating-point formula turns a raw reading into the float
      stored in slot 2.  The formulas themselves are not modelled. */
  datatype Scaling =
    | PerInt16Max     // raw / INT16_MAX (Linux axes)
    | LeftThumbZone   // dead-zone normalisation with the left-stick dead zone
    | RightThumbZone  // dead-zone normalisation with the right-stick dead zone
    | TriggerRange    // raw * 2.0 / UINT8_MAX - 1

  /** Slot 2 of the event vector. */
  datatype Value =
    | Flag(on: bool)                     // `t` or `nil`
    | Level(n: int)                      // a float with an exact integer value
    | Scaled(raw: int, scaling: Scaling) // a float computed from `raw`

  /** The event vector, slot by slot. */
  datatype Event = Event(
    time: int,     // slot 0
    kind: Kind,    // slot 1
    value: Value,  // slot 2
    number: int,   // slot 3: axis or button number
    initP: bool    // slot 4: `t` for a start-up state report
  )

  /** The payload of a `file-error` signal. */
  datatype Message =
    | Text(s: string)       // a fixed string built by the module
    | Strerror(errno: int)  // the C library's description of an errno

  /** The outcome of `joymacs-read`. */
  datatype Reply =
    | Vector(ev: Event)      // the event vector, filled
    | Nil                    // no event available
    | FileError(msg: Message)
}
