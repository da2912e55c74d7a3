/** The Linux back end of the joystick module: a joystick is the descriptor
    of `/dev/input/js<N>`, opened non-blocking; `joymacs-read` drains every
    pending `struct js_event` and reports only the newest one. */
module LinuxJoystick {
  import opened Wrappers
  import opened MachineInt
  import opened Decimal
  import opened Events

  /** Bits of `js_event.type` (linux/joystick.h). */
  const JS_EVENT_BUTTON: bv8 := 0x01
  const JS_EVENT_INIT: bv8 := 0x80

  /** `sizeof(struct js_event)`: u32 time, s16 value, u8 type, u8 number. */
  const JS_EVENT_SIZE: nat := 8

  const EAGAIN: int := 11

  /** The descriptor value a closed handle holds. */
  const CLOSED: int := -1

  const DEVICE_PREFIX: string := "/dev/input/js"

  /** Size of the stack buffer the device path is formatted into. */
  const PATH_BUFFER: nat := 64

  /** One kernel joystick event record. */
  datatype JsEvent = JsEvent(time: uint32, value: int16, typeBits: bv8, number: uint8)

  // ---------------------------------------------------------------------
  // Opening and closing
  // ---------------------------------------------------------------------

  /** The path `sprintf("/dev/input/js%d", id)` writes. */
  function DevicePath(id: int32): string {
    DEVICE_PREFIX + Show(id)
  }

  datatype OpenReply = Opened(fd: int) | OpenFailed(msg: Message)

  /** `joymacs-open`: `arg` is the integer argument as `extract_integer`
      returns it, stored into an `int`; `osFd` is what open(2) returned for
      `DevicePath` of that `int`. */
  function Open(arg: int, osFd: int): (r: OpenReply)
    ensures r.Opened? <==> osFd != CLOSED
    ensures r.Opened? ==> r.fd == osFd
  {
    var id := ToInt32(arg);
    if osFd == CLOSED then OpenFailed(Text(DevicePath(id))) else Opened(osFd)
  }

  /** A failed open signals `file-error` with exactly the path it tried,
      and the joystick number can be read back from that message. */
  lemma OpenFailureNamesDevice(arg: int)
    ensures var r := Open(arg, CLOSED);
      && r.OpenFailed? && r.msg.Text?
      && |r.msg.s| > |DEVICE_PREFIX|
      && r.msg.s[..|DEVICE_PREFIX|] == DEVICE_PREFIX
      && Parse(r.msg.s[|DEVICE_PREFIX|..]) == Some(ToInt32(arg))
  {
    var s := DevicePath(ToInt32(arg));
    assert s[|DEVICE_PREFIX|..] == Show(ToInt32(arg));
    ParseShow(ToInt32(arg));
  }

  /** Every path fits, with its terminating NUL, in the 64-byte buffer. */
  lemma DevicePathFits(id: int32)
    ensures |DevicePath(id)| + 1 <= PATH_BUFFER
  {
    ShowInt32Length(id);
  }

  /** The user pointer after a close, and the descriptors close(2) released. */
  datatype Closing = Closing(fd: int, released: seq<int>)

  /** `joymacs-close`: closes a live descriptor and stores the sentinel. */
  function Close(fd: int): (c: Closing)
    ensures c.fd == CLOSED
    ensures |c.released| <= 1
    ensures forall i :: 0 <= i < |c.released| ==> c.released[i] == fd && fd != CLOSED
  {
    if fd != CLOSED then Closing(CLOSED, [fd]) else Closing(fd, [])
  }

  /** The finalizer `fin_close`: closes a live descriptor; the pointer dies with it. */
  function Finalize(fd: int): (released: seq<int>)
    ensures |released| <= 1
    ensures forall i :: 0 <= i < |released| ==> released[i] == fd && fd != CLOSED
  {
    if fd != CLOSED then [fd] else []
  }

  /** A second close does nothing. */
  lemma CloseIdempotent(fd: int)
    ensures Close(Close(fd).fd) == Closing(CLOSED, [])
  {
  }

  /** What close(2) is called on over a handle's life: `closes` explicit
      calls of `joymacs-close`, then the garbage collector's finalizer. */
  function Lifecycle(fd: int, closes: nat): seq<int>
    decreases closes
  {
    if closes == 0 then Finalize(fd)
    else
      var c := Close(fd);
      c.released + Lifecycle(c.fd, closes - 1)
  }

  lemma {:induction false} ClosedHandleReleasesNothing(closes: nat)
    ensures Lifecycle(CLOSED, closes) == []
    decreases closes
  {
    if closes > 0 {
      ClosedHandleReleasesNothing(closes - 1);
    }
  }

  /** However many times a handle is closed before it is collected, a live
      descriptor is released exactly once and the sentinel never. */
  lemma {:induction false} ReleasedExactlyOnce(fd: int, closes: nat)
    ensures Lifecycle(fd, closes) == (if fd == CLOSED then [] else [fd])
  {
    if closes > 0 {
      ClosedHandleReleasesNothing(closes - 1);
    }
  }

  /** The descriptor of a successful open is released exactly once. */
  lemma OpenedDescriptorReleasedOnce(arg: int, osFd: int, closes: nat)
    requires osFd != CLOSED
    ensures Open(arg, osFd).Opened?
    ensures Lifecycle(Open(arg, osFd).fd, closes) == [osFd]
  {
    ReleasedExactlyOnce(osFd, closes);
  }

  // ---------------------------------------------------------------------
  // Draining the descriptor
  // ---------------------------------------------------------------------

  /** What one read(2) of `sizeof(struct js_event)` bytes gave: a byte
      count with the buffer contents, or -1 with `errno`. */
  datatype ReadCall = Returned(count: nat, buffer: JsEvent) | Errno(code: int)

  /** The state the drain loop leaves: the newest full record, or the
      error that aborted it. */
  datatype Drained = Latest(event: Option<JsEvent>) | ReadError(code: int)

  predicate IsFullRecord(c: ReadCall) {
    c.Returned? && c.count == JS_EVENT_SIZE
  }

  /** The drain loop as a fold over successive read(2) results.  Once
      `calls` is exhausted the descriptor reports `EAGAIN`. */
  function DrainFrom(calls: seq<ReadCall>, latest: Option<JsEvent>): Drained
    decreases |calls|
  {
    if |calls| == 0 then Latest(latest)
    else match calls[0]
      case Errno(code) =>
        if code == EAGAIN then Latest(latest) else ReadError(code)
      case Returned(count, e) =>
        DrainFrom(calls[1..], if count == JS_EVENT_SIZE then Some(e) else latest)
  }

  function Drain(calls: seq<ReadCall>): Drained {
    DrainFrom(calls, None)
  }

  /** The index of the call that ends the loop: the first failing read,
      or `|calls|` when none fails. */
  function StopIndex(calls: seq<ReadCall>): (k: nat)
    ensures k <= |calls|
    ensures forall j :: 0 <= j < k ==> calls[j].Returned?
    ensures k < |calls| ==> calls[k].Errno?
    decreases |calls|
  {
    if |calls| == 0 || calls[0].Errno? then 0 else 1 + StopIndex(calls[1..])
  }

  /** The newest full-size record in `s`, looking from the end. */
  function LastRecord(s: seq<ReadCall>): (r: Option<JsEvent>)
    ensures r.None? <==> forall j :: 0 <= j < |s| ==> !IsFullRecord(s[j])
    ensures r.Some? ==> exists j :: (0 <= j < |s| && IsFullRecord(s[j]) && s[j].buffer == r.value
                                     && forall j' :: j < j' < |s| ==> !IsFullRecord(s[j']))
    decreases |s|
  {
    if |s| == 0 then None
    else if IsFullRecord(s[|s| - 1]) then Some(s[|s| - 1].buffer)
    else LastRecord(s[..|s| - 1])
  }

  /** Reference description of the drain: a failing read other than
      `EAGAIN` wins; otherwise the newest full record read before the loop
      stopped, if any. */
  function DrainSpec(calls: seq<ReadCall>): Drained {
    var k := StopIndex(calls);
    if k < |calls| && calls[k].code != EAGAIN then ReadError(calls[k].code)
    else Latest(LastRecord(calls[..k]))
  }

  function OrElse(r: Option<JsEvent>, fallback: Option<JsEvent>): Option<JsEvent> {
    if r.Some? then r else fallback
  }

  lemma {:induction false} LastRecordCons(x: ReadCall, t: seq<ReadCall>, acc: Option<JsEvent>)
    ensures OrElse(LastRecord([x] + t), acc)
         == OrElse(LastRecord(t), if IsFullRecord(x) then Some(x.buffer) else acc)
    decreases |t|
  {
    if |t| > 0 {
      var s := [x] + t;
      assert s[..|s| - 1] == [x] + t[..|t| - 1];
      assert s[|s| - 1] == t[|t| - 1];
      LastRecordCons(x, t[..|t| - 1], acc);
    }
  }

  lemma {:induction false} DrainFromSpec(calls: seq<ReadCall>, acc: Option<JsEvent>)
    ensures var k := StopIndex(calls);
      DrainFrom(calls, acc) ==
        if k < |calls| && calls[k].code != EAGAIN then ReadError(calls[k].code)
        else Latest(OrElse(LastRecord(calls[..k]), acc))
    decreases |calls|
  {
    if |calls| > 0 && calls[0].Returned? {
      var x := calls[0];
      var t := calls[1..];
      var next := if x.count == JS_EVENT_SIZE then Some(x.buffer) else acc;
      DrainFromSpec(t, next);
      var k := StopIndex(calls);
      assert calls[..k] == [x] + t[..k - 1];
      LastRecordCons(x, t[..k - 1], acc);
    }
  }

  /** The fold computes the reference description. */
  lemma DrainMatchesSpec(calls: seq<ReadCall>)
    ensures Drain(calls) == DrainSpec(calls)
  {
    DrainFromSpec(calls, None);
  }

  /** A short read anywhere before the loop stops changes nothing. */
  lemma {:induction false} PartialReadIgnored(a: seq<ReadCall>, count: nat, e: JsEvent,
                                              b: seq<ReadCall>, acc: Option<JsEvent>)
    requires count != JS_EVENT_SIZE
    requires forall j :: 0 <= j < |a| ==> a[j].Returned?
    ensures DrainFrom(a + [Returned(count, e)] + b, acc) == DrainFrom(a + b, acc)
    decreases |a|
  {
    if |a| == 0 {
      assert (a + [Returned(count, e)] + b)[1..] == a + b;
    } else {
      var x := a[0];
      var next := if x.count == JS_EVENT_SIZE then Some(x.buffer) else acc;
      assert (a + [Returned(count, e)] + b)[1..] == a[1..] + [Returned(count, e)] + b;
      assert (a + b)[1..] == a[1..] + b;
      PartialReadIgnored(a[1..], count, e, b, next);
    }
  }

  /** The `for (;;)` drain loop of `joymacs-read`: `latest` together with
      its `have_event` flag is the `Option`. */
  method DrainLoop(calls: seq<ReadCall>) returns (r: Drained)
    ensures r == DrainSpec(calls)
  {
    DrainMatchesSpec(calls);
    var latest: Option<JsEvent> := None;
    var i := 0;
    while i < |calls|
      invariant 0 <= i <= |calls|
      invariant DrainFrom(calls[i..], latest) == Drain(calls)
      decreases |calls| - i
    {
      assert calls[i..][0] == calls[i];
      assert calls[i..][1..] == calls[i + 1..];
      match calls[i] {
        case Errno(code) =>
          if code == EAGAIN {
            return Latest(latest);
          }
          return ReadError(code);
        case Returned(count, e) =>
          if count == JS_EVENT_SIZE {
            latest := Some(e);
          }
      }
      i := i + 1;
    }
    return Latest(latest);
  }

  // ---------------------------------------------------------------------
  // Decoding the newest record
  // ---------------------------------------------------------------------

  /** Fills the event vector from a kernel record. */
  function Decode(e: JsEvent): (ev: Event)
    ensures ev.kind == Button <==> e.typeBits & JS_EVENT_BUTTON != 0
    ensures ev.initP <==> e.typeBits & JS_EVENT_INIT != 0
    ensures ev.time == e.time && ev.number == e.number
    ensures 0 <= ev.time < TWO_TO_32 && 0 <= ev.number < 0x100
  {
    var kind := if e.typeBits & JS_EVENT_BUTTON != 0 then Button else Axis;
    var value := if kind == Button then Flag(e.value != 0) else Scaled(e.value, PerInt16Max);
    Event(e.time, kind, value, e.number, e.typeBits & JS_EVENT_INIT != 0)
  }

  /** A button's value is `t` exactly when the raw value is non-zero; an
      axis carries its raw value for the `INT16_MAX` scaling. */
  lemma DecodeValue(e: JsEvent)
    ensures Decode(e).value.Flag? <==> Decode(e).kind == Button
    ensures Decode(e).kind == Button ==> (Decode(e).value.on <==> e.value != 0)
    ensures Decode(e).kind == Axis ==> Decode(e).value == Scaled(e.value, PerInt16Max)
  {
  }

  /** The init bit changes slot 4 and nothing else: a start-up report of a
      button is still a `:button` with the same value and number. */
  lemma InitBitOnlyAffectsInitP(e: JsEvent)
    ensures Decode(e.(typeBits := e.typeBits | JS_EVENT_INIT))
         == Decode(e.(typeBits := e.typeBits & !JS_EVENT_INIT)).(initP := true)
  {
  }

  /** `joymacs-read`: drain, then report the newest record, nothing, or the error. */
  function Read(calls: seq<ReadCall>): (r: Reply)
    ensures var k := StopIndex(calls);
      r.FileError? <==> k < |calls| && calls[k].code != EAGAIN
    ensures var k := StopIndex(calls);
      r.FileError? ==> r.msg == Strerror(calls[k].code)
    ensures var k := StopIndex(calls);
      r.Nil? <==> !r.FileError? && forall j :: 0 <= j < k ==> !IsFullRecord(calls[j])
    ensures var k := StopIndex(calls);
      r.Vector? ==> exists j :: (0 <= j < k && IsFullRecord(calls[j])
                                 && r.ev == Decode(calls[j].buffer)
                                 && forall j' :: j < j' < k ==> !IsFullRecord(calls[j']))
  {
    DrainMatchesSpec(calls);
    var pre := calls[..StopIndex(calls)];
    assert forall j :: 0 <= j < |pre| ==> pre[j] == calls[j];
    match Drain(calls)
    case ReadError(code) => FileError(Strerror(code))
    case Latest(None) => Nil
    case Latest(Some(e)) => Vector(Decode(e))
  }
}
