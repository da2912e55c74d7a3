/** The Windows back end's per-handle state machine.  A handle keeps the
    previously reported controller state `prev`, the newest state `next`
    and a cursor `report`; each `joymacs-read` resumes the walk over the
    eighteen controls at the cursor and reports the first control whose
    reading differs, and only when the walk is complete fetches a new state. */
module XInputJoystick {
  import opened Wrappers
  import opened MachineInt
  import opened Events
  import opened XInputState
  import opened FileTime

  const READ_FAILED: string := "Failed to read joystick state"

  /** The walk's cursor: the next control to compare, or `CONTROLS` when
      the walk is complete and a new state is due. */
  type Cursor = r: nat | r <= CONTROLS

  /** `struct handle`. */
  datatype Handle = Handle(
    prev: XState,
    next: XState,
    time: uint64,   // microseconds since 1970 when `next` was fetched
    id: uint32,     // the XInput user index
    report: Cursor,
    init: bool      // false until the first walk is complete
  )

  /** One `XInputGetState` answer (`None` for a failure) with the system
      time `uepoch` would read right after it. */
  datatype Poll = Poll(answer: Option<XState>, clock: FileTime)

  /** The outcome of one `joymacs-read`: the handle afterwards, the reply,
      and how many `XInputGetState` answers it used.  `OutOfPolls` is the
      model's outcome for a read that needed more answers than it was given. */
  datatype Round =
    | Done(handle: Handle, reply: Reply, polled: nat)
    | OutOfPolls(handle: Handle)

  /** The handle `joymacs-open` builds from the first state it fetched:
      `prev` is `next` with every byte complemented. */
  function OpenedHandle(s: XState, clock: FileTime, id: uint32): (h: Handle)
    ensures h.report == 0 && !h.init && h.next == s
    ensures forall k: Control :: Changed(h.prev.gamepad, h.next.gamepad, k)
  {
    forall k: Control ensures Changed(Invert(s).gamepad, s.gamepad, k) {
      InvertChangesEveryControl(s, k);
    }
    Handle(Invert(s), s, UEpoch(clock), id, 0, false)
  }

  /** The control an event vector names: axes keep their number, buttons
      are numbered after the eight axes. */
  function ControlOf(kind: Kind, number: int): int {
    if kind == Axis then number else number + AXES
  }

  /** The first control at or after `r` whose reading differs, or
      `CONTROLS` when there is none. */
  function NextChange(g0: Gamepad, g1: Gamepad, r: Cursor): (k: Cursor)
    ensures r <= k
    ensures k < CONTROLS ==> Changed(g0, g1, k)
    ensures forall j :: r <= j < k ==> !Changed(g0, g1, j)
    decreases CONTROLS - r
  {
    if r == CONTROLS then CONTROLS
    else if Changed(g0, g1, r) then r
    else
      var k := NextChange(g0, g1, r + 1);
      assert forall j :: r + 1 <= j < k ==> !Changed(g0, g1, j);
      assert !Changed(g0, g1, r);
      k
  }

  /** `vecf`: called after the cursor has moved past the axis. */
  function Vecf(h: Handle, value: Value): Event
    requires h.report >= 1
  {
    Event(ToInt64(h.time), Axis, value, h.report - 1, !h.init)
  }

  /** `vecb`: called after the cursor has moved past the button. */
  function Vecb(h: Handle, value: Value): Event
    requires h.report >= 1 + AXES
  {
    Event(ToInt64(h.time), Button, value, h.report - 9, !h.init)
  }

  /** The event vector reporting control `k` of handle `h`. */
  function Report(h: Handle, k: Control): (ev: Event)
    ensures ControlOf(ev.kind, ev.number) == k
    ensures ev.initP <==> !h.init
  {
    var moved := h.(report := k + 1);
    var value := Reading(h.next.gamepad, k);
    if k < AXES then Vecf(moved, value) else Vecb(moved, value)
  }

  /** Axes are numbered 0..7 and buttons 0..9; the timestamp is the
      handle's; slot 4 is `t` until the first walk is complete. */
  lemma ReportNumbering(h: Handle, k: Control)
    ensures var ev := Report(h, k);
      && (ev.kind == Axis <==> k < AXES)
      && ev.number == (if k < AXES then k else k - AXES)
      && 0 <= ev.number < (if k < AXES then AXES else CONTROLS - AXES)
      && ev.time == ToInt64(h.time)
      && (ev.initP <==> !h.init)
  {
  }

  /** Every report carries the new state's reading of its control. */
  lemma ReportValue(h: Handle, k: Control)
    ensures Report(h, k).value == Reading(h.next.gamepad, k)
  {
  }

  /** A button is `t` exactly when its bit is set in the new state. */
  lemma ReportButtonValue(h: Handle, k: Control)
    requires k >= AXES
    ensures Report(h, k).value == Flag(h.next.gamepad.wButtons & ButtonMask(k) != 0)
  {
    ReportValue(h, k);
  }

  /** A d-pad axis is -1 for left/up, else +1 for right/down, else 0, read
      from the new state. */
  lemma ReportDpadValue(h: Handle, k: Control)
    requires k == 6 || k == 7
    ensures var b := h.next.gamepad.wButtons;
      Report(h, k).value == Level(
        if b & (if k == 6 then DPAD_LEFT else DPAD_UP) != 0 then -1
        else if b & (if k == 6 then DPAD_RIGHT else DPAD_DOWN) != 0 then 1
        else 0)
  {
    ReportValue(h, k);
  }

  /** `joymacs-read` on a live handle: walk from the cursor; when the walk
      is complete, run the refresh step. */
  function Read(h: Handle, polls: seq<Poll>): (o: Round)
    ensures o.Done? ==> o.polled <= |polls|
    ensures h.init ==> o.handle.init
    ensures o.Done? && o.polled > 0 ==> o.handle.init
    ensures o.Done? && o.reply.Vector? ==>
      && o.handle.report >= 1
      && ControlOf(o.reply.ev.kind, o.reply.ev.number) == o.handle.report - 1
      && (o.reply.ev.initP <==> !o.handle.init)
    ensures o.Done? && o.reply.Nil? ==>
      && o.handle.report == CONTROLS
      && o.handle.prev.dwPacketNumber == o.handle.next.dwPacketNumber
    ensures o.Done? && o.reply.FileError? ==>
      && o.handle.report == CONTROLS && o.handle.init
      && o.handle.prev == o.handle.next
      && o.reply.msg == Text(READ_FAILED)
    decreases |polls|, 1
  {
    var k := NextChange(h.prev.gamepad, h.next.gamepad, h.report);
    if k < CONTROLS then
      Done(h.(report := k + 1), Vector(Report(h, k)), 0)
    else
      Refresh(h.(report := CONTROLS), polls)
  }

  /** Case 18: the state just walked becomes `prev`, `init` is set, and a
      new state is fetched.  The same packet number means nothing changed:
      reply `nil` and stay at the end.  A new packet restarts the walk
      with a fresh timestamp. */
  function Refresh(h: Handle, polls: seq<Poll>): (o: Round)
    requires h.report == CONTROLS
    ensures o.Done? ==> o.polled <= |polls|
    ensures o.handle.init
    ensures o.Done? && o.reply.Vector? ==>
      && o.handle.report >= 1
      && ControlOf(o.reply.ev.kind, o.reply.ev.number) == o.handle.report - 1
      && !o.reply.ev.initP
    ensures o.Done? && o.reply.Nil? ==>
      && o.handle.report == CONTROLS
      && o.handle.prev.dwPacketNumber == o.handle.next.dwPacketNumber
    ensures o.Done? && o.reply.FileError? ==>
      && o.handle.report == CONTROLS
      && o.handle.prev == o.handle.next
      && o.reply.msg == Text(READ_FAILED)
    decreases |polls|, 0
  {
    var walked := h.(prev := h.next, init := true);
    if |polls| == 0 then OutOfPolls(walked)
    else match polls[0].answer
      case None => Done(walked, FileError(Text(READ_FAILED)), 1)
      case Some(s) =>
        if walked.prev.dwPacketNumber == s.dwPacketNumber then
          Done(walked.(next := s), Nil, 1)
        else
          var o := Read(walked.(next := s, report := 0, time := UEpoch(polls[0].clock)), polls[1..]);
          if o.Done? then Done(o.handle, o.reply, o.polled + 1) else o
  }

  /** A read from cursor `r` reports the least control `k >= r` that
      changed, leaves the cursor at `k + 1`, and fetches nothing. */
  lemma ReadReportsFirstChange(h: Handle, polls: seq<Poll>, k: Control)
    requires h.report <= k
    requires Changed(h.prev.gamepad, h.next.gamepad, k)
    requires forall j :: h.report <= j < k ==> !Changed(h.prev.gamepad, h.next.gamepad, j)
    ensures Read(h, polls) == Done(h.(report := k + 1), Vector(Report(h, k)), 0)
  {
  }

  /** With nothing left to report, the read reaches case 18. */
  lemma ReadReachesRefresh(h: Handle, polls: seq<Poll>)
    requires forall j :: h.report <= j < CONTROLS ==> !Changed(h.prev.gamepad, h.next.gamepad, j)
    ensures Read(h, polls) == Refresh(h.(report := CONTROLS), polls)
  {
  }

  /** At case 18 an unchanged packet number gives `nil` with the cursor
      left at 18; a failed fetch signals `file-error` after `prev` and
      `init` have been updated. */
  lemma RefreshStops(h: Handle, p: Poll, rest: seq<Poll>)
    requires h.report == CONTROLS
    requires p.answer.None? || p.answer.value.dwPacketNumber == h.next.dwPacketNumber
    ensures p.answer.None? ==>
      Refresh(h, [p] + rest) == Done(h.(prev := h.next, init := true), FileError(Text(READ_FAILED)), 1)
    ensures p.answer.Some? ==>
      Refresh(h, [p] + rest) == Done(h.(prev := h.next, next := p.answer.value, init := true), Nil, 1)
  {
  }

  /** At case 18 a new packet number restarts the walk at control 0 over
      the new state, with the old `next` as `prev` and a fresh timestamp. */
  lemma RefreshRestarts(h: Handle, s: XState, clock: FileTime, rest: seq<Poll>)
    requires h.report == CONTROLS
    requires s.dwPacketNumber != h.next.dwPacketNumber
    ensures var restarted := Handle(h.next, s, UEpoch(clock), h.id, 0, true);
      var o := Read(restarted, rest);
      Refresh(h, [Poll(Some(s), clock)] + rest)
        == if o.Done? then Done(o.handle, o.reply, o.polled + 1) else o
  {
    assert ([Poll(Some(s), clock)] + rest)[1..] == rest;
  }

  /** `n` successive reads, each using the answers the previous ones left;
      stops early if the answers run out. */
  function Session(h: Handle, polls: seq<Poll>, n: nat): (replies: seq<Reply>)
    ensures |replies| <= n
    decreases n
  {
    if n == 0 then []
    else match Read(h, polls)
      case OutOfPolls(_) => []
      case Done(h', reply, used) => [reply] + Session(h', polls[used..], n - 1)
  }

  /** One step of a session: a completed read, then the rest. */
  lemma SessionStep(h: Handle, polls: seq<Poll>, n: nat)
    requires n > 0 && Read(h, polls).Done?
    ensures var o := Read(h, polls);
      Session(h, polls, n) == [o.reply] + Session(o.handle, polls[o.polled..], n - 1)
  {
  }

  /** While every control differs, a read reports the control at the cursor. */
  lemma FirstPassRead(h0: Handle, polls: seq<Poll>, i: Cursor)
    requires i < CONTROLS
    requires forall k: Control :: Changed(h0.prev.gamepad, h0.next.gamepad, k)
    ensures Read(h0.(report := i), polls) == Done(h0.(report := i + 1), Vector(Report(h0, i)), 0)
  {
    var h := h0.(report := i);
    var k: Control := i;
    assert Changed(h.prev.gamepad, h.next.gamepad, k);
    ReadReportsFirstChange(h, polls, k);
    assert Report(h, k) == Report(h0, k);
  }

  lemma FirstPassSession(h0: Handle, polls: seq<Poll>, i: Cursor)
    requires i < CONTROLS
    requires Read(h0.(report := i), polls) == Done(h0.(report := i + 1), Vector(Report(h0, i)), 0)
    ensures Session(h0.(report := i), polls, CONTROLS - i)
         == [Vector(Report(h0, i))] + Session(h0.(report := i + 1), polls, CONTROLS - (i + 1))
  {
    SessionStep(h0.(report := i), polls, CONTROLS - i);
    assert polls[0..] == polls;
  }

  /** The reports of controls `i..17` of handle `h0`, in walk order. */
  function Reports(h0: Handle, i: Cursor): (replies: seq<Reply>)
    ensures |replies| == CONTROLS - i
  {
    seq(CONTROLS - i, j requires 0 <= j < CONTROLS - i => Vector(Report(h0, i + j)))
  }

  /** Peeling the first report off `Reports`. */
  lemma ReportsCons(h0: Handle, i: Cursor)
    requires i < CONTROLS
    ensures Reports(h0, i) == [Vector(Report(h0, i))] + Reports(h0, i + 1)
  {
    var r := Reports(h0, i);
    var t := [Vector(Report(h0, i))] + Reports(h0, i + 1);
    forall j | 0 <= j < |r|
      ensures r[j] == t[j]
    {
      if j > 0 {
        assert t[j] == Reports(h0, i + 1)[j - 1];
      }
    }
  }

  lemma {:induction false} FirstPassFrom(h0: Handle, h: Handle, polls: seq<Poll>, i: Cursor, n: nat)
    requires forall k: Control :: Changed(h0.prev.gamepad, h0.next.gamepad, k)
    requires h == h0.(report := i) && n == CONTROLS - i
    ensures Session(h, polls, n) == Reports(h0, i)
    decreases n
  {
    if i < CONTROLS {
      FirstPassRead(h0, polls, i);
      FirstPassSession(h0, polls, i);
      ReportsCons(h0, i);
      FirstPassFrom(h0, h0.(report := i + 1), polls, i + 1, n - 1);
    }
  }

  lemma FirstPassIsReports(h: Handle, polls: seq<Poll>)
    requires h.report == 0
    requires forall k: Control :: Changed(h.prev.gamepad, h.next.gamepad, k)
    ensures Session(h, polls, CONTROLS) == Reports(h, 0)
  {
    FirstPassFrom(h, h, polls, 0, CONTROLS);
  }

  /** The first eighteen reads after opening report every control once, in
      walk order, each flagged as a start-up report, without fetching a
      new state. */
  lemma FirstPassReportsEveryControl(s: XState, clock: FileTime, id: uint32, polls: seq<Poll>)
    ensures var replies := Session(OpenedHandle(s, clock, id), polls, CONTROLS);
      && replies == Reports(OpenedHandle(s, clock, id), 0)
      && |replies| == CONTROLS
      && forall i :: 0 <= i < CONTROLS ==>
           && replies[i].Vector?
           && ControlOf(replies[i].ev.kind, replies[i].ev.number) == i
           && replies[i].ev.initP
  {
    var h := OpenedHandle(s, clock, id);
    FirstPassIsReports(h, polls);
    var replies := Reports(h, 0);
    forall i | 0 <= i < CONTROLS
      ensures replies[i].Vector?
      ensures ControlOf(replies[i].ev.kind, replies[i].ev.number) == i
      ensures replies[i].ev.initP
    {
    }
  }

  /** Once a walk has completed, no later event is a start-up report. */
  lemma LaterEventsAreLive(h: Handle, polls: seq<Poll>)
    requires h.init
    ensures var o := Read(h, polls);
      o.Done? && o.reply.Vector? ==> !o.reply.ev.initP
  {
  }
}
