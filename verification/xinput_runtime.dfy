/** The Windows back end's global state: `handle_count`, the calls it makes
    to `XInputEnable`, and the Emacs user-pointer objects holding handles
    (a null pointer after `joymacs-close`). */
module XInputRuntime {
  import opened Wrappers
  import opened MachineInt
  import opened Events
  import opened XInputState
  import opened FileTime
  import opened XInputJoystick

  const INVALID_JOYSTICK: string := "Invalid joystick"

  datatype World = World(
    handleCount: int,                  // handle_count
    enableCalls: seq<bool>,            // arguments of the XInputEnable calls so far
    objects: map<nat, Option<Handle>>, // user-pointer objects not yet collected
    nextObject: nat                    // the next object identity
  )

  /** The state before any joystick was opened. */
  const Initial: World := World(0, [], map[], 0)

  /** Objects whose pointer is not null. */
  function Live(w: World): set<nat> {
    set o | o in w.objects && w.objects[o].Some?
  }

  /** XInput is on when the last `XInputEnable` call enabled it. */
  predicate Enabled(w: World) {
    |w.enableCalls| % 2 == 1
  }

  /** On, off, on, ...: the form of a history of `XInputEnable` calls. */
  predicate Alternating(calls: seq<bool>) {
    forall i :: 0 <= i < |calls| ==> calls[i] == (i % 2 == 0)
  }

  lemma AppendAlternating(calls: seq<bool>, b: bool)
    requires Alternating(calls) && b == (|calls| % 2 == 0)
    ensures Alternating(calls + [b])
  {
    var c := calls + [b];
    forall i | 0 <= i < |c|
      ensures c[i] == (i % 2 == 0)
    {
      if i < |calls| {
        assert c[i] == calls[i];
      }
    }
  }

  /** `handle_count` counts the live handles, and XInput has been switched
      on and off alternately, starting with on, so that it is on exactly
      while some handle is live. */
  predicate Good(w: World) {
    && w.handleCount == |Live(w)|
    && (forall o :: o in w.objects ==> o < w.nextObject)
    && Alternating(w.enableCalls)
    && (Enabled(w) <==> w.handleCount > 0)
  }

  lemma InitialGood()
    ensures Good(Initial)
  {
    assert Live(Initial) == {};
  }

  /** `if (!handle_count++) XInputEnable(TRUE)`. */
  function Acquire(w: World): World {
    w.(handleCount := w.handleCount + 1,
       enableCalls := if w.handleCount == 0 then w.enableCalls + [true] else w.enableCalls)
  }

  /** `if (!--handle_count) XInputEnable(FALSE)`. */
  function Release(w: World): World {
    var c := w.handleCount - 1;
    w.(handleCount := c,
       enableCalls := if c == 0 then w.enableCalls + [false] else w.enableCalls)
  }

  datatype OpenReply = UserPtr(obj: nat) | OpenError(msg: Message)

  /** The world after `joymacs-open`, and what it returned. */
  datatype OpenStep = OpenStep(world: World, reply: OpenReply)

  /** `joymacs-open`: `arg` is the integer argument, `answer` what
      `XInputGetState` gave for the user index `(DWORD)arg`, and `clock`
      the system time `uepoch` then reads. */
  function Open(w: World, arg: int, answer: Option<XState>, clock: FileTime): (r: OpenStep)
    ensures r.reply.OpenError? <==> answer.None?
    ensures r.reply.OpenError? ==>
      && r.reply.msg == Text(INVALID_JOYSTICK)
      && r.world.handleCount == w.handleCount && r.world.objects == w.objects
      && r.world.enableCalls == w.enableCalls + (if w.handleCount == 0 then [true, false] else [])
    ensures Good(w) && r.reply.UserPtr? ==> r.reply.obj !in w.objects
    ensures r.reply.UserPtr? ==>
      && r.world.objects == w.objects[r.reply.obj := Some(OpenedHandle(answer.value, clock, ToUint32(arg)))]
      && r.world.handleCount == w.handleCount + 1
      && r.world.enableCalls == w.enableCalls + (if w.handleCount == 0 then [true] else [])
  {
    var id := ToUint32(arg);
    var w1 := Acquire(w);
    match answer
    case None =>
      OpenStep(Release(w1), OpenError(Text(INVALID_JOYSTICK)))
    case Some(s) =>
      var obj := w.nextObject;
      OpenStep(w1.(objects := w1.objects[obj := Some(OpenedHandle(s, clock, id))], nextObject := obj + 1),
       UserPtr(obj))
  }

  /** Opening keeps the count equal to the live handles, whether or not
      `XInputGetState` succeeds. */
  lemma AcquireKeepsEnabling(w: World)
    requires Good(w)
    ensures var w1 := Acquire(w);
      Alternating(w1.enableCalls) && (Enabled(w1) <==> w1.handleCount > 0)
  {
    if w.handleCount == 0 {
      AppendAlternating(w.enableCalls, true);
    }
  }

  lemma OpenSucceedsGood(w: World, arg: int, s: XState, clock: FileTime)
    requires Good(w)
    ensures Good(Open(w, arg, Some(s), clock).world)
  {
    AcquireKeepsEnabling(w);
    var r := Open(w, arg, Some(s), clock);
    var obj := w.nextObject;
    assert obj !in w.objects;
    assert Live(r.world) == Live(w) + {obj};
  }

  lemma OpenFailsGood(w: World, arg: int, clock: FileTime)
    requires Good(w)
    ensures Good(Open(w, arg, None, clock).world)
  {
    var w1 := Acquire(w);
    AcquireKeepsEnabling(w);
    if w1.handleCount == 1 {
      AppendAlternating(w1.enableCalls, false);
    }
    var r := Open(w, arg, None, clock);
    assert r.world == Release(w1);
    assert Live(r.world) == Live(w);
  }

  /** Opening keeps the count equal to the live handles, whether or not
      `XInputGetState` succeeds. */
  lemma OpenKeepsGood(w: World, arg: int, answer: Option<XState>, clock: FileTime)
    requires Good(w)
    ensures Good(Open(w, arg, answer, clock).world)
  {
    if answer.Some? {
      OpenSucceedsGood(w, arg, answer.value, clock);
    } else {
      OpenFailsGood(w, arg, clock);
    }
  }

  /** `joymacs-close`: frees a live handle, decrements the count and nulls
      the pointer; a null pointer is left alone. */
  function Close(w: World, obj: nat): (w': World)
    requires obj in w.objects
    ensures obj in w'.objects && w'.objects[obj].None?
    ensures w'.nextObject == w.nextObject
    ensures forall o :: o in w.objects && o != obj ==> o in w'.objects && w'.objects[o] == w.objects[o]
    ensures w.objects[obj].None? ==> w' == w
    ensures w.objects[obj].Some? ==>
      && w'.handleCount == w.handleCount - 1
      && w'.enableCalls == w.enableCalls + (if w.handleCount == 1 then [false] else [])
  {
    match w.objects[obj]
    case None => w
    case Some(_) => Release(w).(objects := w.objects[obj := None])
  }

  /** The finalizer `fin_close`, run when Emacs collects the object. */
  function Finalize(w: World, obj: nat): (w': World)
    requires obj in w.objects
    ensures w'.objects == w.objects - {obj}
    ensures w.objects[obj].None? ==> w'.handleCount == w.handleCount && w'.enableCalls == w.enableCalls
    ensures w.objects[obj].Some? ==>
      && w'.handleCount == w.handleCount - 1
      && w'.enableCalls == w.enableCalls + (if w.handleCount == 1 then [false] else [])
  {
    var w1 := w.(objects := w.objects - {obj});
    match w.objects[obj]
    case None => w1
    case Some(_) => Release(w1)
  }

  lemma CloseKeepsGood(w: World, obj: nat)
    requires Good(w) && obj in w.objects
    ensures Good(Close(w, obj))
  {
    if w.objects[obj].Some? {
      assert obj in Live(w);
      if w.handleCount == 1 {
        AppendAlternating(w.enableCalls, false);
      }
      assert Live(Close(w, obj)) == Live(w) - {obj};
    }
  }

  lemma FinalizeKeepsGood(w: World, obj: nat)
    requires Good(w) && obj in w.objects
    ensures Good(Finalize(w, obj))
  {
    if w.objects[obj].Some? {
      assert obj in Live(w);
      if w.handleCount == 1 {
        AppendAlternating(w.enableCalls, false);
      }
    }
    assert Live(Finalize(w, obj)) == Live(w) - {obj};
  }

  /** Closing and then collecting an object decrements `handle_count` once
      (if the handle was live), never twice. */
  lemma CloseThenFinalizeReleasesOnce(w: World, obj: nat)
    requires Good(w) && obj in w.objects
    ensures var w' := Finalize(Close(w, obj), obj);
      && w'.handleCount == w.handleCount - (if w.objects[obj].Some? then 1 else 0)
      && Good(w')
      && w'.objects == w.objects - {obj}
  {
    CloseKeepsGood(w, obj);
    FinalizeKeepsGood(Close(w, obj), obj);
  }

  /** In a good state XInput is on exactly while some handle is live, so
      the count never goes negative and `XInputEnable(FALSE)` is only ever
      called on the 1 -> 0 transition. */
  lemma EnabledIffSomeLive(w: World)
    requires Good(w)
    ensures Enabled(w) <==> Live(w) != {}
    ensures w.handleCount >= 0
  {
  }

  datatype ObjectRead = NullHandle | Ran(round: Round)

  /** The world after `joymacs-read` on an object, and what the read did. */
  datatype ReadStep = ReadStep(world: World, read: ObjectRead)

  /** `joymacs-read` on an object: a null pointer reads as `nil`; a live
      handle runs the state machine, and the handle it leaves behind
      replaces the old one in the same object. */
  function ReadObject(w: World, obj: nat, polls: seq<Poll>): (r: ReadStep)
    requires obj in w.objects
    ensures r.read.NullHandle? <==> w.objects[obj].None?
    ensures r.read.NullHandle? ==> r.world == w
    ensures w.objects[obj].Some? ==>
      && r.read == Ran(Read(w.objects[obj].value, polls))
      && r.world.objects == w.objects[obj := Some(r.read.round.handle)]
    ensures r.world.handleCount == w.handleCount && r.world.enableCalls == w.enableCalls
    ensures r.world.objects.Keys == w.objects.Keys && r.world.nextObject == w.nextObject
    ensures forall o :: o in w.objects ==> (r.world.objects[o].Some? <==> w.objects[o].Some?)
  {
    match w.objects[obj]
    case None => ReadStep(w, NullHandle)
    case Some(h) =>
      var o := Read(h, polls);
      ReadStep(w.(objects := w.objects[obj := Some(o.handle)]), Ran(o))
  }

  lemma ReadObjectKeepsGood(w: World, obj: nat, polls: seq<Poll>)
    requires Good(w) && obj in w.objects
    ensures Good(ReadObject(w, obj, polls).world)
  {
    assert Live(ReadObject(w, obj, polls).world) == Live(w);
  }

  /** A read after `joymacs-close` finds the null pointer and returns `nil`. */
  lemma ReadAfterCloseIsNil(w: World, obj: nat, polls: seq<Poll>)
    requires obj in w.objects
    ensures var w' := Close(w, obj);
      ReadObject(w', obj, polls) == ReadStep(w', NullHandle)
  {
  }
}
