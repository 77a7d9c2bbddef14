/**
 * The click classifier shared by the viewer's pointer tools: the closure that the tool's
 * `enable` registers on the scene's pointer observable.  It remembers where and when the
 * last pointer-down happened and, on pointer-up, accepts the press as a click only when it
 * was short, stationary and on the mesh.  Screen coordinates and the clock reading
 * (`Date.now()`, in milliseconds) are event parameters; the picked point is opaque.
 */
module PointerClicks {
  import opened Wrappers

  /** Longest press, in milliseconds, that still counts as a click (the test is `elapsed > 150`). */
  const ClickThreshold: int := 150

  /** Mouse buttons, numbered as the DOM numbers `MouseEvent.button`. */
  const LeftButton: int := 0
  const RightButton: int := 2

  /** Position and clock reading of the last pointer-down (`startingPoint`, `startingTime`). */
  datatype DownRecord = DownRecord(x: int, y: int, time: int)

  /** The ray cast's result: did it hit the mesh, and the first intersection if any. */
  datatype PickInfo<P> = PickInfo(hit: bool, pickedPoint: Option<P>)

  /** What the scene's pointer observable delivers; any other kind (move, wheel, ...) is `OtherPointer`. */
  datatype PointerEvent<P> =
    | PointerDown(x: int, y: int, now: int)
    | PointerUp(x: int, y: int, now: int, button: int, pick: PickInfo<P>)
    | OtherPointer

  /** The arm of `switch(pointerInfo.event.button)` an accepted click takes; both arms are empty. */
  datatype ButtonCase = LeftClick | RightClick | NoCase

  /** Why a pointer-up was dropped, in the order the tool script tests. */
  datatype Reason = HeldTooLong | Moved | OffMesh

  /**
   * Outcome of a pointer-up: dropped, accepted at a picked point, or `Fault` when the callback
   * reads `startingPoint.x` while no pointer-down has been recorded (a TypeError in the tool script).
   */
  datatype Decision<P> = Ignored(reason: Reason) | Clicked(branch: ButtonCase, point: P) | Fault

  /** The record after an event, and the decision taken if the event was a pointer-up. */
  datatype Reaction<P> = Reaction(record: Option<DownRecord>, decision: Option<Decision<P>>)

  /** The button switch of an accepted click. */
  function Dispatch(button: int): (c: ButtonCase)
    ensures c == LeftClick <==> button == LeftButton
    ensures c == RightClick <==> button == RightButton
    ensures c == NoCase <==> button != LeftButton && button != RightButton
  {
    if button == LeftButton then LeftClick
    else if button == RightButton then RightClick
    else NoCase
  }

  /** The POINTERUP arm: three early returns, then the button switch. */
  function ClassifyUp<P>(record: Option<DownRecord>, x: int, y: int, now: int, button: int, pick: PickInfo<P>)
    : (d: Decision<P>)
    // a click is exactly: a recorded down, at most 150 ms ago, at the same spot, on the mesh
    ensures d.Clicked? <==>
              record.Some? && now - record.value.time <= ClickThreshold &&
              x == record.value.x && y == record.value.y &&
              pick.hit && pick.pickedPoint.Some?
    ensures d.Clicked? ==> d.point == pick.pickedPoint.value && d.branch == Dispatch(button)
    // the only way to reach the null dereference is an up with no down while the clock reads <= 150
    ensures d.Fault? <==> record.None? && now <= ClickThreshold
    // `Date.now() - startingTime` with a null startingTime counts from time 0
    ensures d == Ignored(HeldTooLong) <==>
              (record.None? && now > ClickThreshold) ||
              (record.Some? && now - record.value.time > ClickThreshold)
    ensures d == Ignored(Moved) <==>
              record.Some? && now - record.value.time <= ClickThreshold &&
              (x != record.value.x || y != record.value.y)
    ensures d == Ignored(OffMesh) <==>
              record.Some? && now - record.value.time <= ClickThreshold &&
              x == record.value.x && y == record.value.y &&
              (!pick.hit || pick.pickedPoint.None?)
  {
    var elapsed := if record.Some? then now - record.value.time else now;
    if elapsed > ClickThreshold then Ignored(HeldTooLong)
    else if record.None? then Fault
    else if x != record.value.x || y != record.value.y then Ignored(Moved)
    else if !pick.hit || pick.pickedPoint.None? then Ignored(OffMesh)
    else Clicked(Dispatch(button), pick.pickedPoint.value)
  }

  /** One call of the observer callback. */
  function Observe<P>(record: Option<DownRecord>, ev: PointerEvent<P>): (r: Reaction<P>)
    // only a pointer-down writes the record, and it writes both position and time
    ensures ev.PointerDown? ==> r.record == Some(DownRecord(ev.x, ev.y, ev.now))
    ensures !ev.PointerDown? ==> r.record == record
    // only a pointer-up is classified
    ensures r.decision.Some? <==> ev.PointerUp?
    ensures ev.PointerUp? ==>
              r.decision == Some(ClassifyUp(record, ev.x, ev.y, ev.now, ev.button, ev.pick))
  {
    match ev
    case PointerDown(x, y, now) => Reaction(Some(DownRecord(x, y, now)), None)
    case PointerUp(x, y, now, button, pick) => Reaction(record, Some(ClassifyUp(record, x, y, now, button, pick)))
    case OtherPointer => Reaction(record, None)
  }

  /** The record after the observer has seen `evs`, one event after another. */
  ghost function Replay<P>(record: Option<DownRecord>, evs: seq<PointerEvent<P>>): Option<DownRecord>
    decreases |evs|
  {
    if evs == [] then record else Replay(Observe(record, evs[0]).record, evs[1..])
  }

  /** Reference definition: the most recent pointer-down in `evs`, or `record` if there is none. */
  ghost function LastDown<P>(record: Option<DownRecord>, evs: seq<PointerEvent<P>>): Option<DownRecord>
    decreases |evs|
  {
    if evs == [] then record
    else match evs[|evs| - 1]
      case PointerDown(x, y, now) => Some(DownRecord(x, y, now))
      case _ => LastDown(record, evs[..|evs| - 1])
  }

  lemma {:induction false} ReplaySnoc<P>(record: Option<DownRecord>, evs: seq<PointerEvent<P>>, e: PointerEvent<P>)
    ensures Replay(record, evs + [e]) == Observe(Replay(record, evs), e).record
    decreases |evs|
  {
    if evs == [] {
      assert [e][1..] == [];
    } else {
      assert (evs + [e])[1..] == evs[1..] + [e];
      ReplaySnoc(Observe(record, evs[0]).record, evs[1..], e);
    }
  }

  /** The record is always the latest pointer-down: ups and other events never clear or move it. */
  lemma {:induction false} ReplayIsLastDown<P>(record: Option<DownRecord>, evs: seq<PointerEvent<P>>)
    ensures Replay(record, evs) == LastDown(record, evs)
    decreases |evs|
  {
    if evs != [] {
      var init, last := evs[..|evs| - 1], evs[|evs| - 1];
      assert evs == init + [last];
      ReplaySnoc(record, init, last);
      ReplayIsLastDown(record, init);
    }
  }

  /** A run of events without a pointer-down leaves the record exactly as it was. */
  lemma {:induction false} UpsKeepRecord<P>(record: Option<DownRecord>, evs: seq<PointerEvent<P>>)
    requires forall i :: 0 <= i < |evs| ==> !evs[i].PointerDown?
    ensures Replay(record, evs) == record
  {
    ReplayIsLastDown(record, evs);
    NoDownLastDown(record, evs);
  }

  lemma {:induction false} NoDownLastDown<P>(record: Option<DownRecord>, evs: seq<PointerEvent<P>>)
    requires forall i :: 0 <= i < |evs| ==> !evs[i].PointerDown?
    ensures LastDown(record, evs) == record
    decreases |evs|
  {
    if evs != [] {
      NoDownLastDown(record, evs[..|evs| - 1]);
    }
  }

  /** The click-versus-drag examples: same spot within 150 ms on the mesh is a click; 151 ms, a moved pointer or a miss is not. */
  lemma ClassifierExamples<P>(p: P)
    ensures ClassifyUp(Some(DownRecord(10, 10, 0)), 10, 10, 150, LeftButton, PickInfo(true, Some(p))) == Clicked(LeftClick, p)
    ensures ClassifyUp(Some(DownRecord(10, 10, 0)), 10, 10, 151, LeftButton, PickInfo(true, Some(p))) == Ignored(HeldTooLong)
    ensures ClassifyUp(Some(DownRecord(10, 10, 0)), 11, 10, 100, LeftButton, PickInfo(true, Some(p))) == Ignored(Moved)
    ensures ClassifyUp(Some(DownRecord(10, 10, 0)), 10, 10, 100, RightButton, PickInfo(false, Some(p))) == Ignored(OffMesh)
    ensures ClassifyUp(Some(DownRecord(10, 10, 0)), 10, 10, 100, 1, PickInfo(true, Some(p))) == Clicked(NoCase, p)
  {
  }

  /** A pointer-up before any pointer-down is dropped as a long press once the clock reads more than 150 ms. */
  lemma UpWithoutDownIgnored<P>(x: int, y: int, now: int, button: int, pick: PickInfo<P>)
    requires now > ClickThreshold
    ensures ClassifyUp(None, x, y, now, button, pick) == Ignored(HeldTooLong)
  {
  }
}
