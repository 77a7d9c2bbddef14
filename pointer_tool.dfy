/**
 * The lifecycle of a pointer tool (the annotation tool and the "x" tool are the same template):
 * a button that opens the tool, and at most one pointer observer registered on the scene while
 * the tool is open.  The observer's closure carries the pointer-down record of PointerClicks.
 */
module PointerTool {
  import opened Wrappers
  import opened PointerClicks

  /** The registered observer: the handle the scene returned, and its closure's pointer-down record. */
  datatype Observer = Observer(handle: nat, record: Option<DownRecord>)

  /** The scene observable's list after `remove(h)`: every entry but `h`. */
  function Without(hs: seq<nat>, h: nat): (r: seq<nat>)
    ensures forall k :: k in r <==> k in hs && k != h
    ensures |r| <= |hs|
    ensures h !in hs ==> r == hs
  {
    if hs == [] then []
    else if hs[0] == h then Without(hs[1..], h)
    else [hs[0]] + Without(hs[1..], h)
  }

  class Tool {
    var initialized: bool            // `init` has bound the scene and created the button
    var buttonVisible: bool          // the tool button's `isVisible`
    var observer: Option<Observer>   // the tool's observer variable; None is null
    var sceneObservers: seq<nat>     // this tool's observers on `scene.onPointerObservable`
    var nextHandle: nat              // handle the scene gives to the next observer added

    /** At most one subscription, and it is the one the tool holds. */
    ghost predicate Valid()
      reads this
    {
      (!initialized ==> !buttonVisible && observer.None?) &&
      |sceneObservers| <= 1 &&
      (observer.None? ==> sceneObservers == []) &&
      (observer.Some? ==> sceneObservers == [observer.value.handle] && observer.value.handle < nextHandle)
    }

    /** What `enable` leaves behind, shared by `Enable` and the button's click handler. */
    twostate predicate EnableEffect()
      reads this
    {
      Valid() && initialized && !buttonVisible &&
      (old(observer).Some? ==>
         observer == old(observer) && sceneObservers == old(sceneObservers) && nextHandle == old(nextHandle)) &&
      (old(observer).None? ==>
         observer == Some(Observer(old(nextHandle), None)) &&
         sceneObservers == old(sceneObservers) + [old(nextHandle)] &&
         nextHandle == old(nextHandle) + 1)
    }

    /** The module's state before `init`: no scene, no button, no observer. */
    constructor ()
      ensures Valid() && !initialized && !buttonVisible && observer.None? && sceneObservers == []
    {
      initialized := false;
      buttonVisible := false;
      observer := None;
      sceneObservers := [];
      nextHandle := 0;
    }

    /** `init`: create the button hidden, then `disable`. */
    method Init()
      requires Valid() && !initialized
      modifies this
      ensures Valid() && initialized && !buttonVisible
      ensures observer.None? && sceneObservers == [] && nextHandle == old(nextHandle)
    {
      initialized := true;
      buttonVisible := false;
      Disable();
    }

    /** `enable`: hide the button; subscribe a fresh observer unless one is already registered. */
    method Enable()
      requires Valid() && initialized
      modifies this
      ensures EnableEffect()
    {
      HideButton();
      // the fresh startingPoint/startingTime of this call
      var record: Option<DownRecord> := None;
      if observer.Some? {
        return;
      }
      var h := nextHandle;
      nextHandle := nextHandle + 1;
      sceneObservers := sceneObservers + [h];
      observer := Some(Observer(h, record));
    }

    /** `disable`: remove and forget the observer, if there is one. */
    method Disable()
      requires Valid()
      modifies this
      ensures Valid() && observer.None? && sceneObservers == []
      ensures initialized == old(initialized) && buttonVisible == old(buttonVisible)
      ensures nextHandle == old(nextHandle)
      ensures old(observer).None? ==> unchanged(this)
    {
      if observer.Some? {
        sceneObservers := Without(sceneObservers, observer.value.handle);
        observer := None;
      }
    }

    method ShowButton()
      requires Valid() && initialized
      modifies this`buttonVisible
      ensures Valid() && buttonVisible
    {
      buttonVisible := true;
    }

    method HideButton()
      requires Valid() && initialized
      modifies this`buttonVisible
      ensures Valid() && !buttonVisible
    {
      buttonVisible := false;
    }

    /** The tool button's click handler, which the GUI calls only while the button is visible. */
    method OnButtonClick()
      requires Valid() && initialized && buttonVisible
      modifies this
      ensures EnableEffect()
    {
      Enable();
    }

    /**
     * The scene delivers a pointer event: only a registered observer sees it, and it changes
     * nothing but that observer's record.
     */
    method OnPointer<P>(ev: PointerEvent<P>) returns (d: Option<Decision<P>>)
      requires Valid()
      modifies this`observer
      ensures Valid()
      ensures old(observer).None? ==> observer.None? && d.None?
      ensures old(observer).Some? ==>
                var r := Observe(old(observer).value.record, ev);
                observer == Some(Observer(old(observer).value.handle, r.record)) && d == r.decision
    {
      d := None;
      if observer.Some? {
        var r := Observe(observer.value.record, ev);
        observer := Some(Observer(observer.value.handle, r.record));
        d := r.decision;
      }
    }
  }

  /** Calling `enable` twice in a row leaves exactly one observer on the scene, with an empty record. */
  method EnableTwice(t: Tool)
    requires t.Valid() && t.initialized && t.observer.None?
    modifies t
    ensures t.Valid() && |t.sceneObservers| == 1
    ensures t.observer.Some? && t.observer.value.record.None?
  {
    t.Enable();
    t.Enable();
  }

  /** `disable` on a tool that was never enabled changes nothing. */
  method DisableNeverEnabled() returns (t: Tool)
    ensures fresh(t) && t.Valid() && t.initialized && !t.buttonVisible && t.observer.None?
  {
    t := new Tool();
    t.Init();
    t.Disable();
    t.Disable();
  }

  /** No record leaks across a disable/enable cycle: the re-enabled observer starts with an empty one. */
  method ReEnableResetsRecord<P>(t: Tool, down: PointerEvent<P>)
    requires t.Valid() && t.initialized && t.observer.Some? && down.PointerDown?
    modifies t
    ensures t.Valid() && t.observer.Some? && t.observer.value.record.None?
  {
    var _ := t.OnPointer(down);
    t.Disable();
    t.Enable();
  }
}
