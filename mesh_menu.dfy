/**
 * The viewer's mesh menu: one slot per mesh button in `meshes`, null until that mesh has been
 * loaded, the index of the mesh last shown, the visibility of the button panel and of the
 * "Back to Menu" button, and the loads still in flight.  The asynchronous completion of a
 * load is an explicit event carrying the imported root mesh, which is opaque (`M`).
 */
module MeshMenu {
  import opened Wrappers

  datatype MenuState<M> = MenuState(
    meshes: seq<Option<M>>,         // one slot per mesh button
    enabled: seq<bool>,             // `setEnabled` state of each slot's mesh
    activeMeshIndex: Option<nat>,   // None while still undefined
    panelVisible: bool,             // the button panel's `isVisible`
    menuVisible: bool,              // the "Back to Menu" button's `isVisible`
    loadPending: set<nat>)          // slots whose import has started and not completed

  datatype MenuEvent<M> =
    | CreateMeshButton
    | MeshButtonClick(index: nat)
    | LoadComplete(index: nat, mesh: M)
    | MenuButtonClick

  predicate WellFormed<M>(s: MenuState<M>)
  {
    |s.enabled| == |s.meshes|
  }

  /** After the scene is built and before any button exists: menu shown, "Back to Menu" hidden. */
  function Initial<M>(): (r: MenuState<M>)
    ensures r.meshes == [] && r.activeMeshIndex.None? && r.loadPending == {}
    ensures r.panelVisible && !r.menuVisible
    ensures Inv(r)
  {
    MenuState([], [], None, true, false, {})
  }

  /** `createMeshButton`: the new button owns slot `|meshes|`, which starts empty. */
  function MeshButtonCreated<M>(s: MenuState<M>): (r: MenuState<M>)
    requires WellFormed(s)
    ensures WellFormed(r)
    ensures |r.meshes| == |s.meshes| + 1 && r.meshes[..|s.meshes|] == s.meshes
    ensures r.meshes[|s.meshes|].None? && !r.enabled[|s.meshes|]
    ensures r.enabled[..|s.meshes|] == s.enabled
    ensures r.activeMeshIndex == s.activeMeshIndex && r.loadPending == s.loadPending
    ensures r.panelVisible == s.panelVisible && r.menuVisible == s.menuVisible
  {
    s.(meshes := s.meshes + [None], enabled := s.enabled + [false])
  }

  /**
   * A mesh button's click: hide the panel, make the slot active, then either re-enable the
   * cached mesh and show "Back to Menu", or start the import.
   */
  function MeshButtonClicked<M>(s: MenuState<M>, index: nat): (r: MenuState<M>)
    requires WellFormed(s) && index < |s.meshes|
    ensures WellFormed(r) && r.meshes == s.meshes
    ensures !r.panelVisible && r.activeMeshIndex == Some(index)
    // a cached mesh is shown again without any load
    ensures s.meshes[index].Some? ==>
              r.enabled == s.enabled[index := true] && r.menuVisible && r.loadPending == s.loadPending
    // an empty slot starts a load and shows nothing yet
    ensures s.meshes[index].None? ==>
              r.enabled == s.enabled && r.menuVisible == s.menuVisible && r.loadPending == s.loadPending + {index}
  {
    var s' := s.(panelVisible := false, activeMeshIndex := Some(index));
    if s.meshes[index].Some? then
      s'.(enabled := s.enabled[index := true], menuVisible := true)
    else
      s'.(loadPending := s.loadPending + {index})
  }

  /** The import of slot `index` resolved with `mesh`: fill that slot only, then show "Back to Menu". */
  function LoadCompleted<M>(s: MenuState<M>, index: nat, mesh: M): (r: MenuState<M>)
    requires WellFormed(s) && index < |s.meshes|
    ensures WellFormed(r) && |r.meshes| == |s.meshes|
    ensures r.meshes[index] == Some(mesh) && r.enabled[index]
    ensures forall j :: 0 <= j < |s.meshes| && j != index ==> r.meshes[j] == s.meshes[j] && r.enabled[j] == s.enabled[j]
    ensures r.menuVisible && r.loadPending == s.loadPending - {index}
    ensures r.panelVisible == s.panelVisible && r.activeMeshIndex == s.activeMeshIndex
  {
    // no setEnabled call here: a freshly imported mesh is enabled by the engine's default
    s.(meshes := s.meshes[index := Some(mesh)], enabled := s.enabled[index := true],
       menuVisible := true, loadPending := s.loadPending - {index})
  }

  /**
   * "Back to Menu": show the panel, hide the button, disable the active mesh.  None when
   * `meshes[activeMeshIndex]` is null or undefined, where the handler throws a TypeError.
   */
  function MenuButtonClicked<M>(s: MenuState<M>): (r: Option<MenuState<M>>)
    requires WellFormed(s)
    ensures r.Some? <==>
              s.activeMeshIndex.Some? && s.activeMeshIndex.value < |s.meshes| &&
              s.meshes[s.activeMeshIndex.value].Some?
    ensures r.Some? ==>
              WellFormed(r.value) && r.value.meshes == s.meshes &&
              r.value.enabled == s.enabled[s.activeMeshIndex.value := false] &&
              r.value.panelVisible && !r.value.menuVisible &&
              r.value.activeMeshIndex == s.activeMeshIndex && r.value.loadPending == s.loadPending
  {
    match s.activeMeshIndex
    case None => None
    case Some(i) =>
      if i < |s.meshes| && s.meshes[i].Some? then
        Some(s.(panelVisible := true, menuVisible := false, enabled := s.enabled[i := false]))
      else None
  }

  /** Events reach a handler only from a visible control; a completion only for a load in flight. */
  predicate FromVisibleControl<M>(s: MenuState<M>, e: MenuEvent<M>)
  {
    match e
    case CreateMeshButton => true
    case MeshButtonClick(i) => s.panelVisible && i < |s.meshes|
    case LoadComplete(i, _) => i in s.loadPending && i < |s.meshes|
    case MenuButtonClick => s.menuVisible
  }

  /** The handler's effect; None when it throws. */
  function Step<M>(s: MenuState<M>, e: MenuEvent<M>): (r: Option<MenuState<M>>)
    requires WellFormed(s) && FromVisibleControl(s, e)
    ensures r.Some? ==> WellFormed(r.value)
  {
    match e
    case CreateMeshButton => Some(MeshButtonCreated(s))
    case MeshButtonClick(i) => Some(MeshButtonClicked(s, i))
    case LoadComplete(i, m) => Some(LoadCompleted(s, i, m))
    case MenuButtonClick => MenuButtonClicked(s)
  }

  /** The GUI drops an event that no visible control (or pending load) can produce. */
  function Deliver<M>(s: MenuState<M>, e: MenuEvent<M>): (r: Option<MenuState<M>>)
    requires WellFormed(s)
    ensures r.Some? ==> WellFormed(r.value)
  {
    if FromVisibleControl(s, e) then Step(s, e) else Some(s)
  }

  /** The state after `evs`, or None once a handler has thrown. */
  function Run<M>(s: MenuState<M>, evs: seq<MenuEvent<M>>): (r: Option<MenuState<M>>)
    requires WellFormed(s)
    ensures r.Some? ==> WellFormed(r.value)
    decreases |evs|
  {
    if evs == [] then Some(s)
    else match Deliver(s, evs[0])
      case None => None
      case Some(s') => Run(s', evs[1..])
  }

  /** The menu shows exactly one of three screens; a displayed mesh is always the active, loaded one. */
  ghost predicate Inv<M>(s: MenuState<M>)
  {
    WellFormed(s) &&
    (s.activeMeshIndex.Some? ==> s.activeMeshIndex.value < |s.meshes|) &&
    (forall i :: 0 <= i < |s.meshes| && s.enabled[i] ==>
       s.meshes[i].Some? && s.menuVisible && s.activeMeshIndex == Some(i)) &&
    (OnMenu(s) || Loading(s) || Viewing(s))
  }

  /** The mesh buttons are shown and nothing is loading. */
  ghost predicate OnMenu<M>(s: MenuState<M>)
  {
    s.panelVisible && !s.menuVisible && s.loadPending == {}
  }

  /** The active slot is empty and its load is the only one in flight; no button is shown. */
  ghost predicate Loading<M>(s: MenuState<M>)
    requires WellFormed(s)
  {
    !s.panelVisible && !s.menuVisible && s.activeMeshIndex.Some? &&
    s.activeMeshIndex.value < |s.meshes| && s.meshes[s.activeMeshIndex.value].None? &&
    s.loadPending == {s.activeMeshIndex.value}
  }

  /** The active mesh is loaded and displayed, and "Back to Menu" is the way out. */
  ghost predicate Viewing<M>(s: MenuState<M>)
    requires WellFormed(s)
  {
    !s.panelVisible && s.menuVisible && s.activeMeshIndex.Some? &&
    s.activeMeshIndex.value < |s.meshes| && s.meshes[s.activeMeshIndex.value].Some? &&
    s.enabled[s.activeMeshIndex.value] && s.loadPending == {}
  }

  lemma InitialInv<M>()
    ensures Inv(Initial<M>())
  {
  }

  /** Under the visible-control rule no handler throws and the invariant is kept. */
  lemma StepKeepsInv<M>(s: MenuState<M>, e: MenuEvent<M>)
    requires Inv(s)
    ensures Deliver(s, e).Some? && Inv(Deliver(s, e).value)
  {
  }

  lemma {:induction false} RunKeepsInv<M>(s: MenuState<M>, evs: seq<MenuEvent<M>>)
    requires Inv(s)
    ensures Run(s, evs).Some? && Inv(Run(s, evs).value)
    decreases |evs|
  {
    if evs != [] {
      StepKeepsInv(s, evs[0]);
      RunKeepsInv(Deliver(s, evs[0]).value, evs[1..]);
    }
  }

  /**
   * In every state reachable from the initial one, no handler has thrown, and whenever
   * "Back to Menu" is visible the active slot holds a loaded mesh.
   */
  lemma ReachableMenuShowsLoadedMesh<M>(evs: seq<MenuEvent<M>>)
    ensures Run(Initial<M>(), evs).Some?
    ensures var t := Run(Initial<M>(), evs).value;
            t.menuVisible ==>
              t.activeMeshIndex.Some? && t.activeMeshIndex.value < |t.meshes| &&
              t.meshes[t.activeMeshIndex.value].Some?
  {
    InitialInv<M>();
    RunKeepsInv(Initial<M>(), evs);
  }

  /**
   * Without the visible-control rule the menu button is not safe: clicking it while the first
   * mesh is still loading reaches a null slot and the handler throws.
   */
  lemma MenuClickDuringLoadThrows<M>()
    ensures var loading := MeshButtonClicked(MeshButtonCreated(Initial<M>()), 0);
            Loading(loading) && MenuButtonClicked(loading).None?
  {
  }

  /** The global state of the scene script that the handlers read and write. */
  class MeshScene<M> {
    var meshes: seq<Option<M>>
    var enabled: seq<bool>
    var operations: seq<Option<M -> M>>   // each button's optional `meshOperations`
    var activeMeshIndex: Option<nat>
    var panelVisible: bool
    var menuVisible: bool
    var loadPending: set<nat>

    ghost function View(): MenuState<M>
      reads this
    {
      MenuState(meshes, enabled, activeMeshIndex, panelVisible, menuVisible, loadPending)
    }

    ghost predicate Valid()
      reads this
    {
      Inv(View()) && |operations| == |meshes|
    }

    /** The state `createScene` leaves before any mesh button exists. */
    constructor ()
      ensures Valid() && View() == Initial() && operations == []
    {
      meshes, enabled, operations := [], [], [];
      activeMeshIndex := None;
      panelVisible := true;
      menuVisible := false;
      loadPending := {};
    }

    method CreateMeshButton(meshOperations: Option<M -> M>) returns (index: nat)
      requires Valid()
      modifies this`meshes, this`enabled, this`operations
      ensures Valid() && index == old(|meshes|)
      ensures View() == MeshButtonCreated(old(View()))
      ensures operations == old(operations) + [meshOperations]
    {
      index := |meshes|;
      meshes := meshes + [None];
      enabled := enabled + [false];
      operations := operations + [meshOperations];
      StepKeepsInv(old(View()), MenuEvent.CreateMeshButton);
    }

    method OnMeshButtonClick(index: nat)
      requires Valid() && panelVisible && index < |meshes|
      modifies this`enabled, this`activeMeshIndex, this`panelVisible, this`menuVisible, this`loadPending
      ensures Valid() && View() == MeshButtonClicked(old(View()), index)
    {
      panelVisible := false;
      activeMeshIndex := Some(index);
      if meshes[index].Some? {
        enabled := enabled[index := true];
        menuVisible := true;
      } else {
        loadPending := loadPending + {index};
      }
      StepKeepsInv(old(View()), MeshButtonClick(index));
    }

    /** The import's promise resolved; `root` stands for `result.meshes[0]`. */
    method OnLoadComplete(index: nat, root: M)
      requires Valid() && index in loadPending && index < |meshes|
      modifies this`meshes, this`enabled, this`menuVisible, this`loadPending
      // the slot holds the root mesh as the button's optional operations leave it
      ensures Valid()
      ensures View() == LoadCompleted(old(View()), index,
                                      if operations[index].Some? then operations[index].value(root) else root)
    {
      var mesh := if operations[index].Some? then operations[index].value(root) else root;
      meshes := meshes[index := Some(mesh)];
      enabled := enabled[index := true];   // the engine enables an imported mesh by default
      loadPending := loadPending - {index};
      menuVisible := true;
      StepKeepsInv(old(View()), LoadComplete(index, mesh));
    }

    method OnMenuButtonClick()
      requires Valid() && menuVisible
      modifies this`enabled, this`panelVisible, this`menuVisible
      ensures Valid() && MenuButtonClicked(old(View())) == Some(View())
    {
      StepKeepsInv(View(), MenuButtonClick);
      panelVisible := true;
      menuVisible := false;
      enabled := enabled[activeMeshIndex.value := false];
    }
  }
}
