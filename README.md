# Mesh viewer: pointer tools and mesh menu

This project models the three small state machines of a browser viewer for cultural-heritage meshes, and proves properties about them in Dafny:

- **The click classifier** (`PointerClicks`). A pointer tool registers this observer on the scene. It records where and when the last pointer-down happened. On pointer-up it accepts a click only if all of these hold:
  - the press lasted at most 150 ms;
  - the pointer did not move;
  - the ray cast hit the mesh and has a picked point.

  An accepted click branches on mouse button 0 or 2. Both branches are empty in the template.
- **The tool lifecycle** (`PointerTool.Tool`). `docs/annotationTool.js` and `tool.js` are the same template with different names, so one class models both. The tool has:
  - an "open tool" button with a visibility flag;
  - at most one observer on the scene, held in a nullable variable.

  `enable` hides the button and subscribes when no observer is registered yet. `disable` removes the observer and forgets it. `init` creates the hidden button and calls `disable`. The button's click handler calls `enable`. The pointer-down record lives in the observer's closure, so the model stores it inside `Observer`.
- **The mesh menu** (`MeshMenu`). The menu keeps:
  - one slot per mesh button in `meshes`, null until that mesh has loaded;
  - the active slot;
  - the visibility of the button panel and of the "Back to Menu" button;
  - the loads still in flight.

  The handlers are pure step functions. The class `MeshScene` holds the script's globals, and each of its methods is tied to one step function through `View()`. A finished load is an explicit event carrying the imported root mesh. The GUI delivers clicks only to visible controls, and a completion arrives only for a load in flight. `Deliver` encodes that rule. Under it, every event sequence keeps `Inv`, so no handler throws, and whenever "Back to Menu" is visible the active slot holds a loaded mesh.

Inputs the browser supplies become parameters:
- the clock (`Date.now()`) is an integer;
- pointer coordinates are integers;
- the pick result is a `PickInfo` whose point is opaque;
- a mesh is an opaque type `M`;
- a button's `meshOperations` is an optional `M -> M`. The callback's return value is discarded (the one operation moves the mesh in place), so `f(root)` stands for the mesh as the operation leaves it, not for what the callback returns.

The viewer's scripts (the two tool templates and the scene script `babylonScene.js`) are JavaScript. With no recorded pointer-down, `Date.now() - null` is the whole clock reading. That is a long press once the clock passes 150 ms. Below that, the tool scripts dereference a null `startingPoint`, and the model returns `Decision.Fault`.

Three things the code does not do, so the model does not do them either:
- `disable` only removes the observer. Button visibility stays as it was.
- The left and right click branches of the template are empty. No point is placed.
- The "Back to Menu" handler does not disable any tool.

## Model

| member | source | states |
|---|---|---|
| PointerClicks.Dispatch | docs/annotationTool.js:49-56 | left click exactly for button 0, right click exactly for button 2, no case for any other button |
| PointerClicks.ClassifyUp | docs/annotationTool.js:36-57 | a missing record counts as time 0; a pointer-up is a click iff a down was recorded, at most 150 ms ago (150 itself accepted), at the same x and y, and the pick hit with a picked point; the click carries that point; each ignore reason holds exactly under its own condition; a fault happens iff no down was recorded and the clock reads at most 150 |
| PointerClicks.Observe | docs/annotationTool.js:29-34 | a pointer-down overwrites both position and time; no other event touches the record; only a pointer-up is classified, against the record as it stood |
| PointerClicks.ReplayIsLastDown | docs/annotationTool.js:31-34 | after any sequence of events, the record equals the most recent pointer-down, or the initial record if there was none |
| PointerClicks.UpsKeepRecord | tool.js:33-54 | pointer-ups and other events never clear or change the record, so it persists across ups |
| PointerClicks.ClassifierExamples | tool.js:35-41 | same spot after 150 ms on the mesh is a click; 151 ms, a moved pointer or a missed pick is ignored; button 1 is accepted but matches no case |
| PointerClicks.UpWithoutDownIgnored | tool.js:18-35 | a pointer-up with no recorded down is ignored as a long press once the clock exceeds 150 |
| PointerTool.Without | docs/annotationTool.js:66 | removing an observer from the scene's list keeps every other entry and drops exactly that handle |
| PointerTool.Tool.constructor | docs/annotationTool.js:11-13 | before `init`, no button is shown and no observer is registered |
| PointerTool.Tool.Init | docs/annotationTool.js:72-106 | after `init`, the tool is bound, the button is hidden and no observer is registered |
| PointerTool.Tool.Enable | docs/annotationTool.js:16-60 | the button is always hidden; with an observer already registered, nothing else changes and that observer keeps its record; otherwise exactly one new observer is registered, with an empty record |
| PointerTool.Tool.Disable | tool.js:60-66 | afterwards no observer is held or registered; button visibility and binding are untouched; with no observer, nothing changes at all |
| PointerTool.Tool.ShowButton | tool.js:105 | only the button-visibility flag changes, and it becomes true |
| PointerTool.Tool.HideButton | tool.js:106 | only the button-visibility flag changes, and it becomes false |
| PointerTool.Tool.OnButtonClick | docs/annotationTool.js:100-102 | clicking the visible button has exactly the effect of `enable` |
| PointerTool.Tool.OnPointer | tool.js:25-56 | an event reaches only a registered observer; it updates that observer's record by `Observe` and returns its decision; button, binding and scene subscriptions never change |
| PointerTool.EnableTwice | tool.js:22-25 | two `enable` calls in a row register exactly one observer, and its record is empty |
| PointerTool.DisableNeverEnabled | docs/annotationTool.js:63-69 | `disable` on a tool that was never enabled leaves it with no observer and the button hidden |
| PointerTool.ReEnableResetsRecord | tool.js:18-25 | after a pointer-down, `disable`, then `enable`, the new observer's record is empty: no record leaks across sessions |
| MeshMenu.Initial | babylonScene.js:12-15 | the start state: no slots and no active slot (the globals), the panel shown (created at line 102), "Back to Menu" hidden (line 141), no load pending; it satisfies the invariant |
| MeshMenu.MeshButtonCreated | babylonScene.js:21-22 | appends exactly one empty slot at index previous length; existing slots, their enabled flags and all visibility are unchanged |
| MeshMenu.MeshButtonClicked | babylonScene.js:38-56 | hides the panel and makes the slot active; a loaded slot is re-enabled and "Back to Menu" shown, with no load started; an empty slot starts a load and shows nothing; slot contents never change |
| MeshMenu.LoadCompleted | babylonScene.js:56-62 | writes only the completed slot, enables that mesh, then shows "Back to Menu" and retires the load; other slots, the panel and the active index are unchanged |
| MeshMenu.MenuButtonClicked | babylonScene.js:130-137 | succeeds iff the active slot is defined and loaded, and then shows the panel, hides "Back to Menu" and disables only that mesh, with slot contents unchanged |
| MeshMenu.InitialInv | babylonScene.js:141 | the initial state (menu shown, "Back to Menu" hidden, no slots) satisfies the invariant |
| MeshMenu.StepKeepsInv | babylonScene.js:36-137 | every event from a visible control, and every completion of a pending load, is handled without throwing and keeps the invariant |
| MeshMenu.RunKeepsInv | babylonScene.js:36-141 | every event sequence delivered from an invariant state runs without a throw and ends in an invariant state |
| MeshMenu.ReachableMenuShowsLoadedMesh | babylonScene.js:130-141 | in every reachable state, no handler has thrown, and a visible "Back to Menu" implies the active slot holds a loaded mesh |
| MeshMenu.MenuClickDuringLoadThrows | babylonScene.js:62 | without the visible-control rule, clicking "Back to Menu" while the first mesh loads reaches a null slot and throws |
| MeshMenu.MeshScene.constructor | babylonScene.js:139-141 | before any mesh button exists: no slots, panel shown, "Back to Menu" hidden, no active slot |
| MeshMenu.MeshScene.CreateMeshButton | babylonScene.js:19-22 | returns the slot index equal to the previous length; the state moves by `MeshButtonCreated`; the button's operations are stored |
| MeshMenu.MeshScene.OnMeshButtonClick | babylonScene.js:36-56 | the state moves by `MeshButtonClicked` and the invariant is kept |
| MeshMenu.MeshScene.OnLoadComplete | babylonScene.js:59 | the slot receives the root mesh after the button's optional operations have run on it, by `LoadCompleted` |
| MeshMenu.MeshScene.OnMenuButtonClick | babylonScene.js:130-137 | the handler never throws and the state moves by `MenuButtonClicked` |

## Left out

- The measurement tool is not part of this model: unit parsing, ratio scaling and result formatting. None of that code is in the modelled files.
- Rendering is not modelled: the engine, scene, camera, light, render loop, FPS counter and window resize (`babylonScene.js` lines 72-170, except the panel at line 102, the mesh-button creation calls at lines 106-114, the menu button's creation at line 117, its handler at lines 130-137 and its start state at line 141). These are calls into the rendering engine.
- GUI styling and layout are not modelled. They have no behaviour.
- `BABYLON.ImportMeshAsync` itself is not modelled, nor is the loading screen, nor the `console` timing and logging. A completed import is the `LoadComplete` event.
- A rejected import is not modelled. The scene script attaches no rejection handler, so the slot simply stays empty and its load stays pending. That is the same as a completion that never arrives.
- The model assumes `result.meshes[0]` exists. An import that yields no mesh would store `undefined` there.
- `Date.now()` is not modelled. Each event carries the clock reading as an integer.
- Pixel coordinates are integers. Fractional pointer coordinates are not modelled.
- The picked point is opaque. No geometry is done on it.
- The scene is a single fixed collaborator. `scene.onPointerObservable` is modelled only as the list of this tool's handles.
- PointerTool.Tool.Init: requires that `init` has not run before. Re-initialising would rebind a new scene and a new button, and that is not modelled.
- PointerTool.Tool.Enable: requires `init` first. Before `init`, the tool script's `hideButton` dereferences an undefined button and throws, and the model does not represent that throw.
- PointerTool.Tool.ShowButton: requires `init` first, for the same reason as `Enable`.
- PointerTool.Tool.HideButton: requires `init` first, for the same reason as `Enable`.
- MeshMenu.MenuButtonClicked: when the handler throws, the result is `None`. The model does not keep the panel and button visibility changes that the scene script makes before throwing.
- MeshMenu.LoadCompleted: assumes the button's `meshOperations` does not throw. The scene script fills the slot before it runs the operation, so a throwing operation would leave the slot filled, the loading screen up and "Back to Menu" hidden. The model writes the slot and the visibility together.
- MeshMenu.MeshScene.CreateMeshButton: returns the slot index, not the GUI button object the scene script returns.
- The GUI delivers clicks only to visible controls. The model assumes this rule; it does not derive it.
