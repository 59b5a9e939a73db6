# Image editor: undo/redo history reducer and drag-stop decision

This project models the state logic of a small browser image editor. The
editor keeps a gallery of images; each image has a `current` editable
snapshot (source URL, zoom factor, rotation angle, text overlays) and two
history stacks, `previous` (reachable by Undo) and `next` (reachable by
Redo), both most recent first. The gallery also records which image is
selected.

The store's reducer is modelled as one total function `Reduce(state, action)`
(module `EditingImageReducer`). Every editing action (add overlay, zoom in,
zoom out, rotate, update content, save position, delete text) pushes the old
`current` onto the front of `previous`, clears `next` and changes one field of
`current`. Undo and Redo move snapshots between the stacks. Restoring
positions copies the overlays and records nothing. Only the image at
`selectedImage` is touched. The overlay-list operations (`map` and `filter`
over overlays) are in module `Inputs`; records are in `Entities`.

The application component (module `AppComponent`) is modelled as a class
holding the `isInBounds` flag, which the drag "edge" signal updates. Its
`DragStopped` method chooses the action a stopped drag dispatches. The
removal prompt's answer is a boolean parameter, and the dispatch is the
returned `Option<Action>`. `DragStoppedOnStore` composes that choice with
the reducer. The Undo/Redo-disabled flags are plain predicates on the state.

Overlays are matched by object identity in the application. Here every
overlay has an `id`, and matching compares ids. A new overlay gets an id
above every id in the current snapshot (`FreshId`). The invariant
`WellFormed` says that ids are distinct within every snapshot, and every
action preserves it.

Selecting an image does no bounds check, so `selectedImage` is an `int`. The
model proves that, with the selection outside the gallery, every other action
leaves the state unchanged (`OutOfRangeSelectionIsInert`).

## Model

| member | source | states |
|---|---|---|
| `Inputs.FreshId` | src/app/reducers/images/editing-image.reducer.ts:50-53 | the identity given to a new overlay is above every identity in the snapshot, so it matches no existing overlay |
| `Inputs.AddInput` | src/app/reducers/images/editing-image.reducer.ts:50-53 | exactly one overlay is appended at the end, at (0,0) with "Enter Text Here"; the existing overlays stay unchanged and in order; distinct identities stay distinct |
| `Inputs.SetContent` | src/app/reducers/images/editing-image.reducer.ts:109-113 | the length is kept; each matching overlay gets the new content and keeps its position and identity; every other overlay is unchanged |
| `Inputs.SetPosition` | src/app/reducers/images/editing-image.reducer.ts:149-153 | the length is kept; each matching overlay gets the new position and keeps its content and identity; every other overlay is unchanged |
| `Inputs.RemoveInput` | src/app/reducers/images/editing-image.reducer.ts:167 | an overlay is in the result exactly when it was in the input and does not match |
| `Inputs.CopyInputs` | src/app/reducers/images/editing-image.reducer.ts:180 | copying every overlay yields the same list of values |
| `Inputs.SetFieldsKeepDistinct` | src/app/reducers/images/editing-image.reducer.ts:109-113 | content and position updates keep overlay identities distinct |
| `Inputs.SetFieldsWithoutMatch` | src/app/reducers/images/editing-image.reducer.ts:149-153 | with no matching overlay, content and position updates leave the list unchanged |
| `Inputs.RemoveInputKeepsDistinct` | src/app/reducers/images/editing-image.reducer.ts:167 | removal keeps the survivors' identities distinct |
| `Inputs.RemoveInputAppend` | src/app/reducers/images/editing-image.reducer.ts:167 | removal distributes over concatenation, so survivors keep their relative order |
| `Inputs.RemoveInputWithoutMatch` | src/app/reducers/images/editing-image.reducer.ts:167 | with no matching overlay, removal keeps the whole list |
| `Inputs.RemoveInputExactlyOne` | src/app/reducers/images/editing-image.reducer.ts:167 | with distinct identities and the target at index k, removal yields the list without index k, the rest in order |
| `EditingImageReducer.ZoomedIn` | src/app/reducers/images/editing-image.reducer.ts:67 | a positive zoom factor grows; zero stays zero |
| `EditingImageReducer.ZoomedOut` | src/app/reducers/images/editing-image.reducer.ts:81 | a positive zoom factor shrinks and stays positive; zero stays zero |
| `EditingImageReducer.TruncRem` | src/app/reducers/images/editing-image.reducer.ts:95 | the `%` remainder differs from the dividend by a multiple of n, lies strictly between -n and n, and has the sign of the dividend |
| `EditingImageReducer.Turned` | src/app/reducers/images/editing-image.reducer.ts:95 | one rotation adds 45 degrees modulo 360 and lands in [0, 360) from any angle of at least -45 |
| `EditingImageReducer.Reduce` | src/app/reducers/images/editing-image.reducer.ts:36-185 | the gallery length is kept; no image other than the selected one changes; only selection changes `selectedImage`, and it changes no image |
| `EditingImageReducer.ReduceAll` | src/app/reducers/images/editing-image.reducer.ts:36-185 | a sequence of dispatched actions keeps the gallery length |
| `EditingImageReducer.InitialStateShape` | src/app/reducers/images/editing-image.reducer.ts:7-34 | the seed state has two well-formed images with zoom 1, angle 0, one "Enter Text Here" overlay at (0,0) and empty stacks, and the first image is selected |
| `EditingImageReducer.EditRecordsSnapshot` | src/app/reducers/images/editing-image.reducer.ts:42-118 | every editing action sets `previous` to the old current followed by the old `previous` and empties `next`, whether or not an overlay matches (also lines 141-172) |
| `EditingImageReducer.OutOfRangeSelectionIsInert` | src/app/reducers/images/editing-image.reducer.ts:44-45 | when the selection is outside the gallery, no action except selection changes anything |
| `EditingImageReducer.SelectChangesOnlySelection` | src/app/reducers/images/editing-image.reducer.ts:38-41 | selection sets `selectedImage` to the index, in range or not, and changes nothing else |
| `EditingImageReducer.AddInputAppendsPlaceholder` | src/app/reducers/images/editing-image.reducer.ts:42-58 | add input changes only the overlays: one placeholder at (0,0) with "Enter Text Here" and a fresh identity is appended after the unchanged existing ones |
| `EditingImageReducer.ZoomChangesOnlyZoom` | src/app/reducers/images/editing-image.reducer.ts:59-86 | zooming changes only the zoom factor, upwards for zoom in and downwards for zoom out when it is positive |
| `EditingImageReducer.RotateTurnsBy45` | src/app/reducers/images/editing-image.reducer.ts:87-100 | rotating changes only the angle, by 45 modulo 360, and keeps an angle in [0, 360) in that range |
| `EditingImageReducer.UpdateContentRewritesMatch` | src/app/reducers/images/editing-image.reducer.ts:101-118 | update content keeps overlay count and order; matching overlays get the new content and keep their position; the others and the other snapshot fields are unchanged |
| `EditingImageReducer.SavePositionRewritesMatch` | src/app/reducers/images/editing-image.reducer.ts:141-158 | save position keeps overlay count and order; matching overlays get the new position and keep their content; the others and the other snapshot fields are unchanged |
| `EditingImageReducer.DeleteTextDropsMatch` | src/app/reducers/images/editing-image.reducer.ts:159-172 | delete keeps exactly the non-matching overlays; with distinct identities it removes just the matched one and keeps the rest in order |
| `EditingImageReducer.UpdatePositionKeepsState` | src/app/reducers/images/editing-image.reducer.ts:173-184 | restoring positions records no snapshot and leaves the whole state unchanged |
| `EditingImageReducer.UndoStep` | src/app/reducers/images/editing-image.reducer.ts:119-129 | undo puts `previous[0]` into current, drops it from `previous`, pushes the old current onto `next`, and keeps the total history length |
| `EditingImageReducer.RedoStep` | src/app/reducers/images/editing-image.reducer.ts:130-140 | redo puts `next[0]` into current, drops it from `next`, pushes the old current onto `previous`, and keeps the total history length |
| `EditingImageReducer.UndoThenRedo` | src/app/reducers/images/editing-image.reducer.ts:119-140 | an enabled undo enables redo, and redo after undo restores the whole state |
| `EditingImageReducer.RedoThenUndo` | src/app/reducers/images/editing-image.reducer.ts:119-140 | an enabled redo enables undo, and undo after redo restores the whole state |
| `EditingImageReducer.EditedKeepsDistinct` | src/app/reducers/images/editing-image.reducer.ts:42-118 | every editing action keeps the current snapshot's overlay identities distinct |
| `EditingImageReducer.ImageStepKeepsWellFormed` | src/app/reducers/images/editing-image.reducer.ts:119-140 | every handler, including the stack moves of undo and redo, keeps every snapshot's identities distinct |
| `EditingImageReducer.ReduceKeepsWellFormed` | src/app/reducers/images/editing-image.reducer.ts:36-185 | the reducer preserves the well-formedness of the whole gallery |
| `EditingImageReducer.TurnedNAdds` | src/app/reducers/images/editing-image.reducer.ts:95 | from an angle in [0, 360), n rotations add 45n degrees modulo 360 |
| `EditingImageReducer.RotateRepeated` | src/app/reducers/images/editing-image.reducer.ts:87-100 | n rotate actions change only the angle, turned n times, and record n snapshots |
| `EditingImageReducer.EightRotationsRestoreAngle` | src/app/reducers/images/editing-image.reducer.ts:95 | eight rotations, or any multiple of eight, restore the current snapshot when its angle is in [0, 360) |
| `EditingImageReducer.SeedAddInputScenario` | src/app/reducers/images/editing-image.reducer.ts:42-58 | on the seed state, add input gives the first image two overlays, the seed snapshot as the only `previous` entry, and an empty `next` |
| `EditingImageReducer.SeedMoveThenDeleteScenario` | src/app/reducers/images/editing-image.reducer.ts:141-172 | on the seed state, moving the first overlay to (50,80) and then deleting the moved overlay leaves the first image with no overlay and two snapshots in `previous` |
| `EditingImageReducer.EditThenUndoRestores` | src/app/reducers/images/editing-image.reducer.ts:42-129 | undo right after any editing action restores the prior current snapshot and undo stack, and leaves the edited snapshot as the only redo entry |
| `AppComponent.UndoDisabled` | src/app/app.component.ts:26-27 | Undo is disabled exactly when the reducer's undo precondition fails, so an enabled Undo never reaches an empty stack |
| `AppComponent.RedoDisabled` | src/app/app.component.ts:28-29 | Redo is disabled exactly when the reducer's redo precondition fails, so an enabled Redo never reaches an empty stack |
| `AppComponent.UndoEnablesRedo` | src/app/app.component.ts:26-29 | after an enabled undo, redo is enabled, and after an enabled redo, undo is enabled |
| `AppComponent.Component.constructor` | src/app/app.component.ts:36 | `isInBounds` starts true |
| `AppComponent.Component.Edge` | src/app/app.component.ts:153-155 | `isInBounds` becomes true exactly when top, bottom, right and left are all true |
| `AppComponent.Component.DragStopped` | src/app/app.component.ts:130-145 | nothing is dispatched exactly when the drop equals the overlay's position; otherwise exactly one action is dispatched: save position with the drop when in bounds, delete text when out of bounds and confirmed, update position when out of bounds and declined |
| `AppComponent.Component.DragStoppedOnStore` | src/app/app.component.ts:138-144 | an unmoved drop or a declined out-of-bounds drop leaves the state unchanged; a moved in-bounds or confirmed drop records a snapshot and moves or removes the overlay, keeping the snapshot's other fields; the selection and gallery length are kept and no other image changes |

## Left out

- `src/app/app.module.ts`: module wiring, dev tools and router setup, with no logic.
- The store, its selectors and the observable plumbing. The selectors are not part of this model; the disabled flags read the image at `selectedImage` directly.
- The component's other handlers (`selectImage`, `addTextBlock`, `zoomIn`, `zoomOut`, `rotate`, `updateContent`, `undo`, `redo`): each dispatches one action and contains no logic; that action's effect is `Reduce`.
- `getTop`, `getLeft`, `getTransform`: floating-point division and CSS string formatting, used only for display.
- The removal prompt is a blocking browser dialog; its answer is the `confirmed` parameter.
- The content of an update comes from an input event's target value; the model takes that string as the action's `value`.
- EditingImageReducer.ZoomedIn: computes with exact rationals rather than floating point, so rounding is not modelled, and only the direction of change is claimed (no equality such as 0.99 after zooming in then out).
- EditingImageReducer.ZoomedOut: as for `ZoomedIn`, exact rationals and only the direction of change are modelled.
- The rotation angle is an integer. It starts at 0 and only ever has 45 added, so fractional angles never arise; the truncating `%` is written out for negative angles.
- Object identity. Overlays carry an `id`, and matching compares ids. A content or position update, and restoring positions (src/app/reducers/images/editing-image.reducer.ts:180), keep each overlay's id, whereas the application's spread creates a new object. So a payload captured before such an update or restore still matches here, but would not match by reference in the application. The component renders overlays from the current snapshot, so a later gesture carries the updated overlay, and then both agree. Fresh ids are chosen above the current snapshot's ids only, so an overlay that exists only in a history snapshot may share an id with a later one.
- Undo and Redo on an empty stack: the handlers read `previous[0]` and `next[0]` with no guard (src/app/reducers/images/editing-image.reducer.ts:124 and 135), so `current` would become undefined. The model makes a non-empty stack on the selected image a precondition of `Reduce` (`Enabled`). `UndoDisabled` and `RedoDisabled` show that the disabled buttons guarantee it.
- Image source URLs are opaque strings.
