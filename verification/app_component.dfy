/**
 * The application component's decision logic: the undo/redo-disabled flags,
 * the in-bounds flag that the drag "edge" signal keeps up to date, and the
 * choice of action when a drag stops.
 */
module AppComponent {
  import opened Wrappers
  import opened Entities
  import opened Inputs
  import opened EditingImageReducer

  /**
   * The Undo button is disabled when the selected image has nothing to undo,
   * that is exactly when the reducer's precondition for Undo fails.
   */
  predicate UndoDisabled(s: AppState): (r: bool)
    requires ValidSelection(s)
    ensures r <==> !Enabled(s, Undo)
  {
    |s.images[s.selectedImage].previous| == 0
  }

  /**
   * The Redo button is disabled when the selected image has nothing to redo,
   * that is exactly when the reducer's precondition for Redo fails.
   */
  predicate RedoDisabled(s: AppState): (r: bool)
    requires ValidSelection(s)
    ensures r <==> !Enabled(s, Redo)
  {
    |s.images[s.selectedImage].next| == 0
  }

  /** After an enabled Undo, Redo is enabled; after an enabled Redo, Undo is. */
  lemma UndoEnablesRedo(s: AppState)
    requires ValidSelection(s)
    ensures !UndoDisabled(s) ==> ValidSelection(Reduce(s, Undo)) && !RedoDisabled(Reduce(s, Undo))
    ensures !RedoDisabled(s) ==> ValidSelection(Reduce(s, Redo)) && !UndoDisabled(Reduce(s, Redo))
  {
  }

  class Component {
    /** False while a dragged overlay is outside the image, which asks for its deletion. */
    var isInBounds: bool

    constructor ()
      ensures isInBounds
    {
      isInBounds := true;
    }

    /** The edge signal of a drag: in bounds exactly when no edge is crossed. */
    method Edge(top: bool, bottom: bool, right: bool, left: bool)
      modifies this
      ensures isInBounds <==> top && bottom && right && left
    {
      isInBounds := top && bottom && right && left;
    }

    /**
     * The action a stopped drag dispatches, if any. `confirmed` is the user's
     * answer to the removal prompt, which is only shown for an out-of-bounds drop.
     */
    method DragStopped(event: Position, input: TextInput, confirmed: bool) returns (dispatched: Option<Action>)
      ensures dispatched.None? <==> event == input.position
      ensures event != input.position && isInBounds ==> dispatched == Some(SavePosition(input, event))
      ensures event != input.position && !isInBounds && confirmed ==> dispatched == Some(DeleteText(input))
      ensures event != input.position && !isInBounds && !confirmed ==> dispatched == Some(UpdatePosition)
    {
      if event.x == input.position.x && event.y == input.position.y {
        return None;
      }
      if isInBounds {
        dispatched := Some(SavePosition(input, event));
      } else {
        if confirmed {
          dispatched := Some(DeleteText(input));
        } else {
          dispatched := Some(UpdatePosition);
        }
      }
    }

    /**
     * A stopped drag followed by the store's reduction of what it dispatched.
     * An unmoved drop and a declined out-of-bounds drop leave the state as it
     * was; the other two record a snapshot and move or remove the overlay.
     */
    method DragStoppedOnStore(s: AppState, event: Position, input: TextInput, confirmed: bool) returns (r: AppState)
      ensures event == input.position ==> r == s
      ensures event != input.position && !isInBounds && !confirmed ==> r == s
      ensures ValidSelection(s) && event != input.position && (isInBounds || confirmed) ==>
        && ValidSelection(r)
        && Selected(r).previous == [Selected(s).current] + Selected(s).previous
        && Selected(r).next == []
        && Selected(r).current == Selected(s).current.(inputs := Selected(r).current.inputs)
        && Selected(r).current.inputs ==
             if isInBounds then SetPosition(Selected(s).current.inputs, input, event)
             else RemoveInput(Selected(s).current.inputs, input)
      ensures r.selectedImage == s.selectedImage && |r.images| == |s.images|
      ensures forall j :: 0 <= j < |s.images| && j != s.selectedImage ==> j < |r.images| && r.images[j] == s.images[j]
    {
      var dispatched := DragStopped(event, input, confirmed);
      r := Dispatch(s, dispatched);
      UpdatePositionKeepsState(s);
    }
  }
}
