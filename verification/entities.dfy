/**
 * The records the image editor keeps in its store: a text overlay, one editable
 * snapshot of an image, an image with its undo/redo history, and the gallery.
 * Every record is an immutable value; an action produces new records.
 */
module Entities {

  /** A drop or overlay position in the editor's drag coordinates. */
  datatype Position = Position(x: real, y: real)

  /**
   * A draggable text overlay. The application locates the overlay an action names
   * by object identity; `id` stands for that identity and is the only thing
   * the reducer compares.
   */
  datatype TextInput = TextInput(id: nat, position: Position, content: string)

  /** One editable snapshot of an image: source URL, zoom factor, angle in degrees, overlays. */
  datatype EditingImage = EditingImage(src: string, zoom: real, rotate: int, inputs: seq<TextInput>)

  /**
   * Linear undo/redo history: `previous` holds the snapshots Undo can reach and
   * `next` those Redo can reach, both most recent first.
   */
  datatype ImageWithHistory = ImageWithHistory(previous: seq<EditingImage>, current: EditingImage, next: seq<EditingImage>)

  /** The gallery. The selection is not checked against the gallery's length, hence `int`. */
  datatype AppState = AppState(images: seq<ImageWithHistory>, selectedImage: int)

  /** True when `selectedImage` names an image of the gallery. */
  predicate ValidSelection(s: AppState)
  {
    0 <= s.selectedImage < |s.images|
  }

  /** No two overlays of one snapshot share an identity. */
  predicate DistinctIds(inputs: seq<TextInput>)
  {
    forall i, j :: 0 <= i < j < |inputs| ==> inputs[i].id != inputs[j].id
  }

  /** Every snapshot of the image, on either stack or current, has distinct overlay identities. */
  predicate WellFormedImage(img: ImageWithHistory)
  {
    && (forall k :: 0 <= k < |img.previous| ==> DistinctIds(img.previous[k].inputs))
    && DistinctIds(img.current.inputs)
    && (forall k :: 0 <= k < |img.next| ==> DistinctIds(img.next[k].inputs))
  }

  /** Every image of the gallery is well formed. */
  predicate WellFormed(s: AppState)
  {
    forall i :: 0 <= i < |s.images| ==> WellFormedImage(s.images[i])
  }
}
