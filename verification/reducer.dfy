/**
 * The undo/redo history reducer: one total transition `Reduce(state, action)`
 * over the gallery. Every editing action records the old snapshot on the undo
 * stack, clears the redo stack and changes one field of the selected image's
 * current snapshot; Undo and Redo move snapshots between the stacks; only the
 * image at `selectedImage` is touched.
 */
module EditingImageReducer {
  import opened Wrappers
  import opened Entities
  import opened Inputs

  /** The actions the reducer handles, with the payloads their handlers read. */
  datatype Action =
    | SetEditingImage(index: int)
    | AddInputToImage
    | ZoomIn
    | ZoomOut
    | Rotate
    | UpdateContent(input: TextInput, value: string)
    | Undo
    | Redo
    | SavePosition(input: TextInput, event: Position)
    | DeleteText(input: TextInput)
    | UpdatePosition

  /** The actions that record a snapshot and invalidate the redo stack. */
  predicate IsEdit(a: Action)
  {
    a.AddInputToImage? || a.ZoomIn? || a.ZoomOut? || a.Rotate? ||
    a.UpdateContent? || a.SavePosition? || a.DeleteText?
  }

  // ---------------------------------------------------------------------------
  // Initial state

  const FirstSrc: string := "https://upload.wikimedia.org/wikipedia/commons/c/c8/Alexandre_Lacauchie_-_Gilbert_Duprez_as_Gaston_in_Verdi%27s_J%C3%A9rusalem.jpg"
  const SecondSrc: string := "https://upload.wikimedia.org/wikipedia/commons/thumb/2/20/Adolphe-Joseph-Louis_Alizard_from_Le_Charivari.jpg/800px-Adolphe-Joseph-Louis_Alizard_from_Le_Charivari.jpg"

  /** A seeded image: zoom 1, no rotation, one placeholder overlay at the origin, empty history. */
  function SeedImage(src: string): ImageWithHistory
  {
    ImageWithHistory([], EditingImage(src, 1.0, 0, [TextInput(0, Origin, NewText)]), [])
  }

  /** The store's state before any action: two seeded images, the first one selected. */
  const InitialState: AppState := AppState([SeedImage(FirstSrc), SeedImage(SecondSrc)], 0)

  // ---------------------------------------------------------------------------
  // Field updates

  /** Zooming in multiplies the factor by 1.1 (exact rational arithmetic here). */
  function ZoomedIn(zoom: real): (r: real)
    ensures zoom > 0.0 ==> r > zoom
    ensures zoom == 0.0 ==> r == 0.0
  {
    zoom * 1.1
  }

  /** Zooming out multiplies the factor by 0.9 (exact rational arithmetic here). */
  function ZoomedOut(zoom: real): (r: real)
    ensures zoom > 0.0 ==> 0.0 < r < zoom
    ensures zoom == 0.0 ==> r == 0.0
  {
    zoom * 0.9
  }

  /** A multiple of `n` leaves no remainder. */
  lemma MultipleHasNoRemainder(q: int, n: int)
    requires n > 0
    ensures (n * q) % n == 0
  {
    var x := n * q;
    var d, m := x / n, x % n;
    assert x == n * d + m && 0 <= m < n;
    var e := q - d;
    assert n * e == m by {
      assert n * q - n * d == n * (q - d);
    }
    if e >= 1 {
      MulAtLeast(n, e);
    } else if e <= -1 {
      MulAtLeast(n, -e);
    }
  }

  /** A positive factor times a positive integer is at least the factor. */
  lemma {:induction false} MulAtLeast(n: int, k: int)
    requires n > 0 && k >= 1
    ensures n * k >= n
    decreases k
  {
    if k > 1 {
      MulAtLeast(n, k - 1);
      assert n * k == n * (k - 1) + n;
    }
  }

  /**
   * The remainder of the application's `%`: `a` minus a multiple of `n`, below
   * `n` in magnitude, with the sign of `a` (division truncates toward zero).
   */
  function TruncRem(a: int, n: int): (r: int)
    requires n > 0
    ensures -n < r < n
    ensures a >= 0 ==> r >= 0
    ensures a <= 0 ==> r <= 0
    ensures (a - r) % n == 0
  {
    if a >= 0 then
      var r := a % n;
      MultipleHasNoRemainder(a / n, n);
      assert a - r == n * (a / n);
      r
    else
      var r := -((-a) % n);
      MultipleHasNoRemainder(-((-a) / n), n);
      assert -a == n * ((-a) / n) + (-a) % n;
      assert a - r == n * (-((-a) / n));
      r
  }

  /** One press of the rotate button: 45 degrees more, remainder modulo 360. */
  function Turned(rotate: int): (r: int)
    ensures rotate >= -45 ==> 0 <= r < 360
    ensures (rotate + 45 - r) % 360 == 0
  {
    TruncRem(rotate + 45, 360)
  }

  // ---------------------------------------------------------------------------
  // The handlers

  /** The new current snapshot an editing action produces from the old one. */
  function Edited(c: EditingImage, a: Action): EditingImage
    requires IsEdit(a)
  {
    match a
    case AddInputToImage => c.(inputs := AddInput(c.inputs))
    case ZoomIn => c.(zoom := ZoomedIn(c.zoom))
    case ZoomOut => c.(zoom := ZoomedOut(c.zoom))
    case Rotate => c.(rotate := Turned(c.rotate))
    case UpdateContent(input, value) => c.(inputs := SetContent(c.inputs, input, value))
    case SavePosition(input, event) => c.(inputs := SetPosition(c.inputs, input, event))
    case DeleteText(input) => c.(inputs := RemoveInput(c.inputs, input))
  }

  /** What the handler of `a` demands of the image it is applied to. */
  predicate ImageEnabled(img: ImageWithHistory, a: Action)
  {
    && !a.SetEditingImage?
    && (a.Undo? ==> img.previous != [])
    && (a.Redo? ==> img.next != [])
  }

  /** The effect of a non-selection action on the selected image. */
  function ImageStep(img: ImageWithHistory, a: Action): ImageWithHistory
    requires ImageEnabled(img, a)
  {
    if IsEdit(a) then
      ImageWithHistory([img.current] + img.previous, Edited(img.current, a), [])
    else
      match a
      case Undo => ImageWithHistory(img.previous[1..], img.previous[0], [img.current] + img.next)
      case Redo => ImageWithHistory([img.current] + img.previous, img.next[0], img.next[1..])
      case UpdatePosition => img.(current := img.current.(inputs := CopyInputs(img.current.inputs)))
  }

  /**
   * The application's use of the reducer: Undo only with a non-empty undo stack
   * and Redo only with a non-empty redo stack on the selected image.
   */
  predicate Enabled(s: AppState, a: Action)
  {
    ValidSelection(s) && !a.SetEditingImage? ==> ImageEnabled(s.images[s.selectedImage], a)
  }

  /** The reducer. */
  function Reduce(s: AppState, a: Action): (r: AppState)
    requires Enabled(s, a)
    ensures |r.images| == |s.images|
    ensures a.SetEditingImage? ==> r.images == s.images && r.selectedImage == a.index
    ensures !a.SetEditingImage? ==> r.selectedImage == s.selectedImage
    ensures forall j :: 0 <= j < |s.images| && j != s.selectedImage ==> r.images[j] == s.images[j]
  {
    if a.SetEditingImage? then
      s.(selectedImage := a.index)
    else if ValidSelection(s) then
      s.(images := s.images[s.selectedImage := ImageStep(s.images[s.selectedImage], a)])
    else
      s
  }

  /** The store's dispatch: an absent action leaves the state alone. */
  function Dispatch(s: AppState, dispatched: Option<Action>): AppState
    requires dispatched.Some? ==> Enabled(s, dispatched.value)
  {
    match dispatched
    case None => s
    case Some(a) => Reduce(s, a)
  }

  /** Every action of the sequence is enabled in the state it is dispatched in. */
  predicate Runnable(s: AppState, actions: seq<Action>)
    decreases |actions|
  {
    actions == [] || (Enabled(s, actions[0]) && Runnable(Reduce(s, actions[0]), actions[1..]))
  }

  /** The state after dispatching the actions one after another. */
  function ReduceAll(s: AppState, actions: seq<Action>): (r: AppState)
    requires Runnable(s, actions)
    ensures |r.images| == |s.images|
    decreases |actions|
  {
    if actions == [] then s else ReduceAll(Reduce(s, actions[0]), actions[1..])
  }

  /** `n` copies of one action. */
  function Repeat(a: Action, n: nat): (r: seq<Action>)
    ensures |r| == n
  {
    if n == 0 then [] else [a] + Repeat(a, n - 1)
  }

  /** The selected image. */
  function Selected(s: AppState): ImageWithHistory
    requires ValidSelection(s)
  {
    s.images[s.selectedImage]
  }

  // ---------------------------------------------------------------------------
  // Properties of single actions

  /** The seeded state, as the application starts. */
  lemma InitialStateShape()
    ensures |InitialState.images| == 2 && InitialState.selectedImage == 0 && ValidSelection(InitialState)
    ensures WellFormed(InitialState)
    ensures forall i :: 0 <= i < 2 ==>
      var img := InitialState.images[i];
      && img.previous == [] && img.next == []
      && img.current.zoom == 1.0 && img.current.rotate == 0
      && img.current.inputs == [TextInput(0, Position(0.0, 0.0), "Enter Text Here")]
  {
  }

  /**
   * Every editing action pushes the old current snapshot onto the front of the
   * undo stack and empties the redo stack, whether or not an overlay matched.
   */
  lemma EditRecordsSnapshot(s: AppState, a: Action)
    requires ValidSelection(s) && IsEdit(a)
    ensures Enabled(s, a) && ValidSelection(Reduce(s, a))
    ensures Selected(Reduce(s, a)).previous == [Selected(s).current] + Selected(s).previous
    ensures Selected(Reduce(s, a)).next == []
    ensures Selected(Reduce(s, a)).current.src == Selected(s).current.src
  {
  }

  /** With the selection outside the gallery, no action but selection changes anything. */
  lemma OutOfRangeSelectionIsInert(s: AppState, a: Action)
    requires !ValidSelection(s) && !a.SetEditingImage?
    ensures Enabled(s, a) && Reduce(s, a) == s
  {
  }

  /** Selecting changes only the selection, even to an index outside the gallery. */
  lemma SelectChangesOnlySelection(s: AppState, index: int)
    ensures Reduce(s, SetEditingImage(index)) == s.(selectedImage := index)
  {
  }

  /** Add input appends one placeholder overlay at the origin after the existing ones. */
  lemma AddInputAppendsPlaceholder(s: AppState)
    requires ValidSelection(s)
    ensures Enabled(s, AddInputToImage)
    ensures var before, after := Selected(s).current, Selected(Reduce(s, AddInputToImage)).current;
      && after == before.(inputs := after.inputs)
      && |after.inputs| == |before.inputs| + 1
      && after.inputs[..|before.inputs|] == before.inputs
      && after.inputs[|before.inputs|].position == Position(0.0, 0.0)
      && after.inputs[|before.inputs|].content == "Enter Text Here"
      && forall k :: 0 <= k < |before.inputs| ==> after.inputs[|before.inputs|].id != before.inputs[k].id
  {
  }

  /** Zooming changes the zoom factor alone, upwards or downwards for a positive factor. */
  lemma ZoomChangesOnlyZoom(s: AppState, a: Action)
    requires ValidSelection(s) && (a.ZoomIn? || a.ZoomOut?)
    ensures Enabled(s, a)
    ensures var before, after := Selected(s).current, Selected(Reduce(s, a)).current;
      && after == before.(zoom := after.zoom)
      && (before.zoom > 0.0 && a.ZoomIn? ==> after.zoom > before.zoom)
      && (before.zoom > 0.0 && a.ZoomOut? ==> 0.0 < after.zoom < before.zoom)
  {
  }

  /** Rotating changes the angle alone, by 45 degrees modulo 360, staying within [0, 360). */
  lemma RotateTurnsBy45(s: AppState)
    requires ValidSelection(s)
    ensures Enabled(s, Rotate)
    ensures var before, after := Selected(s).current, Selected(Reduce(s, Rotate)).current;
      && after == before.(rotate := after.rotate)
      && (after.rotate - before.rotate - 45) % 360 == 0
      && (0 <= before.rotate < 360 ==> 0 <= after.rotate < 360)
  {
  }

  /** Update content rewrites the content of the matching overlays and nothing else. */
  lemma UpdateContentRewritesMatch(s: AppState, input: TextInput, value: string)
    requires ValidSelection(s)
    ensures Enabled(s, UpdateContent(input, value))
    ensures var before, after := Selected(s).current, Selected(Reduce(s, UpdateContent(input, value))).current;
      && after == before.(inputs := after.inputs)
      && |after.inputs| == |before.inputs|
      && (forall k :: 0 <= k < |before.inputs| && before.inputs[k].id == input.id ==>
            after.inputs[k] == before.inputs[k].(content := value))
      && (forall k :: 0 <= k < |before.inputs| && before.inputs[k].id != input.id ==>
            after.inputs[k] == before.inputs[k])
  {
  }

  /** Save position rewrites the position of the matching overlays and nothing else. */
  lemma SavePositionRewritesMatch(s: AppState, input: TextInput, event: Position)
    requires ValidSelection(s)
    ensures Enabled(s, SavePosition(input, event))
    ensures var before, after := Selected(s).current, Selected(Reduce(s, SavePosition(input, event))).current;
      && after == before.(inputs := after.inputs)
      && |after.inputs| == |before.inputs|
      && (forall k :: 0 <= k < |before.inputs| && before.inputs[k].id == input.id ==>
            after.inputs[k] == before.inputs[k].(position := event))
      && (forall k :: 0 <= k < |before.inputs| && before.inputs[k].id != input.id ==>
            after.inputs[k] == before.inputs[k])
  {
  }

  /**
   * Delete text keeps exactly the overlays that do not match, and when the
   * identities are distinct and the overlay sits at index `k`, it removes
   * just that one and keeps the others in order.
   */
  lemma DeleteTextDropsMatch(s: AppState, input: TextInput, k: nat)
    requires ValidSelection(s)
    ensures Enabled(s, DeleteText(input))
    ensures var before, after := Selected(s).current, Selected(Reduce(s, DeleteText(input))).current;
      && after == before.(inputs := after.inputs)
      && (forall t :: t in after.inputs <==> t in before.inputs && t.id != input.id)
      && (DistinctIds(before.inputs) && k < |before.inputs| && before.inputs[k].id == input.id ==>
            after.inputs == before.inputs[..k] + before.inputs[k + 1..])
  {
    var before := Selected(s).current;
    if DistinctIds(before.inputs) && k < |before.inputs| && before.inputs[k].id == input.id {
      RemoveInputExactlyOne(before.inputs, input, k);
    }
  }

  /** Restoring positions records no snapshot and changes no value: the state is unchanged. */
  lemma UpdatePositionKeepsState(s: AppState)
    ensures Enabled(s, UpdatePosition) && Reduce(s, UpdatePosition) == s
  {
  }

  /**
   * Undo moves the old current snapshot to the front of the redo stack and the
   * top of the undo stack into current; the total history length is kept.
   */
  lemma UndoStep(s: AppState)
    requires ValidSelection(s) && Selected(s).previous != []
    ensures Enabled(s, Undo)
    ensures var before, after := Selected(s), Selected(Reduce(s, Undo));
      && after.current == before.previous[0]
      && after.previous == before.previous[1..]
      && after.next == [before.current] + before.next
      && |after.previous| + |after.next| == |before.previous| + |before.next|
  {
  }

  /**
   * Redo moves the old current snapshot to the front of the undo stack and the
   * top of the redo stack into current; the total history length is kept.
   */
  lemma RedoStep(s: AppState)
    requires ValidSelection(s) && Selected(s).next != []
    ensures Enabled(s, Redo)
    ensures var before, after := Selected(s), Selected(Reduce(s, Redo));
      && after.current == before.next[0]
      && after.next == before.next[1..]
      && after.previous == [before.current] + before.previous
      && |after.previous| + |after.next| == |before.previous| + |before.next|
  {
  }

  /** Undo followed by Redo restores the whole state. */
  lemma UndoThenRedo(s: AppState)
    requires Enabled(s, Undo)
    ensures Enabled(Reduce(s, Undo), Redo)
    ensures Reduce(Reduce(s, Undo), Redo) == s
  {
    if ValidSelection(s) {
      var img := Selected(s);
      assert [img.previous[0]] + img.previous[1..] == img.previous;
      assert s.images[s.selectedImage := img] == s.images;
    }
  }

  /** Redo followed by Undo restores the whole state. */
  lemma RedoThenUndo(s: AppState)
    requires Enabled(s, Redo)
    ensures Enabled(Reduce(s, Redo), Undo)
    ensures Reduce(Reduce(s, Redo), Undo) == s
  {
    if ValidSelection(s) {
      var img := Selected(s);
      assert [img.next[0]] + img.next[1..] == img.next;
      assert s.images[s.selectedImage := img] == s.images;
    }
  }

  // ---------------------------------------------------------------------------
  // Well-formedness is kept

  /** Each editing action keeps the overlay identities of the current snapshot distinct. */
  lemma EditedKeepsDistinct(c: EditingImage, a: Action)
    requires IsEdit(a) && DistinctIds(c.inputs)
    ensures DistinctIds(Edited(c, a).inputs)
  {
    match a
    case UpdateContent(input, value) => SetFieldsKeepDistinct(c.inputs, input, value, Origin);
    case SavePosition(input, event) => SetFieldsKeepDistinct(c.inputs, input, "", event);
    case DeleteText(input) => RemoveInputKeepsDistinct(c.inputs, input);
    case _ =>
  }

  /** Every handler keeps each snapshot's overlay identities distinct. */
  lemma ImageStepKeepsWellFormed(img: ImageWithHistory, a: Action)
    requires ImageEnabled(img, a) && WellFormedImage(img)
    ensures WellFormedImage(ImageStep(img, a))
  {
    var r := ImageStep(img, a);
    if IsEdit(a) {
      EditedKeepsDistinct(img.current, a);
      assert forall k :: 0 < k < |r.previous| ==> r.previous[k] == img.previous[k - 1];
    } else if a.Undo? {
      assert forall k :: 0 < k < |r.next| ==> r.next[k] == img.next[k - 1];
      assert forall k :: 0 <= k < |r.previous| ==> r.previous[k] == img.previous[k + 1];
    } else if a.Redo? {
      assert forall k :: 0 < k < |r.previous| ==> r.previous[k] == img.previous[k - 1];
      assert forall k :: 0 <= k < |r.next| ==> r.next[k] == img.next[k + 1];
    }
  }

  /** The reducer keeps the gallery well formed. */
  lemma ReduceKeepsWellFormed(s: AppState, a: Action)
    requires Enabled(s, a) && WellFormed(s)
    ensures WellFormed(Reduce(s, a))
  {
    if !a.SetEditingImage? && ValidSelection(s) {
      ImageStepKeepsWellFormed(Selected(s), a);
    }
  }

  // ---------------------------------------------------------------------------
  // Sequences of actions

  /** `n` rotations applied to an angle. */
  function TurnedN(rotate: int, n: nat): int
    decreases n
  {
    if n == 0 then rotate else TurnedN(Turned(rotate), n - 1)
  }

  /** From a non-negative angle, `n` rotations add 45n degrees modulo 360. */
  lemma {:induction false} TurnedNAdds(rotate: int, n: nat)
    requires 0 <= rotate < 360
    ensures TurnedN(rotate, n) == (rotate + 45 * n) % 360
    decreases n
  {
    if n != 0 {
      var t := Turned(rotate);
      TurnedNAdds(t, n - 1);
      var total := rotate + 45 * n;
      if rotate + 45 < 360 {
        assert t + 45 * (n - 1) == total;
      } else {
        assert t == rotate + 45 - 360;
        assert t + 45 * (n - 1) == total - 360;
        assert (total - 360) % 360 == total % 360;
      }
    }
  }

  /**
   * Rotating `n` times changes only the angle, which is turned `n` times, and
   * records `n` snapshots.
   */
  lemma {:induction false} RotateRepeated(s: AppState, n: nat)
    requires ValidSelection(s)
    ensures Runnable(s, Repeat(Rotate, n))
    ensures var r := ReduceAll(s, Repeat(Rotate, n));
      && ValidSelection(r)
      && Selected(r).current == Selected(s).current.(rotate := TurnedN(Selected(s).current.rotate, n))
      && |Selected(r).previous| == |Selected(s).previous| + n
    decreases n
  {
    if n != 0 {
      var s1 := Reduce(s, Rotate);
      assert Repeat(Rotate, n)[1..] == Repeat(Rotate, n - 1);
      RotateRepeated(s1, n - 1);
    }
  }

  /**
   * Eight rotations, or any multiple of eight, bring an angle in [0, 360) back:
   * the current snapshot is as it was.
   */
  lemma EightRotationsRestoreAngle(s: AppState, n: nat)
    requires ValidSelection(s) && 0 <= Selected(s).current.rotate < 360 && n % 8 == 0
    ensures Runnable(s, Repeat(Rotate, n)) && ValidSelection(ReduceAll(s, Repeat(Rotate, n)))
    ensures Selected(ReduceAll(s, Repeat(Rotate, n))).current == Selected(s).current
  {
    var angle := Selected(s).current.rotate;
    RotateRepeated(s, n);
    TurnedNAdds(angle, n);
    var q := n / 8;
    assert angle + 45 * n == angle + 360 * q;
    FullTurnsVanish(angle, q);
  }

  /** Adding whole turns does not change an angle in [0, 360). */
  lemma FullTurnsVanish(angle: int, q: nat)
    requires 0 <= angle < 360
    ensures (angle + 360 * q) % 360 == angle
  {
  }

  /** On the seeded state, adding an overlay to the first image gives two overlays and one snapshot. */
  lemma SeedAddInputScenario()
    ensures Enabled(InitialState, AddInputToImage)
    ensures var img := Reduce(InitialState, AddInputToImage).images[0];
      && |img.current.inputs| == 2
      && img.previous == [InitialState.images[0].current]
      && img.next == []
  {
  }

  /**
   * On the seeded state, moving the first image's overlay and then deleting the
   * moved overlay leaves the first image with no overlay and two snapshots.
   */
  lemma SeedMoveThenDeleteScenario()
    ensures var input := InitialState.images[0].current.inputs[0];
      var moved := input.(position := Position(50.0, 80.0));
      var actions := [SavePosition(input, Position(50.0, 80.0)), DeleteText(moved)];
      && Runnable(InitialState, actions)
      && var img := ReduceAll(InitialState, actions).images[0];
      && img.current.inputs == []
      && |img.previous| == 2
  {
    var input := InitialState.images[0].current.inputs[0];
    var moved := input.(position := Position(50.0, 80.0));
    var actions := [SavePosition(input, Position(50.0, 80.0)), DeleteText(moved)];
    var s1 := Reduce(InitialState, actions[0]);
    assert s1.images[0].current.inputs == [moved];
    var s2 := Reduce(s1, actions[1]);
    assert actions[1..][0] == actions[1] && actions[1..][1..] == [];
    assert Runnable(s1, actions[1..]);
    assert ReduceAll(s1, actions[1..]) == s2;
    assert ReduceAll(InitialState, actions) == s2;
  }

  /** Undo right after an editing action restores the current snapshot and the undo stack. */
  lemma EditThenUndoRestores(s: AppState, a: Action)
    requires ValidSelection(s) && IsEdit(a)
    ensures Enabled(s, a) && Enabled(Reduce(s, a), Undo)
    ensures var r := Reduce(Reduce(s, a), Undo);
      && ValidSelection(r)
      && Selected(r).current == Selected(s).current
      && Selected(r).previous == Selected(s).previous
      && Selected(r).next == [Edited(Selected(s).current, a)]
  {
  }
}
