/**
 * The operations the reducer performs on the overlay list of one snapshot:
 * append a placeholder, rewrite the content or position of the matching
 * overlay, drop the matching overlay, and copy every overlay.
 * An overlay "matches" when it has the identity of the one the action names.
 */
module Inputs {
  import opened Entities

  /** Placeholder text of a newly added overlay. */
  const NewText: string := "Enter Text Here"

  /** The origin, where a new overlay is placed. */
  const Origin: Position := Position(0.0, 0.0)

  /** An identity that no overlay of `inputs` has, standing for a newly allocated object. */
  function FreshId(inputs: seq<TextInput>): (r: nat)
    ensures forall k :: 0 <= k < |inputs| ==> inputs[k].id < r
  {
    if inputs == [] then 0
    else
      var rest := FreshId(inputs[1..]);
      if inputs[0].id < rest then rest else inputs[0].id + 1
  }

  /** Appends one placeholder overlay at the origin, after the existing ones. */
  function AddInput(inputs: seq<TextInput>): (r: seq<TextInput>)
    ensures |r| == |inputs| + 1
    ensures r[..|inputs|] == inputs
    ensures r[|inputs|].position == Origin && r[|inputs|].content == NewText
    ensures forall k :: 0 <= k < |inputs| ==> r[|inputs|].id != inputs[k].id
    ensures DistinctIds(inputs) ==> DistinctIds(r)
  {
    inputs + [TextInput(FreshId(inputs), Origin, NewText)]
  }

  /** Gives every overlay matching `target` the new content; everything else is kept. */
  function SetContent(inputs: seq<TextInput>, target: TextInput, value: string): (r: seq<TextInput>)
    ensures |r| == |inputs|
    ensures forall k :: 0 <= k < |inputs| && inputs[k].id == target.id ==> r[k] == inputs[k].(content := value)
    ensures forall k :: 0 <= k < |inputs| && inputs[k].id != target.id ==> r[k] == inputs[k]
  {
    if inputs == [] then []
    else
      var head := if inputs[0].id == target.id then inputs[0].(content := value) else inputs[0];
      [head] + SetContent(inputs[1..], target, value)
  }

  /** Gives every overlay matching `target` the new position; everything else is kept. */
  function SetPosition(inputs: seq<TextInput>, target: TextInput, position: Position): (r: seq<TextInput>)
    ensures |r| == |inputs|
    ensures forall k :: 0 <= k < |inputs| && inputs[k].id == target.id ==> r[k] == inputs[k].(position := position)
    ensures forall k :: 0 <= k < |inputs| && inputs[k].id != target.id ==> r[k] == inputs[k]
  {
    if inputs == [] then []
    else
      var head := if inputs[0].id == target.id then inputs[0].(position := position) else inputs[0];
      [head] + SetPosition(inputs[1..], target, position)
  }

  /** Keeps, in order, the overlays that do not match `target`. */
  function RemoveInput(inputs: seq<TextInput>, target: TextInput): (r: seq<TextInput>)
    ensures |r| <= |inputs|
    ensures forall t :: t in r <==> t in inputs && t.id != target.id
  {
    if inputs == [] then []
    else if inputs[0].id == target.id then RemoveInput(inputs[1..], target)
    else [inputs[0]] + RemoveInput(inputs[1..], target)
  }

  /** Replaces every overlay by a copy of itself; as values the copies are the overlays. */
  function CopyInputs(inputs: seq<TextInput>): (r: seq<TextInput>)
    ensures r == inputs
  {
    if inputs == [] then []
    else [TextInput(inputs[0].id, inputs[0].position, inputs[0].content)] + CopyInputs(inputs[1..])
  }

  /** Rewriting content or position never changes any identity, so distinctness is kept. */
  lemma SetFieldsKeepDistinct(inputs: seq<TextInput>, target: TextInput, value: string, position: Position)
    requires DistinctIds(inputs)
    ensures DistinctIds(SetContent(inputs, target, value))
    ensures DistinctIds(SetPosition(inputs, target, position))
  {
  }

  /** When no overlay matches, content and position updates leave the list as it was. */
  lemma SetFieldsWithoutMatch(inputs: seq<TextInput>, target: TextInput, value: string, position: Position)
    requires forall k :: 0 <= k < |inputs| ==> inputs[k].id != target.id
    ensures SetContent(inputs, target, value) == inputs
    ensures SetPosition(inputs, target, position) == inputs
  {
  }

  /** Dropping overlays keeps the survivors' identities distinct. */
  lemma {:induction false} RemoveInputKeepsDistinct(inputs: seq<TextInput>, target: TextInput)
    requires DistinctIds(inputs)
    ensures DistinctIds(RemoveInput(inputs, target))
  {
    if inputs != [] {
      var rest := inputs[1..];
      assert DistinctIds(rest) by {
        forall i, j | 0 <= i < j < |rest| ensures rest[i].id != rest[j].id {
          assert rest[i] == inputs[i + 1] && rest[j] == inputs[j + 1];
        }
      }
      RemoveInputKeepsDistinct(rest, target);
      if inputs[0].id != target.id {
        var tail := RemoveInput(rest, target);
        var r := [inputs[0]] + tail;
        forall i, j | 0 <= i < j < |r| ensures r[i].id != r[j].id {
          if i == 0 {
            assert r[j] == tail[j - 1] && r[j] in tail;
            assert r[j] in rest;
            var m :| 0 <= m < |rest| && rest[m] == r[j];
            assert inputs[m + 1] == r[j];
          } else {
            assert r[i] == tail[i - 1] && r[j] == tail[j - 1];
          }
        }
      }
    }
  }

  /** Removal distributes over concatenation: the survivors keep their relative order. */
  lemma {:induction false} RemoveInputAppend(a: seq<TextInput>, b: seq<TextInput>, target: TextInput)
    ensures RemoveInput(a + b, target) == RemoveInput(a, target) + RemoveInput(b, target)
  {
    if a == [] {
      assert a + b == b;
    } else {
      assert (a + b)[0] == a[0] && (a + b)[1..] == a[1..] + b;
      RemoveInputAppend(a[1..], b, target);
    }
  }

  /** Without a match, removal keeps the whole list. */
  lemma {:induction false} RemoveInputWithoutMatch(inputs: seq<TextInput>, target: TextInput)
    requires forall k :: 0 <= k < |inputs| ==> inputs[k].id != target.id
    ensures RemoveInput(inputs, target) == inputs
  {
    if inputs != [] {
      RemoveInputWithoutMatch(inputs[1..], target);
    }
  }

  /**
   * With distinct identities and the target at index `k`, removal drops exactly
   * that overlay and keeps the others in order.
   */
  lemma {:induction false} RemoveInputExactlyOne(inputs: seq<TextInput>, target: TextInput, k: nat)
    requires DistinctIds(inputs)
    requires k < |inputs| && inputs[k].id == target.id
    ensures RemoveInput(inputs, target) == inputs[..k] + inputs[k + 1..]
  {
    assert inputs == inputs[..k] + ([inputs[k]] + inputs[k + 1..]);
    RemoveInputAppend(inputs[..k], [inputs[k]] + inputs[k + 1..], target);
    RemoveInputAppend([inputs[k]], inputs[k + 1..], target);
    RemoveInputWithoutMatch(inputs[..k], target);
    var after := inputs[k + 1..];
    forall m | 0 <= m < |after| ensures after[m].id != target.id {
      assert after[m] == inputs[k + 1 + m];
    }
    RemoveInputWithoutMatch(after, target);
    assert RemoveInput([inputs[k]], target) == [] by {
      assert [inputs[k]][1..] == [];
    }
  }
}
