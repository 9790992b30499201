/**
 * The pattern every browser step of the scripts follows: try candidates
 * (selectors, elements, frames) in a fixed order and act on the first one
 * the page accepts, remembering with a flag whether one was found. The page
 * itself is not modelled: whether it accepts a candidate is a parameter.
 */
module UiChoice {
  import opened Wrappers

  /** The index of the first candidate the page accepts, `None` when it accepts none. */
  function FirstAccepted<T>(candidates: seq<T>, accept: T -> bool): (r: Option<nat>)
    ensures r.Some? ==> r.value < |candidates| && accept(candidates[r.value])
    ensures r.Some? ==> forall k :: 0 <= k < r.value ==> !accept(candidates[k])
    ensures r.None? <==> forall k :: 0 <= k < |candidates| ==> !accept(candidates[k])
    decreases |candidates|
  {
    if candidates == [] then None
    else if accept(candidates[0]) then Some(0)
    else match FirstAccepted(candidates[1..], accept)
      case None => None
      case Some(k) => Some(k + 1)
  }

  /** An accepted candidate with none accepted before it is the one `FirstAccepted` picks. */
  lemma FirstAcceptedIsLeast<T>(candidates: seq<T>, accept: T -> bool, i: nat)
    requires i < |candidates| && accept(candidates[i])
    requires forall k :: 0 <= k < i ==> !accept(candidates[k])
    ensures FirstAccepted(candidates, accept) == Some(i)
  {
    var r := FirstAccepted(candidates, accept);
    assert r.Some?;
    assert !(r.value < i);
    assert !(r.value > i);
  }

  /** Only the first `n` candidates are looked at (`[:n]` on the element list). */
  lemma FirstAcceptedOfPrefix<T>(candidates: seq<T>, accept: T -> bool, n: nat)
    requires n <= |candidates|
    ensures FirstAccepted(candidates[..n], accept).Some? ==> FirstAccepted(candidates[..n], accept) == FirstAccepted(candidates, accept)
    ensures FirstAccepted(candidates[..n], accept).None? ==>
      forall k :: 0 <= k < n ==> !accept(candidates[k])
  {
    var r := FirstAccepted(candidates[..n], accept);
    if r.Some? {
      assert candidates[..n][r.value] == candidates[r.value];
      forall k | 0 <= k < r.value
        ensures !accept(candidates[k])
      {
        assert candidates[..n][k] == candidates[k];
      }
      FirstAcceptedIsLeast(candidates, accept, r.value);
    } else {
      forall k | 0 <= k < n
        ensures !accept(candidates[k])
      {
        assert candidates[..n][k] == candidates[k];
      }
    }
  }

  /** The candidate loop: a `found` flag, a `break` at the first accepted candidate. */
  method FindFirstAccepted<T>(candidates: seq<T>, accept: T -> bool) returns (r: Option<nat>)
    ensures r == FirstAccepted(candidates, accept)
  {
    var found := false;
    r := None;
    var i := 0;
    while i < |candidates| && !found
      invariant 0 <= i <= |candidates|
      invariant !found ==> r.None? && forall k :: 0 <= k < i ==> !accept(candidates[k])
      invariant found ==> r == FirstAccepted(candidates, accept)
      decreases |candidates| - i, if found then 0 else 1
    {
      if accept(candidates[i]) {
        FirstAcceptedIsLeast(candidates, accept, i);
        r := Some(i);
        found := true;
      } else {
        i := i + 1;
      }
    }
  }

  /**
   * Two nested candidate loops (selectors, then the elements each one
   * matches) stopped at the first accepted pair: the outer and inner index.
   */
  function FirstInGrid<A, B>(outer: seq<A>, inner: A -> seq<B>, accept: (A, B) -> bool): (r: Option<(nat, nat)>)
    ensures r.Some? ==>
      r.value.0 < |outer| && r.value.1 < |inner(outer[r.value.0])| &&
      accept(outer[r.value.0], inner(outer[r.value.0])[r.value.1])
    ensures r.Some? ==>
      forall i, j :: 0 <= i < r.value.0 && 0 <= j < |inner(outer[i])| ==> !accept(outer[i], inner(outer[i])[j])
    ensures r.Some? ==>
      forall j :: 0 <= j < r.value.1 ==> !accept(outer[r.value.0], inner(outer[r.value.0])[j])
    ensures r.None? <==>
      forall i, j :: 0 <= i < |outer| && 0 <= j < |inner(outer[i])| ==> !accept(outer[i], inner(outer[i])[j])
    decreases |outer|
  {
    if outer == [] then None
    else
      match FirstAccepted(inner(outer[0]), (b: B) => accept(outer[0], b))
      case Some(j) => Some((0, j))
      case None =>
        match FirstInGrid(outer[1..], inner, accept)
        case None => None
        case Some((i, j)) => Some((i + 1, j))
  }

  /** An accepted pair with nothing accepted before it, in loop order, is the one `FirstInGrid` picks. */
  lemma FirstInGridIsLeast<A, B>(outer: seq<A>, inner: A -> seq<B>, accept: (A, B) -> bool, i: nat, j: nat)
    requires i < |outer| && j < |inner(outer[i])| && accept(outer[i], inner(outer[i])[j])
    requires forall i', j' :: 0 <= i' < i && 0 <= j' < |inner(outer[i'])| ==> !accept(outer[i'], inner(outer[i'])[j'])
    requires forall j' :: 0 <= j' < j ==> !accept(outer[i], inner(outer[i])[j'])
    ensures FirstInGrid(outer, inner, accept) == Some((i, j))
  {
    var r := FirstInGrid(outer, inner, accept);
    assert r.Some?;
    assert !(r.value.0 < i);
    assert !(r.value.0 > i);
    assert !(r.value.1 < j);
    assert !(r.value.1 > j);
  }

  /** The nested loops with their flags and `break`s. */
  method FindFirstInGrid<A, B>(outer: seq<A>, inner: A -> seq<B>, accept: (A, B) -> bool) returns (r: Option<(nat, nat)>)
    ensures r == FirstInGrid(outer, inner, accept)
  {
    for i := 0 to |outer|
      invariant forall i', j :: 0 <= i' < i && 0 <= j < |inner(outer[i'])| ==> !accept(outer[i'], inner(outer[i'])[j])
    {
      var elements := inner(outer[i]);
      for j := 0 to |elements|
        invariant forall j' :: 0 <= j' < j ==> !accept(outer[i], elements[j'])
      {
        if accept(outer[i], elements[j]) {
          FirstInGridIsLeast(outer, inner, accept, i, j);
          return Some((i, j));
        }
      }
    }
    return None;
  }

  /** Steps run one after another, stopping after the first that fails: the steps that ran. */
  function RunUntilFailure<S>(steps: seq<S>, succeeds: S -> bool): (r: seq<S>)
    ensures |r| <= |steps| && r == steps[..|r|]
    ensures forall k :: 0 <= k < |r| - 1 ==> succeeds(steps[k])
    ensures (forall k :: 0 <= k < |steps| ==> succeeds(steps[k])) ==> r == steps
    ensures !(forall k :: 0 <= k < |steps| ==> succeeds(steps[k])) ==> r != [] && !succeeds(r[|r| - 1])
    decreases |steps|
  {
    if steps == [] then []
    else if succeeds(steps[0]) then
      var rest := RunUntilFailure(steps[1..], succeeds);
      assert forall k :: 1 <= k < |steps| ==> steps[k] == steps[1..][k - 1];
      [steps[0]] + rest
    else [steps[0]]
  }

  /** A step that fails after steps that all succeed is the last one run. */
  lemma {:induction false} RunStopsAt<S>(steps: seq<S>, succeeds: S -> bool, k: nat)
    requires k < |steps| && !succeeds(steps[k])
    requires forall m :: 0 <= m < k ==> succeeds(steps[m])
    ensures RunUntilFailure(steps, succeeds) == steps[..k + 1]
  {
    var r := RunUntilFailure(steps, succeeds);
    assert !succeeds(r[|r| - 1]);
    assert |r| == k + 1;
  }
}
