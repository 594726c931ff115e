/**
  The n and k fields of the two calculator pages. Both pages start at
  n = 5, k = 2 and filter edits the same way: a new n is taken when it parses
  as a number and is not negative, and k is pulled down to it when k would
  exceed it; a new k is taken only when it parses and lies in 0 .. n. An edit
  that does not parse is `None`.
*/
module InputGuards {
  import opened Wrappers

  datatype Inputs = Inputs(n: int, k: int)

  /** The state every formula of the pages is meant for: 0 <= k <= n. */
  predicate Valid(s: Inputs) {
    0 <= s.k <= s.n
  }

  function Initial(): (s: Inputs)
    ensures Valid(s)
  {
    Inputs(5, 2)
  }

  /** Whether an edit of the n field is taken. */
  predicate AcceptsN(parsed: Option<int>) {
    parsed.Some? && parsed.value >= 0
  }

  /** Whether an edit of the k field is taken, given the current n. */
  predicate AcceptsK(s: Inputs, parsed: Option<int>) {
    parsed.Some? && 0 <= parsed.value <= s.n
  }

  /**
    An edit of n. A refused edit changes nothing. A taken edit sets n, and
    k becomes the smaller of the old k and the new n: it never grows and it
    changes only when it no longer fits. A valid state stays valid.
  */
  function HandleNChange(s: Inputs, parsed: Option<int>): (r: Inputs)
    ensures !AcceptsN(parsed) ==> r == s
    ensures AcceptsN(parsed) ==> r.n == parsed.value
    ensures AcceptsN(parsed) ==> r.k <= s.k && r.k <= r.n && (r.k == s.k || r.k == r.n)
    ensures Valid(s) ==> Valid(r)
  {
    if parsed.Some? && parsed.value >= 0 then
      var v := parsed.value;
      if s.k > v then Inputs(v, v) else s.(n := v)
    else s
  }

  /**
    An edit of k. A refused edit changes nothing; a taken one changes k only.
    Whatever the state before, a taken edit leaves a valid state, and a
    valid state stays valid.
  */
  function HandleKChange(s: Inputs, parsed: Option<int>): (r: Inputs)
    ensures !AcceptsK(s, parsed) ==> r == s
    ensures AcceptsK(s, parsed) ==> r == s.(k := parsed.value) && Valid(r)
    ensures Valid(s) ==> Valid(r)
  {
    if parsed.Some? && 0 <= parsed.value && parsed.value <= s.n then s.(k := parsed.value) else s
  }

  datatype Edit = EditN(parsed: Option<int>) | EditK(parsed: Option<int>)

  function Apply(s: Inputs, e: Edit): Inputs {
    match e
    case EditN(p) => HandleNChange(s, p)
    case EditK(p) => HandleKChange(s, p)
  }

  /** The state after a sequence of edits, applied in order. */
  function Replay(s: Inputs, edits: seq<Edit>): Inputs
    decreases |edits|
  {
    if edits == [] then s else Replay(Apply(s, edits[0]), edits[1..])
  }

  /** Whatever the user types, in whatever order, the pages' inputs stay in 0 <= k <= n. */
  lemma {:induction false} ReplayKeepsValid(s: Inputs, edits: seq<Edit>)
    requires Valid(s)
    ensures Valid(Replay(s, edits))
    decreases |edits|
  {
    if edits != [] {
      ReplayKeepsValid(Apply(s, edits[0]), edits[1..]);
    }
  }

  lemma ReachableIsValid(edits: seq<Edit>)
    ensures Valid(Replay(Initial(), edits))
  {
    ReplayKeepsValid(Initial(), edits);
  }

  /** Typing the same n twice has the effect of typing it once. */
  lemma NChangeIdempotent(s: Inputs, parsed: Option<int>)
    ensures HandleNChange(HandleNChange(s, parsed), parsed) == HandleNChange(s, parsed)
  {
  }

  /** Lowering n below k and raising it again does not bring the old k back. */
  lemma KDoesNotSpringBack(s: Inputs, low: int, high: int)
    requires Valid(s) && 0 <= low < s.k && high >= s.k
    ensures Replay(s, [EditN(Some(low)), EditN(Some(high))]) == Inputs(high, low)
  {
    var edits := [EditN(Some(low)), EditN(Some(high))];
    var mid := HandleNChange(s, Some(low));
    assert mid == Inputs(low, low);
    assert edits[1..] == [EditN(Some(high))];
    assert Replay(s, edits) == Replay(mid, [EditN(Some(high))]);
    assert Replay(mid, [EditN(Some(high))]) == Replay(HandleNChange(mid, Some(high)), []);
  }
}
