/** The cell-survival rule: the eight neighbour flags of a cell, the live count
    taken over them, and the birth/survival decision of `new_state` (B3/S23). */
module Rule {

  /** The `n[8]` array of the `Neighbors` struct: exactly eight flags. */
  type Eight = s: seq<bool> | |s| == 8 witness [false, false, false, false, false, false, false, false]

  /** The state (alive or dead) of the eight cells surrounding a cell. */
  datatype Neighbors = Neighbors(n: Eight)

  /** Number of `true` entries of `s`, peeling off the last entry so that a
      left-to-right loop extends the counted prefix by one flag per turn. */
  function CountTrue(s: seq<bool>): (c: nat)
    ensures c <= |s|
    ensures c == 0 <==> forall k :: 0 <= k < |s| ==> !s[k]
    ensures c == |s| <==> forall k :: 0 <= k < |s| ==> s[k]
  {
    if |s| == 0 then 0
    else CountTrue(s[..|s| - 1]) + (if s[|s| - 1] then 1 else 0)
  }

  /** `CountTrue` agrees with an independent definition of the live count:
      the multiplicity of `true` in the flags. */
  lemma {:induction false} CountTrueIsMultiplicity(s: seq<bool>)
    ensures CountTrue(s) == multiset(s)[true]
  {
    if |s| > 0 {
      var init, last := s[..|s| - 1], s[|s| - 1];
      assert s == init + [last];
      CountTrueIsMultiplicity(init);
      assert multiset(s) == multiset(init) + multiset{last};
    }
  }

  /** The exits of `new_state`, in the order its `if` statements are tried;
      `Fallthrough` is the final `return false`. */
  datatype Exit = Underpopulated | Survives | Overcrowded | Born | Fallthrough

  /** The exit `new_state` takes for a cell in state `isAlive` with `count`
      live neighbours. */
  function ExitTaken(isAlive: bool, count: int): (e: Exit)
    ensures e == Underpopulated <==> isAlive && count < 2
    ensures e == Survives <==> isAlive && (count == 2 || count == 3)
    ensures e == Overcrowded <==> isAlive && count > 3
    ensures e == Born <==> !isAlive && count == 3
    ensures e == Fallthrough <==> !isAlive && count != 3
  {
    if isAlive && count < 2 then Underpopulated
    else if isAlive && (count == 2 || count == 3) then Survives
    else if isAlive && count > 2 then Overcrowded
    else if !isAlive && count == 3 then Born
    else Fallthrough
  }

  /** The value each exit of `new_state` returns. */
  function Returns(e: Exit): (alive: bool) {
    e == Survives || e == Born
  }

  /** The decision of `new_state` once the live count is known. */
  function Decide(isAlive: bool, count: int): (alive: bool)
    ensures alive <==> count == 3 || (isAlive && count == 2)
  {
    Returns(ExitTaken(isAlive, count))
  }

  /** The result of `new_state(isAlive, nbrs)`. */
  function NextState(isAlive: bool, nbrs: Neighbors): (alive: bool)
    ensures alive <==> CountTrue(nbrs.n) == 3 || (isAlive && CountTrue(nbrs.n) == 2)
  {
    Decide(isAlive, CountTrue(nbrs.n))
  }

  /** The rule table cell by cell: an alive cell survives with 2 or 3 live
      neighbours and dies otherwise, a dead cell is born with exactly 3. */
  lemma RuleTable(isAlive: bool, nbrs: Neighbors)
    ensures 0 <= CountTrue(nbrs.n) <= 8
    ensures isAlive ==> (NextState(isAlive, nbrs) <==> CountTrue(nbrs.n) in {2, 3})
    ensures !isAlive ==> (NextState(isAlive, nbrs) <==> CountTrue(nbrs.n) == 3)
  {
  }

  /** `new_state`: a loop adds up the eight flags, then the rule decides. */
  method NewState(isAlive: bool, nbrs: Neighbors) returns (alive: bool)
    ensures alive == NextState(isAlive, nbrs)
    ensures alive <==> CountTrue(nbrs.n) == 3 || (isAlive && CountTrue(nbrs.n) == 2)
  {
    var count := 0;
    for i := 0 to 8
      invariant count == CountTrue(nbrs.n[..i])
    {
      assert nbrs.n[..i + 1][..i] == nbrs.n[..i];
      count := count + (if nbrs.n[i] then 1 else 0);
    }
    assert nbrs.n[..8] == nbrs.n;
    alive := Decide(isAlive, count);
  }
}
