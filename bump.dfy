/** The arithmetic of one counter's "bump": the local adjustment added to a
    base to give the value a counter shows. */
module Bump {

  /** A press of the minus or the plus control (or ArrowDown / ArrowUp). */
  datatype Press = Up | Down

  /** The bump after one press: `inc` adds 1, `dec` subtracts 1 but never
      takes the bump below 0. */
  function Step(b: int, p: Press): (r: int)
    ensures p == Up ==> r == b + 1
    ensures p == Down && b >= 1 ==> r == b - 1
    ensures p == Down && b <= 1 ==> r == 0
  {
    match p
    case Up => b + 1
    case Down => if b - 1 > 0 then b - 1 else 0
  }

  /** The bump after a run of presses, first press first. Each press moves
      a non-negative bump by at most one. */
  function Presses(b: int, ps: seq<Press>): (r: int)
    ensures b >= 0 ==> r <= b + |ps|
    decreases |ps|
  {
    if ps == [] then b else Presses(Step(b, ps[0]), ps[1..])
  }

  /** Presses minus un-presses: what the run would add without the floor. */
  function Net(ps: seq<Press>): (n: int)
    ensures -|ps| <= n <= |ps|
  {
    if ps == [] then 0 else (if ps[0] == Up then 1 else -1) + Net(ps[1..])
  }

  function Repeat(p: Press, n: nat): (ps: seq<Press>)
    ensures |ps| == n && forall i :: 0 <= i < n ==> ps[i] == p
  {
    if n == 0 then [] else [p] + Repeat(p, n - 1)
  }

  /** From a non-negative bump, no run of presses makes it negative. */
  lemma {:induction false} PressesNonNegative(b: int, ps: seq<Press>)
    requires b >= 0
    ensures Presses(b, ps) >= 0
    decreases |ps|
  {
    if ps != [] {
      PressesNonNegative(Step(b, ps[0]), ps[1..]);
    }
  }

  /** The floor only ever raises the result above the unfloored sum. */
  lemma {:induction false} PressesAtLeastNet(b: int, ps: seq<Press>)
    ensures Presses(b, ps) >= b + Net(ps)
    decreases |ps|
  {
    if ps != [] {
      PressesAtLeastNet(Step(b, ps[0]), ps[1..]);
    }
  }

  /** n plus-presses add exactly n. */
  lemma {:induction false} PressesUp(b: int, n: nat)
    ensures Presses(b, Repeat(Up, n)) == b + n
    decreases n
  {
    if n > 0 {
      PressesUp(b + 1, n - 1);
      assert Repeat(Up, n)[1..] == Repeat(Up, n - 1);
    }
  }

  /** n minus-presses from a non-negative bump leave max(0, b - n). */
  lemma {:induction false} PressesDown(b: int, n: nat)
    requires b >= 0
    ensures Presses(b, Repeat(Down, n)) == if b - n > 0 then b - n else 0
    decreases n
  {
    if n > 0 {
      PressesDown(Step(b, Down), n - 1);
      assert Repeat(Down, n)[1..] == Repeat(Down, n - 1);
    }
  }

  /** `setAbs(k, base)(val)`: the bump is `max(0, val - base)`, so the shown
      value `base + bump` is `max(base, val)`. */
  function AbsBump(base: int, val: int): (r: int)
    ensures r >= 0
    ensures base + r == (if val > base then val else base)
    ensures val >= base ==> base + r == val
  {
    if val - base > 0 then val - base else 0
  }

  /** Setting the value a counter already shows leaves its bump alone. */
  lemma AbsBumpOfShown(base: int, b: int)
    requires b >= 0
    ensures AbsBump(base, base + b) == b
  {
  }
}
