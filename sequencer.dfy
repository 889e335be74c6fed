/** The deterministic piece sequencer: a 32-bit xorshift generator with shift
    amounts 13, 17 and 5, reduced modulo the number of choices. */
module Sequencer {

  /** x ^ (x << k), one left-shift step of the recurrence. */
  function XorShl(x: bv32, k: nat): bv32
    requires k < 32
  {
    x ^ (x << k)
  }

  /** x ^ (x >> k), the right-shift step of the recurrence. */
  function XorShr(x: bv32, k: nat): bv32
    requires k < 32
  {
    x ^ (x >> k)
  }

  /** One step of the recurrence: x ^= x << 13; x ^= x >> 17; x ^= x << 5. */
  function Xorshift(s: bv32): (r: bv32)
    ensures s != 0 ==> r != 0
  {
    XorShl(XorShr(XorShl(s, 13), 17), 5)
  }

  /** A zero state is a fixed point of the recurrence; the first step from state
      1 gives 270369 (= 2^18 + 2^13 + 2^5 + 1: each shift leaves one more bit). */
  lemma XorshiftFacts()
    ensures Xorshift(0) == 0
    ensures Xorshift(1) == 270369
  {
  }

  /** The draw `next_usize(max)` makes from state `s`: the next state, read as an
      unsigned number, modulo `max`. */
  function Draw(s: bv32, max: nat): (r: nat)
    requires 0 < max
    ensures r < max
  {
    (Xorshift(s) as int) % max
  }

  /** The states the generator passes through after `n` steps from `s`. */
  function StateAfter(s: bv32, n: nat): bv32
  {
    if n == 0 then s else Xorshift(StateAfter(s, n - 1))
  }

  /** The first `n` draws from `s`, each in [0, max). */
  function Draws(s: bv32, n: nat, max: nat): (ds: seq<nat>)
    requires 0 < max
    ensures |ds| == n
    ensures forall i :: 0 <= i < n ==> ds[i] < max && ds[i] == Draw(StateAfter(s, i), max)
  {
    if n == 0 then [] else Draws(s, n - 1, max) + [Draw(StateAfter(s, n - 1), max)]
  }

  /** From a zero seed every draw is 0. */
  lemma {:induction false} ZeroSeedDrawsZero(n: nat, max: nat)
    requires 0 < max
    ensures forall i :: 0 <= i < n ==> Draws(0, n, max)[i] == 0
  {
    forall i | 0 <= i < n
      ensures Draws(0, n, max)[i] == 0
    {
      ZeroStateStays(i);
      XorshiftFacts();
      assert Draw(0, max) == (0 as bv32 as int) % max == 0;
    }
  }

  /** The zero state never leaves zero. */
  lemma {:induction false} ZeroStateStays(n: nat)
    ensures StateAfter(0, n) == 0
  {
    if n > 0 {
      ZeroStateStays(n - 1);
    }
  }

  /** The generator: a single 32-bit state advanced once per draw. */
  class Rng {
    var state: bv32

    constructor (seed: bv32)
      ensures state == seed
    {
      state := seed;
    }

    /** Advances the state by one step of the recurrence and returns it. */
    method NextU32() returns (r: bv32)
      modifies this
      ensures state == Xorshift(old(state))
      ensures r == state
    {
      var x := state;
      x := XorShl(x, 13);
      x := XorShr(x, 17);
      x := XorShl(x, 5);
      state := x;
      r := x;
    }

    /** Advances the state and returns the new state modulo `max`. */
    method NextUsize(max: nat) returns (r: nat)
      requires 0 < max
      modifies this
      ensures state == Xorshift(old(state))
      ensures r == Draw(old(state), max) && r < max
    {
      var x := NextU32();
      r := (x as int) % max;
    }
  }
}
