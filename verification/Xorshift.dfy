/** The deterministic generator of the simulation: a 64-bit xorshift. */
module Xorshift {
  import opened Arithmetic

  function Seeded(seed: bv64): (s: bv64)
    ensures s != 0
  {
    if seed == 0 then 0x853c_49e6_748f_ea9b else seed
  }

  function First(x: bv64): bv64 {
    x ^ (x << 13)
  }

  function Second(x: bv64): bv64 {
    x ^ (x >> 7)
  }

  function Third(x: bv64): bv64 {
    x ^ (x << 17)
  }

  function Next(state: bv64): bv64 {
    Third(Second(First(state)))
  }

  /** The state after `n` draws. */
  function After(state: bv64, n: nat): bv64 {
    if n == 0 then state else Next(After(state, n - 1))
  }

  /** The number below `bound` that differs from `v` by a multiple of it; 0 for a bound of 0. */
  function Below(v: nat, bound: nat): (r: nat)
    ensures if bound == 0 then r == 0 else r < bound && (v - r) % bound == 0
  {
    if bound == 0 then 0
    else
      ModShift(v / bound, 0, bound);
      assert v - v % bound == v / bound * bound + 0;
      v % bound
  }

  /** A draw below `bound`; a bound of 0 draws 0. */
  function Draw(x: bv64, bound: nat): (r: nat)
    ensures if bound == 0 then r == 0 else r < bound
  {
    Below(x as nat, bound)
  }

  /** None of the three steps makes 0 of anything else, so the state never becomes 0. */
  lemma NextIsNeverZero(state: bv64)
    requires state != 0
    ensures Next(state) != 0
  {
    hide First, Second, Third;
    FirstStep(state);
    SecondStep(First(state));
    ThirdStep(Second(First(state)));
  }

  /** A draw is the remainder of the state as a number: the first one of state 1, and two small ones. */
  lemma KnownDraws()
    ensures Draw(0x4082_2041, 1000) == 761 && Draw(7, 5) == 2 && Draw(4, 5) == 4
  {
    assert 0x4082_2041 as bv64 as nat == 1082269761;
    assert 7 as bv64 as nat == 7 && 4 as bv64 as nat == 4;
  }

  /** The shift amounts and their directions, by what becomes of single bits, and the first draw of seed 0. */
  lemma KnownStates()
    ensures Next(1) == 0x4082_2041
    ensures Next(0x100_0000_0000) == 0x8224_4102_0000_0000
    ensures Next(0x8000_0000_0000_0000) == 0x8100_0000_0000_0000
    ensures Next(Seeded(0)) == 0x00ea_4be7_01d3_338e
  {
  }

  lemma FirstStep(x: bv64)
    requires x != 0
    ensures First(x) != 0
  {
  }

  lemma SecondStep(x: bv64)
    requires x != 0
    ensures Second(x) != 0
  {
  }

  lemma ThirdStep(x: bv64)
    requires x != 0
    ensures Third(x) != 0
  {
  }
}
