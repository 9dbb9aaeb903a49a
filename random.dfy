/** The random series of game_random.cpp: 32-bit xorshift (shifts 13, 7, 17) over an
    unsigned state, and the draws derived from it. */
module Random {
  import opened Base

  // The three stages of the xorshift step, each an xor with a shifted copy. Left
  // shifts drop the bits pushed past bit 31, as `u32` arithmetic does.

  function Stage13(x: bv32): bv32 { x ^ (x << 13) }
  function Stage7(x: bv32): bv32 { x ^ (x >> 7) }
  function Stage17(x: bv32): bv32 { x ^ (x << 17) }

  /** The xorshift step of `random_u32`. */
  function Xorshift(x: bv32): bv32 {
    Stage17(Stage7(Stage13(x)))
  }

  // Each stage is undone by xoring in the repeated shifts of its result.

  function Undo13(y: bv32): (x: bv32)
    ensures Stage13(x) == y
  {
    y ^ (y << 13) ^ (y << 26)
  }

  function Undo7(y: bv32): (x: bv32)
    ensures Stage7(x) == y
  {
    var x := y ^ (y >> 7) ^ (y >> 14) ^ (y >> 21) ^ (y >> 28);
    ShiftXor(y ^ (y >> 7) ^ (y >> 14) ^ (y >> 21), y >> 28);
    ShiftXor(y ^ (y >> 7) ^ (y >> 14), y >> 21);
    ShiftXor(y ^ (y >> 7), y >> 14);
    ShiftXor(y, y >> 7);
    assert (y >> 7) >> 7 == y >> 14 && (y >> 14) >> 7 == y >> 21;
    assert (y >> 21) >> 7 == y >> 28 && (y >> 28) >> 7 == 0;
    x
  }

  /** A right shift by 7 distributes over xor. */
  lemma ShiftXor(a: bv32, b: bv32)
    ensures (a ^ b) >> 7 == (a >> 7) ^ (b >> 7)
  {
  }

  function Undo17(y: bv32): (x: bv32)
    ensures Stage17(x) == y
  {
    y ^ (y << 17)
  }

  lemma StagesUndone(x: bv32)
    ensures Undo13(Stage13(x)) == x
    ensures Undo7(Stage7(x)) == x
    ensures Undo17(Stage17(x)) == x
  {
  }

  /** The inverse of the step. */
  function Unxorshift(y: bv32): (x: bv32)
    ensures Xorshift(x) == y
  {
    Undo13(Undo7(Undo17(y)))
  }

  /** The step is a bijection on 32-bit states: the inverse also undoes it. */
  lemma UnxorshiftXorshift(x: bv32)
    ensures Unxorshift(Xorshift(x)) == x
  {
    StagesUndone(x);
    StagesUndone(Stage13(x));
    StagesUndone(Stage7(Stage13(x)));
    assert Undo17(Xorshift(x)) == Stage7(Stage13(x));
    StagesUndone(Stage13(x));
  }

  /** A state other than 0 never steps to 0, and 0 steps to itself. */
  lemma XorshiftZero(x: bv32)
    ensures Xorshift(x) == 0 <==> x == 0
  {
    UnxorshiftXorshift(x);
    assert Unxorshift(0) == 0;
  }

  /** The values `n` successive draws return, starting from state `x`. */
  function Draws(x: bv32, n: nat): (r: seq<bv32>)
    ensures |r| == n
    ensures n > 0 ==> r[0] == Xorshift(x)
    decreases n
  {
    if n == 0 then [] else [Xorshift(x)] + Draws(Xorshift(x), n - 1)
  }

  /** The state after `n` steps from `x`. */
  function Iter(x: bv32, n: nat): bv32
    decreases n
  {
    if n == 0 then x else Iter(Xorshift(x), n - 1)
  }

  /** One more draw appends the step of the state reached so far. */
  lemma {:induction false} DrawsSnoc(x: bv32, n: nat)
    ensures Iter(x, n + 1) == Xorshift(Iter(x, n))
    ensures Draws(x, n + 1) == Draws(x, n) + [Iter(x, n + 1)]
    decreases n
  {
    if n > 0 {
      DrawsSnoc(Xorshift(x), n - 1);
    }
  }

  /** State 0 is a fixed point: a series begun with seed 0 draws only zeros. */
  lemma {:induction false} DrawsFromZero(n: nat)
    ensures forall i :: 0 <= i < n ==> Draws(0, n)[i] == 0
  {
    if n > 0 {
      XorshiftZero(0);
      DrawsFromZero(n - 1);
      assert Draws(0, n) == [0] + Draws(0, n - 1);
    }
  }

  /** Any other seed never draws 0. */
  lemma {:induction false} DrawsFromNonzero(x: bv32, n: nat)
    requires x != 0
    ensures forall i :: 0 <= i < n ==> Draws(x, n)[i] != 0
    decreases n
  {
    if n > 0 {
      XorshiftZero(x);
      DrawsFromNonzero(Xorshift(x), n - 1);
    }
  }

  // C integer conversions.

  const U32_MODULUS: int := 0x1_0000_0000
  const S32_MIN: int := -0x8000_0000
  const S32_MAX: int := 0x7fff_ffff

  predicate IsS32(v: int) {
    S32_MIN <= v <= S32_MAX
  }

  /** Conversion to `u32`: reduction modulo 2^32. */
  function ToU32(v: int): (r: int)
    ensures 0 <= r < U32_MODULUS && (v - r) % U32_MODULUS == 0
    ensures 0 <= v < U32_MODULUS ==> r == v
  {
    v % U32_MODULUS
  }

  /** Conversion to `s32`, wrapping into the signed range. */
  function ToS32(v: int): (r: int)
    ensures IsS32(r) && (v - r) % U32_MODULUS == 0
    ensures IsS32(v) ==> r == v
  {
    var u := ToU32(v);
    if u <= S32_MAX then u else u - U32_MODULUS
  }

  /** `random_chance`'s test on a drawn value: `draw % value == 0`, where the `int`
      `value` is converted to `u32` to match the unsigned draw. For a positive value
      it is divisibility by that value. */
  function ChanceOf(draw: bv32, value: int): (b: bool)
    requires IsS32(value) && value != 0
    ensures value > 0 ==> (b <==> (draw as int) % value == 0)
    ensures value < 0 ==> (b <==> (draw as int) % (value + U32_MODULUS) == 0)
  {
    (draw as int) % ToU32(value) == 0
  }

  /** `random_range`'s result for a drawn value: `min + (s32)(draw % (max - min))`.
      `max - min` is computed in `s32` (the request forbids its overflow and a zero
      divisor) and converted to `u32` for the remainder; the cast back to `s32` and
      the sum wrap. For `min < max` the result lies in `[min, max)`. */
  function RangeOf(draw: bv32, min: int, max: int): (r: int)
    requires IsS32(min) && IsS32(max) && IsS32(max - min) && min != max
    ensures IsS32(r)
    ensures min < max ==> min <= r < max && r == min + (draw as int) % (max - min)
  {
    var t := (draw as int) % ToU32(max - min);
    ToS32(min + ToS32(t))
  }

  /** `Random_Series`. */
  class Series {
    var seed: bv32
    var index: bv32

    /** A zero-initialised series, as a global one starts out. */
    constructor Init()
      ensures seed == 0 && index == 0
    {
      seed := 0;
      index := 0;
    }

    /** `random_begin`. */
    method Begin(s: bv32)
      modifies this
      ensures seed == s && index == s
    {
      seed := s;
      index := s;
    }

    /** `random_u32`: one xorshift step; the result is also the new state. */
    method NextU32() returns (r: bv32)
      modifies this
      ensures r == Xorshift(old(index)) && index == r && seed == old(seed)
    {
      r := index;
      r := Stage13(r);
      r := Stage7(r);
      r := Stage17(r);
      index := r;
    }

    /** `n` successive calls of `random_u32`: the values are `Draws` of the old state,
        and the last of them is the new state. */
    method NextU32s(n: nat) returns (rs: seq<bv32>)
      modifies this
      ensures rs == Draws(old(index), n) && index == Iter(old(index), n)
      ensures n > 0 ==> rs[n - 1] == index
      ensures seed == old(seed)
    {
      rs := [];
      var i := 0;
      while i < n
        invariant i <= n && rs == Draws(old(index), i) && index == Iter(old(index), i)
        invariant i > 0 ==> rs[i - 1] == index
        invariant seed == old(seed)
      {
        DrawsSnoc(old(index), i);
        var r := NextU32();
        rs := rs + [r];
        i := i + 1;
      }
    }

    /** `random_b32`: true exactly when the draw is even. */
    method B32() returns (b: bool)
      modifies this
      ensures b <==> Xorshift(old(index)) % 2 == 0
      ensures index == Xorshift(old(index)) && seed == old(seed)
    {
      var r := NextU32();
      b := r % 2 == 0;
    }

    /** `random_chance`. */
    method Chance(value: int) returns (b: bool)
      requires IsS32(value) && value != 0
      modifies this
      ensures b == ChanceOf(Xorshift(old(index)), value)
      ensures index == Xorshift(old(index)) && seed == old(seed)
    {
      var r := NextU32();
      b := (r as int) % ToU32(value) == 0;
    }

    /** `random_range`. */
    method Range(min: int, max: int) returns (r: int)
      requires IsS32(min) && IsS32(max) && IsS32(max - min) && min != max
      modifies this
      ensures r == RangeOf(Xorshift(old(index)), min, max)
      ensures index == Xorshift(old(index)) && seed == old(seed)
    {
      var x := NextU32();
      r := ToS32(min + ToS32((x as int) % ToU32(max - min)));
    }
  }

  /** Two series begun with the same seed draw the same values. All of `a`'s draws
      come before any of `b`'s, so `b` still draws `Draws(s, n)` only because drawing
      from one series leaves the other alone. */
  method SameSeed(s: bv32, n: nat) returns (xs: seq<bv32>, ys: seq<bv32>)
    ensures xs == ys == Draws(s, n)
  {
    var a := new Series.Init();
    var b := new Series.Init();
    a.Begin(s);
    b.Begin(s);
    xs := a.NextU32s(n);
    ys := b.NextU32s(n);
  }
}
