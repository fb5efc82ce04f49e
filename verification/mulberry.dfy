/** The `mulberry32` generator of scripts/utils.js. The captured state `a` is
    an unbounded integer that grows by a fixed step per call; every bitwise
    operator and `Math.imul` works on its value modulo 2^32, which is `bv32`
    arithmetic here. */
module Mulberry {

  /** The step added to the state on every call. */
  const Step: int := 0x6D2B79F5

  const TwoTo32: int := 0x1_0000_0000

  /** JavaScript's ToUint32: the integer modulo 2^32. */
  function ToUint32(n: int): bv32
  {
    (n % TwoTo32) as bv32
  }

  /** `Math.imul`: both operands as unsigned 32-bit integers, multiplied
      exactly, and the product taken modulo 2^32. */
  function Imul(p: bv32, q: bv32): bv32 {
    ToUint32((p as int) * (q as int))
  }

  /** The first round: `Math.imul(t ^ t >>> 15, t | 1)`. */
  function FirstRound(t: bv32): bv32 {
    Imul(t ^ (t >> 15), t | 1)
  }

  /** The second round: `t ^= t + Math.imul(t ^ t >>> 7, t | 61)`; `+` wraps
      as the following `^` truncates the sum to 32 bits. */
  function SecondRound(t: bv32): bv32 {
    t ^ (t + Imul(t ^ (t >> 7), t | 61))
  }

  /** The closing `(t ^ t >>> 14) >>> 0`. */
  function LastRound(t: bv32): bv32 {
    t ^ (t >> 14)
  }

  /** The mixing rounds applied to the post-increment state; `>>>` is `>>`
      on `bv32`. */
  function Mix(t: bv32): bv32 {
    LastRound(SecondRound(FirstRound(t)))
  }

  /** Undoes `z ^ z >>> 15` by xoring in the further shifted copies. */
  function UndoXorShift15(z: bv32): bv32 {
    z ^ (z >> 15) ^ (z >> 30)
  }

  /** Undoes `LastRound` in the same way. */
  function UndoLastRound(z: bv32): bv32 {
    z ^ (z >> 14) ^ (z >> 28)
  }

  /** The xorshift that opens the first round loses nothing. */
  lemma FirstXorShiftInverts(x: bv32)
    ensures UndoXorShift15(x ^ (x >> 15)) == x
  {
  }

  /** Two states that agree after the opening xorshift were equal. */
  lemma FirstXorShiftInjective(x: bv32, y: bv32)
    requires x ^ (x >> 15) == y ^ (y >> 15)
    ensures x == y
  {
    FirstXorShiftInverts(x);
    FirstXorShiftInverts(y);
  }

  lemma ShiftedCopiesInvert14(x: bv32)
    ensures UndoLastRound(x ^ (x >> 14)) == x
  {
  }

  /** The closing round loses nothing. */
  lemma LastRoundInverts(x: bv32)
    ensures UndoLastRound(LastRound(x)) == x
  {
    ShiftedCopiesInvert14(x);
  }

  /** The state after the second round is recovered from the mixer's
      output, so two states with the same output agree after the second
      round. */
  lemma MixLastRoundInjective(s: bv32, t: bv32)
    ensures UndoLastRound(Mix(s)) == SecondRound(FirstRound(s))
    ensures Mix(s) == Mix(t) ==> SecondRound(FirstRound(s)) == SecondRound(FirstRound(t))
  {
    LastRoundInverts(SecondRound(FirstRound(s)));
    LastRoundInverts(SecondRound(FirstRound(t)));
  }

  /** `u / 4294967296` for an unsigned 32-bit `u`: exact, and below one. */
  function Unit(u: bv32): (r: real)
    ensures 0.0 <= r < 1.0
    ensures r * TwoTo32 as real == u as int as real
  {
    (u as int) as real / TwoTo32 as real
  }

  /** The value the closure returns when its post-increment state is `a`. */
  function Value(a: int): (r: real)
    ensures 0.0 <= r < 1.0
  {
    Unit(Mix(ToUint32(a)))
  }

  /** The closure's captured state. */
  datatype Generator = Generator(a: int)

  /** `mulberry32(seed)`. */
  function Seed(seed: int): (g: Generator)
    ensures g.a == seed
  {
    Generator(seed)
  }

  /** One call of the returned closure: the advanced generator and the value
      it returns. */
  function Next(g: Generator): (r: (Generator, real))
    ensures r.0.a == g.a + Step
    ensures 0.0 <= r.1 < 1.0
  {
    Call(Value, g)
  }

  /** One call of any closure that advances its captured state by `Step`
      and then returns `out` of the new state. */
  function Call(out: int -> real, g: Generator): (r: (Generator, real))
    ensures r.0.a == g.a + Step
  {
    var a := g.a + Step;
    (Generator(a), out(a))
  }

  /** `n` successive calls of any closure that advances its captured state
      by `Step` and then returns `out` of the new state. Only the state's
      evolution is fixed here; the mixer is a parameter. */
  function Run(out: int -> real, a: int, n: nat): (s: seq<real>)
    ensures |s| == n
    decreases n
  {
    if n == 0 then [] else [out(a + Step)] + Run(out, a + Step, n - 1)
  }

  lemma {:induction false} RunClosedForm(out: int -> real, a: int, n: nat, k: nat)
    requires k < n
    ensures Run(out, a, n)[k] == out(a + (k + 1) * Step)
    decreases k
  {
    if k > 0 {
      assert Run(out, a, n)[k] == Run(out, a + Step, n - 1)[k - 1];
      RunClosedForm(out, a + Step, n - 1, k - 1);
      StepsAdd(a, k);
    }
  }

  lemma StepsAdd(a: int, k: nat)
    ensures (a + Step) + k * Step == a + (k + 1) * Step
  {
  }

  /** Start states that agree modulo 2^32 give the same run, for any output
      map that sees only the low 32 bits of the state. */
  lemma {:induction false} RunDependsOnLow32Bits(out: int -> real, s: int, t: int, n: nat)
    requires forall x: int, y: int :: x % TwoTo32 == y % TwoTo32 ==> out(x) == out(y)
    requires s % TwoTo32 == t % TwoTo32
    ensures Run(out, s, n) == Run(out, t, n)
    decreases n
  {
    if n > 0 {
      ShiftKeepsResidue(s, t, Step);
      RunDependsOnLow32Bits(out, s + Step, t + Step, n - 1);
    }
  }

  /** The first `n` values a generator returns, in order. */
  function Outputs(g: Generator, n: nat): (s: seq<real>)
    ensures |s| == n
  {
    Run(Value, g.a, n)
  }

  /** The first value is what one call returns, and the rest are the values
      of the generator that call leaves behind. */
  lemma {:induction false} OutputsFollowNext(g: Generator, n: nat)
    requires 0 < n
    ensures Outputs(g, n) == [Next(g).1] + Outputs(Next(g).0, n - 1)
  {
    RunFollowsCall(Value, g, n);
  }

  lemma {:induction false} RunFollowsCall(out: int -> real, g: Generator, n: nat)
    requires 0 < n
    ensures Run(out, g.a, n) == [Call(out, g).1] + Run(out, Call(out, g).0.a, n - 1)
  {
  }

  /** The `k`-th value (from zero) is the mixer applied to the seed plus
      `k + 1` steps: each call advances the state by exactly one step before
      mixing, and nothing else feeds the output. */
  lemma {:induction false} OutputsClosedForm(g: Generator, n: nat, k: nat)
    requires k < n
    ensures Outputs(g, n)[k] == Value(g.a + (k + 1) * Step)
  {
    RunClosedForm(Value, g.a, n, k);
  }

  /** Every value returned lies in [0, 1). */
  lemma {:induction false} OutputsInUnitInterval(g: Generator, n: nat)
    ensures forall k :: 0 <= k < n ==> 0.0 <= Outputs(g, n)[k] < 1.0
  {
    forall k | 0 <= k < n
      ensures 0.0 <= Outputs(g, n)[k] < 1.0
    {
      OutputsClosedForm(g, n, k);
    }
  }

  /** A value depends only on the post-increment state modulo 2^32. */
  lemma ValueDependsOnLow32Bits(a: int, b: int)
    requires a % TwoTo32 == b % TwoTo32
    ensures Value(a) == Value(b)
  {
    ShiftKeepsResidue(a, b, 0);
  }

  /** Seeds that agree modulo 2^32 give the same sequence of values. */
  lemma {:induction false} SameLow32BitsSameOutputs(s: int, t: int, n: nat)
    requires s % TwoTo32 == t % TwoTo32
    ensures Outputs(Seed(s), n) == Outputs(Seed(t), n)
  {
    forall x: int, y: int | x % TwoTo32 == y % TwoTo32
      ensures Value(x) == Value(y)
    {
      ValueDependsOnLow32Bits(x, y);
    }
    RunDependsOnLow32Bits(Value, s, t, n);
  }

  lemma ShiftKeepsResidue(s: int, t: int, d: int)
    requires s % TwoTo32 == t % TwoTo32
    ensures (s + d) % TwoTo32 == (t + d) % TwoTo32
  {
    var q := s / TwoTo32;
    var p := t / TwoTo32;
    assert s == q * TwoTo32 + s % TwoTo32;
    assert t == p * TwoTo32 + s % TwoTo32;
    assert t + d == (s + d) + (p - q) * TwoTo32;
    MultipleShift(s + d, p - q);
  }

  lemma MultipleShift(n: int, m: int)
    ensures (n + m * TwoTo32) % TwoTo32 == n % TwoTo32
  {
  }
}
