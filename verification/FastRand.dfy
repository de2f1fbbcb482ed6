/**
 32-bit words as bit sequences (bit 0 first), with exclusive-or and the two shifts of
 util.c: a left shift that wraps and a right shift that copies the sign bit.
 */
module Words {

  const ZEROS := seq(32, i => false)

  type Word = s: seq<bool> | |s| == 32 witness seq(32, i => false)

  /** The word, read as a signed number, is not negative. */
  predicate Positive(a: Word) {
    !a[31]
  }

  function Xor(a: Word, b: Word): Word {
    seq(32, i requires 0 <= i < 32 => a[i] != b[i])
  }

  function Shl(a: Word, k: nat): Word
    requires k < 32
  {
    seq(32, i requires 0 <= i < 32 => i >= k && a[i - k])
  }

  function Sar(a: Word, k: nat): Word
    requires k < 32
  {
    seq(32, i requires 0 <= i < 32 => if i + k < 32 then a[i + k] else a[31])
  }

  function Unsigned(s: seq<bool>): nat {
    if s == [] then 0 else (if s[0] then 1 else 0) + 2 * Unsigned(s[1..])
  }

  function Pow2(n: nat): nat {
    if n == 0 then 1 else 2 * Pow2(n - 1)
  }

  lemma {:induction false} UnsignedBound(s: seq<bool>, n: nat)
    requires n <= |s| && forall i :: n <= i < |s| ==> !s[i]
    ensures Unsigned(s) < Pow2(n)
    decreases |s|
  {
    if s == [] {
    } else {
      UnsignedBound(s[1..], if n == 0 then 0 else n - 1);
    }
  }

  lemma TwoTo31()
    ensures Pow2(31) == 0x8000_0000
  {
    assert Pow2(8) == 256;
    assert Pow2(16) == 256 * Pow2(8);
    assert Pow2(24) == 256 * Pow2(16);
    assert Pow2(31) == 128 * Pow2(24);
  }

  /** The value of a word with a clear sign bit lies in [0, 2^31). */
  lemma PositiveBound(a: Word)
    requires Positive(a)
    ensures Unsigned(a) < 0x8000_0000
  {
    UnsignedBound(a, 31);
    TwoTo31();
  }

  // ---- shifts as arithmetic ----------------------------------------------------

  lemma {:induction false} UnsignedJoin(a: seq<bool>, b: seq<bool>)
    ensures Unsigned(a + b) == Unsigned(a) + Pow2(|a|) * Unsigned(b)
  {
    if a == [] {
      assert a + b == b;
    } else {
      assert (a + b)[1..] == a[1..] + b;
      UnsignedJoin(a[1..], b);
      Distribute(if a[0] then 1 else 0, Unsigned(a[1..]), Pow2(|a| - 1), Unsigned(b));
    }
  }

  lemma Distribute(d: nat, u: nat, p: nat, v: nat)
    ensures d + 2 * (u + p * v) == d + 2 * u + (2 * p) * v
  {
  }

  lemma {:induction false} UnsignedZeros(s: seq<bool>)
    requires forall i :: 0 <= i < |s| ==> !s[i]
    ensures Unsigned(s) == 0
  {
    if s == [] {
    } else {
      UnsignedZeros(s[1..]);
    }
  }

  /** A left shift multiplies by a power of two and drops what leaves the word. */
  lemma ShlMeans(a: Word, k: nat)
    requires k < 32
    ensures Unsigned(Shl(a, k)) == Pow2(k) * Unsigned(a[..32 - k])
    ensures Unsigned(a) == Unsigned(a[..32 - k]) + Pow2(32 - k) * Unsigned(a[32 - k..])
  {
    var zeros := seq(k, i => false);
    assert Shl(a, k) == zeros + a[..32 - k];
    UnsignedJoin(zeros, a[..32 - k]);
    UnsignedZeros(zeros);
    assert a == a[..32 - k] + a[32 - k..];
    UnsignedJoin(a[..32 - k], a[32 - k..]);
  }

  /** A right shift of a word that is not negative divides by a power of two; the lowest bits are the remainder. */
  lemma SarMeans(a: Word, k: nat)
    requires k < 32 && Positive(a)
    ensures Unsigned(a) == Pow2(k) * Unsigned(Sar(a, k)) + Unsigned(a[..k]) && Unsigned(a[..k]) < Pow2(k)
  {
    var zeros := seq(k, i => false);
    assert Sar(a, k) == a[k..] + zeros;
    UnsignedJoin(a[k..], zeros);
    UnsignedZeros(zeros);
    assert a == a[..k] + a[k..];
    UnsignedJoin(a[..k], a[k..]);
    UnsignedBound(a[..k], k);
  }

  /** Exclusive-or is bit by bit, and undoes itself. */
  lemma XorMeans(a: Word, b: Word)
    ensures forall i :: 0 <= i < 32 ==> (Xor(a, b)[i] <==> a[i] != b[i])
    ensures Xor(Xor(a, b), b) == a
  {
  }

  // ---- the scrambling of one seed ---------------------------------------------

  /** `t = x ^ (x<<15)` and then `t ^ (t>>4)`. */
  function Scramble(x: Word): Word {
    var t := Xor(x, Shl(x, 15));
    Xor(t, Sar(t, 4))
  }

  /** Words with equal images under `t ^ (t>>4)` agree in every bit, or differ in every bit. */
  lemma {:induction false} RightRound(t: Word, u: Word, i: nat)
    requires i < 32
    requires Xor(t, Sar(t, 4)) == Xor(u, Sar(u, 4))
    ensures (t[i] == u[i]) == (t[31] == u[31])
    decreases 32 - i
  {
    assert Xor(t, Sar(t, 4))[i] == Xor(u, Sar(u, 4))[i];
    if 32 <= i + 4 {
    } else {
      RightRound(t, u, i + 4);
    }
  }

  /** On words with a clear sign bit the scrambling loses nothing. */
  lemma ScrambleInjective(x: Word, y: Word)
    requires Positive(x) && Positive(y)
    requires Scramble(x) == Scramble(y)
    ensures x == y
  {
    var t, u := Xor(x, Shl(x, 15)), Xor(y, Shl(y, 15));
    forall i | 0 <= i < 32
      ensures (t[i] == u[i]) == (t[31] == u[31])
    {
      RightRound(t, u, i);
    }
    // bit i of t is x[i], or x[i] ^ x[i-15]
    assert t[31] == (x[31] != x[16]) && u[31] == (y[31] != y[16]);
    assert t[16] == (x[16] != x[1]) && u[16] == (y[16] != y[1]);
    assert t[1] == x[1] && u[1] == y[1];
    assert t[31] == u[31];
    forall i | 0 <= i < 32
      ensures x[i] == y[i]
    {
      assert t[i] == u[i];
      if i >= 15 {
        assert t[i - 15] == u[i - 15];
        if i == 30 {
          assert t[0] == u[0];
        }
      }
    }
  }

  lemma ScramblePositive(x: Word)
    ensures Positive(Scramble(x))
  {
  }
}

/**
 The pseudo-random generator of util.c: Marsaglia's four-word xorshift on a machine whose
 `long` has 32 bits (the build passes -m32).  A step is injective on the states with clear
 sign bits, which is why a generator that does not start stuck at zero never becomes stuck.
 */
module FastRand {
  import opened Words

  datatype Seeds = Seeds(x: Word, y: Word, z: Word, w: Word) {
    /** All four seeds, read as signed words, lie in [0, 2^31). */
    predicate Valid() {
      Positive(x) && Positive(y) && Positive(z) && Positive(w)
    }
  }

  const STUCK := Seeds(ZEROS, ZEROS, ZEROS, ZEROS)

  function Temper(w: Word): Word {
    Xor(w, Sar(w, 21))
  }

  function Step(s: Seeds): Seeds {
    Seeds(s.y, s.z, s.w, Xor(Temper(s.w), Scramble(s.x)))
  }

  function Run(s: Seeds, n: nat): Seeds
    decreases n
  {
    if n == 0 then s else Run(Step(s), n - 1)
  }

  /** A step keeps all four seeds in range. */
  lemma StepValid(s: Seeds)
    requires s.Valid()
    ensures Step(s).Valid()
  {
    ScramblePositive(s.x);
  }

  /** A step loses nothing: two valid states with the same successor are equal. */
  lemma StepInjective(s: Seeds, t: Seeds)
    requires s.Valid() && t.Valid()
    requires Step(s) == Step(t)
    ensures s == t
  {
    var a, b := Xor(Temper(s.w), Scramble(s.x)), Xor(Temper(t.w), Scramble(t.x));
    forall i | 0 <= i < 32
      ensures Scramble(s.x)[i] == Scramble(t.x)[i]
    {
      assert a[i] == b[i];
    }
    assert Scramble(s.x) == Scramble(t.x);
    ScrambleInjective(s.x, t.x);
  }

  /** Two valid states that agree after any number of steps were equal. */
  lemma {:induction false} RunInjective(s: Seeds, t: Seeds, n: nat)
    requires s.Valid() && t.Valid()
    requires Run(s, n) == Run(t, n)
    ensures s == t
    decreases n
  {
    if n == 0 {
    } else {
      StepValid(s);
      StepValid(t);
      RunInjective(Step(s), Step(t), n - 1);
      StepInjective(s, t);
    }
  }

  lemma StuckStays()
    ensures STUCK.Valid() && Step(STUCK) == STUCK
  {
    assert Xor(ZEROS, Shl(ZEROS, 15)) == ZEROS;
    assert Scramble(ZEROS) == ZEROS;
    assert Temper(ZEROS) == ZEROS;
    assert Xor(ZEROS, ZEROS) == ZEROS;
  }

  /** Over any number of steps the seeds stay in range, and all-zero is isolated. */
  lemma {:induction false} NeverDegenerates(s: Seeds, n: nat)
    requires s.Valid()
    ensures Run(s, n).Valid()
    ensures Run(s, n) == STUCK <==> s == STUCK
    decreases n
  {
    hide Scramble, Temper, Xor;
    if n == 0 {
    } else {
      StepValid(s);
      NeverDegenerates(Step(s), n - 1);
      StuckStays();
      if Step(s) == STUCK {
        StepInjective(s, STUCK);
      }
    }
  }

  /** `(long)(n*r)` with r in [0,1) is an index into n things, or 0 when there are none. */
  lemma ScaledDraw(n: nat, r: real)
    requires 0.0 <= r < 1.0
    ensures 0 <= (n as real * r).Floor
    ensures if n == 0 then (n as real * r).Floor == 0 else (n as real * r).Floor < n
  {
    if n > 0 {
      assert n as real * r < n as real;
    }
  }

  predicate UnitInterval(r: real) {
    0.0 <= r < 1.0
  }

  /** The number the next call returns. */
  function Draw(s: Seeds): real {
    Unsigned(Step(s).w) as real / 2147483712.0
  }

  /** It lies in [0,1), and the seeds stay in range. */
  lemma DrawBound(s: Seeds)
    requires s.Valid()
    ensures Step(s).Valid() && UnitInterval(Draw(s))
  {
    StepValid(s);
    PositiveBound(Step(s).w);
  }

  /** The numbers the next `n` calls return. */
  function Draws(s: Seeds, n: nat): (d: seq<real>)
    ensures |d| == n
    decreases n
  {
    if n == 0 then [] else [Draw(s)] + Draws(Step(s), n - 1)
  }

  lemma NextDraw(s: Seeds, n: nat)
    requires 0 < n
    ensures Draws(s, n) == [Draw(s)] + Draws(Step(s), n - 1)
  {
    hide Draw, Step;
  }

  predicate UnitDraws(d: seq<real>) {
    forall k :: 0 <= k < |d| ==> UnitInterval(d[k])
  }

  lemma {:induction false} DrawsAt(s: Seeds, n: nat, k: nat)
    requires k < n
    ensures Draws(s, n)[k] == Draw(Run(s, k))
    decreases k
  {
    hide Step, Draw;
    if k == 0 {
    } else {
      DrawsAt(Step(s), n - 1, k - 1);
    }
  }

  lemma {:induction false} RunRun(s: Seeds, m: nat, n: nat)
    ensures Run(Run(s, m), n) == Run(s, m + n)
    decreases m
  {
    hide Step;
    if m == 0 {
    } else {
      RunRun(Step(s), m - 1, n);
    }
  }

  lemma TwoCallsOn(s: Seeds, n: nat)
    ensures Run(s, n + 2) == Step(Step(Run(s, n)))
  {
    hide Step;
    RunRun(s, n, 2);
    FirstCalls(Run(s, n));
  }

  /** The first calls, one by one. */
  lemma FirstCalls(s: Seeds)
    ensures Run(s, 0) == s && Run(s, 1) == Step(s) && Run(s, 2) == Step(Step(s)) && Run(s, 3) == Step(Step(Step(s)))
    ensures Run(s, 4) == Step(Step(Step(Step(s)))) && Run(s, 5) == Step(Step(Step(Step(Step(s)))))
  {
    hide Step;
    var t := Step(Step(s));
    assert Run(s, 3) == Run(t, 1) && Run(s, 4) == Run(t, 2);
    assert Run(s, 5) == Run(t, 3) == Run(Step(t), 2);
  }

  lemma FirstDraws(s: Seeds)
    ensures Draws(s, 2) == [Draw(s), Draw(Step(s))]
    ensures Draws(s, 3) == [Draw(s)] + Draws(Step(s), 2)
    ensures Draws(s, 4) == [Draw(s), Draw(Step(s))] + Draws(Step(Step(s)), 2)
  {
    hide Step, Draw;
  }

  /** `(long)(n*r)` for a number that can be drawn: an index into n things. */
  function Index(n: nat, r: real): (k: nat)
    ensures if n == 0 then k == 0 else k < n
  {
    if UnitInterval(r) then ScaledDraw(n, r); (n as real * r).Floor else 0
  }

  /** Every index is drawn by some number, and only by numbers of its own stretch of [0,1). */
  lemma EveryIndexIsDrawn(n: nat, k: nat) returns (r: real)
    requires k < n
    ensures UnitInterval(r) && Index(n, r) == k
  {
    r := k as real / n as real;
    assert n as real * r == k as real;
  }

  /** The four global seeds and the call that shifts them. */
  class Generator {
    var seedx: Word
    var seedy: Word
    var seedz: Word
    var seedw: Word

    ghost function State(): Seeds
      reads this
    {
      Seeds(seedx, seedy, seedz, seedw)
    }

    ghost predicate Valid()
      reads this
    {
      State().Valid() && State() != STUCK
    }

    constructor (s: Seeds)
      requires s.Valid() && s != STUCK
      ensures Valid() && State() == s
    {
      seedx, seedy, seedz, seedw := s.x, s.y, s.z, s.w;
    }

    /** The draw, in exact arithmetic, lies in [0,1). */
    method Fastrand() returns (r: real)
      requires Valid()
      modifies this
      ensures Valid() && State() == Step(old(State()))
      ensures r == Unsigned(seedw) as real / 2147483712.0 == Draw(old(State()))
      ensures 0.0 <= r < 1.0
    {
      NeverDegenerates(State(), 1);
      assert Run(State(), 1) == Run(Step(State()), 0);
      var tmp := Xor(seedx, Shl(seedx, 15));
      seedx := seedy;
      seedy := seedz;
      seedz := seedw;
      seedw := Xor(Xor(seedw, Sar(seedw, 21)), Xor(tmp, Sar(tmp, 4)));
      PositiveBound(seedw);
      r := Unsigned(seedw) as real / 2147483712.0;
    }

    /** `(long)(n*fastrand())`: every caller's way of drawing an index. */
    method Below(n: nat) returns (k: nat)
      requires Valid()
      modifies this
      ensures Valid() && State() == Step(old(State()))
      ensures if n == 0 then k == 0 else k < n
      ensures k == Index(n, Draw(old(State())))
    {
      hide Draw, Step;
      var r := Fastrand();
      ScaledDraw(n, r);
      k := (n as real * r).Floor;
    }
  }
}
