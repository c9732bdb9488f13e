/** mtwist.c: the MT19937 generator. Its 624-word buffer, regenerated in place, is proved to hand
    out the tempered words of the infinite recurrence of Matsumoto and Nishimura ("Mersenne
    Twister", ACM TOMACS 8(1), 1998). */
module MersenneTwister {

  const N: nat := 624
  const M: nat := 397

  const WORD: int := 0x1_0000_0000
  const WORD64: int := 0x1_0000_0000_0000_0000

  function Mixed(prev: bv32): (x: nat)
    ensures x < WORD
  {
    (prev ^ (prev >> 30)) as int
  }

  function Low32(x: nat): bv32 { (x % WORD) as bv32 }

  /** The seeding step, on integers without a bound. */
  function SeedStep(prev: bv32, i: nat): bv32 {
    Low32(1812433253 * Mixed(prev) + i)
  }

  /** The top bit of one word and the other 31 of the next. */
  function Joined(a: bv32, b: bv32): bv32 {
    (a & 0x8000_0000) | (b & 0x7fff_ffff)
  }

  function Twist(y: bv32): bv32 {
    if y & 1 == 1 then (y >> 1) ^ 0x9908_b0df else y >> 1
  }

  function Temper(x: bv32): bv32 {
    Shift18(Shift15(Shift7(Shift11(x))))
  }

  function Shift11(y: bv32): bv32 { Fold(Xor(), Move11(), y) }  // y ^ (y >> 11)
  function Shift7(y: bv32): bv32 { y ^ ((y << 7) & 0x9d2c_5680) }
  function Shift15(y: bv32): bv32 { y ^ ((y << 15) & 0xefc6_0000) }
  function Shift18(y: bv32): bv32 { Fold(Xor(), Move18(), y) }  // y ^ (y >> 18)

  function Fold<W>(x: (W, W) -> W, m: W -> W, y: W): W { x(y, m(y)) }

  function Right11(y: bv32): bv32 { y >> 11 }
  function Right18(y: bv32): bv32 { y >> 18 }
  function Xor(): (bv32, bv32) -> bv32 { (a: bv32, b: bv32) => a ^ b }
  function Move11(): bv32 -> bv32 { (y: bv32) => Right11(y) }
  function Move18(): bv32 -> bv32 { (y: bv32) => Right18(y) }

  // ----- Tempering loses nothing

  function Untemper(z: bv32): bv32 {
    Unshift11(Unshift7(Shift15(Shift18(z))))
  }

  function Unshift11(z: bv32): bv32 { Unfold(Xor(), Move11(), z) }  // z ^ ((z ^ (z >> 11)) >> 11)

  function Unfold<W>(x: (W, W) -> W, m: W -> W, z: W): W { x(z, m(Fold(x, m, z))) }

  function Unshift7(z: bv32): bv32 {
    var y := z ^ ((z << 7) & 0x9d2c_5680);
    var y := z ^ ((y << 7) & 0x9d2c_5680);
    var y := z ^ ((y << 7) & 0x9d2c_5680);
    z ^ ((y << 7) & 0x9d2c_5680)
  }

  // Folding a word onto itself can be undone whatever words and exclusive-or are, if moving the bits
  // is linear and leaves nothing in the end.

  predicate CancelsAt<W(==)>(x: (W, W) -> W, a: W, b: W) { x(x(a, b), b) == a }

  predicate JoinsAt<W(==)>(x: (W, W) -> W, a: W, b: W, c: W) { x(x(a, b), c) == x(a, x(b, c)) }

  predicate LinearAt<W(==)>(x: (W, W) -> W, m: W -> W, a: W, b: W) { m(x(a, b)) == x(m(a), m(b)) }

  predicate GoneIn2At<W(==)>(x: (W, W) -> W, m: W -> W, a: W, b: W) { x(b, m(m(a))) == b }

  predicate GoneIn3At<W(==)>(x: (W, W) -> W, m: W -> W, a: W, b: W) { x(b, m(m(m(a)))) == b }

  ghost predicate Foldable<W(!new)>(x: (W, W) -> W, m: W -> W) {
    && (forall a, b :: CancelsAt(x, a, b))
    && (forall a, b, c :: JoinsAt(x, a, b, c))
    && (forall a, b :: LinearAt(x, m, a, b))
  }

  ghost predicate GoneIn2<W(!new)>(x: (W, W) -> W, m: W -> W) { forall a, b :: GoneIn2At(x, m, a, b) }

  ghost predicate GoneIn3<W(!new)>(x: (W, W) -> W, m: W -> W) { forall a, b :: GoneIn3At(x, m, a, b) }

  lemma FoldTwice<W(!new)>(x: (W, W) -> W, m: W -> W, y: W)
    requires Foldable(x, m) && GoneIn2(x, m)
    ensures Fold(x, m, Fold(x, m, y)) == y
  {
    assert LinearAt(x, m, y, m(y)) && GoneIn2At(x, m, y, m(y)) && CancelsAt(x, y, m(y));
  }

  lemma FoldUndone<W(!new)>(x: (W, W) -> W, m: W -> W, y: W)
    requires Foldable(x, m) && GoneIn3(x, m)
    ensures Unfold(x, m, Fold(x, m, y)) == y
  {
    var p, q := m(y), m(m(y));
    assert LinearAt(x, m, y, p) && JoinsAt(x, x(y, p), p, q) && CancelsAt(x, y, p);
    assert LinearAt(x, m, y, q) && GoneIn3At(x, m, y, p);
  }

  lemma UnfoldUndone<W(!new)>(x: (W, W) -> W, m: W -> W, y: W)
    requires Foldable(x, m) && GoneIn3(x, m)
    ensures Fold(x, m, Unfold(x, m, y)) == y
  {
    var p, q, w := m(y), m(m(y)), Fold(x, m, y);
    assert LinearAt(x, m, y, p) && LinearAt(x, m, p, q) && GoneIn3At(x, m, y, q);
    assert LinearAt(x, m, y, m(w)) && CancelsAt(x, y, m(w));
  }

  lemma XorCancels(a: bv32, b: bv32)
    ensures CancelsAt(Xor(), a, b)
  {}

  lemma XorJoins(a: bv32, b: bv32, c: bv32)
    ensures JoinsAt(Xor(), a, b, c)
  {
    calc {
      Xor()(Xor()(a, b), c);
      (a ^ b) ^ c;
      a ^ (b ^ c);
      Xor()(a, Xor()(b, c));
    }
  }

  lemma LinearFrom<W>(x: (W, W) -> W, m: W -> W, a: W, b: W, c: W, d: W)
    requires x(a, b) == c && m(c) == d && x(m(a), m(b)) == d
    ensures LinearAt(x, m, a, b)
  {}

  lemma XorIs(a: bv32, b: bv32)
    ensures Xor()(a, b) == a ^ b
  {}

  lemma Right11Linear(a: bv32, b: bv32)
    ensures Move11()(a ^ b) == Right11(a) ^ Right11(b)
  {}

  lemma Right11Xor(a: bv32, b: bv32)
    ensures Xor()(Move11()(a), Move11()(b)) == Right11(a) ^ Right11(b)
  {}

  lemma Linear11(a: bv32, b: bv32)
    ensures LinearAt(Xor(), Move11(), a, b)
  {
    XorIs(a, b);
    Right11Linear(a, b);
    Right11Xor(a, b);
    LinearFrom(Xor(), Move11(), a, b, a ^ b, Right11(a) ^ Right11(b));
  }

  lemma Right18Linear(a: bv32, b: bv32)
    ensures Move18()(a ^ b) == Right18(a) ^ Right18(b)
  {}

  lemma Right18Xor(a: bv32, b: bv32)
    ensures Xor()(Move18()(a), Move18()(b)) == Right18(a) ^ Right18(b)
  {}

  lemma Linear18(a: bv32, b: bv32)
    ensures LinearAt(Xor(), Move18(), a, b)
  {
    XorIs(a, b);
    Right18Linear(a, b);
    Right18Xor(a, b);
    LinearFrom(Xor(), Move18(), a, b, a ^ b, Right18(a) ^ Right18(b));
  }

  lemma Gone11(a: bv32, b: bv32)
    ensures GoneIn3At(Xor(), Move11(), a, b)
  {}

  lemma Gone18(a: bv32, b: bv32)
    ensures GoneIn2At(Xor(), Move18(), a, b)
  {}

  lemma Foldable11()
    ensures Foldable(Xor(), Move11()) && GoneIn3(Xor(), Move11())
  {
    forall a, b ensures CancelsAt(Xor(), a, b) { XorCancels(a, b); }
    forall a, b, c ensures JoinsAt(Xor(), a, b, c) { XorJoins(a, b, c); }
    forall a, b ensures LinearAt(Xor(), Move11(), a, b) { Linear11(a, b); }
    forall a, b ensures GoneIn3At(Xor(), Move11(), a, b) { Gone11(a, b); }
  }

  lemma Foldable18()
    ensures Foldable(Xor(), Move18()) && GoneIn2(Xor(), Move18())
  {
    forall a, b ensures CancelsAt(Xor(), a, b) { XorCancels(a, b); }
    forall a, b, c ensures JoinsAt(Xor(), a, b, c) { XorJoins(a, b, c); }
    forall a, b ensures LinearAt(Xor(), Move18(), a, b) { Linear18(a, b); }
    forall a, b ensures GoneIn2At(Xor(), Move18(), a, b) { Gone18(a, b); }
  }

  lemma Shift11Undone(y: bv32)
    ensures Unshift11(Shift11(y)) == y && Shift11(Unshift11(y)) == y
  {
    Foldable11();
    FoldUndone(Xor(), Move11(), y);
    UnfoldUndone(Xor(), Move11(), y);
  }

  lemma Shift7Undone(y: bv32)
    ensures Unshift7(Shift7(y)) == y && Shift7(Unshift7(y)) == y
  {}

  lemma Shift15Undone(y: bv32)
    ensures Shift15(Shift15(y)) == y
  {}

  lemma Shift18Undone(y: bv32)
    ensures Shift18(Shift18(y)) == y
  {
    Foldable18();
    FoldTwice(Xor(), Move18(), y);
  }

  lemma TemperUndone(x: bv32)
    ensures Untemper(Temper(x)) == x
  {
    Shift18Undone(Shift15(Shift7(Shift11(x))));
    Shift15Undone(Shift7(Shift11(x)));
    Shift7Undone(Shift11(x));
    Shift11Undone(x);
  }

  lemma UntemperUndone(z: bv32)
    ensures Temper(Untemper(z)) == z
  {
    Shift11Undone(Unshift7(Shift15(Shift18(z))));
    Shift7Undone(Shift15(Shift18(z)));
    Shift15Undone(Shift18(z));
    Shift18Undone(z);
  }

  // ----- The buffer, whatever the words and the arithmetic on them

  datatype Arithmetic<!W> = Arithmetic(
    seedStep: (W, nat) -> W,
    recur: (W, W, W) -> W,
    temper: W -> W)
  {
    function SeedStep(prev: W, i: nat): W { seedStep(prev, i) }
    function Recur(a: W, b: W, c: W): W { recur(a, b, c) }
    function Temper(x: W): W { temper(x) }

    /** Word n of the sequence that the arithmetic defines. */
    function Word(seed: W, n: nat): W {
      if n == 0 then seed
      else if n < N then SeedStep(Word(seed, n - 1), n)
      else Recur(Word(seed, n - N), Word(seed, n - N + 1), Word(seed, n - N + M))
    }
  }

  lemma Wrapped(i: nat, d: nat)
    requires i < N && d < N
    ensures (i + d) % N == if i + d < N then i + d else i + d - N
  {}

  /** Words `i` on of one batch, and of the next batch the words before `i`. */
  ghost predicate Halfway<W>(words: seq<W>, A: Arithmetic<W>, seed: W, start: nat, i: nat) {
    && |words| == N
    && (forall j :: 0 <= j < N ==> words[j] == A.Word(seed, if j < i then start + N + j else start + j))
  }

  lemma AllTheWay<W>(words: seq<W>, A: Arithmetic<W>, seed: W, start: nat)
    requires Halfway(words, A, seed, start, N)
    ensures Halfway(words, A, seed, start + N, 0)
  {
    forall j | 0 <= j < N ensures words[j] == A.Word(seed, start + N + j) {}
  }

  /** Regenerating in place: when word i is replaced, the three words it is made of are the right
      ones, although the later of them may already belong to the new batch. */
  lemma ReplaceStep<W>(words: seq<W>, A: Arithmetic<W>, seed: W, start: nat, i: nat)
    requires i < N && Halfway(words, A, seed, start, i)
    ensures Halfway(words[i := A.Recur(words[i], words[(i + 1) % N], words[(i + M) % N])], A, seed, start, i + 1)
  {
    Wrapped(i, 1);
    Wrapped(i, M);
    var n := start + i;
    assert words[(i + 1) % N] == A.Word(seed, n + 1);
    assert words[(i + M) % N] == A.Word(seed, n + M);
    assert A.Word(seed, n + N) == A.Recur(words[i], words[(i + 1) % N], words[(i + M) % N]);
  }

  /** struct mtwist_state, `calls` calls after it was seeded. */
  class State<!W> {
    const mt: array<W>
    var index: nat
    const A: Arithmetic<W>
    ghost const seed: W
    ghost var calls: nat
    ghost var start: nat  // the buffer holds the words from this number on

    ghost predicate Valid()
      reads this, mt
    {
      && index < N
      && start + index == (if index == 0 then calls else N + calls)
      && Halfway(mt[..], A, seed, start, 0)
    }

    constructor (seed: W, A: Arithmetic<W>)
      ensures Valid() && fresh(mt) && this.seed == seed && this.A == A && calls == 0
    {
      var a := new W[N](_ => seed);
      for i := 1 to N
        invariant forall j :: 0 <= j < i ==> a[j] == A.Word(seed, j)
      {
        a[i] := A.SeedStep(a[i - 1], i);
      }
      mt, index, calls, start := a, 0, 0, 0;
      this.seed, this.A := seed, A;
    }

    /** generate_numbers: replace a batch by the next one, in place. */
    method Generate()
      requires Halfway(mt[..], A, seed, start, 0)
      modifies mt, `start
      ensures start == old(start) + N && Halfway(mt[..], A, seed, start, 0)
    {
      for i := 0 to N
        invariant start == old(start) && Halfway(mt[..], A, seed, start, i)
      {
        ReplaceStep(mt[..], A, seed, start, i);
        ghost var was := mt[..];
        mt[i] := A.Recur(mt[i], mt[(i + 1) % N], mt[(i + M) % N]);
        assert mt[..] == was[i := A.Recur(was[i], was[(i + 1) % N], was[(i + M) % N])];
      }
      AllTheWay(mt[..], A, seed, start);
      start := start + N;
    }

    /** mtwist_next: call number n returns word 624 + n, tempered. */
    method Next() returns (y: W)
      requires Valid()
      modifies this, mt
      ensures Valid() && calls == old(calls) + 1
      ensures y == A.Temper(A.Word(seed, N + old(calls)))
    {
      if index == 0 { Generate(); }
      assert mt[..][index] == A.Word(seed, start + index);
      Wrapped(index, 1);
      y := A.Temper(mt[index]);
      index := (index + 1) % N;
      calls := calls + 1;
    }
  }

  /** mtwist_init and then mtwist_next n times. */
  method Calls<W>(seed: W, A: Arithmetic<W>, n: nat) returns (words: seq<W>)
    ensures |words| == n
    ensures forall k :: 0 <= k < n ==> words[k] == A.Temper(A.Word(seed, N + k))
  {
    var state := new State(seed, A);
    words := [];
    for i := 0 to n
      invariant state.Valid() && fresh(state) && fresh(state.mt) && state.calls == i
      invariant state.seed == seed && state.A == A
      invariant |words| == i && forall k :: 0 <= k < i ==> words[k] == A.Temper(A.Word(seed, N + k))
    {
      var y := state.Next();
      words := words + [y];
    }
  }

  lemma {:induction false} SameWords<W>(A: Arithmetic<W>, B: Arithmetic<W>, seed: W, n: nat)
    requires forall p, i: nat :: i < N ==> A.SeedStep(p, i) == B.SeedStep(p, i)
    requires forall a, b, c :: A.Recur(a, b, c) == B.Recur(a, b, c)
    ensures A.Word(seed, n) == B.Word(seed, n)
  {
    if n == 0 {
    } else if n < N {
      SameWords(A, B, seed, n - 1);
    } else {
      SameWords(A, B, seed, n - N);
      SameWords(A, B, seed, n - N + 1);
      SameWords(A, B, seed, n - N + M);
    }
  }

  // ----- The infinite sequence

  /** The recurrence of the paper, on words of 32 bits. */
  function Recur(a: bv32, b: bv32, c: bv32): bv32 {
    c ^ Twist(Joined(a, b))
  }

  function MT19937(): Arithmetic<bv32> {
    Arithmetic((p: bv32, i: nat) => SeedStep(p, i), (a: bv32, b: bv32, c: bv32) => Recur(a, b, c),
               (x: bv32) => Temper(x))
  }

  /** Word n of the infinite sequence. */
  function X(seed: bv32, n: nat): bv32 {
    MT19937().Word(seed, n)
  }

  // ----- The C code's arithmetic

  /** The seeding step in 64-bit arithmetic. */
  function SeedStepInC(prev: bv32, i: nat): bv32 {
    Low32((1812433253 * Mixed(prev) + i) % WORD64)
  }

  /** One pass of generate_numbers: word n + 624 from words n, n + 1 and n + 397. */
  function RecurInC(a: bv32, b: bv32, c: bv32): bv32 {
    var y := (a & 0x8000_0000) + (b & 0x7fff_ffff);
    var x := c ^ (y >> 1);
    if y % 2 != 0 then x ^ 2567483615 else x
  }

  lemma Small(x: nat)
    requires x < WORD64
    ensures x % WORD64 == x
  {}

  /** The 64-bit product never overflows. */
  lemma SeedStepFits(prev: bv32, i: nat)
    requires i < N
    ensures SeedStepInC(prev, i) == SeedStep(prev, i)
  {
    Small(1812433253 * Mixed(prev) + i);
  }

  /** The sum in generate_numbers has no carries: it joins the bits. */
  lemma AddIsJoin(a: bv32, b: bv32)
    ensures (a & 0x8000_0000) + (b & 0x7fff_ffff) == Joined(a, b)
  {}

  lemma OddIsLowBit(y: bv32)
    ensures y % 2 != 0 <==> y & 1 == 1
  {}

  /** The exclusive-or of the C code, once the two words are joined. */
  function TwistInC(y: bv32, c: bv32): bv32 {
    if y & 1 == 1 then (c ^ (y >> 1)) ^ 2567483615 else c ^ (y >> 1)
  }

  lemma TwistsAlike(y: bv32, c: bv32)
    ensures TwistInC(y, c) == c ^ Twist(y)
  {
    calc {
      TwistInC(y, c);
      if y & 1 == 1 then (c ^ (y >> 1)) ^ 2567483615 else c ^ (y >> 1);
      if y & 1 == 1 then c ^ ((y >> 1) ^ 2567483615) else c ^ (y >> 1);
      c ^ if y & 1 == 1 then (y >> 1) ^ 2567483615 else y >> 1;
      c ^ Twist(y);
    }
  }

  lemma RecurIsTwist(a: bv32, b: bv32, c: bv32)
    ensures RecurInC(a, b, c) == Recur(a, b, c)
  {
    AddIsJoin(a, b);
    OddIsLowBit(Joined(a, b));
    assert RecurInC(a, b, c) == TwistInC(Joined(a, b), c);
    TwistsAlike(Joined(a, b), c);
  }

  function ArithmeticInC(): Arithmetic<bv32> {
    Arithmetic((p: bv32, i: nat) => SeedStepInC(p, i), (a: bv32, b: bv32, c: bv32) => RecurInC(a, b, c),
               (x: bv32) => Temper(x))
  }

  lemma WordIsX(seed: bv32, n: nat)
    ensures ArithmeticInC().Word(seed, n) == X(seed, n)
  {
    var A, B := ArithmeticInC(), MT19937();
    forall p, i: nat | i < N ensures A.SeedStep(p, i) == B.SeedStep(p, i) {
      SeedStepFits(p, i);
    }
    forall a, b, c ensures A.Recur(a, b, c) == B.Recur(a, b, c) {
      RecurIsTwist(a, b, c);
    }
    SameWords(A, B, seed, n);
  }

  /** mtwist_init and then mtwist_next n times: the calls hand out the words of the infinite
      sequence from number 624 on, tempered. */
  method FirstCalls(seed: bv32, n: nat) returns (words: seq<bv32>)
    ensures |words| == n
    ensures forall k :: 0 <= k < n ==> words[k] == Temper(X(seed, N + k))
  {
    words := Calls(seed, ArithmeticInC(), n);
    forall k | 0 <= k < n ensures words[k] == Temper(X(seed, N + k)) {
      WordIsX(seed, N + k);
    }
  }
}
