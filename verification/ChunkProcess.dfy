/** sha256_chunk_process.v: the message schedule as a sixteen-word shift register. */
module ChunkProcess {
  import opened Words
  import Fips180

  /** The registers. The two sigma values are computed one shift before they are added. */
  datatype Window = Window(w: seq<Word>, s0: Word, s1: Word) {
    predicate Valid() { |w| == 16 }
  }

  function ResetWindow(): (p: Window)
    ensures p.Valid()
  {
    Window(seq(16, _ => Zero()), Zero(), Zero())
  }

  // ---- Combinational nets ----

  /** The wiring {x[n-1:0], x[31:n]}. */
  function Rewire(x: Word, n: nat): Word
    requires n < 32
  {
    x[n..] + x[..n]
  }

  function Sigma0Net(x: Word): Word { Xor(Xor(Rewire(x, 7), Rewire(x, 18)), Shr(x, 3)) }

  function Sigma1Net(x: Word): Word { Xor(Xor(Rewire(x, 17), Rewire(x, 19)), Shr(x, 10)) }

  function WordNew(p: Window): Word
    requires p.Valid()
  {
    Add(Add(p.w[0], p.s0), Add(p.w[9], p.s1))
  }

  function WordOut(p: Window, processStart: bool, dat: Word): Word
    requires p.Valid()
  {
    if processStart then WordNew(p) else dat
  }

  /** The registers after a clock edge. */
  function Next(p: Window, processStart: bool, datValid: bool, dat: Word): (p': Window)
    requires p.Valid()
    ensures p'.Valid()
  {
    if datValid || processStart then
      Window(p.w[1..] + [WordOut(p, processStart, dat)], Sigma0Net(p.w[2]), Sigma1Net(p.w[15]))
    else p
  }

  // ---- What the early sigma registers hold ----

  /** A rewired word is a rotated one. */
  lemma RewireRotates(x: Word, n: nat)
    requires n < 32
    ensures Rewire(x, n) == Fips180.Rotr(x, n)
  {
    forall i | 0 <= i < 32
      ensures Rewire(x, n)[i] == Fips180.Rotr(x, n)[i]
    {
    }
  }

  lemma SigmaNets(x: Word)
    ensures Sigma0Net(x) == Fips180.SmallSigma0(x)
    ensures Sigma1Net(x) == Fips180.SmallSigma1(x)
  {
    RewireRotates(x, 7);
    RewireRotates(x, 18);
    RewireRotates(x, 17);
    RewireRotates(x, 19);
  }

  /** In every reachable state, the sigma registers belong to the words now in the window. */
  ghost predicate SigmasCurrent(p: Window)
    requires p.Valid()
  {
    p.s0 == Fips180.SmallSigma0(p.w[1]) && p.s1 == Fips180.SmallSigma1(p.w[14])
  }

  lemma SigmasCurrentAtReset()
    ensures SigmasCurrent(ResetWindow())
  {
    SigmasOfZero();
  }

  lemma SigmasOfZero()
    ensures Fips180.SmallSigma0(Zero()) == Zero() && Fips180.SmallSigma1(Zero()) == Zero()
  {
  }

  lemma SigmasStayCurrent(p: Window, processStart: bool, datValid: bool, dat: Word)
    requires p.Valid() && SigmasCurrent(p)
    ensures SigmasCurrent(Next(p, processStart, datValid, dat))
  {
    SigmaNets(p.w[2]);
    SigmaNets(p.w[15]);
  }

  /** The window holds W_(n-16) to W_(n-1) of a complete block. */
  ghost predicate HoldsSchedule(p: Window, block: seq<Word>, n: nat)
    requires p.Valid() && |block| == 16 && n >= 16
  {
    forall j :: 0 <= j < 16 ==> p.w[j] == Fips180.Schedule(block, n - 16 + j)
  }

  lemma AddFour(a: Word, b: Word, c: Word, d: Word)
    ensures Add(Add(a, b), Add(c, d)) == Add(Add(Add(d, c), b), a)
  {
    AddCommutes(Add(a, b), Add(c, d));
    AddCommutes(c, d);
    AddCommutes(a, b);
    AddAssociates(Add(d, c), b, a);
  }

  /** From such a window, the new word is W_n. */
  lemma NewWordIsNextSchedule(p: Window, block: seq<Word>, n: nat)
    requires p.Valid() && SigmasCurrent(p)
    requires |block| == 16 && n >= 16 && HoldsSchedule(p, block, n)
    ensures WordNew(p) == Fips180.Schedule(block, n)
  {
    assert p.w[0] == Fips180.Schedule(block, n - 16);
    assert p.w[1] == Fips180.Schedule(block, n - 15);
    assert p.w[9] == Fips180.Schedule(block, n - 7);
    assert p.w[14] == Fips180.Schedule(block, n - 2);
    AddFour(p.w[0], p.s0, p.w[9], p.s1);
  }

  // ---- The clocked module ----

  class Sha256ChunkProcess {
    const W: array<Word>
    var s0: Word
    var s1: Word

    ghost predicate Valid() reads this { W.Length == 16 }

    function Registers(): (p: Window)
      reads this, W
      requires Valid()
      ensures p.Valid()
    {
      Window(W[..], s0, s1)
    }

    constructor ()
      ensures Valid() && fresh(W)
      ensures Registers() == ResetWindow()
    {
      W := new Word[16](_ => Zero());
      s0, s1 := Zero(), Zero();
    }

    method Reset()
      requires Valid()
      modifies this, W
      ensures Valid() && Registers() == ResetWindow()
    {
      s0, s1 := Zero(), Zero();
      forall i | 0 <= i < 16 {
        W[i] := Zero();
      }
    }

    method Tick(processStart: bool, datValid: bool, dat: Word)
      requires Valid()
      modifies this, W
      ensures Valid()
      ensures Registers() == Next(old(Registers()), processStart, datValid, dat)
    {
      hide Sigma0Net, Sigma1Net, Add;
      var pipelineStart := datValid || processStart;
      var wIn := if processStart then Add(Add(W[0], s0), Add(W[9], s1)) else dat;
      if pipelineStart {
        s0, s1 := Sigma0Net(W[2]), Sigma1Net(W[15]);
        forall i | 0 <= i < 16 {
          W[i] := if i < 15 then W[i + 1] else wIn;
        }
      }
    }
  }
}
