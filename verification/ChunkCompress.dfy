/** sha256_chunk_compress.v: a round split over two cycles, and the hash accumulator. */
module ChunkCompress {
  import opened Words
  import opened Fips180
  import ChunkProcess

  /** The registers: hash value, working variables, and three partial sums of the next round. */
  datatype Pipeline = Pipeline(h8: Vars, v: Vars, stage0: Word, stage1: Word, stage2: Word)

  function NoVars(): Vars { Vars(Zero(), Zero(), Zero(), Zero(), Zero(), Zero(), Zero(), Zero()) }

  function ResetPipeline(): Pipeline { Pipeline(InitialHash(), NoVars(), Zero(), Zero(), Zero()) }

  // ---- Combinational nets ----

  function BigSigma0Net(a: Word): Word {
    Xor(Xor(ChunkProcess.Rewire(a, 2), ChunkProcess.Rewire(a, 13)), ChunkProcess.Rewire(a, 22))
  }

  function BigSigma1Net(e: Word): Word {
    Xor(Xor(ChunkProcess.Rewire(e, 6), ChunkProcess.Rewire(e, 11)), ChunkProcess.Rewire(e, 25))
  }

  function MajNet(a: Word, b: Word, c: Word): Word { Xor(Xor(And(a, b), And(a, c)), And(b, c)) }

  function ChNet(e: Word, f: Word, g: Word): Word { Xor(And(e, f), And(Not(e), g)) }

  /** abcdefgh_next: the finished round while compressing, else the hash value. */
  function VarsNext(p: Pipeline, compressStart: bool): Vars {
    if !compressStart then p.h8
    else
      var tmp2 := Add(p.stage1, p.stage2);
      Vars(Add(p.stage0, tmp2), p.v.a, p.v.b, p.v.c, Add(p.v.d, tmp2), p.v.e, p.v.f, p.v.g)
  }

  /** The registers after a clock edge. */
  function Next(p: Pipeline, compressStart: bool, updateHash: bool, inValid: bool, w: Word, k: Word): Pipeline {
    var n := VarsNext(p, compressStart);
    var h8 := if updateHash then AddVars(p.h8, n) else p.h8;
    if inValid then
      Pipeline(h8, n,
               Add(BigSigma0Net(n.a), MajNet(n.a, n.b, n.c)),
               Add(BigSigma1Net(n.e), ChNet(n.e, n.f, n.g)),
               Add(Add(w, k), n.h))
    else p.(h8 := h8)
  }

  // ---- What the stages hold ----

  /** The nets are the functions of section 4.1.2. */
  lemma LogicNets(x: Word, y: Word, z: Word)
    ensures BigSigma0Net(x) == BigSigma0(x) && BigSigma1Net(x) == BigSigma1(x)
    ensures MajNet(x, y, z) == Maj(x, y, z) && ChNet(x, y, z) == Ch(x, y, z)
  {
    hide Xor, And, Not;
    ChunkProcess.RewireRotates(x, 2);
    ChunkProcess.RewireRotates(x, 13);
    ChunkProcess.RewireRotates(x, 22);
    ChunkProcess.RewireRotates(x, 6);
    ChunkProcess.RewireRotates(x, 11);
    ChunkProcess.RewireRotates(x, 25);
  }

  /** The next round over v, taking k and w, is waiting in the stage registers. */
  ghost predicate Staged(p: Pipeline, v: Vars, k: Word, w: Word) {
    p.v == v && p.stage0 == Temp2(v) && Add(p.stage1, p.stage2) == Temp1(v, k, w)
  }

  /** A staged round comes out of the nets one cycle later. */
  lemma StagedRoundFinishes(p: Pipeline, v: Vars, k: Word, w: Word)
    requires Staged(p, v, k, w)
    ensures VarsNext(p, true) == Round(v, k, w)
  {
    hide Temp1, Temp2, Add;
    AddCommutes(Temp1(v, k, w), Temp2(v));
  }

  lemma SumsRegroup(s: Word, c: Word, w: Word, k: Word, h: Word)
    ensures Add(Add(s, c), Add(Add(w, k), h)) == Add(Add(Add(Add(h, s), c), k), w)
  {
    var x := Add(Add(h, s), c);
    assert Add(Add(s, c), h) == x by {
      AddCommutes(Add(s, c), h);
      AddAssociates(h, s, c);
    }
    AddCommutes(Add(w, k), h);
    AddAssociates(Add(s, c), h, Add(w, k));
    AddCommutes(w, k);
    AddAssociates(x, k, w);
  }

  /** Only an update changes the hash value. */
  lemma EdgeUpdatesHash(p: Pipeline, compressStart: bool, updateHash: bool, inValid: bool, w: Word, k: Word)
    ensures Next(p, compressStart, updateHash, inValid, w, k).h8
         == if updateHash then AddVars(p.h8, VarsNext(p, compressStart)) else p.h8
    ensures var p' := Next(p, compressStart, updateHash, inValid, w, k);
            !inValid ==> p' == p.(h8 := p'.h8)
  {
    hide BigSigma0Net, BigSigma1Net, MajNet, ChNet, AddVars, VarsNext, Add;
  }

  /** A valid edge stages the round for the word and constant it takes. */
  lemma EdgeStagesRound(p: Pipeline, compressStart: bool, updateHash: bool, w: Word, k: Word)
    ensures Staged(Next(p, compressStart, updateHash, true, w, k), VarsNext(p, compressStart), k, w)
  {
    hide BigSigma0Net, BigSigma1Net, MajNet, ChNet, AddVars, VarsNext, Add, BigSigma0, BigSigma1, Ch, Maj;
    var n := VarsNext(p, compressStart);
    LogicNets(n.a, n.b, n.c);
    LogicNets(n.e, n.f, n.g);
    SumsRegroup(BigSigma1(n.e), Ch(n.e, n.f, n.g), w, k, n.h);
  }

  // ---- The clocked module ----

  function Group(s: seq<Word>): Vars
    requires |s| == 8
  {
    Vars(s[0], s[1], s[2], s[3], s[4], s[5], s[6], s[7])
  }

  class Sha256ChunkCompress {
    const H8: array<Word>
    const abcdefgh: array<Word>
    const stage: array<Word>

    ghost predicate Valid() {
      H8.Length == 8 && abcdefgh.Length == 8 && stage.Length == 3 && H8 != abcdefgh && H8 != stage && abcdefgh != stage
    }

    function Registers(): Pipeline
      reads H8, abcdefgh, stage
      requires Valid()
    {
      Pipeline(Group(H8[..]), Group(abcdefgh[..]), stage[0], stage[1], stage[2])
    }

    constructor ()
      ensures Valid() && fresh({H8, abcdefgh, stage})
      ensures Registers() == ResetPipeline()
    {
      H8 := new Word[8](_ => Zero());
      abcdefgh := new Word[8](_ => Zero());
      stage := new Word[3](_ => Zero());
      new;
      Reset();
    }

    method Reset()
      requires Valid()
      modifies H8, abcdefgh, stage
      ensures Registers() == ResetPipeline()
    {
      stage[0], stage[1], stage[2] := Zero(), Zero(), Zero();
      forall i | 0 <= i < 8 {
        abcdefgh[i] := Zero();
      }
      H8[0], H8[1], H8[2], H8[3] := WordOf(0x6a09e667), WordOf(0xbb67ae85), WordOf(0x3c6ef372), WordOf(0xa54ff53a);
      H8[4], H8[5], H8[6], H8[7] := WordOf(0x510e527f), WordOf(0x9b05688c), WordOf(0x1f83d9ab), WordOf(0x5be0cd19);
    }

    /** The eight abcdefgh_next nets. */
    function Nets(compressStart: bool): (n: seq<Word>)
      reads H8, abcdefgh, stage
      requires Valid()
      ensures |n| == 8 && Group(n) == VarsNext(Registers(), compressStart)
    {
      var tmp2 := Add(stage[1], stage[2]);
      if compressStart then
        [Add(stage[0], tmp2), abcdefgh[0], abcdefgh[1], abcdefgh[2],
         Add(abcdefgh[3], tmp2), abcdefgh[4], abcdefgh[5], abcdefgh[6]]
      else H8[..]
    }

    method Tick(compressStart: bool, updateHash: bool, inValid: bool, w: Word, k: Word)
      requires Valid()
      modifies H8, abcdefgh, stage
      ensures Registers() == Next(old(Registers()), compressStart, updateHash, inValid, w, k)
    {
      hide BigSigma0Net, BigSigma1Net, MajNet, ChNet, Add;
      var n := Nets(compressStart);
      if inValid {
        stage[0] := Add(BigSigma0Net(n[0]), MajNet(n[0], n[1], n[2]));
        stage[1] := Add(BigSigma1Net(n[4]), ChNet(n[4], n[5], n[6]));
        stage[2] := Add(Add(w, k), n[7]);
        forall i | 0 <= i < 8 {
          abcdefgh[i] := n[i];
        }
      }
      if updateHash {
        forall i | 0 <= i < 8 {
          H8[i] := Add(H8[i], n[i]);
        }
      }
    }
  }
}
