/** From the bytes of a message, over the bus, to the bytes of its digest. */
module EndToEnd {
  import opened Words
  import opened Fips180
  import opened MakeChunk
  import opened Sha256Core
  import opened CoreRefinement
  import opened CoreTiming
  import ChunkProcess
  import ChunkCompress
  import RoundConstants

  /** The bus words of a byte buffer on a little-endian machine. */
  function BusWords(bytes: seq<Byte>): (words: seq<Word>)
    ensures |words| == |bytes| / 4
  {
    seq(|bytes| / 4, i requires 0 <= i < |bytes| / 4 =>
      LittleEndian(bytes[4 * i], bytes[4 * i + 1], bytes[4 * i + 2], bytes[4 * i + 3]))
  }

  /** The 32 bytes that a little-endian machine reads from the eight hash registers. */
  function ReadHash(r: Regs): seq<Byte> {
    var out := HashOut(r);
    LittleEndianBytes(out[0]) + LittleEndianBytes(out[1]) + LittleEndianBytes(out[2]) + LittleEndianBytes(out[3])
    + LittleEndianBytes(out[4]) + LittleEndianBytes(out[5]) + LittleEndianBytes(out[6]) + LittleEndianBytes(out[7])
  }

  /** The swap at the data pins undoes the byte order of the bus. */
  lemma SwapParses(bytes: seq<Byte>)
    ensures SwapAll(BusWords(bytes)) == Parse(bytes)
  {
    hide SwapBytes, LittleEndian, BigEndian;
    forall i | 0 <= i < |bytes| / 4
      ensures SwapAll(BusWords(bytes))[i] == Parse(bytes)[i]
    {
      SwapTurnsOrder(bytes[4 * i], bytes[4 * i + 1], bytes[4 * i + 2], bytes[4 * i + 3], Zero());
    }
  }

  /** So does the swap at the hash pins. */
  lemma SwapPrints(r: Regs)
    ensures ReadHash(r) == Digest(r.comp.h8)
  {
    hide SwapBytes, LittleEndianBytes, BigEndianBytes;
    var b := ByteOf(0);
    var h := r.comp.h8;
    SwapTurnsOrder(b, b, b, b, h.a);
    SwapTurnsOrder(b, b, b, b, h.b);
    SwapTurnsOrder(b, b, b, b, h.c);
    SwapTurnsOrder(b, b, b, b, h.d);
    SwapTurnsOrder(b, b, b, b, h.e);
    SwapTurnsOrder(b, b, b, b, h.f);
    SwapTurnsOrder(b, b, b, b, h.g);
    SwapTurnsOrder(b, b, b, b, h.h);
  }

  /** No block is in progress, so the hash registers may be read. */
  predicate Settled(r: Regs) { r.state == IDLE || r.state == FINISH }

  /** Whatever whole blocks of bytes were sent, with whatever stalls, their hash is read back. */
  lemma BytesAreHashed(ins: seq<Input>, bytes: seq<Byte>)
    requires Absorbed(ins) == BusWords(bytes) && Settled(Run(ins))
    ensures ReadHash(Run(ins)) == Digest(HashWords(Parse(bytes)))
  {
    hide Digest, HashBlocks, SwapAll, BusWords, Parse, Run, Absorbed;
    HashValueInEveryState(ins);
    SwapParses(bytes);
    SwapPrints(Run(ins));
  }

  /**
   * End to end: a message padded by make_chunk, sent as little-endian words and read back as
   * little-endian words, gives its SHA-256 digest.
   */
  lemma DigestOfMessage(ins: seq<Input>, message: seq<Byte>)
    requires 8 * |message| < Pow2(64) && Conforms(message)
    requires Absorbed(ins) == BusWords(Chunked(message)) && Settled(Run(ins))
    ensures ReadHash(Run(ins)) == Fips180.Sha256(message)
  {
    hide Digest, HashBlocks, BusWords, Parse, Run, Absorbed, Chunked, Pad, Pow2, ReadHash, Sha256Core.Steps;
    MakeChunkIsFipsPadding(message);
    BytesAreHashed(ins, Chunked(message));
  }

  // ---- Every word sequence can be sent: one cycle a word, and fifty more a block ----

  function Pause(): Input { Input(true, false, Zero()) }

  function Pauses(n: nat): (p: seq<Input>)
    ensures |p| == n && NoReset(p)
  {
    seq(n, _ => Pause())
  }

  function Send(words: seq<Word>): seq<Input> {
    if |words| == 0 then []
    else
      Send(words[..|words| - 1]) + [Input(true, true, words[|words| - 1])]
      + Pauses(if |words| % 16 == 0 then 50 else 0)
  }

  /** Between words: all blocks are folded in, or part of a block is loaded. */
  ghost predicate AwaitsWord(r: Regs, sent: nat) {
    r.counter == sent % 16 && r.state == if sent % 16 == 0 then IDLE else LOAD
  }

  lemma {:induction false} PausesAddNothing(ins: seq<Input>, n: nat)
    ensures Absorbed(ins + Pauses(n)) == Absorbed(ins)
  {
    hide Run, Busy;
    if n == 0 {
      assert ins + Pauses(0) == ins;
    } else {
      PausesAddNothing(ins, n - 1);
      assert (ins + Pauses(n))[..|ins| + n - 1] == ins + Pauses(n - 1);
    }
  }

  /** The word goes out, and the pauses give the core the time it needs. */
  lemma SendWord(ins: seq<Input>, sent: nat, w: Word, i: Input)
    requires AwaitsWord(Run(ins), sent) && i == Input(true, true, w)
    ensures Absorbed(ins + [i]) == Absorbed(ins) + [w]
    ensures (sent + 1) % 16 != 0 ==> AwaitsWord(Run(ins + [i]), sent + 1)
    ensures (sent + 1) % 16 == 0 ==> CyclesAfterLoad(Run(ins + [i]), 0)
  {
    hide ChunkProcess.Next, ChunkCompress.Next, SwapBytes, WordIn, RoundConstants.Rom, WordOf, Steps;
    assert (ins + [i])[..|ins|] == ins;
    StepsAppend(ResetRegs(), ins, i);
  }

  lemma {:induction false} SendDelivers(words: seq<Word>)
    ensures Absorbed(Send(words)) == words && AwaitsWord(Run(Send(words)), |words|)
    ensures |Send(words)| == |words| + 50 * (|words| / 16)
  {
    hide Run, Absorbed, Pauses, AwaitsWord, CyclesAfterLoad;
    if |words| == 0 {
      SendNothing();
    } else {
      var n := |words| - 1;
      SendDelivers(words[..n]);
      SendWord(Send(words[..n]), n, words[n], Input(true, true, words[n]));
      PauseAfterWord(Send(words[..n]) + [Input(true, true, words[n])], |words|);
      assert words == words[..n] + [words[n]];
      BlocksSent(n);
    }
  }

  lemma BlocksSent(n: nat)
    ensures (n + 1) / 16 == n / 16 + if (n + 1) % 16 == 0 then 1 else 0
  {
  }

  /** The pauses after a word lead to the next one. */
  lemma PauseAfterWord(ins: seq<Input>, sent: nat)
    requires sent % 16 != 0 ==> AwaitsWord(Run(ins), sent)
    requires sent % 16 == 0 ==> CyclesAfterLoad(Run(ins), 0)
    ensures var pauses := Pauses(if sent % 16 == 0 then 50 else 0);
            Absorbed(ins + pauses) == Absorbed(ins) && AwaitsWord(Run(ins + pauses), sent)
  {
    hide Absorbed, Pauses, Steps;
    var pauses := Pauses(if sent % 16 == 0 then 50 else 0);
    PausesAddNothing(ins, |pauses|);
    if sent % 16 == 0 {
      StepsCompose(ResetRegs(), ins, pauses);
      ControllerAfterLoad(Run(ins), pauses);
    } else {
      assert ins + pauses == ins;
    }
  }

  lemma SendNothing()
    ensures Absorbed(Send([])) == [] && AwaitsWord(Run(Send([])), 0)
  {
  }

  /** A driver that waits out the busy time gets the digest, 66 cycles a block. */
  lemma DriverHashesMessage(message: seq<Byte>)
    requires 8 * |message| < Pow2(64) && Conforms(message)
    ensures var ins := Send(BusWords(Chunked(message)));
            && ReadHash(Run(ins)) == Fips180.Sha256(message)
            && |ins| == 66 * (|Chunked(message)| / 64)
  {
    hide Run, Absorbed, BusWords, Chunked, Fips180.Sha256, ReadHash, Send, Pow2;
    var words := BusWords(Chunked(message));
    WholeBlocks(message);
    SendDelivers(words);
    DigestOfMessage(Send(words), message);
  }
}
