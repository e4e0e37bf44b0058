/** The control word of a hardware descriptor, as libxdma.c writes it and the hardware reads it. */
module DescControl {
  import opened Division

  /** A 32-bit word: bits 31 to 16 hold the magic number, bits 13 to 8 the adjacent count, bits 7 to 0 flags. */
  type Control = c: nat | c < 0x1_0000_0000

  /** XDMA_DESC_STOPPED | XDMA_DESC_EOP | XDMA_DESC_COMPLETED */
  const LAST_FLAGS := 0x13

  /** DESC_MAGIC */
  const MAGIC: Control := 0xAD4B_0000

  /** Bitwise or. */
  function Or(x: nat, y: nat): nat {
    if x == 0 && y == 0 then 0
    else 2 * Or(x / 2, y / 2) + (if x % 2 == 1 || y % 2 == 1 then 1 else 0)
  }

  lemma {:induction false} OrZero(n: nat)
    ensures Or(0, n) == n
  {
    if n > 0 {
      OrZero(n / 2);
    }
  }

  /** xdma_desc_control_set: merges a field into the cleared low byte, and refuses any other field. */
  function SetFlags(c: Control, field: nat): Control {
    if field >= 0x100 then c else c / 0x100 * 0x100 + field
  }

  /** xdma_desc_adjacent: keeps bits 15 to 12 and the low byte, and merges in the magic number and the count. */
  function SetAdjacent(c: Control, adjacent: nat): Control {
    MAGIC + Or(c / 0x1000 % 0x10 * 0x10, adjacent) % 0x100 * 0x100 + c % 0x100
  }

  // ---- What the hardware reads ----

  function Adjacent(c: Control): nat { c / 0x100 % 64 }

  predicate Stopped(c: Control) { c % 2 == 1 }

  predicate Genuine(c: Control) { c / 0x1_0000 == 0xAD4B }

  // ---- A finished control word ----

  function FreshControl(last: bool): Control { if last then SetFlags(MAGIC, LAST_FLAGS) else MAGIC }

  function ControlWord(last: bool, adjacent: nat): Control { SetAdjacent(FreshControl(last), adjacent) }

  /** A finished control word: the magic number, the count, and STOPPED, EOP and COMPLETED in the last one. */
  lemma FinishedWord(last: bool, adjacent: nat)
    requires adjacent < 64
    ensures ControlWord(last, adjacent) == 0xAD4B_0000 + adjacent * 0x100 + if last then 0x13 else 0
  {
    hide Or;
    OrZero(adjacent);
    var flags := if last then 0x13 else 0;
    var c := FreshControl(last);
    assert c == MAGIC + flags && c / 0x1000 == 0xAD4B0 && c % 0x100 == flags;
  }

  /** The fields of a finished control word do not disturb each other. */
  lemma ControlFields(last: bool, adjacent: nat)
    requires adjacent < 64
    ensures Adjacent(ControlWord(last, adjacent)) == adjacent
    ensures Stopped(ControlWord(last, adjacent)) == last
    ensures Genuine(ControlWord(last, adjacent))
  {
    hide ControlWord;
    FinishedWord(last, adjacent);
    var flags := if last then 0x13 else 0;
    var word := 0xAD4B_0000 + adjacent * 0x100 + flags;
    QuotientIs(word, 0x100, 0xAD4B00 + adjacent, flags);
    RemainderIs(0xAD4B00 + adjacent, 64, 0xAD4B00 / 64, adjacent);
  }

  function Shifted(c: nat, n: nat): nat { if n == 0 then c else Shifted(c, n - 1) / 2 }

  /** Bit n of a word. */
  predicate Bit(c: nat, n: nat) { Shifted(c, n) % 2 == 1 }

  /** The bits of the low byte, one by one. */
  lemma LowByte(q: nat, flags: nat, n: nat)
    requires flags in {0, 0x13} && n < 8
    ensures Bit(q * 0x100 + flags, n) <==> flags == 0x13 && n in {0, 1, 4}
  {
    var c := q * 0x100 + flags;
    assert Shifted(c, 1) == q * 0x80 + flags / 2;
    assert Shifted(c, 2) == q * 0x40 + flags / 4;
    assert Shifted(c, 3) == q * 0x20 + flags / 8;
    assert Shifted(c, 4) == q * 0x10 + flags / 16;
    assert Shifted(c, 5) == q * 8;
    assert Shifted(c, 6) == q * 4;
    assert Shifted(c, 7) == q * 2;
  }
}
