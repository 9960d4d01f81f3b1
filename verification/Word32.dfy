/** 32-bit words: bytes in memory, wrap-around rounding. */
module Word32 {

  const TWO32: nat := 0x1_0000_0000
  const PAGE_SIZE: nat := 4096

  newtype byte = x: int | 0 <= x < 256

  /** The little-endian word stored in four bytes. */
  function Join(b0: byte, b1: byte, b2: byte, b3: byte): (w: nat)
    ensures w < TWO32
  {
    b0 as int + 0x100 * (b1 as int + 0x100 * (b2 as int + 0x100 * (b3 as int)))
  }

  function Low(w: nat): byte {
    (w % 0x100) as byte
  }

  /** The bytes of a word, least significant first. */
  function Split(w: nat): (b: (byte, byte, byte, byte))
    requires w < TWO32
    ensures Join(b.0, b.1, b.2, b.3) == w
  {
    var w1 := w / 0x100;
    var w2 := w1 / 0x100;
    var w3 := w2 / 0x100;
    assert w3 < 0x100;
    (Low(w), Low(w1), Low(w2), Low(w3))
  }

  /** `value & ~(alignment - 1)` for the powers of two the kernel uses. */
  function AlignDown(value: nat, alignment: nat): nat
    requires alignment > 0
  {
    value - value % alignment
  }

  /** `(value + alignment - 1) & ~(alignment - 1)` on 32-bit words: the sum wraps. */
  function AlignUp32(value: nat, alignment: nat): nat
    requires alignment > 0
  {
    AlignDown((value + alignment - 1) % TWO32, alignment)
  }

  predicate KernelAlignment(alignment: nat) {
    alignment == 8 || alignment == 16 || alignment == 4096
  }

  predicate Aligned(value: nat, alignment: nat)
    requires alignment > 0
  {
    value % alignment == 0
  }

  lemma AlignDownFacts(value: nat, alignment: nat)
    requires KernelAlignment(alignment)
    ensures Aligned(AlignDown(value, alignment), alignment)
    ensures AlignDown(value, alignment) <= value < AlignDown(value, alignment) + alignment
    ensures value < alignment ==> AlignDown(value, alignment) == 0
  {
    if alignment == 8 {
      assert AlignDown(value, 8) == 8 * (value / 8);
    } else if alignment == 16 {
      assert AlignDown(value, 16) == 16 * (value / 16);
    } else {
      assert AlignDown(value, 4096) == 4096 * (value / 4096);
    }
  }

  lemma Wraps(t: nat)
    requires t < TWO32 + 4096
    ensures t % TWO32 == if t < TWO32 then t else t - TWO32
  {}

  /** Rounding up is right exactly when the sum does not wrap. */
  lemma AlignUpExact(value: nat, alignment: nat)
    requires 0 < value < TWO32 && KernelAlignment(alignment)
    ensures AlignUp32(value, alignment) >= value <==> value + alignment - 1 < TWO32
    ensures value + alignment - 1 < TWO32 ==>
              value <= AlignUp32(value, alignment) < value + alignment &&
                  Aligned(AlignUp32(value, alignment), alignment)
    ensures value + alignment - 1 >= TWO32 ==> AlignUp32(value, alignment) == 0
  {
    hide AlignDown, Aligned;
    var t := value + alignment - 1;
    Wraps(t);
    AlignDownFacts(t % TWO32, alignment);
  }
}
