/** Bytes and the 8-byte little-endian words through which ptrace reads and writes memory. */
module Words {
  type byte = bv8
  type word = bv64

  /** What a failed PEEK returns, and also what a word of eight 0xFF bytes reads as. */
  const ALL_ONES: word := 0xFFFF_FFFF_FFFF_FFFF

  function Low(w: word): byte {
    (w & 0xFF) as byte
  }

  /** The eight bytes of a word, lowest address first. */
  function ToBytes(w: word): (b: seq<byte>)
    ensures |b| == 8
  {
    [Low(w)] + UpperBytes(w >> 8)
  }

  function UpperBytes(v: word): (b: seq<byte>)
    ensures |b| == 7
  {
    [Low(v), Low(v >> 8), Low(v >> 16), Low(v >> 24), Low(v >> 32), Low(v >> 40), Low(v >> 48)]
  }

  function FromBytes(b: seq<byte>): word
    requires |b| == 8
  {
    (b[0] as word) | ((b[1] as word) << 8) | ((b[2] as word) << 16) | ((b[3] as word) << 24) |
    ((b[4] as word) << 32) | ((b[5] as word) << 40) | ((b[6] as word) << 48) | ((b[7] as word) << 56)
  }

  /** Clear the lowest byte of a word and put another there. */
  function PatchLow(w: word, b: byte): word {
    (w & !0xFF) | (b as word)
  }

  /** The bytes selected by the mask from one word, the others from another. */
  function Masked(current: word, update: word, mask: word): word {
    (current & !mask) | (update & mask)
  }

  /** The mask that selects the first n bytes of a word, as the code shifts it together. */
  function TailMask(n: nat): word
    requires 1 <= n < 8
  {
    (1 << (8 * n)) - 1
  }

  lemma FromToBytes(w: word)
    ensures FromBytes(ToBytes(w)) == w
  {
  }

  lemma ToFromBytes(b: seq<byte>)
    requires |b| == 8
    ensures ToBytes(FromBytes(b)) == b
  {
  }

  lemma PatchLowBits(w: word, b: byte)
    ensures Low(PatchLow(w, b)) == b
    ensures PatchLow(w, b) >> 8 == w >> 8
  {
  }

  lemma PatchLowBytes(w: word, b: byte)
    ensures ToBytes(PatchLow(w, b)) == ToBytes(w)[0 := b]
  {
    PatchLowBits(w, b);
  }

  /** Reading a word cannot tell a failed PEEK from eight 0xFF bytes. */
  lemma AllOnesBytes(b: seq<byte>)
    requires |b| == 8
    ensures FromBytes(b) == ALL_ONES <==> forall k :: 0 <= k < 8 ==> b[k] == 0xFF
  {
    if FromBytes(b) == ALL_ONES {
      ToFromBytes(b);
    }
    if forall k :: 0 <= k < 8 ==> b[k] == 0xFF {
      assert b == ToBytes(ALL_ONES);
      FromToBytes(ALL_ONES);
    }
  }

  lemma TailBytes1(current: word, update: word)
    ensures ToBytes((current & !0xFF) | (update & 0xFF)) == ToBytes(update)[..1] + ToBytes(current)[1..]
  {
  }

  lemma TailBytes2(current: word, update: word)
    ensures ToBytes((current & !0xFFFF) | (update & 0xFFFF)) == ToBytes(update)[..2] + ToBytes(current)[2..]
  {
  }

  lemma TailBytes3(current: word, update: word)
    ensures ToBytes((current & !0xFFFFFF) | (update & 0xFFFFFF)) == ToBytes(update)[..3] + ToBytes(current)[3..]
  {
  }

  lemma TailBytes4(current: word, update: word)
    ensures ToBytes((current & !0xFFFFFFFF) | (update & 0xFFFFFFFF)) == ToBytes(update)[..4] + ToBytes(current)[4..]
  {
  }

  lemma TailBytes5(current: word, update: word)
    ensures ToBytes((current & !0xFFFFFFFFFF) | (update & 0xFFFFFFFFFF)) == ToBytes(update)[..5] + ToBytes(current)[5..]
  {
  }

  lemma TailBytes6(current: word, update: word)
    ensures ToBytes((current & !0xFFFFFFFFFFFF) | (update & 0xFFFFFFFFFFFF)) == ToBytes(update)[..6] + ToBytes(current)[6..]
  {
  }

  lemma TailBytes7(current: word, update: word)
    ensures ToBytes((current & !0xFFFFFFFFFFFFFF) | (update & 0xFFFFFFFFFFFFFF)) == ToBytes(update)[..7] + ToBytes(current)[7..]
  {
  }

  /** A masked read-modify-write puts exactly the first n bytes. */
  lemma MaskedTailBytes(current: word, update: word, n: nat)
    requires 1 <= n < 8
    ensures ToBytes(Masked(current, update, TailMask(n))) == ToBytes(update)[..n] + ToBytes(current)[n..]
  {
    TailMasks();
    TailBytesBy(current, update, n, TailMask(n));
  }

  lemma TailMasks()
    ensures TailMask(1) == 0xFF && TailMask(2) == 0xFFFF && TailMask(3) == 0xFFFFFF && TailMask(4) == 0xFFFFFFFF
    ensures TailMask(5) == 0xFFFFFFFFFF && TailMask(6) == 0xFFFFFFFFFFFF && TailMask(7) == 0xFFFFFFFFFFFFFF
  {
  }

  lemma TailBytesBy(current: word, update: word, n: nat, mask: word)
    requires 1 <= n < 8
    requires n == 1 ==> mask == 0xFF
    requires n == 2 ==> mask == 0xFFFF
    requires n == 3 ==> mask == 0xFFFFFF
    requires n == 4 ==> mask == 0xFFFFFFFF
    requires n == 5 ==> mask == 0xFFFFFFFFFF
    requires n == 6 ==> mask == 0xFFFFFFFFFFFF
    requires n == 7 ==> mask == 0xFFFFFFFFFFFFFF
    ensures ToBytes(Masked(current, update, mask)) == ToBytes(update)[..n] + ToBytes(current)[n..]
  {
    match n {
      case 1 => TailBytes1(current, update);
      case 2 => TailBytes2(current, update);
      case 3 => TailBytes3(current, update);
      case 4 => TailBytes4(current, update);
      case 5 => TailBytes5(current, update);
      case 6 => TailBytes6(current, update);
      case 7 => TailBytes7(current, update);
    }
  }
}
