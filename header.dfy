/** The block header of the allocator, its packed one-word encoding, the arena
    constants and the error codes (main.h).

    The C struct packs three bitfields into one 4-byte word. Bitfield order is
    up to the compiler; this model fixes one explicit layout:
      bits 0..29  w         (block size in words)
      bit  30     alloced
      bit  31     reserved
 */
module HeaderCodec {

  /** One 4-byte machine word of the arena, as an unsigned 32-bit value. */
  type Word = x: int | 0 <= x < 0x1_0000_0000

  /** 2^30: one more than the largest value the 30-bit `w` field holds. */
  const WLimit: nat := 0x4000_0000

  /** Number of words in the 1 MB arena `memspace`. */
  const ArenaWords: nat := 1024 * 1024 / 4

  /** `Maxwords`: one word less than the arena. */
  const Maxwords: nat := 1024 * 1024 / 4 - 1

  /** Error codes stored in `errno` by `reterr`. */
  const ErrNoMem: int := 1
  const ErrUnknown: int := 2

  /** A returned pointer (here: a word offset into the arena) or, for `reterr(x)`,
      NULL together with the errno value `x`. */
  datatype Result<T> = Ok(value: T) | Err(errno: int)

  /** The decoded header of a block. */
  datatype Header = Header(w: nat, alloced: bool, reserved: bool)

  /** True of a free header big enough for `words` words: the first-fit test. */
  predicate Fits(h: Header, words: nat)
  {
    !h.alloced && h.w >= words
  }

  /** Packs a header into one word. Like a store into a 30-bit bitfield, `w` is
      truncated to its low 30 bits. */
  function Encode(h: Header): (x: Word)
    ensures x % WLimit == h.w % WLimit
    ensures x < 0x8000_0000 <==> !h.reserved
  {
    h.w % WLimit + (if h.alloced then WLimit else 0) + (if h.reserved then 2 * WLimit else 0)
  }

  /** Unpacks the three bitfields of a word. */
  function Decode(x: Word): (h: Header)
    ensures h.w < WLimit
    ensures h.w == x % WLimit
    ensures h.reserved <==> x >= 0x8000_0000
  {
    Header(x % WLimit, (x / WLimit) % 2 == 1, x / (2 * WLimit) == 1)
  }

  /** The constants agree with the 1 MB arena: `Maxwords` is 262143, one word
      short of the arena, and every size up to `Maxwords` fits the `w` field. */
  lemma ArenaConstants()
    ensures ArenaWords == 262144 && Maxwords == 262143
    ensures Maxwords == ArenaWords - 1 && Maxwords < WLimit
    ensures ErrNoMem == 1 && ErrUnknown == 2 && ErrNoMem != ErrUnknown
  {
  }

  /** Decoding an encoded header gives back its three fields whenever `w` fits
      in 30 bits. */
  lemma DecodeEncode(h: Header)
    requires h.w < WLimit
    ensures Decode(Encode(h)) == h
  {
    EncodeFields(h);
  }

  /** For any header, the stored size is `w` truncated to 30 bits and the two
      flag bits come back unchanged. */
  lemma EncodeFields(h: Header)
    ensures Decode(Encode(h)) == Header(h.w % WLimit, h.alloced, h.reserved)
  {
    var lo := h.w % WLimit;
    var x := Encode(h);
    var a := if h.alloced then 1 else 0;
    var r := if h.reserved then 1 else 0;
    assert x == lo + a * WLimit + r * 2 * WLimit;
    assert x / WLimit == a + 2 * r;
    assert x / (2 * WLimit) == r;
  }

  /** Every word is the encoding of the header it decodes to: the encoding is a
      bijection between words and headers with a 30-bit `w`. */
  lemma EncodeDecode(x: Word)
    ensures Encode(Decode(x)) == x
  {
    var q := x / WLimit;
    assert x == q * WLimit + x % WLimit;
    assert q == 2 * (x / (2 * WLimit)) + q % 2;
  }

  /** An all-zero word reads as a free header of size 0: the mark of the
      untouched arena that `alloc` tests for. */
  lemma ZeroWordIsEmptyHeader()
    ensures Decode(0) == Header(0, false, false)
    ensures Encode(Header(0, false, false)) == 0
  {
  }
}
