/** The allocator of main.c: `mkalloc` and `alloc` over the 1 MB arena
    `memspace`, and the first-fit scan `findBlock_` run as a loop.

    A `Heap` owns the arena as an array of words indexed by word offset. A
    pointer handed to the caller is the offset of its header plus one; NULL with
    `errno` set is `Err(code)`.

    The code is modelled as written: `mkalloc` records the number of DATA words
    in `w` (the header word is not counted), no block is ever split, and no
    header is written after the block handed out.
 */
module Allocator {
  import opened HeaderCodec
  import opened Locator

  /** The arena as the allocator first sees it: all words zero. */
  function Zeros(): (s: seq<Word>)
    ensures |s| == ArenaWords
    ensures forall i :: 0 <= i < |s| ==> s[i] == 0
  {
    seq(ArenaWords, _ => 0)
  }

  /** `words = (bytes + 3) / 4` computed in unsigned 32-bit arithmetic: the
      number of words needed for `bytes`, rounded up, except that the three
      largest byte counts wrap around to 0 words. */
  function WordsFor(bytes: Word): (words: nat)
    ensures words < WLimit
    ensures bytes <= 0xFFFF_FFFC ==> words * 4 >= bytes && words * 4 < bytes + 4
    ensures bytes > 0xFFFF_FFFC ==> words == 0
  {
    ((bytes + 3) % 0x1_0000_0000) / 4
  }

  /** The word `hdr->w = words; hdr->alloced = true;` leaves in a header word:
      the size and the allocated flag are replaced, the reserved bit kept. */
  function MarkAllocated(x: Word, words: nat): (y: Word)
    ensures Decode(y) == Header(words % WLimit, true, Decode(x).reserved)
  {
    EncodeFields(Header(words, true, Decode(x).reserved));
    Encode(Decode(x).(w := words, alloced := true))
  }

  /** `mkalloc(words, base + hdr)` on arena contents `s`: the result and the
      arena afterwards. It fails with `ErrNoMem`, changing nothing, when the
      block would reach past `Maxwords`; otherwise it marks exactly the header at
      `hdr` allocated with size `words` and returns the word after it. */
  function MkAllocOn(s: seq<Word>, words: nat, hdr: nat): (o: (Result<nat>, seq<Word>))
    requires |s| == ArenaWords && hdr < |s|
    ensures words > Maxwords - hdr <==> o.0.Err?
    ensures o.0.Err? ==> o.0.errno == ErrNoMem && o.1 == s
    ensures o.0.Ok? ==>
      && hdr + words <= Maxwords
      && o.0.value == hdr + 1
      && |o.1| == |s|
      && Decode(o.1[hdr]) == Header(words, true, Decode(s[hdr]).reserved)
      && (forall i :: 0 <= i < |s| && i != hdr ==> o.1[i] == s[i])
  {
    if words > Maxwords - hdr then (Err(ErrNoMem), s)
    else (Ok(hdr + 1), s[hdr := MarkAllocated(s[hdr], words)])
  }

  /** `alloc(bytes)` reaches a verdict on arena contents `s`: either the arena
      is untouched (header 0 has size 0) or the scan from offset 0 progresses. */
  ghost predicate AllocTerminates(s: seq<Word>, bytes: Word)
    requires |s| == ArenaWords
  {
    Decode(s[0]).w == 0 || ScanProgresses(s, WordsFor(bytes), 0)
  }

  /** `alloc(bytes)` on arena contents `s`: the result and the arena afterwards. */
  function AllocOn(s: seq<Word>, bytes: Word): (o: (Result<nat>, seq<Word>))
    requires |s| == ArenaWords
    requires AllocTerminates(s, bytes)
    // Failure changes nothing and is always ErrNoMem.
    ensures o.0.Err? ==> o.0.errno == ErrNoMem && o.1 == s
    // Success: the header just before the returned pointer, and only it, now
    // holds the rounded size, marked allocated, within Maxwords.
    ensures o.0.Ok? ==>
      var p := o.0.value;
      && 1 <= p <= ArenaWords
      && (p - 1) + WordsFor(bytes) <= Maxwords
      && |o.1| == |s|
      && Decode(o.1[p - 1]) == Header(WordsFor(bytes), true, Decode(s[p - 1]).reserved)
      && (forall i :: 0 <= i < |s| && i != p - 1 ==> o.1[i] == s[i])
    // First allocation on an untouched arena: header 0, unless the request
    // exceeds Maxwords.
    ensures Decode(s[0]).w == 0 ==>
      (o.0.Err? <==> WordsFor(bytes) > Maxwords) && (o.0.Ok? ==> o.0.value == 1)
    // Later allocations: the first fit from offset 0, or ErrNoMem when there is
    // none.
    ensures Decode(s[0]).w != 0 ==>
      var found := Locate(s, WordsFor(bytes), 0);
      (o.0.Err? <==> found.Err?) && (o.0.Ok? ==> o.0.value == found.value + 1)
  {
    var words := WordsFor(bytes);
    if Decode(s[0]).w == 0 then
      if words > Maxwords then (Err(ErrNoMem), s) else MkAllocOn(s, words, 0)
    else
      match Locate(s, words, 0)
      case Err(e) => (Err(e), s)
      case Ok(hdr) => MkAllocOn(s, words, hdr)
  }

  /** The bound check in `mkalloc` never fires for a header the scan found: the
      scan's bound already keeps `hdr + words <= Maxwords - 2`. */
  lemma FoundBlockNeverFailsMkAlloc(s: seq<Word>, words: nat)
    requires |s| == ArenaWords
    requires ScanProgresses(s, words, 0)
    requires Locate(s, words, 0).Ok?
    ensures var hdr := Locate(s, words, 0).value;
      hdr < |s| && MkAllocOn(s, words, hdr).0 == Ok(hdr + 1)
  {
  }

  /** Every size `alloc` stores in a header is at most `Maxwords`, below 2^30,
      so the 30-bit field never truncates it. */
  lemma StoredSizeFitsField(s: seq<Word>, bytes: Word)
    requires |s| == ArenaWords
    requires AllocTerminates(s, bytes)
    requires AllocOn(s, bytes).0.Ok?
    ensures var (r, s') := AllocOn(s, bytes);
      Decode(s'[r.value - 1]).w <= Maxwords < WLimit &&
      Encode(Decode(s'[r.value - 1])) == s'[r.value - 1]
  {
    var (r, s') := AllocOn(s, bytes);
    EncodeDecode(s'[r.value - 1]);
  }

  /** `alloc(2000)` on an untouched arena returns the word after offset 0 and
      writes header 0 as 500 words, allocated. */
  lemma AllocTwoThousandOnFreshArena()
    ensures AllocOn(Zeros(), 2000) == (Ok(1), Zeros()[0 := Encode(Header(500, true, false))])
  {
    assert WordsFor(2000) == 500;
    assert Decode(Zeros()[0]) == Header(0, false, false);
  }

  /** Because `w` counts only the data words, the header the next scan steps to
      after a block handed out by `alloc` is the last data word of that same
      block (for any request of at least one word). */
  lemma NextHeaderIsInsideBlock(s: seq<Word>, bytes: Word)
    requires |s| == ArenaWords
    requires AllocTerminates(s, bytes)
    requires AllocOn(s, bytes).0.Ok? && WordsFor(bytes) >= 1
    ensures var (r, s') := AllocOn(s, bytes);
      var hdr := r.value - 1;
      var next := hdr + Decode(s'[hdr]).w;
      next == hdr + WordsFor(bytes) && r.value <= next < r.value + WordsFor(bytes)
  {
  }

  /** After `alloc(2000)` on an untouched arena, every further `alloc` of between
      1 and `Maxwords - 502` words never returns, provided the caller has not
      stored into offset 500 (its block's last data word): the scan steps from
      header 0 to offset 500, a zero word that reads as a free header of size 0. */
  lemma SecondAllocStalls(bytes: Word)
    requires 1 <= WordsFor(bytes) <= Maxwords - 502
    ensures var s1 := AllocOn(Zeros(), 2000).1;
      !AllocTerminates(s1, bytes)
  {
    AllocTwoThousandOnFreshArena();
    var s1 := AllocOn(Zeros(), 2000).1;
    var a := WordsFor(bytes);
    DecodeEncode(Header(500, true, false));
    assert Decode(s1[0]) == Header(500, true, false);
    assert Decode(s1[500]) == Header(0, false, false);
    StalledHeader(s1, a, 500);
  }

  /** Outside that range the second request does return: a request of 0 words
      takes offset 500 (the untouched zero word is a free header of size 0,
      which fits), and a request of more than `Maxwords - 502` words fails the
      bound at offset 0 or 500, whatever offset 500 holds. */
  lemma SecondAllocOutsideStallRange(bytes: Word)
    requires WordsFor(bytes) == 0 || WordsFor(bytes) > Maxwords - 502
    ensures var s1 := AllocOn(Zeros(), 2000).1;
      && AllocTerminates(s1, bytes)
      && (WordsFor(bytes) == 0 ==> AllocOn(s1, bytes).0 == Ok(501))
      && (WordsFor(bytes) > 0 ==> AllocOn(s1, bytes).0 == Err(ErrNoMem))
  {
    AllocTwoThousandOnFreshArena();
    var s1 := AllocOn(Zeros(), 2000).1;
    var a := WordsFor(bytes);
    DecodeEncode(Header(500, true, false));
    assert Decode(s1[0]) == Header(500, true, false);
    if InBounds(0, a) {
      assert Decode(s1[500]) == Header(0, false, false);
      assert FirstFitWalk(s1, a, [0, 500]);
      FirstFitWalkIsTrail(s1, a, [0, 500]);
    } else {
      assert FirstFitWalk(s1, a, [0]);
      FirstFitWalkIsTrail(s1, a, [0]);
    }
  }

  /** If instead the caller of `alloc(2000)` has stored into its last data word
      (offset 500) a value that reads as a free header big enough for the next
      request, that request succeeds at offset 500: the new block's header is
      a data word of the first block, and `mkalloc` overwrites it. */
  lemma SecondAllocOverlapsFirst(x: Word, bytes: Word)
    requires Fits(Decode(x), WordsFor(bytes)) && 500 + WordsFor(bytes) <= Maxwords - 2
    ensures var s1 := AllocOn(Zeros(), 2000).1[500 := x];
      && AllocTerminates(s1, bytes)
      && AllocOn(s1, bytes).0 == Ok(501)
      // offset 500 lies among the first block's data words 1 .. w
      && 1 <= 500 < 1 + Decode(s1[0]).w
      && AllocOn(s1, bytes).1[500] != x
  {
    AllocTwoThousandOnFreshArena();
    var s1 := AllocOn(Zeros(), 2000).1[500 := x];
    var a := WordsFor(bytes);
    DecodeEncode(Header(500, true, false));
    assert Decode(s1[0]) == Header(500, true, false);
    assert FirstFitWalk(s1, a, [0, 500]);
    FirstFitWalkIsTrail(s1, a, [0, 500]);
  }

  /** A request of 0 words (0 bytes, or one of the three byte counts that wrap)
      leaves header 0 at size 0, so the next such request takes the
      first-allocation path again and returns the same pointer: two live
      allocations share offset 1. */
  lemma ZeroWordAllocAliases(bytes: Word)
    requires WordsFor(bytes) == 0
    ensures var (r1, s1) := AllocOn(Zeros(), bytes);
      r1 == Ok(1) && AllocTerminates(s1, bytes) && AllocOn(s1, bytes).0 == Ok(1)
  {
    var (r1, s1) := AllocOn(Zeros(), bytes);
    assert Decode(Zeros()[0]) == Header(0, false, false);
    assert Decode(s1[0]).w == 0;
  }

  /** The arena owner: `memspace` and the allocator's operations on it. */
  class Heap {
    /** `memspace`, one entry per 4-byte word. */
    const arena: array<Word>

    ghost predicate Valid()
      reads this
    {
      arena.Length == ArenaWords
    }

    /** A zero-initialised arena of its own. */
    constructor ()
      ensures Valid() && fresh(arena)
      ensures arena[..] == Zeros()
    {
      arena := new Word[ArenaWords](_ => 0);
    }

    /** `findBlock_(base + n, allocation, n)`, with the tail recursion as a loop.
        Reads the arena and changes nothing. */
    method FindBlock(allocation: Word, n: nat) returns (r: Result<nat>)
      requires Valid()
      requires allocation < WLimit && n <= Maxwords
      requires ScanProgresses(arena[..], allocation, n)
      ensures r == Locate(arena[..], allocation, n)
    {
      var k := n;
      while true
        invariant ScanProgresses(arena[..], allocation, k)
        invariant Locate(arena[..], allocation, k) == Locate(arena[..], allocation, n)
        decreases Maxwords - k
      {
        if k + allocation > Maxwords - 2 {
          return Err(ErrNoMem);
        }
        var h := Decode(arena[k]);
        if !h.alloced && h.w >= allocation {
          return Ok(k);
        }
        k := k + h.w;
      }
    }

    /** `mkalloc(words, base + hdr)`. */
    method MkAlloc(words: Word, hdr: nat) returns (r: Result<nat>)
      requires Valid() && hdr < arena.Length
      modifies arena
      ensures (r, arena[..]) == MkAllocOn(old(arena[..]), words, hdr)
    {
      if words > Maxwords - hdr {
        return Err(ErrNoMem);
      }
      arena[hdr] := MarkAllocated(arena[hdr], words);
      return Ok(hdr + 1);
    }

    /** `alloc(bytes)`; the search path is `findBlock(words, 0)`. */
    method Alloc(bytes: Word) returns (r: Result<nat>)
      requires Valid()
      requires AllocTerminates(arena[..], bytes)
      modifies arena
      ensures (r, arena[..]) == AllocOn(old(arena[..]), bytes)
    {
      var words := WordsFor(bytes);
      if Decode(arena[0]).w == 0 {
        if words > Maxwords {
          return Err(ErrNoMem);
        }
        r := MkAlloc(words, 0);
        return;
      }
      var found := FindBlock(words, 0);
      if found.Err? {
        return found;
      }
      r := MkAlloc(words, found.value);
    }
  }

  /** A client of `Heap`: the one allocation the program's entry point makes. */
  method AllocScenario()
  {
    var heap := new Heap();
    var ptr := heap.Alloc(2000);
    AllocTwoThousandOnFreshArena();
    assert ptr == Ok(1);
    assert Decode(heap.arena[ptr.value - 1]) == Header(500, true, false) by {
      DecodeEncode(Header(500, true, false));
    }
  }
}
