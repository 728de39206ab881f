/** The first-fit scan `findBlock_` (main.c), as a function of the arena's
    contents.

    The scan starts at word offset `n`, fails with `ErrNoMem` as soon as
    `n + allocation > Maxwords - 2`, returns the first free header whose `w` is at
    least `allocation`, and otherwise steps `w` words ahead. A header that is not
    a fit and has `w == 0` makes the source recurse forever with the same
    arguments; `ScanProgresses` is the precondition that rules this out.
 */
module Locator {
  import opened HeaderCodec

  /** The scan is over once the request no longer fits before `Maxwords - 2`. */
  predicate InBounds(n: nat, allocation: nat)
  {
    n + allocation <= Maxwords - 2
  }

  /** The scan from `n` reaches a verdict: it never meets, inside the bound, a
      header that does not fit and has size 0. */
  ghost predicate ScanProgresses(s: seq<Word>, allocation: nat, n: nat)
    requires |s| == ArenaWords
    decreases Maxwords - n
  {
    !InBounds(n, allocation) ||
    var h := Decode(s[n]);
    Fits(h, allocation) || (h.w > 0 && ScanProgresses(s, allocation, n + h.w))
  }

  /** `findBlock_(base + n, allocation, n)`: the offset of the first fitting
      header on the chain from `n`, or `ErrNoMem`. */
  function Locate(s: seq<Word>, allocation: nat, n: nat): (r: Result<nat>)
    requires |s| == ArenaWords
    requires ScanProgresses(s, allocation, n)
    ensures r.Err? ==> r.errno == ErrNoMem
    ensures r.Ok? ==> n <= r.value && InBounds(r.value, allocation)
    ensures r.Ok? ==> Fits(Decode(s[r.value]), allocation)
    decreases Maxwords - n
  {
    if !InBounds(n, allocation) then Err(ErrNoMem)
    else
      var h := Decode(s[n]);
      if Fits(h, allocation) then Ok(n) else Locate(s, allocation, n + h.w)
  }

  /** The offsets of the headers the scan from `n` examines, in order; the last
      is where it stops, either out of bounds or at a fit. */
  ghost function Trail(s: seq<Word>, allocation: nat, n: nat): (t: seq<nat>)
    requires |s| == ArenaWords
    requires ScanProgresses(s, allocation, n)
    decreases Maxwords - n
  {
    if !InBounds(n, allocation) then [n]
    else
      var h := Decode(s[n]);
      if Fits(h, allocation) then [n] else [n] + Trail(s, allocation, n + h.w)
  }

  /** `p` is a complete first-fit walk along the header chain: every offset but
      the last is in bounds, not a fit, and steps `w` words to the next; the
      last is either out of bounds or a fit. */
  ghost predicate FirstFitWalk(s: seq<Word>, allocation: nat, p: seq<nat>)
    requires |s| == ArenaWords
  {
    && |p| >= 1
    && (forall i :: 0 <= i < |p| - 1 ==>
          && InBounds(p[i], allocation)
          && !Fits(Decode(s[p[i]]), allocation)
          && p[i + 1] == p[i] + Decode(s[p[i]]).w)
    && (InBounds(p[|p| - 1], allocation) ==> Fits(Decode(s[p[|p| - 1]]), allocation))
  }

  /** What the scan returns on stopping at offset `k`. */
  function Verdict(allocation: nat, k: nat): Result<nat>
  {
    if InBounds(k, allocation) then Ok(k) else Err(ErrNoMem)
  }

  /** The headers the scan examines form a first-fit walk from `n`, offsets
      along it strictly increase, and the scan's result is the verdict at the
      walk's end: a found header is the first fit, and `ErrNoMem` comes exactly
      when the walk leaves the bound before finding one. */
  lemma {:induction false} TrailIsFirstFitWalk(s: seq<Word>, allocation: nat, n: nat)
    requires |s| == ArenaWords
    requires ScanProgresses(s, allocation, n)
    ensures var t := Trail(s, allocation, n);
      && FirstFitWalk(s, allocation, t)
      && t[0] == n
      && (forall i :: 0 <= i < |t| - 1 ==> t[i] < t[i + 1])
      && Locate(s, allocation, n) == Verdict(allocation, t[|t| - 1])
    decreases Maxwords - n
  {
    if InBounds(n, allocation) {
      var h := Decode(s[n]);
      if !Fits(h, allocation) {
        var m := n + h.w;
        TrailIsFirstFitWalk(s, allocation, m);
        var t := Trail(s, allocation, n);
        var t' := Trail(s, allocation, m);
        assert t == [n] + t';
        forall i | 0 <= i < |t| - 1
          ensures InBounds(t[i], allocation) && !Fits(Decode(s[t[i]]), allocation)
          ensures t[i + 1] == t[i] + Decode(s[t[i]]).w && t[i] < t[i + 1]
        {
          if i > 0 { assert t[i] == t'[i - 1] && t[i + 1] == t'[i]; }
        }
      }
    }
  }

  /** Conversely, any first-fit walk from `p[0]` is the scan's own: the scan
      from there terminates, examines exactly the offsets of `p`, and returns the
      verdict at its end. So the result is determined by the chain alone. */
  lemma {:induction false} FirstFitWalkIsTrail(s: seq<Word>, allocation: nat, p: seq<nat>)
    requires |s| == ArenaWords
    requires FirstFitWalk(s, allocation, p)
    ensures ScanProgresses(s, allocation, p[0])
    ensures Trail(s, allocation, p[0]) == p
    ensures Locate(s, allocation, p[0]) == Verdict(allocation, p[|p| - 1])
    decreases |p|
  {
    if |p| > 1 {
      var p' := p[1..];
      assert FirstFitWalk(s, allocation, p') by {
        forall i | 0 <= i < |p'| - 1
          ensures InBounds(p'[i], allocation) && !Fits(Decode(s[p'[i]]), allocation)
          ensures p'[i + 1] == p'[i] + Decode(s[p'[i]]).w
        {
          assert p'[i] == p[i + 1] && p'[i + 1] == p[i + 2];
        }
      }
      FirstFitWalkIsTrail(s, allocation, p');
      var h := Decode(s[p[0]]);
      assert InBounds(p[0], allocation) && !Fits(h, allocation);
      assert p[1] == p[0] + h.w;
      assert p == [p[0]] + p';
    }
  }

  /** The scan reads the header at every offset it examines except the last
      one of a failed scan (which fails the bound test first). Every header it
      reads lies at an offset at most `Maxwords - 2 - allocation`, so no read
      leaves the arena. */
  lemma ScanReadsStayInArena(s: seq<Word>, allocation: nat, n: nat)
    requires |s| == ArenaWords
    requires ScanProgresses(s, allocation, n)
    ensures var t := Trail(s, allocation, n);
      forall i :: 0 <= i < |t| && (i < |t| - 1 || Locate(s, allocation, n).Ok?) ==>
        t[i] <= Maxwords - 2 - allocation && t[i] < ArenaWords
  {
    TrailIsFirstFitWalk(s, allocation, n);
  }

  /** For any request below 2^30 (all that `alloc` passes), the 32-bit sums
      `n + allocation` and `n + w` the scan computes stay below 2^32, so modelling
      them as unbounded integers loses nothing. */
  lemma {:induction false} ScanSumsFitInWord(s: seq<Word>, allocation: nat, n: nat)
    requires |s| == ArenaWords
    requires ScanProgresses(s, allocation, n)
    requires allocation < WLimit && n <= Maxwords
    ensures var t := Trail(s, allocation, n);
      forall i :: 0 <= i < |t| ==>
        t[i] + allocation < 0x1_0000_0000 &&
        (InBounds(t[i], allocation) ==> t[i] + Decode(s[t[i]]).w < 0x1_0000_0000)
  {
    TrailIsFirstFitWalk(s, allocation, n);
    var t := Trail(s, allocation, n);
    forall i | 0 <= i < |t|
      ensures t[i] + allocation < 0x1_0000_0000
      ensures InBounds(t[i], allocation) ==> t[i] + Decode(s[t[i]]).w < 0x1_0000_0000
    {
      if i > 0 {
        assert InBounds(t[i - 1], allocation);
        assert t[i] == t[i - 1] + Decode(s[t[i - 1]]).w;
      }
    }
  }

  /** A header inside the bound that is not a fit and has size 0 stops the scan
      from ever reaching a verdict: the source recurses with identical
      arguments. */
  lemma StalledHeader(s: seq<Word>, allocation: nat, n: nat)
    requires |s| == ArenaWords
    requires InBounds(n, allocation)
    requires !Fits(Decode(s[n]), allocation) && Decode(s[n]).w == 0
    ensures !ScanProgresses(s, allocation, n)
  {
  }
}
