/**
 * The early (bump) allocator of modules/bump_allocator: one address range
 * handed out from both ends. Bytes are bumped forward from `start` at
 * `bPos`, pages backward from `end` at `pPos`; freeing only lowers the
 * usage counters and never gives space back. Positions are machine words
 * (`usize`, 64 bits), modelled as naturals below `WordLimit`.
 *
 *   [ bytes handed out | free | pages handed out ]
 *   start           bPos    pPos               end
 */
module BumpAllocator {
  import opened Bits

  /** The error kinds of the allocator interface. */
  datatype AllocError = InvalidParam | MemoryOverlap | NoMemory | NotAllocated

  datatype AllocResult<T> = Ok(value: T) | Err(error: AllocError)

  /**
   * `x & !(m - 1)` on a 64-bit word: the complement of `m - 1` is
   * `WordLimit - m`. It never exceeds `x`, and for a power of two `m` it
   * rounds `x` down to a multiple of `m`.
   */
  function MaskDown(x: nat, m: nat): (r: nat)
    requires x < WordLimit && 1 <= m <= WordLimit
    ensures r <= x
    ensures IsPow2(m) ==> r == x - x % m && r % m == 0
  {
    MaskRoundsDown(x, m);
    And(x, WordLimit - m)
  }

  lemma MaskRoundsDown(x: nat, m: nat)
    requires x < WordLimit && 1 <= m <= WordLimit
    ensures IsPow2(m) ==> And(x, WordLimit - m) == x - x % m && (x - x % m) % m == 0
  {
    if IsPow2(m) {
      var i := Log2(m);
      ExponentInWord(m);
      HighMask(x, i);
      RoundDownIsMultiple(x, m);
    }
  }

  /** A power of two that fits in the word limit has an exponent of at most 64. */
  lemma ExponentInWord(m: nat)
    requires IsPow2(m) && m <= WordLimit
    ensures Log2(m) <= 64
  {
    var i := Log2(m);
    if i > 64 {
      Pow2Word();
      Pow2Monotone(65, i);
      assert false;
    }
  }

  /** `AndHighMask` for a 64-bit word. */
  lemma HighMask(x: nat, i: nat)
    requires x < WordLimit && i <= 64
    ensures Pow2(i) <= WordLimit && And(x, WordLimit - Pow2(i)) == x - x % Pow2(i)
  {
    Pow2Word();
    AndHighMask(x, i, 64);
  }

  lemma RoundDownIsMultiple(x: nat, m: nat)
    requires m > 0
    ensures (x - x % m) % m == 0
  {
    ModUnique(x - x % m, m, x / m, 0);
  }

  /**
   * `(x + align - 1) & !(align - 1)`: `x` rounded up to the next multiple of
   * the power of two `align`, at most `align - 1` further on.
   */
  function AlignUp(x: nat, align: nat): (r: nat)
    requires IsPow2(align) && x + align - 1 < WordLimit
    ensures r % align == 0
    ensures x <= r < x + align
  {
    MaskDown(x + align - 1, align)
  }

  /** No multiple of `align` lies between `x` and `AlignUp(x, align)`: it is the least one at or above `x`. */
  lemma AlignUpLeast(x: nat, align: nat, m: nat)
    requires IsPow2(align) && x + align - 1 < WordLimit
    requires m % align == 0 && x <= m
    ensures AlignUp(x, align) <= m
  {
    var r := AlignUp(x, align);
    if m < r {
      MultipleGap(m, r, align);
      assert false;
    }
  }

  /** Two distinct multiples of `a` are at least `a` apart. */
  lemma MultipleGap(m: nat, r: nat, a: nat)
    requires a > 0 && m % a == 0 && r % a == 0 && m < r
    ensures r - m >= a
  {
    var d := r / a - m / a;
    assert r - m == a * d;
    MulMonotone(a, d);
  }

  /** `k` whole pages of size `p` fit in `t` bytes exactly when `k <= t / p`. */
  lemma PagesFit(k: nat, p: nat, t: nat)
    requires p > 0 && k * p <= t
    ensures k <= t / p
  {
    if k > t / p {
      var e := k - t / p;
      assert k * p == (t / p) * p + e * p;
      MulMonotone(p, e);
      assert false;
    }
  }

  /** A region `(position, length)` lies within `[lo, hi)`. */
  predicate Inside(b: (nat, nat), lo: nat, hi: nat)
  {
    lo <= b.0 && b.0 + b.1 <= hi
  }

  /** A region lies wholly below `bPos` or wholly at or above `pPos`: outside the free gap. */
  predicate Outside(b: (nat, nat), bPos: nat, pPos: nat)
  {
    b.0 + b.1 <= bPos || pPos <= b.0
  }

  predicate Disjoint(b: (nat, nat), c: (nat, nat))
  {
    b.0 + b.1 <= c.0 || c.0 + c.1 <= b.0
  }

  /** `EarlyAllocator<PAGE_SIZE>`; `pageSize` is the `PAGE_SIZE` parameter. */
  class EarlyAllocator {
    const pageSize: nat
    var start: nat
    var end: nat
    var bPos: nat
    var pPos: nat
    var usedBytes: nat
    var usedPages: nat
    var inited: bool
    /** Every region handed out since `init`, bytes and pages alike, as (position, length). */
    ghost var handedOut: seq<(nat, nat)>

    /**
     * The positions are ordered, the counters never exceed the space their
     * end has consumed, and the regions handed out are inside the range,
     * outside the free gap and pairwise disjoint.
     */
    ghost predicate Valid()
      reads this
    {
      && pageSize > 0
      && start <= bPos <= pPos <= end < WordLimit
      && usedBytes <= bPos - start
      && usedPages * pageSize <= end - pPos
      && (forall i :: 0 <= i < |handedOut| ==> Inside(handedOut[i], start, end) && Outside(handedOut[i], bPos, pPos))
      && (forall i, j :: 0 <= i < j < |handedOut| ==> Disjoint(handedOut[i], handedOut[j]))
    }

    /** `EarlyAllocator::new`: everything zero, not yet initialised. */
    constructor (pageSize: nat)
      requires pageSize > 0
      ensures Valid() && this.pageSize == pageSize && !inited
      ensures start == 0 && end == 0 && bPos == 0 && pPos == 0
      ensures usedBytes == 0 && usedPages == 0 && handedOut == []
    {
      this.pageSize := pageSize;
      start, end, bPos, pPos := 0, 0, 0, 0;
      usedBytes, usedPages := 0, 0;
      inited := false;
      handedOut := [];
    }

    /** `init`: takes over `[start, start + size)` with both ends at its edges and nothing handed out. */
    method Init(start: nat, size: nat)
      requires Valid() && start + size < WordLimit
      modifies this
      ensures Valid() && inited
      ensures this.start == start && end == start + size && bPos == start && pPos == start + size
      ensures usedBytes == 0 && usedPages == 0 && handedOut == []
      ensures TotalBytes() == size && AvailableBytes() == size && UsedBytes() == 0 && UsedPages() == 0
    {
      this.start := start;
      end := start + size;
      bPos := start;
      pPos := start + size;
      usedBytes := 0;
      usedPages := 0;
      inited := true;
      handedOut := [];
    }

    /** `add_memory`: the range cannot grow, so it always fails and changes nothing. */
    method AddMemory(start: nat, size: nat) returns (r: AllocResult<()>)
      ensures r == Err(InvalidParam)
    {
      r := Err(InvalidParam);
    }

    /**
     * `alloc`: the block starts at `bPos` rounded up to `align`; it fits if it
     * ends at or before `pPos`, and then `bPos` moves to its end.
     */
    method Alloc(size: nat, align: nat) returns (r: AllocResult<nat>)
      requires Valid() && IsPow2(align)
      requires inited ==> bPos + align - 1 < WordLimit && AlignUp(bPos, align) + size < WordLimit
      modifies this
      ensures Valid()
      ensures start == old(start) && end == old(end) && pPos == old(pPos)
      ensures usedPages == old(usedPages) && inited == old(inited)
      ensures !inited ==> r == Err(NoMemory) && bPos == old(bPos) && usedBytes == old(usedBytes) && handedOut == old(handedOut)
      ensures inited ==>
        var pos := AlignUp(old(bPos), align);
        if pos + size > pPos then
          r == Err(NoMemory) && bPos == old(bPos) && usedBytes == old(usedBytes) && handedOut == old(handedOut)
        else
          r == Ok(pos) && bPos == pos + size && usedBytes == old(usedBytes) + size
          && handedOut == old(handedOut) + [(pos, size)]
      ensures r.Ok? ==> r.value % align == 0 && old(bPos) <= r.value && r.value + size <= pPos
    {
      if !inited {
        return Err(NoMemory);
      }
      var pos := AlignUp(bPos, align);
      if pos + size > pPos {
        return Err(NoMemory);
      }
      bPos := pos + size;
      usedBytes := usedBytes + size;
      handedOut := handedOut + [(pos, size)];
      r := Ok(pos);
    }

    /** `dealloc`: lowers the byte count, saturating at zero; no space is given back, even when the count reaches zero. */
    method Dealloc(ptr: nat, size: nat)
      requires Valid()
      modifies this
      ensures Valid()
      ensures usedBytes == if old(usedBytes) >= size then old(usedBytes) - size else 0
      ensures start == old(start) && end == old(end) && bPos == old(bPos) && pPos == old(pPos)
      ensures usedPages == old(usedPages) && inited == old(inited) && handedOut == old(handedOut)
    {
      usedBytes := if usedBytes >= size then usedBytes - size else 0;
    }

    /**
     * `alloc_pages`: `pPos` moves back by `numPages` pages and is masked
     * down to the alignment `alignPow2 * pageSize`; the request fails if
     * the subtraction would go below zero or the result below `bPos`.
     */
    method AllocPages(numPages: nat, alignPow2: nat) returns (r: AllocResult<nat>)
      requires Valid()
      requires inited ==> numPages * pageSize < WordLimit
      requires inited && numPages * pageSize <= pPos ==> 1 <= alignPow2 * pageSize < WordLimit
      modifies this
      ensures Valid()
      ensures start == old(start) && end == old(end) && bPos == old(bPos)
      ensures usedBytes == old(usedBytes) && inited == old(inited)
      ensures !inited ==> r == Err(NoMemory) && pPos == old(pPos) && usedPages == old(usedPages) && handedOut == old(handedOut)
      ensures inited ==>
        var size := numPages * pageSize;
        if old(pPos) < size then
          r == Err(NoMemory) && pPos == old(pPos) && usedPages == old(usedPages) && handedOut == old(handedOut)
        else
          var p := MaskDown(old(pPos) - size, alignPow2 * pageSize);
          if p < bPos then
            r == Err(NoMemory) && pPos == old(pPos) && usedPages == old(usedPages) && handedOut == old(handedOut)
          else
            r == Ok(p) && pPos == p && usedPages == old(usedPages) + numPages
            && handedOut == old(handedOut) + [(p, size)]
      ensures r.Ok? ==> bPos <= r.value && r.value + numPages * pageSize <= old(pPos)
      ensures r.Ok? && IsPow2(alignPow2 * pageSize) ==> r.value % (alignPow2 * pageSize) == 0
    {
      if !inited {
        return Err(NoMemory);
      }
      var size := numPages * pageSize;
      if pPos < size {
        return Err(NoMemory);
      }
      var p := MaskDown(pPos - size, alignPow2 * pageSize);
      if p < bPos {
        return Err(NoMemory);
      }
      assert (usedPages + numPages) * pageSize == usedPages * pageSize + size;
      pPos := p;
      usedPages := usedPages + numPages;
      handedOut := handedOut + [(p, size)];
      r := Ok(p);
    }

    /** `dealloc_pages`: lowers the page count, saturating at zero; pages are never given back. */
    method DeallocPages(pos: nat, numPages: nat)
      requires Valid()
      modifies this
      ensures Valid()
      ensures usedPages == if old(usedPages) >= numPages then old(usedPages) - numPages else 0
      ensures start == old(start) && end == old(end) && bPos == old(bPos) && pPos == old(pPos)
      ensures usedBytes == old(usedBytes) && inited == old(inited) && handedOut == old(handedOut)
    {
      var u := if usedPages >= numPages then usedPages - numPages else 0;
      assert usedPages * pageSize == u * pageSize + (usedPages - u) * pageSize;
      usedPages := u;
    }

    /** `total_bytes`: the length of the managed range. */
    function TotalBytes(): (r: nat)
      reads this
      requires Valid()
      ensures start + r == end && r < WordLimit
    {
      end - start
    }

    /** `used_bytes`: never more than the byte area that has been bumped past. */
    function UsedBytes(): (r: nat)
      reads this
      ensures Valid() ==> r <= bPos - start
    {
      usedBytes
    }

    /** `available_bytes`: the size of the free gap, saturating at zero. */
    function AvailableBytes(): (r: nat)
      reads this
      ensures bPos <= pPos ==> bPos + r == pPos
      ensures pPos < bPos ==> r == 0
    {
      if pPos >= bPos then pPos - bPos else 0
    }

    /** `total_pages`: the whole pages that fit in the range, rounding down. */
    function TotalPages(): (r: nat)
      reads this
      requires Valid()
      ensures r * pageSize <= end - start < (r + 1) * pageSize
    {
      (end - start) / pageSize
    }

    /** `used_pages`: the pages in use fit in the page area above `pPos`. */
    function UsedPages(): (r: nat)
      reads this
      ensures Valid() ==> r * pageSize <= end - pPos
    {
      usedPages
    }

    /** `available_pages`: the whole pages that fit in the free gap, rounding down. */
    function AvailablePages(): (r: nat)
      reads this
      requires Valid()
      ensures r * pageSize <= AvailableBytes() < (r + 1) * pageSize
    {
      AvailableBytes() / pageSize
    }
  }

  /**
   * What the getters report adds up: bytes in use, bytes free and the bytes
   * of pages in use never exceed the range, whole free pages fit in the free
   * bytes, and pages in use plus pages free never exceed the total pages.
   */
  lemma Accounting(a: EarlyAllocator)
    requires a.Valid()
    ensures a.UsedBytes() + a.AvailableBytes() + a.UsedPages() * a.pageSize <= a.TotalBytes()
    ensures a.AvailablePages() * a.pageSize <= a.AvailableBytes()
    ensures a.UsedPages() + a.AvailablePages() <= a.TotalPages()
  {
    var ps, avail := a.pageSize, a.AvailableBytes();
    var q := avail / ps;
    assert avail == q * ps + avail % ps;
    assert (a.usedPages + q) * ps == a.usedPages * ps + q * ps;
    PagesFit(a.usedPages + q, ps, a.end - a.start);
  }
}
