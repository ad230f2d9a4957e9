/**
 * The kernel's bitmap (`stdbitmap`): a byte buffer in which a set bit marks
 * a resource as taken and a clear bit marks it free.  `bitmap_set` numbers
 * bits eight to a byte (bit i is bit i % 8 of byte i / 8), whereas
 * `bitmap_test` divides by `sizeof(byte)`, i.e. by one, so the bit it reads
 * for index i is bit 0 of byte i.  Both conventions are kept here as the
 * code has them: `Taken` is the first and `Test` the second.
 */
module Bitmaps {
  import opened Options

  const BITMAP_TAKEN: bv8 := 1
  const BITMAP_FREE: bv8 := 0

  /** `BITMAP_TAKEN << r`, the byte with only bit r set. */
  function BitMask(r: nat): bv8
    requires r < 8
  {
    if r == 0 then 0x01 else if r == 1 then 0x02 else if r == 2 then 0x04 else if r == 3 then 0x08
    else if r == 4 then 0x10 else if r == 5 then 0x20 else if r == 6 then 0x40 else 0x80
  }

  /** The table of masks is the shift the code writes. */
  lemma BitMaskIsShift(r: nat)
    requires r < 8
    ensures BitMask(r) == BITMAP_TAKEN << r
  {
  }

  /** Bit r of byte b. */
  predicate ByteBit(b: bv8, r: nat)
    requires r < 8
  {
    b & BitMask(r) != 0
  }

  /** A byte with all eight bits set is 0xFF. */
  lemma FullByte(b: bv8)
    requires forall r: nat :: r < 8 ==> ByteBit(b, r)
    ensures b == 0xFF
  {
    assert ByteBit(b, 0) && ByteBit(b, 1) && ByteBit(b, 2) && ByteBit(b, 3);
    assert ByteBit(b, 4) && ByteBit(b, 5) && ByteBit(b, 6) && ByteBit(b, 7);
  }

  /** Setting or clearing bit r of a byte changes bit r alone. */
  lemma ByteBitUpdate(b: bv8, r: nat, q: nat)
    requires r < 8 && q < 8
    ensures ByteBit(b | BitMask(r), q) == (q == r || ByteBit(b, q))
    ensures ByteBit(b & !BitMask(r), q) == (q != r && ByteBit(b, q))
  {
  }

  /** Bit q of the byte after setting (taken) or clearing bit r of before. */
  lemma ByteAfter(before: bv8, taken: bool, r: nat, q: nat)
    requires r < 8 && q < 8
    ensures ByteBit(if taken then before | BitMask(r) else before & !BitMask(r), q)
            == if q == r then taken else ByteBit(before, q)
  {
    ByteBitUpdate(before, r, q);
  }

  /** Two bit numbers in the same byte are equal iff their positions in it are. */
  lemma SameByte(i: nat, j: nat)
    requires i / 8 == j / 8
    ensures (i == j) == (i % 8 == j % 8)
  {
  }

  /** Number of free (false) entries of a sequence of taken flags. */
  function FreeCount(s: seq<bool>): (n: nat)
    ensures n <= |s|
  {
    if |s| == 0 then 0 else FreeCount(s[..|s| - 1]) + (if s[|s| - 1] then 0 else 1)
  }

  /** Taking one free entry lowers the free count by exactly one. */
  lemma {:induction false} FreeCountTake(s: seq<bool>, g: nat)
    requires g < |s| && !s[g]
    ensures FreeCount(s[g := true]) + 1 == FreeCount(s)
    decreases |s|
  {
    var t := s[g := true];
    if g < |s| - 1 {
      assert t[..|t| - 1] == s[..|s| - 1][g := true];
      FreeCountTake(s[..|s| - 1], g);
    } else {
      assert t[..|t| - 1] == s[..|s| - 1];
    }
  }

  /** With every entry taken, nothing is free. */
  lemma {:induction false} FreeCountNone(s: seq<bool>)
    requires forall j :: 0 <= j < |s| ==> s[j]
    ensures FreeCount(s) == 0
    decreases |s|
  {
    if |s| > 0 {
      FreeCountNone(s[..|s| - 1]);
    }
  }

  /**
   * The out[] array left by `bitmap_acquire` as written: entries 1..cnt all
   * hold the first free bit g, and entry 0 keeps the caller's value.
   */
  function AcquiredAsWritten(out: seq<int>, g: nat, cnt: nat): (w: seq<int>)
    requires cnt < |out|
    ensures |w| == |out| && w[0] == out[0]
    ensures forall k :: 1 <= k <= cnt ==> w[k] == g
    ensures forall k :: cnt < k < |out| ==> w[k] == out[k]
  {
    seq(|out|, k requires 0 <= k < |out| => if 1 <= k <= cnt then g else out[k])
  }

  /**
   * The first cnt entries of that array name at most two distinct bits: the
   * caller's out[0] and g. For cnt >= 3 the "acquired" bits repeat, and the
   * entry out[0] was never found free by the scan.
   */
  lemma AcquiredAsWrittenBits(out: seq<int>, g: nat, cnt: nat)
    requires 1 <= cnt < |out|
    ensures forall j :: j in AcquiredAsWritten(out, g, cnt)[..cnt] <==> j == out[0] || (cnt >= 2 && j == g)
    ensures cnt >= 3 ==> AcquiredAsWritten(out, g, cnt)[1] == AcquiredAsWritten(out, g, cnt)[2]
  {
    var w := AcquiredAsWritten(out, g, cnt);
    forall j
      ensures j in w[..cnt] <==> j == out[0] || (cnt >= 2 && j == g)
    {
      if j == out[0] {
        assert w[..cnt][0] == j;
      } else if cnt >= 2 && j == g {
        assert w[..cnt][1] == j;
      }
    }
  }

  /**
   * On an empty bitmap the first free bit is 0, so a caller passing
   * out = [7, 7, 7, 7] and cnt = 3 gets [7, 0, 0]: bit 7 is taken without
   * having been found, and bit 0 is reported twice.
   */
  lemma AcquiredAsWrittenExample()
    ensures AcquiredAsWritten([7, 7, 7, 7], 0, 3)[..3] == [7, 0, 0]
  {
  }

  /** Outcome of `bitmap_scan`: a start bit, -1, or a read past the byte buffer. */
  datatype ScanResult = Found(bit: nat) | NotFound | OutOfBounds

  class Bitmap {
    /** Number of bytes in use. */
    var size: nat
    /** The byte buffer set aside for the bitmap. */
    const bits: array<bv8>

    ghost predicate Valid()
      reads this
    {
      size <= bits.Length
    }

    /** A bitmap header placed in front of its buffer, before `bitmap_init`. */
    constructor (buffer: array<bv8>)
      ensures bits == buffer && size == 0 && Valid()
    {
      bits := buffer;
      size := 0;
    }

    /** Bit i in the numbering of `bitmap_set`. */
    predicate Taken(i: nat)
      reads this, bits
      requires i < 8 * bits.Length
    {
      ByteBit(bits[i / 8], i % 8)
    }

    /** `bitmap_init`: records the size and clears its bytes; every bit in range is free. */
    method Init(n: nat)
      modifies this, bits
      requires n <= bits.Length
      ensures Valid() && size == n
      ensures forall k :: 0 <= k < bits.Length ==> bits[k] == if k < n then BITMAP_FREE else old(bits[k])
      ensures forall i: nat :: i < 8 * n ==> !Taken(i)
    {
      size := n;
      var k := 0;
      while k < n
        invariant k <= n && size == n
        invariant forall j :: 0 <= j < bits.Length ==> bits[j] == if j < k then BITMAP_FREE else old(bits[j])
      {
        bits[k] := BITMAP_FREE;
        k := k + 1;
      }
      forall i: nat | i < 8 * n
        ensures !Taken(i)
      {
        assert bits[i / 8] == 0;
      }
    }

    /**
     * `bitmap_set`: bit i becomes `taken`; every other bit, and every other
     * byte, is unchanged.
     */
    method Set(i: nat, taken: bool)
      modifies bits
      requires i / 8 < bits.Length
      ensures forall j: nat :: j < 8 * bits.Length ==> Taken(j) == if j == i then taken else old(Taken(j))
      ensures forall k :: 0 <= k < bits.Length && k != i / 8 ==> bits[k] == old(bits[k])
    {
      var byteIdx := i / 8;
      var rbitIdx := i % 8;
      ghost var before := bits[byteIdx];
      if taken {
        bits[byteIdx] := bits[byteIdx] | BitMask(rbitIdx);
      } else {
        bits[byteIdx] := bits[byteIdx] & !BitMask(rbitIdx);
      }
      forall j: nat | j < 8 * bits.Length
        ensures Taken(j) == if j == i then taken else old(Taken(j))
      {
        TakenAfter(i, taken, j, before);
      }
    }

    lemma TakenAfter(i: nat, taken: bool, j: nat, before: bv8)
      requires i / 8 < bits.Length && j < 8 * bits.Length
      requires bits[i / 8] == if taken then before | BitMask(i % 8) else before & !BitMask(i % 8)
      ensures Taken(j) == if j == i then taken else if j / 8 == i / 8 then ByteBit(before, j % 8) else ByteBit(bits[j / 8], j % 8)
    {
      if j / 8 == i / 8 {
        SameByte(i, j);
        ByteAfter(before, taken, i % 8, j % 8);
      }
    }

    /** `bitmap_test`: bit i % 1 of byte i / 1. */
    predicate Test(i: nat)
      reads this, bits
      requires i < bits.Length
    {
      bits[i / 1] & BitMask(i % 1) != 0
    }

    /** The bit `bitmap_test` reads for index i is bit 8 i in the numbering of `bitmap_set`. */
    lemma TestIsTaken(i: nat)
      requires i < bits.Length
      ensures Test(i) == Taken(8 * i)
    {
    }

    /** The lowest free bit at or above i, among the 8 * size bits in use. */
    function FirstFreeFrom(i: nat): (r: Option<nat>)
      reads this, bits
      requires Valid()
      ensures r.Some? ==> i <= r.value < 8 * size && !Taken(r.value)
      ensures r.Some? ==> forall j: nat :: i <= j < r.value ==> Taken(j)
      ensures r.None? ==> forall j: nat :: i <= j < 8 * size ==> Taken(j)
      decreases 8 * size - i
    {
      if i >= 8 * size then None
      else if !Taken(i) then Some(i)
      else FirstFreeFrom(i + 1)
    }

    /**
     * The count of consecutive free bits `bitmap_scan` holds after looking
     * at index n, when its first free bit was g: g itself counts as free,
     * each later index that `Test` reports free adds one, a taken one
     * resets the count to zero.
     */
    function RunAt(g: nat, n: nat): (c: nat)
      reads this, bits
      requires g <= n && (n == g || n < bits.Length)
      ensures c <= n - g + 1
      decreases n - g
    {
      if n == g then 1
      else if !Test(n) then RunAt(g, n - 1) + 1
      else 0
    }

    /** A count of c at n means the c indices ending at n are g or reported free by `Test`. */
    lemma {:induction false} RunIsFree(g: nat, n: nat, m: nat)
      requires g <= n && (n == g || n < bits.Length)
      requires n - RunAt(g, n) < m <= n && m != g
      ensures m < bits.Length && !Test(m)
      decreases n - g
    {
      if m < n {
        RunIsFree(g, n - 1, m);
      }
    }

    /** What the multi-bit search of `bitmap_scan` reports once its first free bit is g. */
    predicate RunOutcome(g: nat, cnt: nat, r: ScanResult)
      reads this, bits
      requires Valid() && g < 8 * size
    {
      match r
      case Found(x) =>
        var n := x + cnt - 1;
        g < n <= 8 * size && n < bits.Length && RunAt(g, n) == cnt
        && forall m: nat :: g < m < n ==> RunAt(g, m) != cnt
      case NotFound =>
        8 * size < bits.Length && forall m: nat :: g < m <= 8 * size ==> RunAt(g, m) != cnt
      case OutOfBounds =>
        bits.Length <= 8 * size && forall m: nat :: g < m < bits.Length ==> RunAt(g, m) != cnt
    }

    /**
     * The first part of `bitmap_scan`: skip the full bytes, then the set
     * bits of the first byte that is not full.  The byte-wise search finds
     * the lowest free bit.
     */
    method FindFirstFree() returns (r: Option<nat>)
      requires Valid()
      ensures r == FirstFreeFrom(0)
    {
      var byteIdx := 0;
      // The source tests bits[byte_idx] first, reading one byte past the
      // bitmap when every byte is full; the value read there cannot change
      // the outcome.
      while byteIdx < size && bits[byteIdx] == 0xFF
        invariant byteIdx <= size
        invariant forall k :: 0 <= k < byteIdx ==> bits[k] == 0xFF
      {
        byteIdx := byteIdx + 1;
      }
      if byteIdx == size {
        assert forall j: nat :: j < 8 * size ==> Taken(j) by {
          forall j: nat | j < 8 * size ensures Taken(j) {
            assert bits[j / 8] == 0xFF;
          }
        }
        return None;
      }
      var rbitIdx := 0;
      while ByteBit(bits[byteIdx], rbitIdx)
        invariant rbitIdx < 8
        invariant forall q: nat :: q < rbitIdx ==> ByteBit(bits[byteIdx], q)
        decreases 8 - rbitIdx
      {
        if rbitIdx == 7 {
          FullByte(bits[byteIdx]);
        }
        rbitIdx := rbitIdx + 1;
      }
      var gbitIdx := byteIdx * 8 + rbitIdx;
      assert gbitIdx / 8 == byteIdx && gbitIdx % 8 == rbitIdx;
      assert !Taken(gbitIdx);
      forall j: nat | j < gbitIdx
        ensures Taken(j)
      {
        if j / 8 < byteIdx {
          assert bits[j / 8] == 0xFF;
        } else {
          assert j / 8 == byteIdx && j % 8 < rbitIdx;
        }
      }
      return Some(gbitIdx);
    }

    /**
     * `bitmap_scan`: with cnt == 1, the lowest free bit, or -1 when every
     * bit in use is taken.  With any other cnt it goes on from that bit,
     * counting consecutive indices that `Test` reports free, and returns
     * the start of the first run of cnt; it reads byte `next_bit` for every
     * index up to 8 * size, past the buffer once that exceeds it.  Only
     * reads the bitmap.
     */
    method Scan(cnt: nat) returns (r: ScanResult)
      requires Valid()
      ensures FirstFreeFrom(0).None? ==> r == NotFound
      ensures cnt == 1 && FirstFreeFrom(0).Some? ==> r == Found(FirstFreeFrom(0).value)
      ensures cnt != 1 && FirstFreeFrom(0).Some? ==> RunOutcome(FirstFreeFrom(0).value, cnt, r)
    {
      var first := FindFirstFree();
      if first.None? {
        return NotFound;
      }
      var gbitIdx := first.value;
      if cnt == 1 {
        return Found(gbitIdx);
      }
      r := ScanRun(gbitIdx, cnt);
    }

    /**
     * The second part of `bitmap_scan`, run from the first free bit g when
     * cnt is not 1: count consecutive free indices up to 8 * size.
     */
    method ScanRun(g: nat, cnt: nat) returns (r: ScanResult)
      requires Valid() && g < 8 * size
      ensures RunOutcome(g, cnt, r)
    {
      var numBits := size * 8 - g;
      var nextBit := g + 1;
      var foundBits := 1;
      r := NotFound;
      while numBits > 0
        invariant nextBit + numBits == 8 * size + 1
        invariant g < nextBit <= 8 * size + 1
        invariant nextBit - 1 == g || nextBit - 1 < bits.Length
        invariant foundBits == RunAt(g, nextBit - 1)
        invariant forall m: nat :: g < m < nextBit ==> RunAt(g, m) != cnt
      {
        numBits := numBits - 1;
        if nextBit >= bits.Length {
          assert RunOutcome(g, cnt, OutOfBounds);
          return OutOfBounds;
        }
        if !Test(nextBit) {
          foundBits := foundBits + 1;
        } else {
          foundBits := 0;
        }
        assert foundBits == RunAt(g, nextBit);
        if foundBits == cnt {
          r := Found(nextBit - cnt + 1);
          assert RunOutcome(g, cnt, r);
          return;
        }
        nextBit := nextBit + 1;
      }
    }

    /**
     * A start bit found by the multi-bit search begins a run of cnt indices
     * that are all free: the first free bit g, or reported free by `Test`.
     */
    lemma FoundRunIsFree(g: nat, cnt: nat, x: nat, i: nat)
      requires Valid() && g < 8 * size && cnt >= 1 && RunOutcome(g, cnt, Found(x))
      requires x <= i < x + cnt && i != g
      ensures g <= x && i < bits.Length && !Test(i)
    {
      RunIsFree(g, x + cnt - 1, i);
    }

    /**
     * The multi-bit search has one outcome: once a run of cnt is found at x,
     * no other start, no -1 and no read past the buffer is reported.
     */
    lemma RunOutcomeUnique(g: nat, cnt: nat, x: nat, r: ScanResult)
      requires Valid() && g < 8 * size && RunOutcome(g, cnt, Found(x)) && RunOutcome(g, cnt, r)
      ensures r == Found(x)
    {
      var n := x + cnt - 1;
      assert RunAt(g, n) == cnt;
      match r
      case Found(y) =>
        var n' := y + cnt - 1;
        assert RunAt(g, n') == cnt;
      case NotFound =>
      case OutOfBounds =>
    }

    /**
     * `bitmap_release`: the bits in[0..cnt) become free; every other bit is
     * unchanged.
     */
    method Release(inBits: seq<nat>, cnt: nat)
      modifies bits
      requires cnt <= |inBits|
      requires forall k :: 0 <= k < cnt ==> inBits[k] / 8 < bits.Length
      ensures forall j: nat :: j < 8 * bits.Length ==> Taken(j) == (old(Taken(j)) && j !in inBits[..cnt])
    {
      var i := 0;
      while i < cnt
        invariant i <= cnt
        invariant forall j: nat :: j < 8 * bits.Length ==> Taken(j) == (old(Taken(j)) && j !in inBits[..i])
      {
        Set(inBits[i], false);
        assert inBits[..i + 1] == inBits[..i] + [inBits[i]];
        i := i + 1;
      }
    }

    /** The taken flags of the bits in use, 0 .. 8 * size. */
    ghost function TakenBits(): (b: seq<bool>)
      reads this, bits
      requires Valid()
      ensures |b| == 8 * size
      ensures forall j :: 0 <= j < 8 * size ==> b[j] == Taken(j)
    {
      seq(8 * size, j requires 0 <= j < 8 * bits.Length reads this, bits => Taken(j))
    }

    /**
     * The success path of `bitmap_acquire` as written: every round of the
     * first loop scans for one bit on the unchanged bitmap and stores it at
     * out[i] after incrementing i, so out[1..cnt] all receive the same first
     * free bit; the second loop then marks out[0..cnt). When no bit is free
     * the source enters a loop that never ends; the model stops there with
     * ok false and nothing changed.
     */
    method AcquireAsWritten(out: seq<int>, cnt: nat) returns (ok: bool, written: seq<int>)
      modifies bits
      requires Valid() && cnt < |out|
      requires cnt >= 1 ==> 0 <= out[0] < 8 * bits.Length
      ensures ok == (cnt == 0 || old(FirstFreeFrom(0)).Some?)
      ensures !ok ==> written == out && forall j: nat :: j < 8 * bits.Length ==> Taken(j) == old(Taken(j))
      ensures ok && cnt == 0 ==> written == out && forall j: nat :: j < 8 * bits.Length ==> Taken(j) == old(Taken(j))
      ensures ok && cnt >= 1 ==> written == AcquiredAsWritten(out, old(FirstFreeFrom(0)).value, cnt)
      ensures ok ==> forall j: nat :: j < 8 * bits.Length ==> Taken(j) == (old(Taken(j)) || j in written[..cnt])
    {
      ghost var first := FirstFreeFrom(0);
      var i := 0;
      var g := 0;
      written := out;
      while g != -1 && i < cnt
        invariant i <= cnt && |written| == |out|
        invariant unchanged(bits) && FirstFreeFrom(0) == first
        invariant g != -1 ==> (i == 0 ==> written == out) && (i >= 1 ==> first.Some? && g == first.value)
        invariant g == -1 ==> first.None? && cnt >= 1
        invariant forall k :: 0 <= k < |out| ==> written[k] == if 1 <= k <= i then g else out[k]
        decreases cnt - i
      {
        i := i + 1;
        var r := Scan(1);
        g := if r.Found? then r.bit else -1;
        written := written[i := g];
      }
      assert unchanged(bits);
      if g == -1 {
        return false, out;
      }
      if cnt >= 1 {
        assert written == AcquiredAsWritten(out, first.value, cnt);
      }
      ok := true;
      var k := 0;
      while k < cnt
        invariant k <= cnt
        invariant forall j: nat :: j < 8 * bits.Length ==> Taken(j) == (old(Taken(j)) || j in written[..k])
      {
        Set(written[k], true);
        assert written[..k + 1] == written[..k] + [written[k]];
        k := k + 1;
      }
    }

    /**
     * One round of the corrected acquire: find the lowest free bit and mark it
     * taken, lowering the free count by one; or report that none is free.
     */
    method TakeFirstFree() returns (r: Option<nat>)
      modifies bits
      requires Valid()
      ensures r.None? ==> old(FreeCount(TakenBits())) == 0 && unchanged(bits)
      ensures r.Some? ==> r == old(FirstFreeFrom(0)) && r.value < 8 * size && !old(Taken(r.value))
      ensures r.Some? ==> forall j: nat :: j < 8 * bits.Length ==> Taken(j) == (j == r.value || old(Taken(j)))
      ensures r.Some? ==> FreeCount(TakenBits()) + 1 == old(FreeCount(TakenBits()))
    {
      r := FindFirstFree();
      if r.None? {
        FreeCountNone(TakenBits());
        return;
      }
      ghost var before := TakenBits();
      Set(r.value, true);
      assert TakenBits() == before[r.value := true];
      FreeCountTake(before, r.value);
    }

    /**
     * What `bitmap_acquire` is meant to do: take cnt distinct bits that were
     * free, or, when fewer than cnt bits are free, take none. Each found bit
     * is marked at once so that the next scan moves past it.
     */
    method Acquire(cnt: nat) returns (ok: bool, acquired: seq<nat>)
      modifies bits
      requires Valid()
      ensures ok == (cnt <= old(FreeCount(TakenBits())))
      ensures ok ==> |acquired| == cnt
      ensures ok ==> forall a, b :: 0 <= a < b < |acquired| ==> acquired[a] != acquired[b]
      ensures ok ==> forall k :: 0 <= k < |acquired| ==> acquired[k] < 8 * size && !old(Taken(acquired[k]))
      ensures ok ==> forall j: nat :: j < 8 * bits.Length ==> Taken(j) == (old(Taken(j)) || j in acquired)
      ensures !ok ==> acquired == [] && forall j: nat :: j < 8 * bits.Length ==> Taken(j) == old(Taken(j))
    {
      ghost var start := TakenBits();
      acquired := [];
      while |acquired| < cnt
        invariant |acquired| <= cnt
        invariant forall a, b :: 0 <= a < b < |acquired| ==> acquired[a] != acquired[b]
        invariant forall k :: 0 <= k < |acquired| ==> acquired[k] < 8 * size && !old(Taken(acquired[k]))
        invariant forall j: nat :: j < 8 * bits.Length ==> Taken(j) == (old(Taken(j)) || j in acquired)
        invariant FreeCount(TakenBits()) + |acquired| == FreeCount(start)
      {
        var r := TakeFirstFree();
        if r.None? {
          Release(acquired, |acquired|);
          assert acquired[..|acquired|] == acquired;
          return false, [];
        }
        acquired := acquired + [r.value];
      }
      ok := true;
    }
  }
}
