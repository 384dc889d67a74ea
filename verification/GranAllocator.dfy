/** The granule allocator: a bitmap of granules searched with a sliding 64-bit window.
    A set bit is an allocated granule. */
module GranAllocator {
  import opened Arith
  import opened Basics
  import opened Words

  type Table = seq<Word32>

  /** Bit i of the table: is granule i allocated? */
  predicate Bit(t: Table, i: nat)
    requires i < 32 * |t|
  {
    t[i / 32][i % 32]
  }

  /** Granules [p, p + k) lie among the first n and are all free. */
  ghost predicate Fits(t: Table, n: nat, p: nat, k: nat)
    requires n <= 32 * |t|
  {
    p + k <= n && forall i | p <= i < p + k :: !Bit(t, i)
  }

  /** p is the lowest place where k granules fit. */
  ghost predicate FirstFit(t: Table, n: nat, p: nat, k: nat)
    requires n <= 32 * |t|
  {
    Fits(t, n, p, k) && forall q: nat | q < p :: !Fits(t, n, q, k)
  }

  /** The table with the bits of [p, p + k) set to v and no other bit changed. */
  function WithRange(t: Table, p: nat, k: nat, v: bool): (r: Table)
    ensures |r| == |t|
    ensures forall i: nat | i < 32 * |t| :: Bit(r, i) == if p <= i < p + k then v else Bit(t, i)
  {
    seq(|t|, w requires 0 <= w < |t| => RangeWord(t[w], 32 * w, p, k, v))
  }

  function RangeWord(w: Word32, base: nat, p: nat, k: nat, v: bool): (r: Word32)
    ensures forall b | 0 <= b < 32 :: r[b] == if p <= base + b < p + k then v else w[b]
  {
    seq(32, b requires 0 <= b < 32 => if p <= base + b < p + k then v else w[b])
  }

  lemma TableExt(s: Table, t: Table)
    requires |s| == |t|
    requires forall i: nat | i < 32 * |t| :: Bit(s, i) == Bit(t, i)
    ensures s == t
  {
    forall w | 0 <= w < |s| ensures s[w] == t[w] {
      forall b | 0 <= b < 32 ensures s[w][b] == t[w][b] {
        assert Bit(s, 32 * w + b) == Bit(t, 32 * w + b);
      }
    }
  }

  /** Freeing a block that was free before it was marked restores the table exactly. */
  lemma MarkThenFree(t: Table, n: nat, p: nat, k: nat)
    requires n <= 32 * |t| && Fits(t, n, p, k)
    ensures WithRange(WithRange(t, p, k, true), p, k, false) == t
  {
    TableExt(WithRange(WithRange(t, p, k, true), p, k, false), t);
  }

  /** k bits of the window from position b on are all clear. */
  ghost predicate WindowFree(w: Word, b: nat, k: nat)
  {
    b + k <= |w| && forall i | b <= i < b + k :: !w[i]
  }

  /** The window (curr, next) shows bits [b, b + 64) of w, zeros after its end. */
  ghost predicate Shows(curr: Word32, next: Word32, w: Word, b: nat)
    requires |w| == 64
  {
    && (forall i | 0 <= i < 32 :: curr[i] == (b + i < 64 && w[b + i]))
    && (forall i | 0 <= i < 32 :: next[i] == (b + 32 + i < 64 && w[b + 32 + i]))
  }

  lemma ShiftWindow(curr: Word32, next: Word32, w: Word, b: nat, s: nat)
    requires |w| == 64 && Shows(curr, next, w, b) && 0 < s <= 32
    ensures Shows(Or(Shr(curr, s), Shl(next, 32 - s)), Shr(next, s), w, b + s)
  {
  }

  /** How far the window may move: over the first 16, 8, 4 or 2 bits when all of them are set,
      else by one bit, unless the k granules are free right here. */
  method NextShift(curr: Word32, k: nat) returns (hit: bool, shift: nat)
    requires 1 <= k <= 32
    ensures hit <==> WindowFree(curr, 0, k)
    ensures 1 <= shift <= 16
    ensures !hit ==> (forall i | 0 <= i < shift :: curr[i]) || shift == 1
  {
    var mask := Shr(Ones(32), 32 - k);
    assert mask == LowMask(32, k);
    assert WindowFree(curr, 0, k) ==> !curr[0];
    hit, shift := false, 1;
    if LowAllOnes(curr, 16) {
      shift := 16;
    } else if LowAllOnes(curr, 8) {
      shift := 8;
    } else if LowAllOnes(curr, 4) {
      shift := 4;
    } else if LowAllOnes(curr, 2) {
      shift := 2;
    } else {
      assert And(curr, mask) == Zeros(32) <==> LowAllZero(curr, k);
      hit := And(curr, mask) == Zeros(32);
    }
  }

  /** The inner search loop: slide the window over one word and find the first place in it
      where k granules starting below bit 32 are free, or report that there is none. */
  method ScanWord(word: Word32, after: Word32, base: nat, n: nat, k: nat, start: nat, gran: nat)
    returns (found: bool, bitidx: nat, alloc: nat)
    requires 1 <= k <= 32
    ensures found ==> bitidx < 32 && base + bitidx + k <= n && WindowFree(word + after, bitidx, k)
    ensures found ==> alloc == start + bitidx * gran
    ensures forall c: nat | c < (if found then bitidx else 32) && base + c + k <= n ::
              !WindowFree(word + after, c, k)
  {
    var curr: Word32, next: Word32 := word, after;
    bitidx, alloc := 0, start;
    ghost var w := word + after;
    assert Shows(curr, next, w, 0);
    hide Shows, WindowFree, Or, Shr, Shl;
    while bitidx < 32 && base + bitidx + k <= n
      invariant Shows(curr, next, w, bitidx)
      invariant alloc == start + bitidx * gran
      invariant forall c: nat | c < bitidx && c < 32 && base + c + k <= n :: !WindowFree(w, c, k)
      decreases 32 - bitidx
    {
      if curr == Ones(32) {
        SkipOnes(curr, next, w, bitidx, 32 - bitidx, k);
        return false, bitidx, alloc;
      }
      var hit, shift := NextShift(curr, k);
      HereFree(curr, next, w, bitidx, k);
      if hit {
        return true, bitidx, alloc;
      }
      if shift > 1 {
        SkipOnes(curr, next, w, bitidx, shift, k);
      }
      ShiftWindow(curr, next, w, bitidx, shift);
      MulDist(bitidx, shift, gran);
      alloc := alloc + shift * gran;
      curr, next := Or(Shr(curr, shift), Shl(next, 32 - shift)), Shr(next, shift);
      bitidx := bitidx + shift;
    }
    found := false;
  }

  lemma HereFree(curr: Word32, next: Word32, w: Word, b: nat, k: nat)
    requires |w| == 64 && Shows(curr, next, w, b) && b < 32 && k <= 32
    ensures WindowFree(curr, 0, k) <==> WindowFree(w, b, k)
  {
    if WindowFree(curr, 0, k) {
      forall i | b <= i < b + k ensures !w[i] {
        assert !curr[i - b];
      }
    }
  }

  lemma MulDist(x: int, y: int, a: int)
    ensures (x + y) * a == x * a + y * a
  {
  }

  /** No run of free granules starts where the window starts with s set bits. */
  lemma SkipOnes(curr: Word32, next: Word32, w: Word, b: nat, s: nat, k: nat)
    requires |w| == 64 && Shows(curr, next, w, b) && s <= 32 && k >= 1
    requires forall i | 0 <= i < s :: curr[i]
    ensures forall c: nat | b <= c < b + s :: !WindowFree(w, c, k)
  {
    forall c: nat | b <= c < b + s ensures !WindowFree(w, c, k) {
      assert curr[c - b];
    }
  }

  /** What the window sees from word g on is what the table holds, whatever follows the table. */
  lemma WindowIsTable(t: Table, n: nat, g: nat, after: Word32, c: nat, k: nat)
    requires g < |t| && n <= 32 * |t| && c < 32 && k <= 32 && 32 * g + c + k <= n
    requires g + 1 < |t| ==> after == t[g + 1]
    ensures WindowFree(t[g] + after, c, k) <==> Fits(t, n, 32 * g + c, k)
  {
    var w := t[g] + after;
    assert forall i: nat | c <= i < c + k :: w[i] == Bit(t, 32 * g + i);
    if WindowFree(w, c, k) {
      forall i | 32 * g + c <= i < 32 * g + c + k ensures !Bit(t, i) {
        assert !w[i - 32 * g];
      }
    }
  }

  lemma FullWordFitsNothing(t: Table, n: nat, g: nat, k: nat)
    requires g < |t| && n <= 32 * |t| && k >= 1
    requires t[g] == Ones(32)
    ensures forall q: nat | 32 * g <= q < 32 * g + 32 :: !Fits(t, n, q, k)
  {
    forall q: nat | 32 * g <= q < 32 * g + 32 ensures !Fits(t, n, q, k) {
      if q < 32 * |t| {
        assert Bit(t, q);
      }
    }
  }

  lemma RoundUp(size: nat, g: nat)
    requires g > 0
    ensures var k := (size + (g - 1)) / g; (k - 1) * g < size <= k * g
  {
    var k := (size + (g - 1)) / g;
    DivBounds(size + (g - 1), g);
    MulDist(k, -1, g);
  }

  /** SIZEOF_GAT */
  function GatWords(n: nat): (w: nat)
    ensures n <= 32 * w < n + 32
  {
    (n + 31) / 32
  }

  /** SIZEOF_MM_GRAN: the structure is 24 bytes with one table word in it at offset 16, so the
      header also covers one word behind the table. */
  function HeaderBytes(words: nat): (b: nat)
    ensures 16 + 4 * (words + 1) <= b
  {
    20 + 4 * words
  }

  /** Granules between two addresses; behind the end the unsigned difference wraps around. */
  function Count(from: nat, end: nat, gran: nat): (n: nat)
    requires gran > 0
    ensures from <= end ==> n * gran <= end - from < n * gran + gran
  {
    if from <= end then DivBounds(end - from, gran); (end - from) / gran
    else
      (end - from) % 0x1_0000_0000_0000_0000 / gran % 0x1_0000_0000
  }

  lemma CountMono(from: nat, from': nat, end: nat, gran: nat)
    requires gran > 0 && from <= from' <= end
    ensures Count(from', end, gran) <= Count(from, end, gran)
  {
    DivMono(end - from', end - from, gran);
  }

  /** The first count of granules, taken before the header is set aside. */
  function FirstCount(start: nat, size: nat, gran: nat, align: nat): (n: nat)
    requires gran > 0 && align > 0
    ensures var a := AlignUp(start, align); a <= start + size ==> n * gran <= start + size - a < n * gran + gran
  {
    Count(AlignUp(start, align), start + size, gran)
  }

  /** The header and the alignment behind it leave the heap a start before its end. */
  predicate HeaderFits(start: nat, size: nat, gran: nat, align: nat)
    requires gran > 0 && align > 0
  {
    AlignUp(start + HeaderBytes(GatWords(FirstCount(start, size, gran, align))), align) <= start + size
  }

  /** No header fits into memory shorter than itself. */
  lemma NoRoom(start: nat, size: nat, gran: nat, align: nat)
    requires gran > 0 && align > 0 && size < HeaderBytes(GatWords(FirstCount(start, size, gran, align)))
    ensures !HeaderFits(start, size, gran, align)
  {
  }

  /** The heap is at the first aligned address behind the header, ends inside the memory, wastes less than one
      granule at its end, and the table has a bit for each granule. */
  ghost predicate HeapInside(start: nat, size: nat, words: nat, heapstart: nat, n: nat, gran: nat, align: nat)
    requires align > 0
  {
    && n <= 32 * words
    && heapstart % align == 0
    && start + 24 + 4 * (words - 1) <= heapstart < start + 24 + 4 * (words - 1) + align
    && heapstart + n * gran <= start + size < heapstart + n * gran + gran
  }

  /** The second measurement of the heap, behind the header. */
  method Measure(start: nat, size: nat, gran: nat, align: nat) returns (heapstart: nat, n: nat)
    requires gran > 0 && align > 0
    ensures HeapInside(start, size, GatWords(FirstCount(start, size, gran, align)), heapstart, n, gran, align) <==>
            HeaderFits(start, size, gran, align)
    ensures HeaderFits(start, size, gran, align) <==> heapstart <= start + size
  {
    hide Count, AlignUp, GatWords;
    var head := HeaderBytes(GatWords(FirstCount(start, size, gran, align)));
    heapstart := AlignUp(start + head, align);
    n := Count(heapstart, start + size, gran);
    if heapstart <= start + size {
      AlignUpMono(start, start + head, align);
      CountMono(AlignUp(start, align), heapstart, start + size, gran);
    } else {
      MulMono(0, n, gran);
    }
  }

  class Gran {
    const log2gran: nat
    const ngranules: nat
    const heapstart: nat
    const gat: array<Word32>

    ghost predicate Valid()
    {
      ngranules <= 32 * gat.Length && log2gran < 32
    }

    /** gran_initialize: the header and its table sit at the start of the heap memory, which is
        then measured a second time without them.  The table is the memory as found, not cleared. */
    constructor (start: nat, size: nat, log2gran: nat, log2align: nat, memory: array<Word32>)
      requires 0 < start && 0 < size && 0 < log2gran < 32 && log2align <= log2gran
      requires memory.Length == GatWords(FirstCount(start, size, Pow2(log2gran), Pow2(log2align)))
      ensures gat == memory && this.log2gran == log2gran
      ensures var gran, align := Pow2(log2gran), Pow2(log2align);
              && (HeapInside(start, size, gat.Length, heapstart, ngranules, gran, align) <==>
                  HeaderFits(start, size, gran, align))
              && (HeaderFits(start, size, gran, align) ==> Valid())
              && (HeaderFits(start, size, gran, align) <==> heapstart <= start + size)
    {
      var alignedstart, n := Measure(start, size, Pow2(log2gran), Pow2(log2align));
      this.log2gran := log2gran;
      this.ngranules := n;
      this.heapstart := alignedstart;
      gat := memory;
    }

    /** Granules needed for size bytes. */
    function Granules(size: nat): (k: nat)
    {
      (size + (Pow2(log2gran) - 1)) / Pow2(log2gran)
    }

    /** They are enough for all the bytes, and not one more. */
    lemma GranulesFit(size: nat)
      ensures (Granules(size) - 1) * Pow2(log2gran) < size <= Granules(size) * Pow2(log2gran)
    {
      RoundUp(size, Pow2(log2gran));
    }

    /** gran_alloc.  The word behind the table is read while the last word is searched;
        `beyond` is whatever it holds. */
    method Alloc(size: nat, beyond: Word32) returns (r: Option<nat>)
      requires Valid()
      requires size <= 32 * Pow2(log2gran)
      modifies gat
      ensures r.None? ==> gat[..] == old(gat[..])
      ensures r.None? ==> size == 0 || forall p: nat :: !Fits(gat[..], ngranules, p, Granules(size))
      ensures r.Some? ==> size > 0 && exists p: nat ::
                  && FirstFit(old(gat[..]), ngranules, p, Granules(size))
                  && r.value == heapstart + p * Pow2(log2gran)
                  && gat[..] == WithRange(old(gat[..]), p, Granules(size), true)
    {
      if size > 0 {
        var k := Granules(size);
        GranulesBound(size, log2gran);
        var granidx := 0;
        while granidx < ngranules
          invariant granidx % 32 == 0
          invariant gat[..] == old(gat[..])
          invariant forall q: nat | q < granidx :: !Fits(gat[..], ngranules, q, k)
        {
          var gatidx := granidx / 32;
          var curr := gat[gatidx];
          ghost var t := gat[..];
          if curr == Ones(32) {
            FullWordFitsNothing(t, ngranules, gatidx, k);
          } else {
            var next := if gatidx + 1 < gat.Length then gat[gatidx + 1] else beyond;
            var found, bitidx, alloc :=
              ScanWord(curr, next, granidx, ngranules, k, heapstart + granidx * Pow2(log2gran), Pow2(log2gran));
            forall c: nat | c < 32 && granidx + c + k <= ngranules
              ensures WindowFree(curr + next, c, k) <==> Fits(t, ngranules, granidx + c, k)
            {
              WindowIsTable(t, ngranules, gatidx, next, c, k);
            }
            if found {
              ghost var p := granidx + bitidx;
              MulDist(granidx, bitidx, Pow2(log2gran));
              forall q: nat | q < p ensures !Fits(t, ngranules, q, k) {
                if q >= granidx {
                  assert !WindowFree(curr + next, q - granidx, k) || q + k > ngranules;
                }
              }
              MarkAllocated(alloc, k, p);
              return Some(alloc);
            }
            forall q: nat | q < granidx + 32 ensures !Fits(t, ngranules, q, k) {
              if q >= granidx {
                assert !WindowFree(curr + next, q - granidx, k) || q + k > ngranules;
              }
            }
          }
          granidx := granidx + 32;
        }
        forall p: nat ensures !Fits(gat[..], ngranules, p, k) {
        }
      }
      r := None;
    }

    /** (addr - heapstart) >> log2gran */
    method GranuleNumber(addr: nat, ghost p: nat) returns (granno: nat)
      requires addr == heapstart + p * Pow2(log2gran)
      ensures granno == p
    {
      DivMul(p, Pow2(log2gran));
      granno := (addr - heapstart) / Pow2(log2gran);
    }

    /** One word of gran_mark_allocated: the bits of [p, p + k) in word g, all free, are set. */
    method MarkWord(g: nat, mask: Word32, ghost t: Table, ghost p: nat, ghost k: nat)
      requires |t| == gat.Length && g < |t| && gat[g] == t[g] && Selects(mask, g, p, k)
      requires p + k <= 32 * |t| && forall i | p <= i < p + k :: !Bit(t, i)
      modifies gat
      ensures gat[..] == old(gat[..])[g := RangeWord(t[g], 32 * g, p, k, true)]
    {
      Masked(t, g, p, k, mask, false);
      assert And(gat[g], mask) == Zeros(32);
      gat[g] := Or(gat[g], mask);
    }

    /** gran_mark_allocated.  The assertions of the source are asserts in MarkWord. */
    method MarkAllocated(alloc: nat, ngran: nat, ghost p: nat)
      requires Valid() && 1 <= ngran <= 32
      requires alloc == heapstart + p * Pow2(log2gran)
      requires Fits(gat[..], ngranules, p, ngran)
      modifies gat
      ensures gat[..] == WithRange(old(gat[..]), p, ngran, true)
    {
      var granno := GranuleNumber(alloc, p);
      var gatidx, gatbit := granno / 32, granno % 32;
      var avail := 32 - gatbit;
      ghost var t := gat[..];
      assert p == 32 * gatidx + gatbit;
      MasksSelect(gatidx, gatbit, ngran);
      hide Selects, RangeWord, WithRange;
      if ngran > avail {
        TwoWords(t, gatidx, p, ngran, true);
        MarkWord(gatidx, Shl(Ones(32), gatbit), t, p, ngran);
        MarkWord(gatidx + 1, Shr(Ones(32), 32 - (ngran - avail)), t, p, ngran);
      } else {
        OneWord(t, gatidx, p, ngran, true);
        MarkWord(gatidx, Shl(Shr(Ones(32), 32 - ngran), gatbit), t, p, ngran);
      }
    }

    /** One word of gran_free: the bits of [p, p + k) in word g, all set, are cleared. */
    method FreeWord(g: nat, mask: Word32, ghost t: Table, ghost p: nat, ghost k: nat)
      requires |t| == gat.Length && g < |t| && gat[g] == t[g] && Selects(mask, g, p, k)
      requires p + k <= 32 * |t| && forall i | p <= i < p + k :: Bit(t, i)
      modifies gat
      ensures gat[..] == old(gat[..])[g := RangeWord(t[g], 32 * g, p, k, false)]
    {
      Masked(t, g, p, k, mask, true);
      assert And(gat[g], mask) == mask;
      gat[g] := And(gat[g], Not(mask));
    }

    /** gran_free, for a block of allocated granules. */
    method Free(memory: nat, size: nat, ghost p: nat)
      requires Valid() && 0 < size <= 32 * Pow2(log2gran)
      requires memory == heapstart + p * Pow2(log2gran)
      requires p + Granules(size) <= ngranules
      requires forall i | p <= i < p + Granules(size) :: Bit(gat[..], i)
      modifies gat
      ensures gat[..] == WithRange(old(gat[..]), p, Granules(size), false)
    {
      var granno := GranuleNumber(memory, p);
      var gatidx, gatbit := granno / 32, granno % 32;
      var ngran := Granules(size);
      GranulesBound(size, log2gran);
      var avail := 32 - gatbit;
      ghost var t := gat[..];
      assert p == 32 * gatidx + gatbit;
      MasksSelect(gatidx, gatbit, ngran);
      hide Selects, RangeWord, WithRange;
      if ngran > avail {
        TwoWords(t, gatidx, p, ngran, false);
        FreeWord(gatidx, Shl(Ones(32), gatbit), t, p, ngran);
        FreeWord(gatidx + 1, Shr(Ones(32), 32 - (ngran - avail)), t, p, ngran);
      } else {
        OneWord(t, gatidx, p, ngran, false);
        FreeWord(gatidx, Shl(Shr(Ones(32), 32 - ngran), gatbit), t, p, ngran);
      }
    }
  }

  /** A mask that selects the bits of [p, p + k) in word g, all of which have value v. */
  lemma Masked(t: Table, g: nat, p: nat, k: nat, mask: Word32, v: bool)
    requires g < |t| && p + k <= 32 * |t|
    requires forall i | p <= i < p + k :: Bit(t, i) == v
    requires Selects(mask, g, p, k)
    ensures And(t[g], mask) == if v then mask else Zeros(32)
    ensures Or(t[g], mask) == RangeWord(t[g], 32 * g, p, k, true)
    ensures And(t[g], Not(mask)) == RangeWord(t[g], 32 * g, p, k, false)
  {
    forall b | 0 <= b < 32 && mask[b] ensures t[g][b] == v {
      assert Bit(t, 32 * g + b) == v;
    }
  }

  /** The words that the shifts of the source build select exactly [p, p + k). */
  lemma MasksSelect(g: nat, bit: nat, k: nat)
    requires bit < 32 && 1 <= k <= 32
    ensures var p := 32 * g + bit;
            if k > 32 - bit then
              && Selects(Shl(Ones(32), bit), g, p, k)
              && Selects(Shr(Ones(32), 32 - (k - (32 - bit))), g + 1, p, k)
            else
              Selects(Shl(Shr(Ones(32), 32 - k), bit), g, p, k)
  {
  }

  ghost predicate Selects(mask: Word32, g: nat, p: nat, k: nat) {
    forall b | 0 <= b < 32 :: mask[b] == (p <= 32 * g + b < p + k)
  }

  lemma TwoWords(t: Table, g: nat, p: nat, k: nat, v: bool)
    requires 32 * g <= p < 32 * g + 32 && p + k <= 32 * g + 64 && g + 1 < |t|
    ensures WithRange(t, p, k, v) ==
            t[g := RangeWord(t[g], 32 * g, p, k, v)][g + 1 := RangeWord(t[g + 1], 32 * (g + 1), p, k, v)]
  {
    Unmasked(t, p, k, v);
  }

  lemma OneWord(t: Table, g: nat, p: nat, k: nat, v: bool)
    requires 32 * g <= p && p + k <= 32 * g + 32 && g < |t|
    ensures WithRange(t, p, k, v) == t[g := RangeWord(t[g], 32 * g, p, k, v)]
  {
    Unmasked(t, p, k, v);
  }

  /** Words that [p, p + k) does not meet stay as they are. */
  lemma Unmasked(t: Table, p: nat, k: nat, v: bool)
    ensures forall g | 0 <= g < |t| && (p + k <= 32 * g || 32 * g + 32 <= p) ::
              RangeWord(t[g], 32 * g, p, k, v) == t[g]
  {
  }

  lemma GranulesBound(size: nat, log2gran: nat)
    requires 0 < size <= 32 * Pow2(log2gran)
    ensures 1 <= (size + (Pow2(log2gran) - 1)) / Pow2(log2gran) <= 32
  {
    var g := Pow2(log2gran);
    var k := (size + (g - 1)) / g;
    if k >= 33 {
      MulMono(33, k, g);
    } else if k < 1 {
      MulMono(k, 0, g);
    }
  }

  /** Eight bytes at address 100 with granules of two: the heap begins behind them. */
  method TinyHeap(memory: array<Word32>) returns (g: Gran)
    requires memory.Length == 1
    ensures g.heapstart > 100 + 8
  {
    assert Pow2(1) == 2 && Pow2(0) == 1;
    assert AlignUp(100, 1) == 100 && FirstCount(100, 8, 2, 1) == 4;
    NoRoom(100, 8, 2, 1);
    g := new Gran(100, 8, 1, 0, memory);
  }
}
