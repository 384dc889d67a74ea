/** Bitmaps of 64-bit words: setting and clearing ranges, and the search for the next bit. */
module Bitmap {
  import opened Words

  type Map = seq<Word64>

  const ONES64: Word64 := Ones(64)

  const ZEROS64: Word64 := Zeros(64)

  predicate Bit(m: Map, i: nat)
    requires i < 64 * |m|
  {
    m[i / 64][i % 64]
  }

  /** m with the bits of [lo, hi) set to v and no other bit changed. */
  function WithBits(m: Map, lo: nat, hi: nat, v: bool): (r: Map)
    ensures |r| == |m|
    ensures forall i: nat | i < 64 * |m| :: Bit(r, i) == if lo <= i < hi then v else Bit(m, i)
  {
    seq(|m|, w requires 0 <= w < |m| => WordWith(m[w], 64 * w, lo, hi, v))
  }

  function WordWith(w: Word64, base: nat, lo: nat, hi: nat, v: bool): (r: Word64)
    ensures forall b | 0 <= b < 64 :: r[b] == if lo <= base + b < hi then v else w[b]
  {
    seq(64, b requires 0 <= b < 64 => if lo <= base + b < hi then v else w[b])
  }

  /** BITMAP_FIRST_WORD_MASK */
  function FirstWordMask(start: nat): (m: Word64)
    ensures forall b | 0 <= b < 64 :: m[b] == (start % 64 <= b)
  {
    Shl(ONES64, start % 64)
  }

  /** BITMAP_LAST_WORD_MASK */
  function LastWordMask(nbits: nat): (m: Word64)
    ensures forall b | 0 <= b < 64 :: m[b] == (nbits % 64 == 0 || b < nbits % 64)
  {
    if nbits % 64 != 0 then LowMask(64, nbits % 64) else ONES64
  }

  /** One word of bitmap_set or bitmap_clear: `*p |= mask` or `*p &= ~mask`. */
  function Apply(w: Word64, mask: Word64, v: bool): (r: Word64)
    ensures forall b | 0 <= b < 64 :: r[b] == if mask[b] then v else w[b]
  {
    if v then Or(w, mask) else And(w, Not(mask))
  }

  /** mask selects the bits of [lo, hi) in word p. */
  ghost predicate Selects(mask: Word64, p: nat, lo: nat, hi: nat) {
    forall b | 0 <= b < 64 :: mask[b] == (lo <= 64 * p + b < hi)
  }

  lemma LastSelects(mask: Word64, p: nat, lo: nat, hi: nat)
    requires Selects(mask, p, lo, 64 * p + 64) && 64 * p < hi < 64 * p + 64
    ensures Selects(And(mask, LastWordMask(hi)), p, lo, hi)
  {
    assert hi % 64 == hi - 64 * p;
  }

  lemma NothingChanged(m: Map, at: nat, v: bool)
    ensures WithBits(m, at, at, v) == m
  {
    forall w | 0 <= w < |m| ensures WithBits(m, at, at, v)[w] == m[w] {
      assert WordWith(m[w], 64 * w, at, at, v) == m[w];
    }
  }

  /** What an iteration does to word p, having done [start, done). */
  lemma ApplyWord(m: Map, p: nat, start: nat, done: nat, hi: nat, mask: Word64, v: bool)
    requires p < |m| && start <= done <= hi && 64 * p <= done && hi <= 64 * p + 64
    requires done == start || done == 64 * p
    requires Selects(mask, p, done, hi)
    ensures WithBits(m, start, done, v)[p := Apply(WithBits(m, start, done, v)[p], mask, v)] ==
            WithBits(m, start, hi, v)
  {
    var a, b := WithBits(m, start, done, v), WithBits(m, start, hi, v);
    forall w | 0 <= w < |m| && w != p ensures a[w] == b[w] {
      assert a[w] == WordWith(m[w], 64 * w, start, done, v);
      assert b[w] == WordWith(m[w], 64 * w, start, hi, v);
    }
    assert Apply(a[p], mask, v) == b[p];
  }

  /** bitmap_set (v) and bitmap_clear (!v), which differ in the operator only. */
  method Fill(map_: array<Word64>, start: nat, length: nat, v: bool)
    requires start + length <= 64 * map_.Length
    modifies map_
    ensures map_[..] == WithBits(old(map_[..]), start, start + length, v)
  {
    var p, size, len := start / 64, start + length, length;
    var bits := 64 - start % 64;
    var mask: Word64 := FirstWordMask(start);
    ghost var m, done := map_[..], start;
    NothingChanged(m, start, v);
    assert Selects(mask, p, start, 64 * p + 64);
    while len - bits >= 0
      invariant 0 <= len && done + len == size && start <= done && 64 * p <= done
      invariant 0 < bits && done + bits == 64 * p + 64
      invariant done == start || done == 64 * p
      invariant Selects(mask, p, done, 64 * p + 64)
      invariant map_[..] == WithBits(m, start, done, v)
    {
      ApplyWord(m, p, start, done, done + bits, mask, v);
      map_[p] := Apply(map_[p], mask, v);
      len, done := len - bits, done + bits;
      bits := 64;
      mask := ONES64;
      p := p + 1;
    }
    if len != 0 {
      LastSelects(mask, p, done, size);
      mask := And(mask, LastWordMask(size));
      ApplyWord(m, p, start, done, size, mask, v);
      map_[p] := Apply(map_[p], mask, v);
    }
  }

  /** __ffs: the number of the least set bit. */
  method Ffs(w: Word64) returns (b: nat)
    requires w != ZEROS64
    ensures b < 64 && w[b] && forall c | 0 <= c < b :: !w[c]
  {
    b := 0;
    while !w[b]
      invariant b < 64 && forall c | 0 <= c < b :: !w[c]
      decreases 64 - b
    {
      assert b == 63 ==> w == ZEROS64;
      b := b + 1;
    }
  }

  /** Bit i of what _find_next_bit searches: the and of both maps, inverted on demand. */
  predicate Wanted(m1: Map, m2: Map, invert: bool, i: nat)
    requires i < 64 * |m1| && (m2 == [] || |m2| == |m1|)
  {
    (Bit(m1, i) && (m2 == [] || Bit(m2, i))) != invert
  }

  /** The word that holds the searched bits from 64 * p on; no second map is []. */
  function Fetch(m1: Map, m2: Map, invert: bool, p: nat): (w: Word64)
    requires p < |m1| && (m2 == [] || |m2| == |m1|)
    ensures forall b | 0 <= b < 64 :: w[b] == Wanted(m1, m2, invert, 64 * p + b)
  {
    var tmp := if m2 == [] then m1[p] else And(m1[p], m2[p]);
    Xor(tmp, if invert then ONES64 else ZEROS64)
  }

  /** _find_next_bit: the least wanted index in [start, nbits), or nbits. */
  method FindNextBit(m1: Map, m2: Map, nbits: nat, start: nat, invert: bool) returns (r: nat)
    requires nbits <= 64 * |m1| && (m2 == [] || |m2| == |m1|)
    ensures r <= nbits && (start <= r || r == nbits)
    ensures r < nbits ==> Wanted(m1, m2, invert, r)
    ensures NoneFound(m1, m2, invert, start, r)
  {
    if start >= nbits {
      return nbits;
    }
    var p := start / 64;
    var tmp: Word64 := And(Fetch(m1, m2, invert, p), FirstWordMask(start));
    ShowsFirst(m1, m2, invert, start, tmp);
    while tmp == ZEROS64
      invariant 64 * p < nbits && start < 64 * p + 64
      invariant Shows(tmp, m1, m2, invert, start, p)
      invariant NoneFound(m1, m2, invert, start, 64 * p)
      decreases nbits - 64 * p
    {
      NoneBelow(m1, m2, invert, start, p, tmp, 64);
      p := p + 1;
      if 64 * p >= nbits {
        return nbits;
      }
      tmp := Fetch(m1, m2, invert, p);
      ShowsNext(m1, m2, invert, start, p);
    }
    var b := Ffs(tmp);
    NoneBelow(m1, m2, invert, start, p, tmp, b);
    r := if 64 * p + b < nbits then 64 * p + b else nbits;
  }

  ghost predicate NoneFound(m1: Map, m2: Map, invert: bool, start: nat, end: nat)
    requires m2 == [] || |m2| == |m1|
  {
    forall i: nat | start <= i < end && i < 64 * |m1| :: !Wanted(m1, m2, invert, i)
  }

  /** tmp holds the searched bits of word p without those below start. */
  ghost predicate Shows(tmp: Word64, m1: Map, m2: Map, invert: bool, start: nat, p: nat)
    requires p < |m1| && (m2 == [] || |m2| == |m1|)
  {
    forall c | 0 <= c < 64 :: tmp[c] == (start <= 64 * p + c && Wanted(m1, m2, invert, 64 * p + c))
  }

  lemma ShowsFirst(m1: Map, m2: Map, invert: bool, start: nat, tmp: Word64)
    requires start / 64 < |m1| && (m2 == [] || |m2| == |m1|)
    requires tmp == And(Fetch(m1, m2, invert, start / 64), FirstWordMask(start))
    ensures Shows(tmp, m1, m2, invert, start, start / 64)
    ensures NoneFound(m1, m2, invert, start, 64 * (start / 64))
  {
  }

  lemma ShowsNext(m1: Map, m2: Map, invert: bool, start: nat, p: nat)
    requires p < |m1| && (m2 == [] || |m2| == |m1|) && NoneFound(m1, m2, invert, start, 64 * p)
    requires start <= 64 * p
    ensures Shows(Fetch(m1, m2, invert, p), m1, m2, invert, start, p)
  {
  }

  lemma NoneBelow(m1: Map, m2: Map, invert: bool, start: nat, p: nat, tmp: Word64, b: nat)
    requires p < |m1| && (m2 == [] || |m2| == |m1|) && b <= 64
    requires Shows(tmp, m1, m2, invert, start, p)
    requires forall c | 0 <= c < b :: !tmp[c]
    requires NoneFound(m1, m2, invert, start, 64 * p)
    ensures NoneFound(m1, m2, invert, start, 64 * p + b)
  {
    forall i: nat | start <= i < 64 * p + b && i < 64 * |m1| ensures !Wanted(m1, m2, invert, i) {
      if i >= 64 * p {
        assert !tmp[i - 64 * p];
      }
    }
  }

  /** find_next_zero_bit */
  method FindNextZeroBit(m: Map, nbits: nat, start: nat) returns (r: nat)
    requires nbits <= 64 * |m|
    ensures r <= nbits && (start <= r || r == nbits)
    ensures r < nbits ==> !Bit(m, r)
    ensures forall i: nat | start <= i < r :: Bit(m, i)
  {
    r := FindNextBit(m, [], nbits, start, true);
    forall i: nat | start <= i < r ensures Bit(m, i) {
      assert !Wanted(m, [], true, i);
    }
  }

  /** test_and_set_bit */
  method TestAndSetBit(map_: array<Word64>, nr: nat) returns (old_: bool)
    requires nr < 64 * map_.Length
    modifies map_
    ensures old_ == Bit(old(map_[..]), nr)
    ensures map_[..] == WithBits(old(map_[..]), nr, nr + 1, true)
  {
    var mask: Word64 := Shl(LowMask(64, 1), nr % 64);
    var p := nr / 64;
    ghost var m := map_[..];
    var was := map_[p];
    old_ := And(was, mask) != ZEROS64;
    assert And(was, mask)[nr % 64] == was[nr % 64];
    assert !was[nr % 64] ==> And(was, mask) == ZEROS64;
    NothingChanged(m, nr, true);
    ApplyWord(m, p, nr, nr, nr + 1, mask, true);
    map_[p] := Or(was, mask);
  }
}
