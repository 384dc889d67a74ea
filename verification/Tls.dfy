/** The static layout of thread-local storage: where the linker puts each module's block, on either
    side of the thread pointer (variants I and II of section 3 of "ELF Handling For Thread-Local
    Storage"), and where __copy_tls then places the blocks in memory. */
module Tls {
  import opened Arith
  import opened Masks

  const BITS := 64
  const GAP_ABOVE_TP := 16

  /** size_t arithmetic. */
  function Wrap(x: int): (r: nat) {
    Rem(x, Pow2(BITS))
  }

  /** MAXP2(a, b), that is -(-a & -b). */
  function MaxP2(a: nat, b: nat): (r: nat) {
    Wrap(0 - BitAnd(Wrap(0 - a), Wrap(0 - b)))
  }

  // ---------------------------------------------------------------------------------
  // Masks

  /** Wrap-around does not change the remainder by a smaller power of two. */
  lemma WrapRem(x: int, k: nat)
    requires k <= BITS
    ensures Rem(Wrap(x), Pow2(k)) == Rem(x, Pow2(k))
  {
    Pow2Add(BITS - k, k);
    hide Rem, Pow2;
    RemOfRem(x, Pow2(BITS - k), Pow2(k));
  }

  lemma Halve(n: nat, i: nat)
    requires 0 < n && i <= n && Pow2(if i == 0 then 0 else i - 1) <= Pow2(n - 1)
    ensures var x := Pow2(n) - Pow2(i);
            && x >= 0 && x / 2 == Pow2(n - 1) - Pow2(if i == 0 then 0 else i - 1)
            && x % 2 == if i == 0 then 1 else 0
  {
  }

  lemma {:induction false} HighAnd(n: nat, i: nat, j: nat)
    requires i <= n && j <= n
    ensures Pow2(i) <= Pow2(n) && Pow2(j) <= Pow2(n)
    ensures BitAnd(Pow2(n) - Pow2(i), Pow2(n) - Pow2(j)) == Pow2(n) - Pow2(if i < j then j else i)
    decreases n
  {
    hide BitAnd;
    if n == 0 {
      NoBits(0);
    } else {
      HighAnd(n - 1, if i == 0 then 0 else i - 1, if j == 0 then 0 else j - 1);
      Halve(n, i);
      Halve(n, j);
      AndHalves(Pow2(n) - Pow2(i), Pow2(n) - Pow2(j));
    }
  }

  lemma {:induction false} Pow2Less(i: nat, j: nat)
    requires i < j
    ensures Pow2(i) < Pow2(j)
  {
    if i < j - 1 {
      Pow2Less(i, j - 1);
    }
  }

  /** The negative of a power of two. */
  lemma Negative(i: nat)
    requires i < BITS
    ensures Pow2(i) < Pow2(BITS) && Wrap(0 - Pow2(i)) == Pow2(BITS) - Pow2(i) && Wrap(Pow2(i) - Pow2(BITS)) == Pow2(i)
  {
    Pow2Less(i, BITS);
    hide Pow2, Rem;
    RemIs(0 - Pow2(i), Pow2(BITS), -1, Pow2(BITS) - Pow2(i));
    RemIs(Pow2(i) - Pow2(BITS), Pow2(BITS), -1, Pow2(i));
  }

  /** MAXP2 of powers of two is the greater one. */
  lemma MaxP2IsMax(i: nat, j: nat)
    requires i < BITS && j < BITS
    ensures MaxP2(Pow2(i), Pow2(j)) == Pow2(if i < j then j else i)
  {
    hide Pow2, BitAnd, Wrap;
    Negative(i);
    Negative(j);
    HighAnd(BITS, i, j);
  }

  // ---------------------------------------------------------------------------------
  // One block

  /** A module with TLS: the address and size of its image and the logarithm of its alignment. */
  datatype Image = Image(image: nat, size: nat, log: nat) {
    function Align(): (a: nat)
      ensures a > 0
    {
      Pow2(log)
    }
  }

  ghost predicate Congruent(x: int, y: int, a: nat)
    requires a > 0
  {
    Rem(x - y, a) == 0
  }

  /** o is the least offset from lo on that is congruent to y modulo a. */
  ghost predicate LeastCongruent(o: int, lo: int, y: int, a: nat)
    requires a > 0
  {
    lo <= o < lo + a && Congruent(o, y, a) && forall z | lo <= z < o :: !Congruent(z, y, a)
  }

  lemma NoMultiple(d: int, t: int, a: nat)
    requires 0 < d < a
    ensures d != t * a
  {
    if t > 0 {
      MulMono(1, t, a);
    } else {
      MulMono(t, 0, a);
    }
  }

  lemma OnlyOne(o: int, z: int, y: int, a: nat)
    requires a > 0 && z < o < z + a && Congruent(o, y, a)
    ensures !Congruent(z, y, a)
  {
    hide Rem;
    var p := Quotient(o - y, a);
    var q := Quotient(z - y, a);
    NoMultiple(o - z, p - q, a);
    assert (p - q) * a == p * a - q * a;
  }

  lemma Least(o: int, lo: int, y: int, a: nat)
    requires a > 0 && lo <= o < lo + a && Congruent(o, y, a)
    ensures LeastCongruent(o, lo, y, a)
  {
    hide Congruent;
    forall z | lo <= z < o ensures !Congruent(z, y, a) {
      OnlyOne(o, z, y, a);
    }
  }

  /** Padding up: lo + (y - lo mod a). */
  lemma PadUp(lo: int, y: int, a: nat)
    requires a > 0
    ensures LeastCongruent(lo + Rem(y - lo, a), lo, y, a)
  {
    hide Rem;
    var q := Quotient(y - lo, a);
    var o := lo + Rem(y - lo, a);
    assert o - y == (-q) * a + 0 by {
      assert (-q) * a == -(q * a);
    }
    RemIs(o - y, a, -q, 0);
    Least(o, lo, y, a);
  }

  /** Rounding down from lo + a - 1. */
  lemma RoundDown(lo: int, y: int, a: nat)
    requires a > 0
    ensures LeastCongruent(lo + a - 1 - Rem(lo + a - 1 - y, a), lo, y, a)
  {
    hide Rem;
    var q := Quotient(lo + a - 1 - y, a);
    var o := lo + a - 1 - Rem(lo + a - 1 - y, a);
    RemIs(o - y, a, q, 0);
    Least(o, lo, y, a);
  }

  /** A mask applied to a wrapped value. */
  lemma MaskWrapped(x: int, m: Image)
    requires m.log < BITS
    ensures BitAnd(m.Align() - 1, Wrap(x)) == Rem(x, m.Align())
  {
    hide BitAnd, Rem, Wrap, Pow2;
    MaskIsRem(Wrap(x), m.log);
    WrapRem(x, m.log);
  }

  // ---------------------------------------------------------------------------------
  // The layout

  datatype Block = Block(m: Image, offset: nat)

  /** Distances from the thread pointer at which a block begins and ends, on its side of it. */
  function Near(above: bool, b: Block): (d: int) {
    if above then b.offset else b.offset - b.m.size
  }

  function Far(above: bool, b: Block): (d: int) {
    if above then b.offset + b.m.size else b.offset
  }

  /** What offsets are congruent to: the image address, negated below the thread pointer. */
  function Side(above: bool, m: Image): (y: int) {
    if above then m.image else 0 - m.image
  }

  /** Each block lies beyond the ones before it and within the given distance, and its offset is
      congruent to its image address. */
  ghost predicate Packed(above: bool, bs: seq<Block>, end: nat) {
    && (forall i | 0 <= i < |bs| :: 0 <= Near(above, bs[i]) && Far(above, bs[i]) <= end)
    && (forall i, j | 0 <= i < j < |bs| :: Far(above, bs[i]) <= Near(above, bs[j]))
    && (forall i | 0 <= i < |bs| :: Congruent(bs[i].offset, Side(above, bs[i].m), bs[i].m.Align()))
  }

  /** log is the greatest of least and the logarithms of the alignments. */
  ghost predicate Greatest(log: nat, least: nat, bs: seq<Block>) {
    && least <= log && (forall i | 0 <= i < |bs| :: bs[i].m.log <= log)
    && (log == least || exists i :: 0 <= i < |bs| && bs[i].m.log == log)
  }

  lemma PackedNext(above: bool, bs: seq<Block>, end: nat, b: Block, end': nat)
    requires Packed(above, bs, end) && end <= Near(above, b) && Far(above, b) <= end'
    requires Congruent(b.offset, Side(above, b.m), b.m.Align())
    ensures Packed(above, bs + [b], end')
  {
    hide Congruent;
  }

  lemma GreatestNext(log: nat, least: nat, bs: seq<Block>, b: Block)
    requires Greatest(log, least, bs)
    ensures Greatest(if log < b.m.log then b.m.log else log, least, bs + [b])
  {
    assert (bs + [b])[|bs|] == b;
    if log != least {
      var i :| 0 <= i < |bs| && bs[i].m.log == log;
      assert (bs + [b])[i].m.log == log;
    }
  }

  function Address(above: bool, tp: nat, b: Block): (x: int) {
    if above then tp + b.offset else tp - b.offset
  }

  /** With the thread pointer aligned to the greatest alignment, every block lies at an address
      congruent to that of its image. */
  lemma AddressCongruent(above: bool, tp: nat, log: nat, b: Block)
    requires Rem(tp, Pow2(log)) == 0 && b.m.log <= log && Congruent(b.offset, Side(above, b.m), b.m.Align())
    ensures Congruent(Address(above, tp, b), b.m.image, b.m.Align())
  {
    var a := b.m.Align();
    Pow2Add(log - b.m.log, b.m.log);
    hide Pow2, Rem;
    RemOfRem(tp, Pow2(log - b.m.log), a);
    RemIs(0, a, 0, 0);
    var t := Quotient(tp, a);
    var q := Quotient(b.offset - Side(above, b.m), a);
    assert (t + q) * a == t * a + q * a && (t - q) * a == t * a - q * a;
    RemIs(Address(above, tp, b) - b.m.image, a, if above then t + q else t - q, 0);
  }

  /** The table: the number of blocks, then their addresses. */
  ghost predicate TableOf(above: bool, tp: nat, bs: seq<Block>, dtv: seq<int>) {
    |dtv| == 1 + |bs| && dtv[0] == |bs| && forall i | 0 <= i < |bs| :: dtv[i + 1] == Address(above, tp, bs[i])
  }

  /** Block i ends before block j begins. */
  predicate Before(bs: seq<Block>, dtv: seq<int>, i: nat, j: nat)
    requires |dtv| == 1 + |bs| && i < |bs| && j < |bs|
  {
    dtv[i + 1] + bs[i].m.size <= dtv[j + 1]
  }

  predicate Lies(bs: seq<Block>, dtv: seq<int>, i: nat, lo: int, hi: int)
    requires |dtv| == 1 + |bs| && i < |bs|
  {
    lo <= dtv[i + 1] && dtv[i + 1] + bs[i].m.size <= hi
  }

  /** The blocks lie in [lo, hi), apart from each other, each at an address congruent to its image's. */
  ghost predicate InPlace(above: bool, bs: seq<Block>, dtv: seq<int>, lo: int, hi: int) {
    && |dtv| == 1 + |bs|
    && (forall i | 0 <= i < |bs| :: Lies(bs, dtv, i, lo, hi))
    && (forall i, j | 0 <= i < j < |bs| :: if above then Before(bs, dtv, i, j) else Before(bs, dtv, j, i))
    && (forall i | 0 <= i < |bs| :: Congruent(dtv[i + 1], bs[i].m.image, bs[i].m.Align()))
  }

  lemma TableInPlace(above: bool, tp: nat, log: nat, bs: seq<Block>, end: nat, dtv: seq<int>, lo: int, hi: int)
    requires TableOf(above, tp, bs, dtv) && Packed(above, bs, end) && Rem(tp, Pow2(log)) == 0
    requires forall i | 0 <= i < |bs| :: bs[i].m.log <= log
    requires if above then lo <= tp && tp + end <= hi else lo <= tp - end && tp <= hi
    ensures InPlace(above, bs, dtv, lo, hi)
  {
    hide Congruent, Rem, Pow2;
    forall i | 0 <= i < |bs| ensures Lies(bs, dtv, i, lo, hi) {
      assert 0 <= Near(above, bs[i]) && Far(above, bs[i]) <= end;
    }
    forall i, j | 0 <= i < j < |bs|
      ensures if above then Before(bs, dtv, i, j) else Before(bs, dtv, j, i)
    {
      assert Far(above, bs[i]) <= Near(above, bs[j]);
    }
    forall i | 0 <= i < |bs| ensures Congruent(dtv[i + 1], bs[i].m.image, bs[i].m.Align()) {
      AddressCongruent(above, tp, log, bs[i]);
    }
  }

  class Layout {
    const above: bool
    const least: nat
    var offset: nat
    var align: nat
    var blocks: seq<Block>
    ghost var log: nat

    ghost predicate Valid()
      reads this
    {
      log < BITS && align == Pow2(log) && Greatest(log, least, blocks) && Packed(above, blocks, offset)
    }

    constructor (above: bool, least: nat)
      requires least < BITS
      ensures Valid() && this.above == above && blocks == [] && offset == 0
    {
      this.above, this.least, log := above, least, least;
      offset, align, blocks := 0, Pow2(least), [];
    }

    /** The block put down next keeps the layout packed, and the greatest alignment greatest. */
    method Add(m: Image, o: nat, end: nat)
      requires Valid() && m.log < BITS
      requires offset <= Near(above, Block(m, o)) && Far(above, Block(m, o)) == end
      requires Congruent(o, Side(above, m), m.Align())
      modifies this
      ensures Valid() && offset == end && blocks == old(blocks) + [Block(m, o)]
    {
      MaxP2IsMax(log, m.log);
      PackedNext(above, blocks, offset, Block(m, o), end);
      GreatestNext(log, least, blocks, Block(m, o));
      hide Packed, Greatest, Pow2, MaxP2, Congruent;
      align := MaxP2(align, m.Align());
      offset, blocks := end, blocks + [Block(m, o)];
      log := if log < m.log then m.log else log;
    }

    /** load_library for a library with TLS. */
    method LoadLibrary(m: Image)
      requires Valid() && m.log < BITS && offset + m.size + m.Align() <= Pow2(BITS)
      modifies this
      ensures Valid() && |blocks| == |old(blocks)| + 1 && blocks[..|old(blocks)|] == old(blocks)
      ensures var b := blocks[|old(blocks)|];
              && b.m == m && offset == Far(above, b)
              && LeastCongruent(b.offset, old(offset) + if above then 0 else m.size, Side(above, m), m.Align())
    {
      hide Pow2, Rem, Wrap, BitAnd, Congruent, Packed, Greatest, MaxP2;
      var a, o := m.Align(), 0;
      if above {
        MaskWrapped(m.image - offset, m);
        PadUp(offset, m.image, a);
        o := Wrap(offset + BitAnd(a - 1, Wrap(m.image - offset)));
        NoWrap(offset + Rem(m.image - offset, a));
        NoWrap(o + m.size);
        Add(m, o, Wrap(o + m.size));
      } else {
        var top := Wrap(offset + (m.size + a - 1));
        NoWrap(offset + (m.size + a - 1));
        MaskWrapped(top + m.image, m);
        RoundDown(offset + m.size, 0 - m.image, a);
        assert top + m.image == offset + m.size + a - 1 - (0 - m.image);
        NoWrap(top - Rem(top + m.image, a));
        o := Wrap(top - BitAnd(a - 1, Wrap(top + m.image)));
        Add(m, o, o);
      }
    }

    /** __dls3 for a program with TLS, loaded first. */
    method LoadApp(m: Image)
      requires Valid() && blocks == [] && offset == 0 && m.log < BITS
      requires GAP_ABOVE_TP + m.size + m.Align() <= Pow2(BITS)
      modifies this
      ensures Valid() && |blocks| == 1
      ensures var b := blocks[0];
              && b.m == m && offset == Far(above, b)
              && LeastCongruent(b.offset, if above then GAP_ABOVE_TP else m.size, Side(above, m), m.Align())
    {
      hide Pow2, Rem, Wrap, BitAnd, Congruent, Packed, Greatest, MaxP2;
      var a, o := m.Align(), 0;
      if above {
        MaskWrapped(m.image - GAP_ABOVE_TP, m);
        PadUp(GAP_ABOVE_TP, m.image, a);
        o := Wrap(GAP_ABOVE_TP + BitAnd(a - 1, Wrap(m.image - GAP_ABOVE_TP)));
        NoWrap(GAP_ABOVE_TP + Rem(m.image - GAP_ABOVE_TP, a));
        NoWrap(o + m.size);
        Add(m, o, Wrap(o + m.size));
      } else {
        MaskWrapped(0 - (m.image + m.size), m);
        PadUp(m.size, 0 - m.image, a);
        assert 0 - (m.image + m.size) == 0 - m.image - m.size;
        o := Wrap(m.size + BitAnd(a - 1, Wrap(0 - (m.image + m.size))));
        NoWrap(m.size + Rem(0 - m.image - m.size, a));
        Add(m, o, o);
      }
    }

    /** libc.tls_size as update_tls_size sets it; thread is the size of struct pthread. */
    function TlsSize(thread: nat): (n: nat)
      requires align > 0
      reads this
    {
      AlignUp((1 + |blocks|) * 8 + offset + thread + align * 2, align)
    }

    /** __copy_tls in fresh memory of that size: the thread structure is at td, the table of block
        addresses at dtvAt.  Blocks keep to their side of the thread pointer, apart from each other,
        from the structure and from the table, each at an address congruent to its image's. */
    method CopyTls(mem: nat, thread: nat) returns (td: nat, dtvAt: nat, dtv: seq<int>)
      requires Valid() && mem + TlsSize(thread) < Pow2(BITS)
      ensures var end, tp, bytes := mem + TlsSize(thread), td + if above then thread else 0, 8 * |dtv|;
              && TableOf(above, tp, blocks, dtv) && Rem(tp, align) == 0
              && if above then
                   && InPlace(above, blocks, dtv, tp, dtvAt) && mem <= td && dtvAt + bytes == end
                 else
                   && InPlace(above, blocks, dtv, dtvAt + bytes, td) && dtvAt == mem && td + thread <= end
    {
      hide Rem, Pow2, Packed, TlsSize, TableOf, InPlace;
      var tp := 0;
      td, dtvAt, tp := Pointers(mem, thread);
      dtv := FillTable(tp);
      assert |dtv| == 1 + |blocks|;
      if above {
        TableInPlace(above, tp, log, blocks, offset, dtv, tp, dtvAt);
      } else {
        TableInPlace(above, tp, log, blocks, offset, dtv, dtvAt + 8 * |dtv|, td);
      }
    }

    method FillTable(tp: nat) returns (dtv: seq<int>)
      ensures TableOf(above, tp, blocks, dtv) && |dtv| == 1 + |blocks|
    {
      dtv := [|blocks|];
      for i := 0 to |blocks|
        invariant |dtv| == i + 1 && dtv[0] == |blocks|
        invariant forall j | 0 <= j < i :: dtv[j + 1] == Address(above, tp, blocks[j])
      {
        dtv := dtv + [if above then tp + blocks[i].offset else tp - blocks[i].offset];
      }
    }

    /** Where the thread structure, the table and the thread pointer go. */
    method Pointers(mem: nat, thread: nat) returns (td: nat, dtvAt: nat, tp: nat)
      requires Valid() && mem + TlsSize(thread) < Pow2(BITS)
      ensures Rem(tp, align) == 0 && mem <= td
      ensures var end, bytes := mem + TlsSize(thread), 8 * (1 + |blocks|);
              if above then
                tp == td + thread && tp + offset <= dtvAt && dtvAt + bytes == end
              else
                tp == td && td + thread <= end && dtvAt == mem && dtvAt + bytes <= tp - offset
    {
      hide Pow2, Rem, Wrap, BitAnd, Packed, Greatest, AlignUp;
      var size := TlsSize(thread);
      var m := Image(0, 0, log);
      if above {
        dtvAt := mem + size - 8 * (|blocks| + 1);
        MaskWrapped(0 - (mem + thread), m);
        PadUp(mem + thread, 0, align);
        td := mem + BitAnd(align - 1, Wrap(0 - (mem + thread)));
        tp := td + thread;
      } else {
        dtvAt := mem;
        var top := mem + size - thread;
        MaskWrapped(top, m);
        NoWrap(top);
        RoundDown(top - align + 1, 0, align);
        td := top - BitAnd(align - 1, top);
        tp := td;
      }
    }
  }

  lemma NoWrap(x: int)
    requires 0 <= x < Pow2(BITS)
    ensures Wrap(x) == x
  {
    hide Pow2, Rem;
    RemIs(x, Pow2(BITS), 0, x);
  }
}
