/** The heap summary: number of free granules and longest free run, put together from
    nibbles, bytes and half words. */
module GranInfo {
  import opened Words
  import opened GranAllocator

  /** Free bits of a segment: all of them, those before its first set bit, those after its last
      set bit (0 when no bit is set), and the longest run between two set bits. */
  datatype Info = Info(nfree: nat, nlsfree: nat, nmsfree: nat, mxfree: nat)

  function CountFree(s: seq<bool>): (c: nat) {
    multiset(s)[false]
  }

  /** Bits [p, p + k) of s are all clear. */
  ghost predicate FreeRun(s: seq<bool>, p: nat, k: nat) {
    p + k <= |s| && forall i | p <= i < p + k :: !s[i]
  }

  /** x describes s. */
  ghost predicate Describes(s: seq<bool>, x: Info)
  {
    && x.nfree == CountFree(s)
    && FreeRun(s, 0, x.nlsfree)
    && (x.nlsfree < |s| ==> s[x.nlsfree])
    && x.nmsfree <= |s|
    && FreeRun(s, |s| - x.nmsfree, x.nmsfree)
    && (if x.nlsfree == |s| then x.nmsfree == 0 else x.nlsfree + x.nmsfree < |s| && s[|s| - x.nmsfree - 1])
    && (forall p: nat, k: nat | Inner(s, x, p, k) :: k <= x.mxfree)
    && (x.mxfree > 0 ==> exists p: nat :: Inner(s, x, p, x.mxfree))
  }

  /** A free run strictly between the first and the last set bit. */
  ghost predicate Inner(s: seq<bool>, x: Info, p: nat, k: nat) {
    x.nlsfree < p && p + k + x.nmsfree < |s| && FreeRun(s, p, k)
  }

  /** gran_info_combine as a value: the summary of the LS piece followed by the MS piece. */
  function Combined(ms: Info, msbits: nat, ls: Info, lsbits: nat): (r: Info)
  {
    var mid := if ls.nlsfree < lsbits && ms.nlsfree < msbits then ls.nmsfree + ms.nlsfree else 0;
    Info(
      ls.nfree + ms.nfree,
      if ls.nlsfree == lsbits then ls.nlsfree + ms.nlsfree else ls.nlsfree,
      if ms.nlsfree == msbits then (if ls.nlsfree == lsbits then 0 else ls.nmsfree + msbits) else ms.nmsfree,
      Max(Max(ls.mxfree, mid), ms.mxfree))
  }

  function Max(x: nat, y: nat): (r: nat) {
    if x < y then y else x
  }

  /** gran_info_combine, which updates the LS summary field by field. */
  method InfoCombine(ms: Info, msbits: nat, ls0: Info, lsbits: nat) returns (ls: Info)
    ensures ls == Combined(ms, msbits, ls0, lsbits)
  {
    ls := ls0;
    var midfree := 0;
    if ls.nlsfree < lsbits && ms.nlsfree < msbits {
      midfree := ls.nmsfree + ms.nlsfree;
    }
    ls := ls.(nfree := ls.nfree + ms.nfree);
    if ms.nlsfree == msbits {
      if ls.nlsfree == lsbits {
        ls := ls.(nmsfree := 0);
      } else {
        ls := ls.(nmsfree := ls.nmsfree + msbits);
      }
    } else {
      ls := ls.(nmsfree := ms.nmsfree);
    }
    if ls.nlsfree == lsbits {
      ls := ls.(nlsfree := ls.nlsfree + ms.nlsfree);
    }
    if midfree > ls.mxfree {
      ls := ls.(mxfree := midfree);
    }
    if ms.mxfree > ls.mxfree {
      ls := ls.(mxfree := ms.mxfree);
    }
  }

  /** Combining summaries is a homomorphism for concatenation of segments. */
  lemma CombineDescribes(a: seq<bool>, x: Info, b: seq<bool>, y: Info)
    requires Describes(a, x) && Describes(b, y)
    ensures Describes(a + b, Combined(y, |b|, x, |a|))
  {
    var s, z := a + b, Combined(y, |b|, x, |a|);
    CombineEnds(a, x, b, y);
    forall p: nat, k: nat | Inner(s, z, p, k) ensures k <= z.mxfree {
      CombineInner(a, x, b, y, p, k);
    }
    if z.mxfree > 0 {
      CombineAttained(a, x, b, y);
    }
  }

  lemma CombineEnds(a: seq<bool>, x: Info, b: seq<bool>, y: Info)
    requires Describes(a, x) && Describes(b, y)
    ensures var s, z := a + b, Combined(y, |b|, x, |a|);
            && FreeRun(s, 0, z.nlsfree)
            && (z.nlsfree < |s| ==> s[z.nlsfree])
            && z.nmsfree <= |s|
            && FreeRun(s, |s| - z.nmsfree, z.nmsfree)
            && (if z.nlsfree == |s| then z.nmsfree == 0 else z.nlsfree + z.nmsfree < |s| && s[|s| - z.nmsfree - 1])
  {
  }

  /** An inner run of the concatenation is an inner run of a piece or crosses the border. */
  lemma CombineInner(a: seq<bool>, x: Info, b: seq<bool>, y: Info, p: nat, k: nat)
    requires Describes(a, x) && Describes(b, y)
    requires Inner(a + b, Combined(y, |b|, x, |a|), p, k)
    ensures k <= Combined(y, |b|, x, |a|).mxfree
  {
    var s := a + b;
    if k > 0 {
      if p + k <= |a| {
        forall i | p <= i < p + k ensures !a[i] { assert !s[i]; }
        assert FreeRun(a, p, k);
        if x.nlsfree < |a| {
          assert a[|a| - x.nmsfree - 1];
          if p + k + x.nmsfree < |a| {
            assert Inner(a, x, p, k);
          } else {
            InsideTail(a, x, p, k);
          }
        }
      } else if |a| <= p {
        forall i | p - |a| <= i < p - |a| + k ensures !b[i] {
          assert !s[|a| + i];
        }
        assert FreeRun(b, p - |a|, k);
        if y.nlsfree < |b| {
          if y.nlsfree < p - |a| {
            assert Inner(b, y, p - |a|, k);
          } else {
            assert s[|a| + y.nlsfree];
          }
        }
      } else {
        assert s[x.nlsfree] == (x.nlsfree < |a| && a[x.nlsfree]) || x.nlsfree == |a|;
        forall i | p <= i < |a| ensures !a[i] { assert !s[i]; }
        forall i | 0 <= i < p + k - |a| ensures !b[i] { assert !s[|a| + i]; }
        if x.nlsfree < |a| {
          assert a[|a| - x.nmsfree - 1];
        }
      }
    }
  }

  lemma InsideTail(a: seq<bool>, x: Info, p: nat, k: nat)
    requires Describes(a, x) && x.nlsfree < |a| && FreeRun(a, p, k) && k > 0
    requires p + k + x.nmsfree >= |a|
    ensures k <= x.nmsfree && p >= |a| - x.nmsfree
  {
    assert a[|a| - x.nmsfree - 1];
  }

  lemma CombineAttained(a: seq<bool>, x: Info, b: seq<bool>, y: Info)
    requires Describes(a, x) && Describes(b, y)
    requires Combined(y, |b|, x, |a|).mxfree > 0
    ensures var z := Combined(y, |b|, x, |a|); exists p: nat :: Inner(a + b, z, p, z.mxfree)
  {
    var s, z := a + b, Combined(y, |b|, x, |a|);
    CombineEnds(a, x, b, y);
    if z.mxfree == x.mxfree {
      var p: nat :| Inner(a, x, p, x.mxfree);
      assert Inner(s, z, p, z.mxfree);
    } else if z.mxfree == y.mxfree {
      var p: nat :| Inner(b, y, p, y.mxfree);
      forall i | |a| + p <= i < |a| + p + z.mxfree ensures !s[i] {
        assert !b[i - |a|];
      }
      assert Inner(s, z, |a| + p, z.mxfree);
    } else {
      var p := |a| - x.nmsfree;
      assert FreeRun(s, p, z.mxfree);
      assert Inner(s, z, p, z.mxfree);
    }
  }

  function BitInfo(b: bool): (x: Info) {
    if b then Info(0, 0, 0, 0) else Info(1, 1, 0, 0)
  }

  /** The summary of a segment, bit by bit. */
  function Summary(s: seq<bool>): (x: Info)
  {
    if |s| == 0 then Info(0, 0, 0, 0)
    else Combined(BitInfo(s[|s| - 1]), 1, Summary(s[..|s| - 1]), |s| - 1)
  }

  lemma {:induction false} Unfold(s: seq<bool>, b: bool)
    ensures Summary(s + [b]) == Combined(BitInfo(b), 1, Summary(s), |s|)
  {
    assert (s + [b])[..|s|] == s;
  }

  lemma {:induction false} SummaryDescribes(s: seq<bool>)
    ensures Describes(s, Summary(s))
  {
    if |s| > 0 {
      var init, last := s[..|s| - 1], [s[|s| - 1]];
      SummaryDescribes(init);
      assert Describes(last, BitInfo(last[0]));
      CombineDescribes(init, Summary(init), last, BitInfo(last[0]));
      assert s == init + last;
    }
  }

  /** A segment has only one description. */
  lemma DescriptionUnique(s: seq<bool>, x: Info, y: Info)
    requires Describes(s, x) && Describes(s, y)
    ensures x == y
  {
    assert x.nlsfree < |s| ==> s[x.nlsfree];
    assert y.nlsfree < |s| ==> s[y.nlsfree];
    if x.nlsfree < |s| {
      assert s[|s| - x.nmsfree - 1] && s[|s| - y.nmsfree - 1];
    }
    assert forall p: nat, k: nat :: Inner(s, x, p, k) == Inner(s, y, p, k);
  }

  // The constant tables, one function per number of bits, by the value of those bits.

  function Bits1Info(v: nat): (x: Info)
    requires v < 2
  {
    if v == 0 then Info(1, 1, 0, 0) else
    Info(0, 0, 0, 0)
  }

  function Bits2Info(v: nat): (x: Info)
    requires v < 4
  {
    if v == 0 then Info(2, 2, 0, 0) else
    if v == 1 then Info(1, 0, 1, 0) else
    if v == 2 then Info(1, 1, 0, 0) else
    Info(0, 0, 0, 0)
  }

  function Bits3Info(v: nat): (x: Info)
    requires v < 8
  {
    if v == 0 then Info(3, 3, 0, 0) else
    if v == 1 then Info(2, 0, 2, 0) else
    if v == 2 then Info(2, 1, 1, 0) else
    if v == 3 then Info(1, 0, 1, 0) else
    if v == 4 then Info(2, 2, 0, 0) else
    if v == 5 then Info(1, 0, 0, 1) else
    if v == 6 then Info(1, 1, 0, 0) else
    Info(0, 0, 0, 0)
  }

  function Bits4Info(v: nat): (x: Info)
    requires v < 16
  {
    if v == 0 then Info(4, 4, 0, 0) else
    if v == 1 then Info(3, 0, 3, 0) else
    if v == 2 then Info(3, 1, 2, 0) else
    if v == 3 then Info(2, 0, 2, 0) else
    if v == 4 then Info(3, 2, 1, 0) else
    if v == 5 then Info(2, 0, 1, 1) else
    if v == 6 then Info(2, 1, 1, 0) else
    if v == 7 then Info(1, 0, 1, 0) else
    if v == 8 then Info(3, 3, 0, 0) else
    if v == 9 then Info(2, 0, 0, 2) else
    if v == 10 then Info(2, 1, 0, 1) else
    if v == 11 then Info(1, 0, 0, 1) else
    if v == 12 then Info(2, 2, 0, 0) else
    if v == 13 then Info(1, 0, 0, 1) else
    if v == 14 then Info(1, 1, 0, 0) else
    Info(0, 0, 0, 0)
  }

  function Weigh(b: bool, weight: nat): (v: nat) {
    if b then weight else 0
  }

  // Each table follows from the one before it by appending a bit.

  lemma {:induction false} Bits1Correct(a: bool)
    ensures Bits1Info(Weigh(a, 1)) == Combined(BitInfo(a), 1, Info(0, 0, 0, 0), 0)
  {
  }

  lemma {:induction false} Bits2Correct(a: bool, b: bool)
    ensures Bits2Info(Weigh(a, 1) + Weigh(b, 2)) == Combined(BitInfo(b), 1, Bits1Info(Weigh(a, 1)), 1)
  {
    var x := Bits1Info(Weigh(a, 1));
    if b {
      CombineUsed(x, 1);
    } else {
      CombineFree(x, 1);
    }
  }

  lemma {:induction false} Bits3Correct(a: bool, b: bool, c: bool)
    ensures Bits3Info(Weigh(a, 1) + Weigh(b, 2) + Weigh(c, 4)) ==
            Combined(BitInfo(c), 1, Bits2Info(Weigh(a, 1) + Weigh(b, 2)), 2)
  {
    var x := Bits2Info(Weigh(a, 1) + Weigh(b, 2));
    if c {
      CombineUsed(x, 2);
    } else {
      CombineFree(x, 2);
    }
  }

  lemma {:induction false} Bits4Correct(a: bool, b: bool, c: bool, d: bool)
    ensures Bits4Info(Weigh(a, 1) + Weigh(b, 2) + Weigh(c, 4) + Weigh(d, 8)) ==
            Combined(BitInfo(d), 1, Bits3Info(Weigh(a, 1) + Weigh(b, 2) + Weigh(c, 4)), 3)
  {
    var x := Bits3Info(Weigh(a, 1) + Weigh(b, 2) + Weigh(c, 4));
    if d {
      CombineUsed(x, 3);
    } else {
      CombineFree(x, 3);
    }
  }

  lemma CombineUsed(x: Info, n: nat)
    requires x.nlsfree <= n
    ensures Combined(BitInfo(true), 1, x, n) ==
            if x.nlsfree == n then Info(x.nfree, n, 0, x.mxfree)
            else Info(x.nfree, x.nlsfree, 0, Max(x.mxfree, x.nmsfree))
  {
  }

  lemma CombineFree(x: Info, n: nat)
    requires x.nlsfree <= n
    ensures Combined(BitInfo(false), 1, x, n) ==
            if x.nlsfree == n then Info(x.nfree + 1, n + 1, 0, x.mxfree)
            else Info(x.nfree + 1, x.nlsfree, x.nmsfree + 1, x.mxfree)
  {
  }

  lemma Table1(a: bool)
    ensures Summary([a]) == Bits1Info(Weigh(a, 1))
  {
    assert [a][..0] == [];
    Bits1Correct(a);
  }

  lemma Table2(a: bool, b: bool)
    ensures Summary([a, b]) == Bits2Info(Weigh(a, 1) + Weigh(b, 2))
  {
    Table1(a);
    Unfold([a], b);
    Bits2Correct(a, b);
  }

  lemma Table3(a: bool, b: bool, c: bool)
    ensures Summary([a, b, c]) == Bits3Info(Weigh(a, 1) + Weigh(b, 2) + Weigh(c, 4))
  {
    Table2(a, b);
    Unfold([a, b], c);
    assert [a, b] + [c] == [a, b, c];
    Bits3Correct(a, b, c);
  }

  lemma Table4(a: bool, b: bool, c: bool, d: bool)
    ensures Summary([a, b, c, d]) == Bits4Info(Weigh(a, 1) + Weigh(b, 2) + Weigh(c, 4) + Weigh(d, 8))
  {
    Table3(a, b, c);
    Unfold([a, b, c], d);
    assert [a, b, c] + [d] == [a, b, c, d];
    Bits4Correct(a, b, c, d);
  }

  /** gran_nibble_info: look the value of the bits up in the table for their number. */
  method NibbleInfo(value: Word, nbits: nat) returns (info: Info)
    requires nbits <= 4 && nbits <= |value|
    ensures Describes(value[..nbits], info)
  {
    var w := value[..nbits];
    if nbits == 0 {
      info := Info(0, 0, 0, 0);
    } else if nbits == 1 {
      info := Entry1(w);
    } else if nbits == 2 {
      info := Entry2(w);
    } else if nbits == 3 {
      info := Entry3(w);
    } else {
      info := Entry4(w);
    }
  }

  method Entry1(w: Word) returns (info: Info)
    requires |w| == 1
    ensures Describes(w, info)
  {
    info := Bits1Info(Weigh(w[0], 1));
    if w[0] {
      AllUsedDescribed(w);
    } else {
      AllFreeDescribed(w);
    }
  }

  method Entry2(w: Word) returns (info: Info)
    requires |w| == 2
    ensures Describes(w, info)
  {
    info := Table2Value(w[0], w[1]);
    FromSummary([w[0], w[1]], w, info);
  }

  method Entry3(w: Word) returns (info: Info)
    requires |w| == 3
    ensures Describes(w, info)
  {
    info := Table3Value(w[0], w[1], w[2]);
    FromSummary([w[0], w[1], w[2]], w, info);
  }

  method Entry4(w: Word) returns (info: Info)
    requires |w| == 4
    ensures Describes(w, info)
  {
    info := Table4Value(w[0], w[1], w[2], w[3]);
    FromSummary([w[0], w[1], w[2], w[3]], w, info);
  }

  lemma FromSummary(v: Word, w: Word, x: Info)
    requires v == w && x == Summary(v)
    ensures Describes(w, x)
  {
    SummaryDescribes(w);
  }

  method Table2Value(a: bool, b: bool) returns (info: Info)
    ensures info == Summary([a, b])
  {
    Table2(a, b);
    info := Bits2Info(Weigh(a, 1) + Weigh(b, 2));
  }

  method Table3Value(a: bool, b: bool, c: bool) returns (info: Info)
    ensures info == Summary([a, b, c])
  {
    Table3(a, b, c);
    info := Bits3Info(Weigh(a, 1) + Weigh(b, 2) + Weigh(c, 4));
  }

  method Table4Value(a: bool, b: bool, c: bool, d: bool) returns (info: Info)
    ensures info == Summary([a, b, c, d])
  {
    Table4(a, b, c, d);
    info := Bits4Info(Weigh(a, 1) + Weigh(b, 2) + Weigh(c, 4) + Weigh(d, 8));
  }

  lemma AllFreeDescribed(s: seq<bool>)
    requires forall i | 0 <= i < |s| :: !s[i]
    ensures Describes(s, Info(|s|, |s|, 0, 0))
  {
    CountUniform(s, false);
  }

  lemma AllUsedDescribed(s: seq<bool>)
    requires |s| > 0 && forall i | 0 <= i < |s| :: s[i]
    ensures Describes(s, Info(0, 0, 0, 0))
  {
    CountUniform(s, true);
    assert s[0] && s[|s| - 1];
    forall p: nat, k: nat | FreeRun(s, p, k) ensures k == 0 {
      assert p < |s| ==> s[p];
    }
  }

  lemma {:induction false} CountUniform(s: seq<bool>, b: bool)
    requires forall i | 0 <= i < |s| :: s[i] == b
    ensures CountFree(s) == if b then 0 else |s|
  {
    if |s| > 0 {
      CountUniform(s[..|s| - 1], b);
      assert s == s[..|s| - 1] + [b];
    }
  }

  /** gran_byte_info; value holds at least nbits bits. */
  method ByteInfo(value: Word, nbits: nat) returns (info: Info)
    requires 1 <= nbits <= 8 && nbits <= |value|
    ensures Describes(value[..nbits], info)
  {
    var bits := value[..nbits];
    if bits == Zeros(nbits) {
      AllFreeDescribed(bits);
      info := Info(nbits, nbits, 0, 0);
    } else if bits == Ones(nbits) {
      AllUsedDescribed(bits);
      info := Info(0, 0, 0, 0);
    } else {
      info := NibbleInfo(bits, if nbits > 4 then 4 else nbits);
      assert bits[..nbits] == bits;
      if nbits > 4 {
        var msinfo := NibbleInfo(bits[4..], nbits - 4);
        SplitDescribed(bits, 4, info, msinfo);
        info := InfoCombine(msinfo, nbits - 4, info, 4);
      }
    }
  }

  /** gran_hword_info */
  method HwordInfo(value: Word, nbits: nat) returns (info: Info)
    requires 1 <= nbits <= 16 && nbits <= |value|
    ensures Describes(value[..nbits], info)
  {
    var bits := value[..nbits];
    if bits == Zeros(nbits) {
      AllFreeDescribed(bits);
      info := Info(nbits, nbits, 0, 0);
    } else if bits == Ones(nbits) {
      AllUsedDescribed(bits);
      info := Info(0, 0, 0, 0);
    } else {
      info := ByteInfo(bits, if nbits > 8 then 8 else nbits);
      assert bits[..nbits] == bits;
      if nbits > 8 {
        var msinfo := ByteInfo(bits[8..], nbits - 8);
        SplitDescribed(bits, 8, info, msinfo);
        info := InfoCombine(msinfo, nbits - 8, info, 8);
      }
    }
  }

  lemma SplitDescribed(s: seq<bool>, cut: nat, x: Info, y: Info)
    requires cut <= |s| && Describes(s[..cut], x) && Describes(s[cut..][..|s| - cut], y)
    ensures Describes(s, Combined(y, |s| - cut, x, cut))
  {
    assert s[cut..][..|s| - cut] == s[cut..];
    CombineDescribes(s[..cut], x, s[cut..], y);
    assert s == s[..cut] + s[cut..];
  }

  // ---------------------------------------------------------------------------------
  // The whole table

  /** m is the length of the longest free run of s. */
  ghost predicate Longest(s: seq<bool>, m: nat)
  {
    Attained(s, m) && forall p: nat, k: nat | FreeRun(s, p, k) :: k <= m
  }

  ghost predicate Attained(s: seq<bool>, m: nat) {
    exists p: nat :: FreeRun(s, p, m)
  }

  /** State of the traversal after the bits s: the run that ends s, and the best length, which
      together with that run bounds every free run of s. */
  ghost predicate Scanned(s: seq<bool>, best: nat, tail: nat)
  {
    && tail <= |s| && FreeRun(s, |s| - tail, tail)
    && (tail < |s| ==> s[|s| - tail - 1])
    && Attained(s, best)
    && (forall p: nat, k: nat | FreeRun(s, p, k) :: k <= Max(best, tail))
  }

  lemma ScanFree(s: seq<bool>, best: nat, tail: nat, w: seq<bool>)
    requires Scanned(s, best, tail) && forall i | 0 <= i < |w| :: !w[i]
    ensures Scanned(s + w, best, tail + |w|)
  {
    var t := s + w;
    var p: nat :| FreeRun(s, p, best);
    assert FreeRun(t, p, best);
    forall q: nat, k: nat | FreeRun(t, q, k) ensures k <= Max(best, tail + |w|) {
      LeftPart(s, w, q, k);
    }
  }

  /** The part of a run of s + w that lies in s is a run of s, and ends s if it goes on in w. */
  lemma LeftPart(s: seq<bool>, w: seq<bool>, q: nat, k: nat)
    requires FreeRun(s + w, q, k)
    ensures q + k <= |s| ==> FreeRun(s, q, k)
    ensures q <= |s| < q + k ==> FreeRun(s, q, |s| - q)
    ensures q <= |s| < q + k ==> FreeRun(w, 0, q + k - |s|)
    ensures |s| <= q ==> FreeRun(w, q - |s|, k)
  {
    var t := s + w;
    assert forall i | 0 <= i < |s| :: s[i] == t[i];
    assert forall i | 0 <= i < |w| :: w[i] == t[|s| + i];
  }

  lemma ScanPartial(s: seq<bool>, best: nat, tail: nat, w: seq<bool>, x: Info)
    requires Scanned(s, best, tail) && Describes(w, x) && x.nlsfree < |w|
    ensures Scanned(s + w, Max(best, Max(tail + x.nlsfree, x.mxfree)), x.nmsfree)
  {
    var t := s + w;
    forall q: nat, k: nat | FreeRun(t, q, k)
      ensures k <= Max(Max(best, Max(tail + x.nlsfree, x.mxfree)), x.nmsfree)
    {
      PartialBound(s, best, tail, w, x, q, k);
    }
    assert FreeRun(t, |s| - x.nmsfree + |w|, x.nmsfree);
    assert t[|t| - x.nmsfree - 1] by { assert w[|w| - x.nmsfree - 1]; }
    PartialAttained(s, best, tail, w, x);
  }

  lemma PartialBound(s: seq<bool>, best: nat, tail: nat, w: seq<bool>, x: Info, q: nat, k: nat)
    requires Scanned(s, best, tail) && Describes(w, x) && x.nlsfree < |w| && FreeRun(s + w, q, k)
    ensures k <= Max(Max(best, Max(tail + x.nlsfree, x.mxfree)), x.nmsfree)
  {
    LeftPart(s, w, q, k);
    if |s| <= q && k > 0 {
      RunsOf(w, x, q - |s|, k);
    } else if q <= |s| < q + k {
      RunsOf(w, x, 0, q + k - |s|);
      assert |s| - q <= tail;
    }
  }

  lemma PartialAttained(s: seq<bool>, best: nat, tail: nat, w: seq<bool>, x: Info)
    requires Scanned(s, best, tail) && Describes(w, x)
    ensures Attained(s + w, Max(best, Max(tail + x.nlsfree, x.mxfree)))
  {
    var t := s + w;
    var p: nat :| FreeRun(s, p, best);
    assert FreeRun(t, p, best);
    assert FreeRun(t, |s| - tail, tail + x.nlsfree);
    if x.mxfree > 0 {
      var p: nat :| Inner(w, x, p, x.mxfree);
      forall i | |s| + p <= i < |s| + p + x.mxfree ensures !t[i] {
        assert !w[i - |s|];
      }
      assert FreeRun(t, |s| + p, x.mxfree);
    }
  }

  lemma RunsOf(w: seq<bool>, x: Info, p: nat, k: nat)
    requires Describes(w, x) && x.nlsfree < |w| && FreeRun(w, p, k) && k > 0
    ensures p <= x.nlsfree ==> p + k <= x.nlsfree
    ensures k <= x.nlsfree || k <= x.nmsfree || k <= x.mxfree
  {
    assert w[x.nlsfree];
    if p > x.nlsfree {
      if p + k + x.nmsfree < |w| {
        assert Inner(w, x, p, k);
      } else {
        InsideTail(w, x, p, k);
      }
    }
  }

  /** The first n bits of the table. */
  function TableBits(t: Table, n: nat): (s: seq<bool>)
    requires n <= 32 * |t|
    ensures |s| == n && forall i | 0 <= i < n :: s[i] == Bit(t, i)
  {
    seq(n, i requires 0 <= i < n => Bit(t, i))
  }

  /** Summary of one table word, of which the nbits low bits are in use. */
  method WordInfo(value: Word, nbits: nat) returns (info: Info)
    requires 1 <= nbits <= 32 && nbits == |value|
    ensures Describes(value, info)
  {
    info := HwordInfo(value, if nbits > 16 then 16 else nbits);
    assert value[..nbits] == value;
    if nbits > 16 {
      var msinfo := HwordInfo(value[16..], nbits - 16);
      SplitDescribed(value, 16, info, msinfo);
      info := InfoCombine(msinfo, nbits - 16, info, 16);
    }
  }

  /** One iteration of gran_dump: account for the next table word. */
  method Account(value: Word, ghost s: seq<bool>, best0: nat, running0: nat)
    returns (free: nat, best: nat, running: nat)
    requires 1 <= |value| <= 32 && Scanned(s, best0, running0)
    ensures free == CountFree(value) && Scanned(s + value, best, running)
  {
    var nbits := |value|;
    best, running := best0, running0;
    if value == Ones(nbits) {
      AllUsedDescribed(value);
      ScanPartial(s, best, running, value, Info(0, 0, 0, 0));
      if running > best {
        best := running;
      }
      free, running := 0, 0;
    } else if value == Zeros(nbits) {
      CountUniform(value, false);
      ScanFree(s, best, running, value);
      free, running := nbits, running + nbits;
    } else {
      var hwinfo := WordInfo(value, nbits);
      NotAllFree(value, hwinfo);
      ScanPartial(s, best, running, value, hwinfo);
      if hwinfo.nlsfree > 0 {
        running := running + hwinfo.nlsfree;
      }
      if hwinfo.nlsfree < nbits {
        if hwinfo.mxfree > running {
          running := hwinfo.mxfree;
        }
        if running > best {
          best := running;
        }
        running := hwinfo.nmsfree;
      }
      free := hwinfo.nfree;
    }
  }

  /** gran_dump: exact count of free granules and exact length of the longest free run. */
  method Dump(t: Table, ngranules: nat) returns (nfree: nat, mxfree: nat)
    requires ngranules <= 32 * |t|
    ensures nfree == CountFree(TableBits(t, ngranules))
    ensures Longest(TableBits(t, ngranules), mxfree)
  {
    hide Progress, Longest, CountFree;
    nfree, mxfree := 0, 0;
    var running: nat := 0;
    var granidx := 0;
    ghost var word, seen := 0, 0;
    NothingSeen(t);
    while granidx < ngranules
      invariant granidx == 32 * word && seen == if granidx < ngranules then granidx else ngranules
      invariant Progress(t, seen, nfree, mxfree, running)
    {
      var nbits := if granidx + 32 > ngranules then ngranules - granidx else 32;
      nfree, mxfree, running := DumpWord(t, granidx, nbits, nfree, mxfree, running);
      granidx, word, seen := granidx + 32, word + 1, granidx + nbits;
    }
    mxfree := LastRun(t, ngranules, nfree, mxfree, running);
  }

  method DumpWord(t: Table, granidx: nat, nbits: nat, nfree: nat, best: nat, running: nat)
    returns (nfree': nat, best': nat, running': nat)
    requires granidx % 32 == 0 && 1 <= nbits <= 32 && granidx + nbits <= 32 * |t|
    requires Progress(t, granidx, nfree, best, running)
    ensures Progress(t, granidx + nbits, nfree', best', running')
  {
    var value := t[granidx / 32][..nbits];
    var free;
    free, best', running' := Account(value, TableBits(t, granidx), best, running);
    nfree' := nfree + free;
    Advance(t, granidx, nbits, nfree, free, best', running');
  }

  /** The run that reaches the end of the table may be the longest one. */
  method LastRun(t: Table, n: nat, nfree: nat, best: nat, running: nat) returns (mxfree: nat)
    requires n <= 32 * |t| && Progress(t, n, nfree, best, running)
    ensures nfree == CountFree(TableBits(t, n)) && Longest(TableBits(t, n), mxfree)
  {
    mxfree := best;
    if running > mxfree {
      mxfree := running;
    }
    ScannedLongest(TableBits(t, n), best, running);
  }

  ghost predicate Progress(t: Table, seen: nat, nfree: nat, best: nat, running: nat) {
    && seen <= 32 * |t|
    && nfree == CountFree(TableBits(t, seen)) && Scanned(TableBits(t, seen), best, running)
  }

  lemma NothingSeen(t: Table)
    ensures Progress(t, 0, 0, 0, 0)
  {
    assert FreeRun(TableBits(t, 0), 0, 0);
  }

  lemma Advance(t: Table, granidx: nat, nbits: nat, nfree: nat, free: nat, best: nat, run: nat)
    requires granidx % 32 == 0 && nbits <= 32 && granidx + nbits <= 32 * |t| && granidx < 32 * |t|
    requires nfree == CountFree(TableBits(t, granidx)) && free == CountFree(t[granidx / 32][..nbits])
    requires Scanned(TableBits(t, granidx) + t[granidx / 32][..nbits], best, run)
    ensures Progress(t, granidx + nbits, nfree + free, best, run)
  {
    assert TableBits(t, granidx) + t[granidx / 32][..nbits] == TableBits(t, granidx + nbits);
  }

  lemma ScannedLongest(s: seq<bool>, best: nat, tail: nat)
    requires Scanned(s, best, tail)
    ensures Longest(s, Max(best, tail))
  {
    assert FreeRun(s, |s| - tail, tail);
  }

  lemma NotAllFree(s: seq<bool>, x: Info)
    requires Describes(s, x) && s != Zeros(|s|)
    ensures x.nlsfree < |s|
  {
    var i :| 0 <= i < |s| && s[i] != Zeros(|s|)[i];
  }

  /** The summary and the allocator agree: k granules can be had exactly when the longest free
      run is no shorter than k. */
  lemma AllocatableIffReported(t: Table, n: nat, k: nat, mxfree: nat)
    requires n <= 32 * |t| && Longest(TableBits(t, n), mxfree)
    ensures (exists p: nat :: Fits(t, n, p, k)) <==> k <= mxfree
  {
    var s := TableBits(t, n);
    if p: nat :| Fits(t, n, p, k) {
      assert FreeRun(s, p, k);
    }
    if k <= mxfree {
      var p: nat :| FreeRun(s, p, mxfree);
      forall i | p <= i < p + k ensures !Bit(t, i) {
        assert !s[i];
      }
      assert Fits(t, n, p, k);
    }
  }
}
