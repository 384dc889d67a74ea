/** Symbol lookup in a GNU hash table with its Bloom filter, against a scan of the symbols. */
module GnuHash {
  import opened Arith
  import opened Basics
  import opened Masks

  type Name = seq<nat>

  const WRAP := 0x1_0000_0000

  /** The parts of a dso that lookups read: the hash table as 32-bit words, the names of the
      symbols, and their version numbers if there are any. */
  datatype Dso = Dso(hashtab: seq<nat>, names: seq<Name>, versym: Option<seq<int>>) {
    function NBuckets(): nat requires |hashtab| >= 4 { hashtab[0] }

    /** Index of the first symbol that the table covers. */
    function SymOffset(): nat requires |hashtab| >= 4 { hashtab[1] }

    function BloomSize(): nat requires |hashtab| >= 4 { hashtab[2] }

    function BloomShift(): nat requires |hashtab| >= 4 { hashtab[3] }

    /** hashtab + 4 + hashtab[2] * (sizeof(size_t) / 4) */
    function Buckets(): nat requires |hashtab| >= 4 { 4 + 2 * BloomSize() }

    predicate Fits() {
      && |hashtab| >= 4 && NBuckets() > 0 && BloomSize() > 0
      && 1 <= SymOffset() <= |names|
      && |hashtab| == Buckets() + NBuckets() + (|names| - SymOffset())
      && (versym.Some? ==> |versym.value| == |names|)
    }

    function Bucket(b: nat): nat requires Fits() && b < NBuckets() { hashtab[Buckets() + b] }

    function HashVal(i: nat): nat requires Fits() && SymOffset() <= i < |names| {
      hashtab[Buckets() + NBuckets() + (i - SymOffset())]
    }

    /** Bit b of 64-bit filter word w, which takes two table words. */
    predicate BloomBit(w: nat, b: nat) requires Fits() && w < BloomSize() && b < 64 {
      TestBit(hashtab[4 + 2 * w + b / 32], b % 32)
    }

    predicate VersionOk(i: nat) requires Fits() && i < |names| {
      versym.None? || versym.value[i] >= 0
    }
  }

  predicate TestBit(x: nat, b: nat) {
    x / Pow2(b) % 2 == 1
  }

  /** gnu_hash */
  function Hash(s: Name): (h: nat)
    ensures h < WRAP
  {
    if |s| == 0 then 5381 else (Hash(s[..|s| - 1]) * 33 + s[|s| - 1]) % WRAP
  }

  method ComputeHash(s: Name) returns (h: nat)
    ensures h == Hash(s)
  {
    h := 5381;
    var i := 0;
    while i < |s|
      invariant i <= |s| && h == Hash(s[..i])
    {
      assert s[..i + 1][..i] == s[..i];
      h := (h + (h * 32 + s[i])) % WRAP;
      i := i + 1;
    }
    assert s[..i] == s;
  }

  function Power(n: nat): (r: nat) {
    if n == 0 then 1 else 33 * Power(n - 1)
  }

  /** The characters as digits to base 33, the first one the highest. */
  function Digits(s: Name): (r: nat) {
    if |s| == 0 then 0 else s[0] * Power(|s| - 1) + Digits(s[1..])
  }

  lemma {:induction false} DigitsMore(s: Name, c: nat)
    ensures Digits(s + [c]) == 33 * Digits(s) + c
  {
    var r := s + [c];
    if |s| == 0 {
      assert r[1..] == [];
    } else {
      DigitsMore(s[1..], c);
      assert r[1..] == s[1..] + [c] && r[0] == s[0];
      assert s[0] * (33 * Power(|s| - 1)) == 33 * (s[0] * Power(|s| - 1));
    }
  }

  lemma WrapOnce(x: nat, c: nat)
    ensures (x % WRAP * 33 + c) % WRAP == (x * 33 + c) % WRAP
  {
    var q := x / WRAP;
    assert x * 33 + c == x % WRAP * 33 + c + WRAP * (33 * q);
  }

  /** The hash in closed form: 5381 and the characters as digits to base 33, modulo 2^32. */
  lemma {:induction false} HashIs(s: Name)
    ensures Hash(s) == (5381 * Power(|s|) + Digits(s)) % 0x1_0000_0000
  {
    if |s| > 0 {
      var p, c := s[..|s| - 1], s[|s| - 1];
      HashIs(p);
      DigitsMore(p, c);
      assert s == p + [c];
      WrapOnce(5381 * Power(|p|) + Digits(p), c);
    }
  }

  /** The bucket of symbol i. */
  function BucketOf(d: Dso, i: nat): (b: nat)
    requires d.Fits() && i < |d.names|
  {
    Hash(d.names[i]) % d.NBuckets()
  }

  /** What a linker promises of a table: symbols are grouped by bucket, a bucket holds the first
      of its symbols, a chain word the hash with the low bit marking the end of the group. */
  ghost predicate Chained(d: Dso)
    requires d.Fits()
  {
    && (forall b | 0 <= b < d.NBuckets() :: BucketFirst(d, b))
    && (forall i, j, k | d.SymOffset() <= i <= j <= k < |d.names| && BucketOf(d, i) == BucketOf(d, k) ::
          BucketOf(d, j) == BucketOf(d, i))
    && (forall i | d.SymOffset() <= i < |d.names| :: ChainWord(d, i))
  }

  ghost predicate BucketFirst(d: Dso, b: nat)
    requires d.Fits() && b < d.NBuckets()
  {
    var f := d.Bucket(b);
    if f == 0 then forall i | d.SymOffset() <= i < |d.names| :: BucketOf(d, i) != b
    else
      && d.SymOffset() <= f < |d.names| && BucketOf(d, f) == b
      && forall i | d.SymOffset() <= i < f :: BucketOf(d, i) != b
  }

  ghost predicate ChainWord(d: Dso, i: nat)
    requires d.Fits() && d.SymOffset() <= i < |d.names|
  {
    && d.HashVal(i) / 2 == Hash(d.names[i]) / 2
    && (d.HashVal(i) % 2 == 1 <==> i + 1 == |d.names| || BucketOf(d, i + 1) != BucketOf(d, i))
  }

  /** The filter has both bits of each symbol's hash set, and its size is a power of two. */
  ghost predicate Filtered(d: Dso)
    requires d.Fits()
  {
    && (exists e: nat :: d.BloomSize() == Pow2(e))
    && forall i | d.SymOffset() <= i < |d.names| :: InFilter(d, Hash(d.names[i]))
  }

  predicate InFilter(d: Dso, h: nat)
    requires d.Fits()
  {
    var w := h / 64 % d.BloomSize();
    d.BloomBit(w, h % 64) && d.BloomBit(w, h / Pow2(d.BloomShift()) % 64)
  }

  ghost predicate WellFormed(d: Dso) {
    d.Fits() && Chained(d) && Filtered(d)
  }

  /** The symbol a lookup of s wants. */
  predicate Match(d: Dso, s: Name, i: nat)
    requires d.Fits() && i < |d.names|
  {
    d.names[i] == s && d.VersionOk(i)
  }

  /** The plain scan: the first hashed symbol from i on that matches, 0 if none does. */
  function Scan(d: Dso, s: Name, i: nat): (r: nat)
    requires d.Fits() && d.SymOffset() <= i <= |d.names|
    ensures r != 0 ==> i <= r < |d.names| && Match(d, s, r) && forall j | i <= j < r :: !Match(d, s, j)
    ensures r == 0 ==> forall j | i <= j < |d.names| :: !Match(d, s, j)
    decreases |d.names| - i
  {
    if i == |d.names| then 0 else if Match(d, s, i) then i else Scan(d, s, i + 1)
  }

  lemma ScanIs(d: Dso, s: Name, r: nat)
    requires d.Fits() && d.SymOffset() <= r < |d.names| && Match(d, s, r)
    requires forall j | d.SymOffset() <= j < r :: !Match(d, s, j)
    ensures Scan(d, s, d.SymOffset()) == r
  {
  }

  lemma ScanNone(d: Dso, s: Name)
    requires d.Fits() && forall j | d.SymOffset() <= j < |d.names| :: !Match(d, s, j)
    ensures Scan(d, s, d.SymOffset()) == 0
  {
  }

  /** x | 1 */
  function OrOne(x: nat): (r: nat) {
    x / 2 * 2 + 1
  }

  /** Where the table keeps what, in its words: four of header, two for each filter word, the buckets, the
      chains; and which filter bits a hash has. */
  lemma LayoutIs(d: Dso)
    requires d.Fits()
    ensures forall b | 0 <= b < d.hashtab[0] :: d.Bucket(b) == d.hashtab[4 + 2 * d.hashtab[2] + b]
    ensures forall i | d.hashtab[1] <= i < |d.names| ::
              d.HashVal(i) == d.hashtab[4 + 2 * d.hashtab[2] + d.hashtab[0] + (i - d.hashtab[1])]
    ensures forall h: nat {:trigger InFilter(d, h)} :: InFilter(d, h) <==>
              var w, b, c := h / 64 % d.hashtab[2], h % 64, h / Pow2(d.hashtab[3]) % 64;
              && d.hashtab[4 + 2 * w + b / 32] / Pow2(b % 32) % 2 == 1
              && d.hashtab[4 + 2 * w + c / 32] / Pow2(c % 32) % 2 == 1
  {
  }

  /** r is the lowest hashed symbol with this name and a version that is not hidden, or 0 without one. */
  ghost predicate Finds(d: Dso, s: Name, r: nat)
    requires d.Fits()
  {
    if r == 0 then
      forall j | d.SymOffset() <= j < |d.names| && d.names[j] == s :: d.versym.Some? && d.versym.value[j] < 0
    else
      && d.SymOffset() <= r < |d.names| && d.names[r] == s && (d.versym.None? || d.versym.value[r] >= 0)
      && forall j | d.SymOffset() <= j < r && d.names[j] == s :: d.versym.Some? && d.versym.value[j] < 0
  }

  lemma ScanFinds(d: Dso, s: Name)
    requires d.Fits()
    ensures Finds(d, s, Scan(d, s, d.SymOffset()))
  {
    var r := Scan(d, s, d.SymOffset());
    forall j | d.SymOffset() <= j < (if r == 0 then |d.names| else r) && d.names[j] == s
      ensures d.versym.Some? && d.versym.value[j] < 0
    {
      assert !Match(d, s, j);
    }
  }

  /** gnu_lookup */
  method GnuLookup(h1: nat, d: Dso, s: Name) returns (r: nat)
    requires d.Fits() && Chained(d) && h1 == Hash(s)
    ensures r == Scan(d, s, d.SymOffset())
  {
    var b := h1 % d.NBuckets();
    var i := d.Bucket(b);
    assert BucketFirst(d, b);
    if i == 0 {
      OtherBuckets(d, s, d.SymOffset(), |d.names|);
      ScanNone(d, s);
      return 0;
    }
    OtherBuckets(d, s, d.SymOffset(), i);
    while true
      invariant d.SymOffset() <= i < |d.names| && BucketOf(d, i) == b
      invariant forall j | d.SymOffset() <= j < i :: !Match(d, s, j)
      decreases |d.names| - i
    {
      var h2 := d.HashVal(i);
      assert ChainWord(d, i);
      if OrOne(h1) == OrOne(h2) && (d.versym.None? || d.versym.value[i] >= 0) && d.names[i] == s {
        ScanIs(d, s, i);
        return i;
      }
      assert !Match(d, s, i);
      if h2 % 2 == 1 {
        GroupEnds(d, i);
        OtherBuckets(d, s, i + 1, |d.names|);
        ScanNone(d, s);
        return 0;
      }
      i := i + 1;
    }
  }

  /** No symbol of another bucket matches. */
  lemma OtherBuckets(d: Dso, s: Name, lo: nat, hi: nat)
    requires d.Fits() && d.SymOffset() <= lo && hi <= |d.names|
    requires forall i | lo <= i < hi :: BucketOf(d, i) != Hash(s) % d.NBuckets()
    ensures forall i | lo <= i < hi :: !Match(d, s, i)
  {
    forall i | lo <= i < hi ensures !Match(d, s, i) {
      assert BucketOf(d, i) != Hash(s) % d.NBuckets();
    }
  }

  /** After the end of a group its bucket does not come again. */
  lemma GroupEnds(d: Dso, i: nat)
    requires d.Fits() && Chained(d) && d.SymOffset() <= i < |d.names|
    requires i + 1 == |d.names| || BucketOf(d, i + 1) != BucketOf(d, i)
    ensures forall k | i + 1 <= k < |d.names| :: BucketOf(d, k) != BucketOf(d, i)
  {
    forall k | i + 1 <= k < |d.names| ensures BucketOf(d, k) != BucketOf(d, i) {
      assert d.SymOffset() <= i <= i + 1 <= k;
    }
  }

  /** gnu_lookup_filtered: the filter never drops a symbol that the scan finds. */
  method GnuLookupFiltered(h1: nat, d: Dso, s: Name) returns (r: nat)
    requires WellFormed(d) && h1 == Hash(s)
    ensures r == Scan(d, s, d.SymOffset())
  {
    var w := FilterWord(d, h1 / 64);
    FilterKeeps(d, s);
    if !d.BloomBit(w, h1 % 64) {
      return 0;
    }
    if !d.BloomBit(w, h1 / Pow2(d.BloomShift()) % 64) {
      return 0;
    }
    r := GnuLookup(h1, d, s);
  }

  /** fofs & (hashtab[2] - 1), the word of the filter: the size being a power of two, the remainder. */
  method FilterWord(d: Dso, fofs: nat) returns (w: nat)
    requires d.Fits() && Filtered(d)
    ensures w == fofs % d.BloomSize()
  {
    w := BitAnd(fofs, d.BloomSize() - 1);
    ghost var e: nat :| d.BloomSize() == Pow2(e);
    AndCommutes(fofs, d.BloomSize() - 1);
    MaskIsRem(fofs, e);
  }

  lemma FilterKeeps(d: Dso, s: Name)
    requires WellFormed(d)
    ensures Scan(d, s, d.SymOffset()) != 0 ==> InFilter(d, Hash(s))
  {
    var r := Scan(d, s, d.SymOffset());
    if r != 0 {
      assert InFilter(d, Hash(d.names[r]));
    }
  }
}
