/** Machine words as bit sequences, least significant bit first, with the bitwise operators
    of C on words of equal width.  Shifts fill with zeros. */
module Words {

  type Word = seq<bool>

  type Word32 = w: Word | |w| == 32 witness Zeros(32)

  type Word64 = w: Word | |w| == 64 witness Zeros(64)

  function Zeros(n: nat): (r: Word)
    ensures |r| == n && forall i | 0 <= i < n :: !r[i]
  {
    seq(n, i => false)
  }

  function Ones(n: nat): (r: Word)
    ensures |r| == n && forall i | 0 <= i < n :: r[i]
  {
    seq(n, i => true)
  }

  function And(a: Word, b: Word): (r: Word)
    requires |a| == |b|
    ensures |r| == |a| && forall i | 0 <= i < |a| :: r[i] == (a[i] && b[i])
  {
    seq(|a|, i requires 0 <= i < |a| => a[i] && b[i])
  }

  function Or(a: Word, b: Word): (r: Word)
    requires |a| == |b|
    ensures |r| == |a| && forall i | 0 <= i < |a| :: r[i] == (a[i] || b[i])
  {
    seq(|a|, i requires 0 <= i < |a| => a[i] || b[i])
  }

  function Xor(a: Word, b: Word): (r: Word)
    requires |a| == |b|
    ensures |r| == |a| && forall i | 0 <= i < |a| :: r[i] == (a[i] != b[i])
  {
    seq(|a|, i requires 0 <= i < |a| => a[i] != b[i])
  }

  function Not(a: Word): (r: Word)
    ensures |r| == |a| && forall i | 0 <= i < |a| :: r[i] == !a[i]
  {
    seq(|a|, i requires 0 <= i < |a| => !a[i])
  }

  /** a << s */
  function Shl(a: Word, s: nat): (r: Word)
    ensures |r| == |a| && forall i | 0 <= i < |a| :: r[i] == (s <= i && a[i - s])
  {
    seq(|a|, i requires 0 <= i < |a| => s <= i && a[i - s])
  }

  /** a >> s */
  function Shr(a: Word, s: nat): (r: Word)
    ensures |r| == |a| && forall i | 0 <= i < |a| :: r[i] == (i + s < |a| && a[i + s])
  {
    seq(|a|, i requires 0 <= i < |a| => i + s < |a| && a[i + s])
  }

  /** The word of width n whose k low bits are set. */
  function LowMask(n: nat, k: nat): (r: Word)
    ensures |r| == n && forall i | 0 <= i < n :: r[i] == (i < k)
  {
    seq(n, i => i < k)
  }

  /** Does every one of the k low bits of w hold? This is (w & mask) == mask. */
  predicate LowAllOnes(w: Word, k: nat)
    requires k <= |w|
    ensures LowAllOnes(w, k) <==> forall i | 0 <= i < k :: w[i]
  {
    var m := LowMask(|w|, k);
    assert And(w, m) == m ==> forall i | 0 <= i < k :: And(w, m)[i];
    assert (forall i | 0 <= i < k :: w[i]) ==> And(w, m) == m;
    And(w, m) == m
  }

  /** Is every one of the k low bits of w clear? This is (w & mask) == 0. */
  predicate LowAllZero(w: Word, k: nat)
    requires k <= |w|
    ensures LowAllZero(w, k) <==> forall i | 0 <= i < k :: !w[i]
  {
    var m := LowMask(|w|, k);
    assert And(w, m) == Zeros(|w|) ==> forall i | 0 <= i < k :: !And(w, m)[i];
    assert (forall i | 0 <= i < k :: !w[i]) ==> And(w, m) == Zeros(|w|);
    And(w, m) == Zeros(|w|)
  }
}
