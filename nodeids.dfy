/** Pastry node identifiers: construction from raw bytes, the common-prefix
    length used for routing-table rows, and the circular distance on the
    identifier ring used for leaf-set proximity. */
module NodeIds {
  import opened Digits

  /** `NodeID`: a sequence of digits, most significant first. */
  type NodeId = seq<Digit>

  /** The only failure of this core. */
  datatype Error = InvalidLength

  datatype Result<T> = Success(value: T) | Failure(error: Error)

  /** The fewest source bytes `NodeIDFromBytes` accepts (32 digits, a ring of
      2^128 points). */
  const MinBytes: nat := 16

  // ---------------------------------------------------------------------
  // Construction
  // ---------------------------------------------------------------------

  /** The digits of a byte buffer: each byte's high-half digit followed by
      its low-half digit, bytes in buffer order. */
  function SplitBytes(bytes: seq<Byte>): (id: NodeId)
    ensures |id| == 2 * |bytes|
    ensures forall i :: 0 <= i < |bytes| ==>
              id[2 * i] == DigitsFromByte(bytes[i]).0 && id[2 * i + 1] == DigitsFromByte(bytes[i]).1
  {
    if bytes == [] then []
    else
      var pair := DigitsFromByte(bytes[|bytes| - 1]);
      SplitBytes(bytes[..|bytes| - 1]) + [pair.0, pair.1]
  }

  /** `NodeIDFromBytes`: fails with `InvalidLength` when the buffer is shorter
      than `MinBytes`; otherwise the identifier holds every byte's two digits,
      in order, and nothing else. */
  function NodeIdFromBytes(bytes: seq<Byte>): (r: Result<NodeId>)
    ensures r.Failure? <==> |bytes| < MinBytes
    ensures r.Failure? ==> r.error == InvalidLength
    ensures r.Success? ==> |r.value| == 2 * |bytes|
    ensures r.Success? ==> forall i :: 0 <= i < |bytes| ==>
              r.value[2 * i] == DigitsFromByte(bytes[i]).0 && r.value[2 * i + 1] == DigitsFromByte(bytes[i]).1
  {
    if |bytes| < MinBytes then Failure(InvalidLength) else Success(SplitBytes(bytes))
  }

  // ---------------------------------------------------------------------
  // Common prefix length
  // ---------------------------------------------------------------------

  /** `NodeID.CommonPrefixLen`: the first position at which the two
      identifiers' digits are not `Equals`, or the shorter length when there
      is none. */
  function CommonPrefixLen(a: NodeId, b: NodeId): (n: nat)
    ensures n <= |a| && n <= |b|
    ensures forall i :: 0 <= i < n ==> Equals(a[i], b[i])
    ensures n < |a| && n < |b| ==> !Equals(a[n], b[n])
  {
    if a == [] || b == [] || !Equals(a[0], b[0]) then 0
    else 1 + CommonPrefixLen(a[1..], b[1..])
  }

  /** The three conditions of `CommonPrefixLen`'s contract pin its result
      down: any position meeting them is the common prefix length. */
  lemma CommonPrefixLenUnique(a: NodeId, b: NodeId, k: nat)
    requires k <= |a| && k <= |b|
    requires forall i :: 0 <= i < k ==> Equals(a[i], b[i])
    requires k < |a| && k < |b| ==> !Equals(a[k], b[k])
    ensures CommonPrefixLen(a, b) == k
  {
  }

  lemma CommonPrefixLenSymmetric(a: NodeId, b: NodeId)
    ensures CommonPrefixLen(a, b) == CommonPrefixLen(b, a)
  {
    CommonPrefixLenUnique(b, a, CommonPrefixLen(a, b));
  }

  /** An identifier shares all of its digits with itself. */
  lemma CommonPrefixLenSelf(a: NodeId)
    ensures CommonPrefixLen(a, a) == |a|
  {
    CommonPrefixLenUnique(a, a, |a|);
  }

  /** Identifiers of one length share every digit exactly when their common
      prefix is that length. */
  lemma CommonPrefixLenFull(a: NodeId, b: NodeId)
    requires |a| == |b|
    ensures CommonPrefixLen(a, b) == |a| <==> forall i :: 0 <= i < |a| ==> Equals(a[i], b[i])
  {
    if forall i :: 0 <= i < |a| ==> Equals(a[i], b[i]) {
      CommonPrefixLenUnique(a, b, |a|);
    }
  }

  // ---------------------------------------------------------------------
  // The ring
  // ---------------------------------------------------------------------

  /** The number of points on the ring of `len`-digit identifiers, 16^len. */
  function Ring(len: nat): (size: nat)
    ensures size >= 1
    ensures len >= 1 ==> size >= 16
  {
    if len == 0 then 1 else 16 * Ring(len - 1)
  }

  /** The identifier read as a base-16 number over canonical digit values,
      most significant digit first. Every identifier is a point on its ring. */
  function Value(id: NodeId): (v: nat)
    ensures v < Ring(|id|)
  {
    if id == [] then 0
    else
      var prefix := id[..|id| - 1];
      assert Value(prefix) * 16 <= (Ring(|prefix|) - 1) * 16;
      Value(prefix) * 16 + Canon(id[|id| - 1])
  }

  /** The value depends on canonical digit values only, and two identifiers
      of one length have the same value exactly when all their digits are
      `Equals`. */
  lemma {:induction false} ValueInjective(a: NodeId, b: NodeId)
    requires |a| == |b|
    ensures Value(a) == Value(b) <==> forall i :: 0 <= i < |a| ==> Equals(a[i], b[i])
  {
    if a != [] {
      var n := |a| - 1;
      var pa, pb := a[..n], b[..n];
      ValueInjective(pa, pb);
      if Value(a) == Value(b) {
        assert Value(pa) * 16 + Canon(a[n]) == Value(pb) * 16 + Canon(b[n]);
        assert Value(pa) == Value(pb) && Canon(a[n]) == Canon(b[n]) by {
          DivModUnique(Value(pa), Canon(a[n]), Value(pb), Canon(b[n]));
        }
        forall i | 0 <= i < |a| ensures Equals(a[i], b[i]) {
          if i < n { assert pa[i] == a[i] && pb[i] == b[i]; }
        }
      }
      if forall i :: 0 <= i < |a| ==> Equals(a[i], b[i]) {
        forall i | 0 <= i < n ensures Equals(pa[i], pb[i]) {
          assert Equals(a[i], b[i]);
        }
        assert Equals(a[n], b[n]);
      }
    }
  }

  /** Base-16 digits are unique: `q * 16 + r` determines `q` and `r < 16`. */
  lemma DivModUnique(q1: nat, r1: nat, q2: nat, r2: nat)
    requires r1 < 16 && r2 < 16
    requires q1 * 16 + r1 == q2 * 16 + r2
    ensures q1 == q2 && r1 == r2
  {
    assert (q1 - q2) * 16 == r2 - r1;
  }

  /** Reading an identifier as its first `k` digits followed by the rest. */
  lemma {:induction false} ValueSplit(id: NodeId, k: nat)
    requires k <= |id|
    ensures Value(id) == Value(id[..k]) * Ring(|id| - k) + Value(id[k..])
  {
    if k < |id| {
      var n := |id| - 1;
      var init := id[..n];
      ValueSplit(init, k);
      assert init[..k] == id[..k];
      assert id[k..][..|id[k..]| - 1] == init[k..];
      assert Ring(|id| - k) == 16 * Ring(n - k);
      Regroup(Value(id), Value(init), Value(id[..k]), Ring(n - k), Value(init[k..]), Canon(id[n]), Value(id[k..]));
    } else {
      assert id[..k] == id;
    }
  }

  /** One more digit appended to `p * size + t`. */
  lemma Regroup(whole: int, init: int, p: int, size: int, t: int, c: int, tail: int)
    requires whole == init * 16 + c && init == p * size + t && tail == t * 16 + c
    ensures whole == p * (16 * size) + tail
  {
  }

  lemma MulMono(x: int, y: int, size: nat)
    ensures x <= y ==> x * size <= y * size
  {
    if x <= y {
      assert (y - x) * size >= 0;
    }
  }

  /** `n / size == q` when `n == q * size + r` and `r < size`. */
  lemma DivBlock(n: nat, q: nat, r: nat, size: nat)
    requires n == q * size + r && r < size
    ensures n / size == q
  {
    var q', r' := n / size, n % size;
    assert q' * size + r' == n;
    MulMono(q + 1, q', size);
    MulMono(q' + 1, q, size);
    assert (q + 1) * size == q * size + size;
    assert (q' + 1) * size == q' * size + size;
  }

  /** The first `k` digits of an identifier name the block of 16^(len - k)
      consecutive points it lies in. */
  lemma BlockOfPrefix(id: NodeId, k: nat)
    requires k <= |id|
    ensures Value(id) / Ring(|id| - k) == Value(id[..k])
  {
    ValueSplit(id, k);
    DivBlock(Value(id), Value(id[..k]), Value(id[k..]), Ring(|id| - k));
  }

  /** Prefix routing and numerical closeness agree: two identifiers of one
      length share at least `k` leading digits exactly when they fall in the
      same block of 16^(len - k) consecutive points of the ring. */
  lemma SharedPrefixIsSameBlock(a: NodeId, b: NodeId, k: nat)
    requires |a| == |b| && k <= |a|
    ensures CommonPrefixLen(a, b) >= k <==> Value(a) / Ring(|a| - k) == Value(b) / Ring(|a| - k)
  {
    BlockOfPrefix(a, k);
    BlockOfPrefix(b, k);
    ValueInjective(a[..k], b[..k]);
    assert (forall i :: 0 <= i < k ==> Equals(a[..k][i], b[..k][i])) <==>
           (forall i :: 0 <= i < k ==> Equals(a[i], b[i])) by {
      forall i | 0 <= i < k ensures a[..k][i] == a[i] && b[..k][i] == b[i] {}
    }
  }

  /** The source buffer read as a big-endian unsigned number. */
  function BytesValue(bytes: seq<Byte>): (v: nat)
    ensures v < ByteRing(|bytes|)
  {
    if bytes == [] then 0
    else
      var prefix := bytes[..|bytes| - 1];
      assert BytesValue(prefix) * 256 <= (ByteRing(|prefix|) - 1) * 256;
      BytesValue(prefix) * 256 + bytes[|bytes| - 1] as nat
  }

  /** 256^count, the number of distinct `count`-byte buffers. */
  function ByteRing(count: nat): (size: nat)
    ensures size >= 1
  {
    if count == 0 then 1 else 256 * ByteRing(count - 1)
  }

  /** An identifier built from bytes is the point named by those bytes read
      as a big-endian number: every buffer of a given length names a
      distinct point. */
  lemma {:induction false} ValueOfSplitBytes(bytes: seq<Byte>)
    ensures Value(SplitBytes(bytes)) == BytesValue(bytes)
  {
    if bytes != [] {
      var n := |bytes| - 1;
      var pair := DigitsFromByte(bytes[n]);
      ValueOfSplitBytes(bytes[..n]);
      var id, head := SplitBytes(bytes), SplitBytes(bytes[..n]);
      var mid := head + [pair.0];
      assert id == head + [pair.0, pair.1];
      assert id[..|id| - 1] == mid && mid[..|head|] == head;
      DigitsFromByteInjective(bytes[n], bytes[n]);
      TwoDigits(Value(id), Value(mid), Value(head), Canon(pair.0), Canon(pair.1), bytes[n] as int);
    }
  }

  /** Appending a byte's two digits appends the byte in base 256. */
  lemma TwoDigits(whole: int, mid: int, init: int, hi: int, lo: int, b: int)
    requires whole == mid * 16 + lo && mid == init * 16 + hi && hi * 16 + lo == b
    ensures whole == init * 256 + b
  {
  }

  /** The ring of identifiers built from `count` bytes has 256^count =
      16^(2 * count) points. */
  lemma {:induction false} RingOfBytes(count: nat)
    ensures Ring(2 * count) == ByteRing(count)
  {
    if count > 0 {
      RingOfBytes(count - 1);
      assert Ring(2 * count) == 16 * Ring(2 * count - 1) == 16 * (16 * Ring(2 * (count - 1)));
    }
  }

  // ---------------------------------------------------------------------
  // Circular distance
  // ---------------------------------------------------------------------

  /** `NodeID.Diff`: with F the absolute difference of the two identifiers'
      values, the shorter arc min(F, 16^len - F) between them on the ring.
      Identifiers of different lengths are on different rings and give
      `InvalidLength`. The result is never more than half the ring. */
  function Diff(a: NodeId, b: NodeId): (r: Result<nat>)
    ensures r.Failure? <==> |a| != |b|
    ensures r.Failure? ==> r.error == InvalidLength
    ensures r.Success? ==> r.value <= Ring(|a|) / 2
  {
    if |a| != |b| then Failure(InvalidLength)
    else
      var x, y, ring := Value(a), Value(b), Ring(|a|);
      var forward := if x >= y then x - y else y - x;
      Success(if forward <= ring - forward then forward else ring - forward)
  }

  /** Moving `k` steps clockwise from `x` on a ring of `ring` points lands on `y`. */
  ghost predicate Reaches(x: int, y: int, k: int, ring: nat)
    requires ring > 0
  {
    (x + k) % ring == y
  }

  /** `d` steps join `x` and `y` in one direction or the other, and no fewer
      steps do. */
  ghost predicate ShortestArc(x: int, y: int, d: nat, ring: nat)
    requires ring > 0
  {
    && (Reaches(x, y, d, ring) || Reaches(y, x, d, ring))
    && forall k :: 0 <= k < d ==> !Reaches(x, y, k, ring) && !Reaches(y, x, k, ring)
  }

  /** `n % ring` for `0 <= n < 2 * ring`. */
  lemma ModOnce(n: int, ring: nat)
    requires 0 < ring && 0 <= n < 2 * ring
    ensures n % ring == if n < ring then n else n - ring
  {
    var q, r := n / ring, n % ring;
    assert n == q * ring + r && 0 <= r < ring;
    assert 0 <= q < 2 by {
      assert q * ring <= n < 2 * ring;
      assert (q + 1) * ring > n >= 0;
    }
  }

  /** From the lower of two points, the higher one is `y - x` steps clockwise;
      from the higher, the lower is `ring - (y - x)` steps on (0 if they meet). */
  lemma ArcSteps(x: nat, y: nat, k: nat, ring: nat)
    requires x <= y < ring && k < ring
    ensures Reaches(x, y, k, ring) <==> k == y - x
    ensures Reaches(y, x, k, ring) <==> k == (if x == y then 0 else ring - (y - x))
  {
    ModOnce(x + k, ring);
    ModOnce(y + k, ring);
  }

  /** The distance `Diff` reports is the number of steps along the shorter
      way round the ring from one identifier to the other. */
  lemma DiffIsShortestArc(a: NodeId, b: NodeId)
    requires |a| == |b|
    ensures ShortestArc(Value(a), Value(b), Diff(a, b).value, Ring(|a|))
  {
    var x, y, ring, d := Value(a), Value(b), Ring(|a|), Diff(a, b).value;
    var lo, hi := if x <= y then x else y, if x <= y then y else x;
    ArcSteps(lo, hi, d, ring);
    forall k | 0 <= k < d
      ensures !Reaches(x, y, k, ring) && !Reaches(y, x, k, ring)
    {
      ArcSteps(lo, hi, k, ring);
    }
  }

  lemma DiffSymmetric(a: NodeId, b: NodeId)
    ensures Diff(a, b) == Diff(b, a)
  {
  }

  /** Two identifiers of one length are at distance 0 exactly when every
      digit matches, that is, when their common prefix is the whole length. */
  lemma DiffZero(a: NodeId, b: NodeId)
    requires |a| == |b|
    ensures Diff(a, b) == Success(0) <==> CommonPrefixLen(a, b) == |a|
  {
    ValueInjective(a, b);
    CommonPrefixLenFull(a, b);
  }

  lemma DiffSelf(a: NodeId)
    ensures Diff(a, a) == Success(0)
  {
    CommonPrefixLenSelf(a);
    DiffZero(a, a);
  }
}
