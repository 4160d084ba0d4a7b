/** The concrete identifiers of the package's unit tests, and the results
    those tests require of the digit and identifier operations. */
module NodeIdVectors {
  import opened Digits
  import opened NodeIds

  // Identifiers of the common-prefix test: alternating 0x0f / 0xd0, and
  // variants that differ at a single position.
  const N1: NodeId := [0xf, 0xd0, 0xf, 0xd0, 0xf, 0xd0, 0xf, 0xd0, 0xf, 0xd0, 0xf, 0xd0, 0xf, 0xd0, 0xf, 0xd0,
                       0xf, 0xd0, 0xf, 0xd0, 0xf, 0xd0, 0xf, 0xd0, 0xf, 0xd0, 0xf, 0xd0, 0xf, 0xd0, 0xf, 0xd0]
  const N2: NodeId := [0xf, 0xd0, 0xf, 0xd0, 0xd0, 0xd0, 0xf, 0xd0, 0xf, 0xd0, 0xf, 0xd0, 0xf, 0xd0, 0xf, 0xd0,
                       0xf, 0xd0, 0xf, 0xd0, 0xf, 0xd0, 0xf, 0xd0, 0xf, 0xd0, 0xf, 0xd0, 0xf, 0xd0, 0xf, 0xd0]
  const N3: NodeId := [0xd0, 0xf, 0xd0, 0xf, 0xd0, 0xf, 0xd0, 0xf, 0xd0, 0xf, 0xd0, 0xf, 0xd0, 0xf, 0xd0, 0xf,
                       0xd0, 0xf, 0xd0, 0xf, 0xd0, 0xf, 0xd0, 0xf, 0xd0, 0xf, 0xd0, 0xf, 0xd0, 0xf, 0xd0, 0xf]
  const N4: NodeId := [0xd0, 0xf, 0xd0, 0xf, 0xd0, 0xf, 0xa, 0xf, 0xd0, 0xf, 0xd0, 0xf, 0xd0, 0xf, 0xd0, 0xf,
                       0xd0, 0xf, 0xd0, 0xf, 0xd0, 0xf, 0xd0, 0xf, 0xd0, 0xf, 0xd0, 0xf, 0xd0, 0xf, 0xd0, 0xf]

  // Identifier of the distance test: N1 with its last digit 0xd0 (13)
  // replaced by 0xb0 (11).
  const M2: NodeId := N1[..31] + [0xb0]

  // The ASCII bytes of "123456789012345" and of "1234567890123456".
  const Ascii15: seq<Byte> := [0x31, 0x32, 0x33, 0x34, 0x35, 0x36, 0x37, 0x38, 0x39, 0x30, 0x31, 0x32, 0x33, 0x34, 0x35]
  const Ascii16: seq<Byte> := Ascii15 + [0x36]

  // The buffers of the wrap-around test: sixteen 0x00 bytes, sixteen 0xff bytes.
  const ZeroBytes: seq<Byte> := seq(16, _ => 0)
  const FullBytes: seq<Byte> := seq(16, _ => 255)
  const ZeroId: NodeId := SplitBytes(ZeroBytes)
  const FullId: NodeId := SplitBytes(FullBytes)

  /** Every byte accepted by the split test (and every other byte) splits
      into two digits that add up to it. */
  lemma SplitVector()
    ensures forall b: Byte :: DigitsFromByte(b).0 as int + DigitsFromByte(b).1 as int == b as int
    ensures DigitsFromByte(0x61) == (0x60, 0x01) && DigitsFromByte(0x20) == (0x20, 0x00)
  {
  }

  /** 0x0f and 0xf0 are the same digit. */
  lemma DigitEqualsVector()
    ensures Equals(0xf, 0xf0)
    ensures Equals(0x1, 0x10)
    ensures !Equals(0xf, 0xd0)
  {
  }

  /** Fifteen bytes are too few; sixteen make a 32-digit identifier. */
  lemma FromBytesVector()
    ensures NodeIdFromBytes(Ascii15) == Failure(InvalidLength)
    ensures NodeIdFromBytes(Ascii16).Success? && |NodeIdFromBytes(Ascii16).value| == 32
  {
  }

  /** The common prefix lengths the test expects: 4, 0, 6, and the full
      length of an identifier compared with itself. */
  lemma CommonPrefixLenVector1()
    ensures CommonPrefixLen(N1, N2) == 4
  {
    PrefixAt(N1, N2, 4);
  }

  lemma CommonPrefixLenVector2()
    ensures CommonPrefixLen(N2, N3) == 0
  {
    PrefixAt(N2, N3, 0);
  }

  lemma CommonPrefixLenVector3()
    ensures CommonPrefixLen(N3, N4) == 6
  {
    PrefixAt(N3, N4, 6);
  }

  lemma CommonPrefixLenVector4()
    ensures CommonPrefixLen(N4, N4) == |N4| == 32
  {
    CommonPrefixLenSelf(N4);
  }

  /** The common prefix of two identifiers that agree on their first `k`
      raw digits and differ canonically at position `k`. */
  lemma PrefixAt(a: NodeId, b: NodeId, k: nat)
    requires k < |a| && k < |b| && a[..k] == b[..k] && !Equals(a[k], b[k])
    ensures CommonPrefixLen(a, b) == k
  {
    forall i | 0 <= i < k ensures Equals(a[i], b[i]) {
      assert a[..k][i] == a[i] && b[..k][i] == b[i];
    }
    CommonPrefixLenUnique(a, b, k);
  }

  /** Identifiers equal but for their last digits (canonical values 13 and
      11) are 2 apart in both directions, and each is 0 from itself. */
  lemma DiffVector()
    ensures Diff(N1, M2) == Success(2)
    ensures Diff(M2, N1) == Success(2)
    ensures Diff(M2, M2) == Success(0)
  {
    var prefix := N1[..31];
    assert N1[..|N1| - 1] == prefix && M2[..|M2| - 1] == prefix;
    assert Value(N1) == Value(prefix) * 16 + 13;
    assert Value(M2) == Value(prefix) * 16 + 11;
    DiffSymmetric(N1, M2);
    DiffSelf(M2);
  }

  /** The least and the greatest point named by a byte buffer. */
  lemma {:induction false} BytesValueExtremes(bytes: seq<Byte>)
    ensures (forall i :: 0 <= i < |bytes| ==> bytes[i] == 0) ==> BytesValue(bytes) == 0
    ensures (forall i :: 0 <= i < |bytes| ==> bytes[i] == 255) ==> BytesValue(bytes) == ByteRing(|bytes|) - 1
  {
    if bytes != [] {
      var prefix := bytes[..|bytes| - 1];
      BytesValueExtremes(prefix);
    }
  }

  /** Both buffers of the wrap-around test are long enough. */
  lemma WrapIdsVector()
    ensures NodeIdFromBytes(ZeroBytes) == Success(ZeroId)
    ensures NodeIdFromBytes(FullBytes) == Success(FullId)
    ensures |ZeroId| == |FullId| == 32
  {
  }

  /** The identifier of the zero buffer is the ring's least point. */
  lemma ZeroIdValueVector()
    ensures Value(ZeroId) == 0
  {
    ValueOfSplitBytes(ZeroBytes);
    BytesValueExtremes(ZeroBytes);
  }

  /** The identifier of the 0xff buffer is the ring's greatest point,
      16^32 - 1 for its 32 digits. */
  lemma FullIdValueVector()
    ensures Value(FullId) == Ring(|FullId|) - 1
  {
    ValueOfSplitBytes(FullBytes);
    BytesValueExtremes(FullBytes);
    RingOfBytes(|FullBytes|);
  }

  /** Those two identifiers sit on either side of the ring's wrap point:
      1 apart in both directions, not 16^32 - 1; and each is 0 from itself. */
  lemma DiffWrapVector()
    ensures Diff(ZeroId, FullId) == Success(1)
    ensures Diff(FullId, ZeroId) == Success(1)
    ensures Diff(FullId, FullId) == Success(0)
  {
    WrapIdsVector();
    ZeroIdValueVector();
    FullIdValueVector();
    DiffSymmetric(ZeroId, FullId);
    DiffSelf(FullId);
  }
}
