# Pastry node identifiers in Dafny

A model of the identifier algebra of the `pastry` package of wendy, a
Pastry-style peer-to-peer overlay. Every node and every key is a point on a
ring of 16^L points, written as L radix-16 digits. The model covers four parts:

- **Digits** (`digits.dfy`, module `Digits`). A `NodeIDDigit` is an 8-bit
  container holding one digit in its upper or its lower half. `Canon` reads
  the digit's value: the upper half if it is nonzero, otherwise the lower
  half. `Equals` compares canonical values. `DigitsFromByte` splits a byte
  into its high-half digit and its low-half digit.
- **Identifiers** (`nodeids.dfy`, module `NodeIds`). `NodeIdFromBytes`
  concatenates the digit pairs of a byte buffer. It fails with
  `InvalidLength` below `MinBytes = 16` bytes.
- **Common prefix length** (`CommonPrefixLen`): the first position whose
  digits are not `Equals`. Pastry uses it to pick a routing-table row.
- **Circular distance** (`Diff`): let F be the absolute difference of the two
  identifiers' base-16 values. Diff is min(F, 16^L − F), the shorter arc
  between them. Pastry uses it to rank leaf-set members.

Go's `math/big` integers are Dafny's unbounded `nat`. `Value` reads an
identifier as a number, most significant digit first, over canonical digit
values. `Ring(L)` is 16^L.

Beyond the unit tests, the model proves these properties:

- Digit equality is an equivalence.
- The byte split is lossless.
- An identifier built from bytes is the big-endian number those bytes spell
  (`ValueOfSplitBytes`), on a ring of 256^n = 16^(2n) points.
- Two identifiers of one length have the same value exactly when every digit
  is `Equals` (`ValueInjective`).
- `CommonPrefixLen` is symmetric. It is determined by its contract
  (`CommonPrefixLenUnique`).
- Sharing k leading digits is the same as lying in the same block of
  16^(L−k) consecutive ring points (`SharedPrefixIsSameBlock`).
- `Diff` is symmetric. It is 0 exactly when the whole prefix is shared. It
  never exceeds half the ring.
- `Diff` is the least number of steps from one point to the other, in either
  direction around the ring (`DiffIsShortestArc`).

The test vectors of `nodeid_test.go` are lemmas in `vectors.dfy` (module
`NodeIdVectors`).

The package's implementation file is not part of this model. The test
vectors in `nodeid_test.go` fix the results listed in the vector lemmas.
The rest follows the identifier design described above. That covers the
exact split `(b & 0xf0, b & 0x0f)`, buffers longer than 16 bytes, identifiers
of different lengths, and containers with both halves nonzero. The comment at
`nodeid_test.go:19` says an error is expected below 32 bytes. The tests
themselves, at lines 21 and 39, require an error at 15 bytes and success at
16. The model follows the tests: `MinBytes = 16`.

## Model

| member | source | states |
|---|---|---|
| `Digits.Canon` | nodeid_test.go:28-35 | the canonical value is below 16; it is the upper half when that half is nonzero, otherwise the whole (lower-half) container; it is 0 only for the empty container |
| `Digits.Equals` | nodeid_test.go:28-35 | two digits are equal exactly when their canonical values are, whichever half holds the bits: identical containers are equal; two digits in the same half are equal only when identical; a nonzero upper-half digit equals a lower-half digit exactly when it is that digit shifted up by four bits |
| `Digits.EqualsIgnoresHalf` | nodeid_test.go:29-35 | a digit v in the lower half and v shifted into the upper half have the same canonical value v and are `Equals` |
| `Digits.EqualsIsEquivalence` | nodeid_test.go:28-35 | digit equality is reflexive, symmetric and transitive |
| `Digits.DigitsFromByte` | nodeid_test.go:8-17 | the two digits' raw values add up to the byte with no 8-bit overflow; the first uses only the upper half and the second only the lower; their canonical values are the byte's two hexadecimal digits |
| `Digits.DigitsFromByteInjective` | nodeid_test.go:9-17 | different bytes split differently, and a byte is recovered as 16 × high digit + low digit |
| `NodeIds.SplitBytes` | nodeid_test.go:109-113 | the identifier is twice as long as the buffer; for each byte i, position 2i holds its high-half digit and 2i+1 its low-half digit |
| `NodeIds.NodeIdFromBytes` | nodeid_test.go:19-45 | fails with `InvalidLength` exactly when the buffer is shorter than 16 bytes; otherwise the identifier has 2 × n digits, the high and low digit of each byte in buffer order |
| `NodeIds.CommonPrefixLen` | nodeid_test.go:47-87 | the result is at most either length; all earlier positions are `Equals`; when both identifiers extend past it, the digits at the result position are not `Equals` |
| `NodeIds.CommonPrefixLenUnique` | nodeid_test.go:48-80 | any position meeting those three conditions is the common prefix length |
| `NodeIds.CommonPrefixLenSymmetric` | nodeid_test.go:47-87 | the common prefix length does not depend on argument order |
| `NodeIds.CommonPrefixLenSelf` | nodeid_test.go:81-86 | an identifier's common prefix with itself is its whole length |
| `NodeIds.CommonPrefixLenFull` | nodeid_test.go:81-86 | for equal lengths, the common prefix is the whole length exactly when every digit pair is `Equals` |
| `NodeIds.Ring` | nodeid_test.go:107-124 | the ring of a non-empty identifier has at least 16 points, and every ring has at least 1 |
| `NodeIds.Value` | nodeid_test.go:89-129 | every identifier's value is a point of its ring: below 16^L |
| `NodeIds.ValueInjective` | nodeid_test.go:89-105 | two identifiers of one length have equal values exactly when all their digits are `Equals` |
| `NodeIds.BlockOfPrefix` | nodeid_test.go:47-87 | the first k digits of an identifier give its value divided by 16^(L−k) |
| `NodeIds.SharedPrefixIsSameBlock` | nodeid_test.go:47-87 | for equal lengths, the common prefix is at least k exactly when both values fall in the same block of 16^(L−k) ring points |
| `NodeIds.ValueOfSplitBytes` | nodeid_test.go:107-124 | the value of the identifier built from a buffer is that buffer read as a big-endian number |
| `NodeIds.RingOfBytes` | nodeid_test.go:107-124 | identifiers built from n bytes live on a ring of 256^n = 16^(2n) points |
| `NodeIds.Diff` | nodeid_test.go:89-129 | fails with `InvalidLength` exactly when the lengths differ; otherwise the distance is at most half the ring, 16^L / 2 |
| `NodeIds.DiffIsShortestArc` | nodeid_test.go:107-129 | the distance gets from one value to the other around the ring in one direction or the other, and no smaller number of steps does so in either direction |
| `NodeIds.DiffSymmetric` | nodeid_test.go:90-100 | the distance does not depend on argument order |
| `NodeIds.DiffZero` | nodeid_test.go:101-104 | for equal lengths, the distance is 0 exactly when the common prefix is the whole length |
| `NodeIds.DiffSelf` | nodeid_test.go:125-128 | an identifier is at distance 0 from itself |
| `NodeIdVectors.SplitVector` | nodeid_test.go:9-17 | every byte, including those of the test string, splits into digits summing to it; 'a' = 0x61 gives (0x60, 0x01) and ' ' gives (0x20, 0x00) |
| `NodeIdVectors.DigitEqualsVector` | nodeid_test.go:29-35 | 0x0f equals 0xf0 and 0x01 equals 0x10, while 0x0f does not equal 0xd0 |
| `NodeIdVectors.FromBytesVector` | nodeid_test.go:19-45 | the 15 ASCII bytes of "123456789012345" give `InvalidLength`; the 16 of "1234567890123456" give a 32-digit identifier |
| `NodeIdVectors.CommonPrefixLenVector1` | nodeid_test.go:49-64 | the common prefix of n1 and n2 is 4 |
| `NodeIdVectors.CommonPrefixLenVector2` | nodeid_test.go:65-72 | the common prefix of n2 and n3 is 0 |
| `NodeIdVectors.CommonPrefixLenVector3` | nodeid_test.go:53-80 | the common prefix of n3 and n4 is 6 |
| `NodeIdVectors.CommonPrefixLenVector4` | nodeid_test.go:81-86 | the common prefix of n4 with itself is its length, 32 |
| `NodeIdVectors.DiffVector` | nodeid_test.go:90-105 | identifiers that differ only in their last digit, 0xd0 (13) against 0xb0 (11), are 2 apart in both orders; an identifier is 0 from itself |
| `NodeIdVectors.WrapIdsVector` | nodeid_test.go:109-116 | sixteen 0x00 bytes and sixteen 0xff bytes both build 32-digit identifiers |
| `NodeIdVectors.ZeroIdValueVector` | nodeid_test.go:109-112 | the all-zero identifier is the ring's point 0 |
| `NodeIdVectors.FullIdValueVector` | nodeid_test.go:113-116 | the all-0xff identifier is the ring's last point, 16^32 − 1 |
| `NodeIdVectors.DiffWrapVector` | nodeid_test.go:117-128 | those two identifiers are 1 apart in both orders, not 16^32 − 1, because the distance wraps around the ring; the all-0xff identifier is 0 from itself |

## Left out

- `BenchmarkNodeIDDiff` (nodeid_test.go:132-147) only measures time, so it has no behaviour to model.
- Test logging and message formatting (`t.Errorf`, `t.Logf`, `%v`) are output, not behaviour.
- The implementation file of package `pastry` is not part of this model. The test vectors fix the listed results; the rest of each operation follows the identifier design.
- NodeIds.NodeIdFromBytes: buffers longer than 16 bytes give 2 × n digits. No test covers them, so an implementation that truncates to 32 digits is not ruled out.
- `math/big` is not modelled as a library. Its integers are Dafny's `nat`, and `Cmp` is plain equality of numbers.
- `NodeIds.CommonPrefixLen` on identifiers of different lengths stops at the shorter length. The tests only compare identifiers of equal length.
- `NodeIds.Diff` on identifiers of different lengths gives `InvalidLength` and no distance. No test covers that case.
- A container with both halves nonzero (e.g. 0xab) reads as its upper half. `DigitsFromByte` never produces one, and no test uses one.
