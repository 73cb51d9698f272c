/**
  The CRC-8 engine shared by both protocol revisions: a table-driven,
  MSB-first CRC-8 with no reflection, no initial value and no final xor.

  The table generator and the checksum fold are given here as functions
  (the reference definitions); the imperative code of each revision is
  proved equal to them.
 */
module Crc8 {

  /** A `u8` on the wire. */
  type Byte = bv8

  /** The range of a `u8` used as a counter (`calc_crc`'s `size`). */
  type U8 = x: int | 0 <= x < 256

  // ---------------------------------------------------------------------
  // Table generation
  // ---------------------------------------------------------------------

  /** What a generator round xors in: the polynomial if the top bit of the
      byte (the bit the shift is about to push out) is set, else nothing. */
  function Feedback(c: Byte, poly: Byte): Byte {
    if c & 0x80 != 0 then poly else 0
  }

  /** One round of the generator: shift left by one bit (the top bit falls
      out of the byte) and xor in the feedback of the byte before the shift. */
  function Round(c: Byte, poly: Byte): Byte {
    (c << 1) ^ Feedback(c, poly)
  }

  /** `n` rounds applied to `c`. */
  function Rounds(c: Byte, poly: Byte, n: nat): Byte {
    if n == 0 then c else Round(Rounds(c, poly, n - 1), poly)
  }

  /** The generator's round expression, as the source writes it on `u8`
      (`(c << 1) ^ (if (c & 0x80) > 0 { poly } else { 0 })`), is `Round`. */
  lemma RoundAsWritten(c: Byte, poly: Byte)
    ensures (c << 1) ^ (if c & 0x80 > 0 then poly else 0) == Round(c, poly)
  {
    var f := if c & 0x80 > 0 then poly else 0;
    assert f == Feedback(c, poly) by {
      assert (c & 0x80 > 0) == (c & 0x80 != 0);
    }
  }

  lemma RoundsNext(c: Byte, poly: Byte, n: nat)
    ensures Rounds(c, poly, n + 1) == Round(Rounds(c, poly, n), poly)
  {
  }

  /** The table entry for index `i`: eight rounds starting from `i`. */
  function Entry(i: Byte, poly: Byte): Byte {
    Rounds(i, poly, 8)
  }

  /** The 256-entry lookup table for `poly`. */
  function Table(poly: Byte): (lut: seq<Byte>)
    ensures |lut| == 256
  {
    seq(256, k requires 0 <= k < 256 => Entry(k as Byte, poly))
  }

  /** The entry of a 256-entry table at a byte index. */
  function Lookup(lut: seq<Byte>, i: Byte): Byte
    requires |lut| == 256
  {
    lut[i as int]
  }

  lemma TableAtIndex(poly: Byte, k: int)
    requires 0 <= k < 256
    ensures Table(poly)[k] == Entry(k as Byte, poly)
  {
  }

  lemma TableAt(poly: Byte, i: Byte)
    ensures Lookup(Table(poly), i) == Entry(i, poly)
  {
  }

  /** A polynomial whose x^0 coefficient is set, as every CRC generator
      polynomial's is (0xab among them). */
  predicate HasUnitTerm(poly: Byte) {
    poly & 1 == 1
  }

  /** With a unit term, bit 0 of a round's result is the top bit of its
      input: the shift vacates bit 0 and the feedback fills it exactly when
      the top bit was set. */
  lemma LowBitIsTopBit(c: Byte, poly: Byte)
    requires HasUnitTerm(poly)
    ensures (Round(c, poly) & 1 == 1) == (c & 0x80 != 0)
  {
    assert (c << 1) & 1 == 0;
  }

  /** A byte is determined by its top bit and its shift. */
  lemma ShiftAndTopBitDetermine(a: Byte, b: Byte)
    requires a & 0x80 == b & 0x80
    requires a << 1 == b << 1
    ensures a == b
  {
  }

  /** With a unit term a round is injective. */
  lemma RoundInjective(a: Byte, b: Byte, poly: Byte)
    requires HasUnitTerm(poly)
    ensures Round(a, poly) == Round(b, poly) <==> a == b
  {
    if Round(a, poly) == Round(b, poly) {
      LowBitIsTopBit(a, poly);
      LowBitIsTopBit(b, poly);
      assert Feedback(a, poly) == Feedback(b, poly);
      assert a << 1 == b << 1;
      ShiftAndTopBitDetermine(a, b);
    }
  }

  /** ... and so is any number of rounds. */
  lemma {:induction false} RoundsInjective(a: Byte, b: Byte, poly: Byte, n: nat)
    requires HasUnitTerm(poly)
    ensures Rounds(a, poly, n) == Rounds(b, poly, n) <==> a == b
  {
    if n > 0 {
      RoundsInjective(a, b, poly, n - 1);
      RoundInjective(Rounds(a, poly, n - 1), Rounds(b, poly, n - 1), poly);
    }
  }

  /** Whatever the polynomial, entry 0 is 0 and entry 1 is the polynomial
      itself: the single set bit reaches the top after seven rounds and
      falls out in the eighth. */
  lemma TableZeroAndOne(poly: Byte)
    ensures Lookup(Table(poly), 0) == 0
    ensures Lookup(Table(poly), 1) == poly
  {
    TableAt(poly, 0);
    TableAt(poly, 1);
    EntryZero(poly);
    EntryOne(poly);
  }

  lemma EntryZero(poly: Byte)
    ensures Entry(0, poly) == 0
  {
    assert Rounds(0, poly, 1) == 0;
    assert Rounds(0, poly, 2) == 0;
    assert Rounds(0, poly, 3) == 0;
    assert Rounds(0, poly, 4) == 0;
    assert Rounds(0, poly, 5) == 0;
    assert Rounds(0, poly, 6) == 0;
    assert Rounds(0, poly, 7) == 0;
  }

  lemma EntryOne(poly: Byte)
    ensures Entry(1, poly) == poly
  {
    assert Rounds(1, poly, 1) == 2;
    assert Rounds(1, poly, 2) == 4;
    assert Rounds(1, poly, 3) == 8;
    assert Rounds(1, poly, 4) == 16;
    assert Rounds(1, poly, 5) == 32;
    assert Rounds(1, poly, 6) == 64;
    assert Rounds(1, poly, 7) == 128;
  }

  /** For a polynomial with a unit term the table is a permutation of the
      byte values: distinct indices give distinct entries. */
  lemma TableInjective(poly: Byte, a: Byte, b: Byte)
    requires HasUnitTerm(poly)
    ensures Lookup(Table(poly), a) == Lookup(Table(poly), b) <==> a == b
  {
    TableAt(poly, a);
    TableAt(poly, b);
    RoundsInjective(a, b, poly, 8);
  }

  /** The table sends distinct indices to distinct entries. */
  ghost predicate Injective(lut: seq<Byte>) {
    && |lut| == 256
    && forall a: Byte, b: Byte {:trigger Lookup(lut, a), Lookup(lut, b)} ::
         Lookup(lut, a) == Lookup(lut, b) ==> a == b
  }

  lemma TableIsInjective(poly: Byte)
    requires HasUnitTerm(poly)
    ensures Injective(Table(poly))
  {
    var lut := Table(poly);
    forall a: Byte, b: Byte | Lookup(lut, a) == Lookup(lut, b) ensures a == b {
      TableInjective(poly, a, b);
    }
  }

  // ---------------------------------------------------------------------
  // Checksum fold
  // ---------------------------------------------------------------------

  /** The fold `crc := lut[crc ^ b]` over `data`, left to right, from `acc`. */
  function Fold(lut: seq<Byte>, acc: Byte, data: seq<Byte>): Byte
    requires |lut| == 256
    decreases |data|
  {
    if data == [] then acc else Fold(lut, Lookup(lut, acc ^ data[0]), data[1..])
  }

  /** The checksum of `data`: the fold from 0. */
  function Crc(lut: seq<Byte>, data: seq<Byte>): Byte
    requires |lut| == 256
  {
    Fold(lut, 0, data)
  }

  /** Folding a concatenation: the first part is consumed first. */
  lemma {:induction false} FoldAppend(lut: seq<Byte>, acc: Byte, p: seq<Byte>, s: seq<Byte>)
    requires |lut| == 256
    ensures Fold(lut, acc, p + s) == Fold(lut, Fold(lut, acc, p), s)
    decreases |p|
  {
    if p == [] {
      assert p + s == s;
    } else {
      assert (p + s)[0] == p[0];
      assert (p + s)[1..] == p[1..] + s;
      FoldAppend(lut, Lookup(lut, acc ^ p[0]), p[1..], s);
    }
  }

  /** Folding one more byte is one more table step. */
  lemma FoldSnoc(lut: seq<Byte>, acc: Byte, data: seq<Byte>, b: Byte)
    requires |lut| == 256
    ensures Fold(lut, acc, data + [b]) == Lookup(lut, Fold(lut, acc, data) ^ b)
  {
    FoldAppend(lut, acc, data, [b]);
    assert [b][1..] == [];
  }

  /** Incremental step of `calc_crc`: the checksum of the first `n + 1`
      bytes is one table step after the checksum of the first `n`. */
  lemma CrcStep(lut: seq<Byte>, data: seq<Byte>, n: nat)
    requires |lut| == 256
    requires n < |data|
    ensures Crc(lut, data[..n + 1]) == Lookup(lut, Crc(lut, data[..n]) ^ data[n])
  {
    assert data[..n + 1] == data[..n] + [data[n]];
    FoldSnoc(lut, 0, data[..n], data[n]);
  }

  lemma XorZero(d: Byte, c: Byte)
    ensures d ^ c == 0 <==> c == d
  {
  }

  /** With a unit term, 0 is the only index whose entry is 0. */
  lemma TableZeroOnlyAtZero(poly: Byte, x: Byte)
    requires HasUnitTerm(poly)
    ensures Lookup(Table(poly), x) == 0 <==> x == 0
  {
    TableZeroAndOne(poly);
    TableInjective(poly, x, 0);
  }

  /** Appending the computed checksum and recomputing over the extended
      range always yields `lut[0]`, which is 0. */
  lemma CheckByteRoundTrip(poly: Byte, data: seq<Byte>)
    ensures Crc(Table(poly), data + [Crc(Table(poly), data)]) == 0
  {
    var lut := Table(poly);
    var c := Crc(lut, data);
    FoldSnoc(lut, 0, data, c);
    assert c ^ c == 0;
    TableZeroAndOne(poly);
  }

  /** The check byte is the only byte that passes: for a polynomial with a
      unit term, the checksum of `data + [c]` is 0 exactly when `c` is the
      checksum of `data`. */
  lemma CheckByteUnique(poly: Byte, data: seq<Byte>, c: Byte)
    requires HasUnitTerm(poly)
    ensures Crc(Table(poly), data + [c]) == 0 <==> c == Crc(Table(poly), data)
  {
    var lut := Table(poly);
    var d := Crc(lut, data);
    FoldSnoc(lut, 0, data, c);
    TableZeroOnlyAtZero(poly, d ^ c);
    XorZero(d, c);
  }

  /** Folds from different accumulators over the same bytes never meet when
      the table is injective. */
  lemma {:induction false} FoldSeparates(lut: seq<Byte>, a1: Byte, a2: Byte, data: seq<Byte>)
    requires Injective(lut)
    requires a1 != a2
    ensures Fold(lut, a1, data) != Fold(lut, a2, data)
    decreases |data|
  {
    if data != [] {
      var x1, x2 := a1 ^ data[0], a2 ^ data[0];
      assert x1 != x2;
      assert Lookup(lut, x1) != Lookup(lut, x2);
      FoldSeparates(lut, Lookup(lut, x1), Lookup(lut, x2), data[1..]);
    }
  }

  /** The checksum of `pre + [b] + post`, seen from the byte `b`. */
  lemma CrcAround(lut: seq<Byte>, pre: seq<Byte>, b: Byte, post: seq<Byte>)
    requires |lut| == 256
    ensures Crc(lut, pre + [b] + post) == Fold(lut, Lookup(lut, Crc(lut, pre) ^ b), post)
  {
    assert pre + [b] + post == pre + ([b] + post);
    FoldAppend(lut, 0, pre, [b] + post);
    assert ([b] + post)[0] == b && ([b] + post)[1..] == post;
  }

  /** One table step from the same checksum separates different bytes. */
  lemma StepSeparates(lut: seq<Byte>, acc: Byte, b1: Byte, b2: Byte)
    requires Injective(lut)
    requires b1 != b2
    ensures Lookup(lut, acc ^ b1) != Lookup(lut, acc ^ b2)
  {
    assert acc ^ b1 != acc ^ b2;
  }

  /** Replacing the byte between a fixed prefix and a fixed suffix by a
      different byte changes the checksum. */
  lemma ReplacedByteDetected(lut: seq<Byte>, pre: seq<Byte>, b1: Byte, b2: Byte, post: seq<Byte>)
    requires Injective(lut)
    requires b1 != b2
    ensures Crc(lut, pre + [b1] + post) != Crc(lut, pre + [b2] + post)
  {
    var acc := Crc(lut, pre);
    var s1, s2 := Lookup(lut, acc ^ b1), Lookup(lut, acc ^ b2);
    StepSeparates(lut, acc, b1, b2);
    FoldSeparates(lut, s1, s2, post);
    CrcAround(lut, pre, b1, post);
    CrcAround(lut, pre, b2, post);
  }

  /** Single-byte error detection: over an injective table, two byte strings
      of the same length that differ in exactly one position have different
      checksums. */
  lemma SingleByteErrorDetected(lut: seq<Byte>, p: seq<Byte>, q: seq<Byte>, k: nat)
    requires Injective(lut)
    requires |p| == |q| && k < |p|
    requires p[k] != q[k]
    requires forall j | 0 <= j < |p| && j != k :: p[j] == q[j]
    ensures Crc(lut, p) != Crc(lut, q)
  {
    assert p[..k] == q[..k];
    assert p[k + 1..] == q[k + 1..];
    assert p == p[..k] + [p[k]] + p[k + 1..];
    assert q == p[..k] + [q[k]] + p[k + 1..];
    ReplacedByteDetected(lut, p[..k], p[k], q[k], p[k + 1..]);
  }

  /** A packet (bytes followed by their check byte) that passes the check
      fails it as soon as one bit of any of its bytes is flipped. */
  lemma BitFlipDetected(poly: Byte, packet: seq<Byte>, k: nat, bit: nat)
    requires HasUnitTerm(poly)
    requires k < |packet| && bit < 8
    requires Crc(Table(poly), packet) == 0
    ensures Crc(Table(poly), packet[k := packet[k] ^ (1 << bit)]) != 0
  {
    var flipped := packet[k := packet[k] ^ (1 << bit)];
    assert (1 as Byte) << bit != 0;
    TableIsInjective(poly);
    SingleByteErrorDetected(Table(poly), packet, flipped, k);
  }

  // ---------------------------------------------------------------------
  // calc_crc
  // ---------------------------------------------------------------------

  /** `calc_crc(lut, data, size)`: the fold over `data[0..size)`, starting
      from 0. Indexing `data[i]` for `i < size` panics in the source unless
      `size <= data.len()`. */
  method CalcCrc(lut: seq<Byte>, data: seq<Byte>, size: U8) returns (crc: Byte)
    requires |lut| == 256
    requires size <= |data|
    ensures crc == Crc(lut, data[..size])
  {
    var remaining := size;
    crc := 0;
    var i := 0;
    while remaining > 0
      invariant 0 <= remaining <= size
      invariant i == size - remaining
      invariant crc == Crc(lut, data[..i])
    {
      remaining := remaining - 1;
      CrcStep(lut, data, i);
      crc := Lookup(lut, crc ^ data[i]);
      i := i + 1;
    }
  }
}
