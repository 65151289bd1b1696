/**
 * The EX Bus frame checksum: CRC-16/CCITT in its reflected, byte-serial form
 * (polynomial x^16 + x^12 + x^5 + 1, written 0x8408 when reflected), initial
 * register 0, no final xor.  `CrcUpdate` is the per-byte register update,
 * `CrcFold` folds it over a byte sequence and `CrcGenerate` is the loop the
 * receiver runs over its frame buffer.
 */
module ExbusCrc {

  /**
   * Low byte of a 16-bit value: the C conversion `(uint8_t)x`.  For a
   * register it is the first trailer byte on the wire.
   */
  function Lo(crc: bv16): bv8 { (crc & 0xFF) as bv8 }

  /** High byte of a register, the second trailer byte on the wire. */
  function Hi(crc: bv16): bv8 { (crc >> 8) as bv8 }

  /** Line 58: the data byte is folded with the register's low byte. */
  function FoldIn(crc: bv16, data: bv8): bv8 { data ^ ((crc & 0xFF) as bv8) }

  /** Line 59: `data ^= data << 4`, cut back to 8 bits (bv8 arithmetic does that). */
  function Spread(d0: bv8): bv8 { d0 ^ (d0 << 4) }

  /** Lines 60-61: the new register from shifted copies of `d` and the old high byte. */
  function Assemble(d: bv8, crc: bv16): bv16
  {
    (((d as bv16) << 8) | ((crc & 0xFF00) >> 8)) ^ ((d >> 4) as bv16) ^ ((d as bv16) << 3)
  }

  /** One register update, the three stages in order. */
  function CrcUpdate(crc: bv16, data: bv8): bv16
  {
    Assemble(Spread(FoldIn(crc, data)), crc)
  }

  /** The register after folding `CrcUpdate` over `s`, left to right, from `crc`. */
  function CrcFold(crc: bv16, s: seq<bv8>): bv16
    decreases |s|
  {
    if |s| == 0 then crc else CrcUpdate(CrcFold(crc, s[..|s| - 1]), s[|s| - 1])
  }

  /** The checksum of a byte sequence: the fold from the initial register 0. */
  function Crc(s: seq<bv8>): bv16 { CrcFold(0, s) }

  /**
   * The checksum loop: `len` counts down to zero while the data pointer
   * walks the buffer, so exactly the bytes `data[0..len)` are folded in.
   * `len` is a `uint8_t`.
   */
  method CrcGenerate(data: array<bv8>, len: nat) returns (crc16: bv16)
    requires len < 0x100 && len <= data.Length
    ensures crc16 == Crc(data[..len])
    ensures len == 0 ==> crc16 == 0
  {
    crc16 := 0;
    var remaining := len;
    var i := 0;
    while remaining != 0
      invariant 0 <= remaining && i + remaining == len
      invariant crc16 == Crc(data[..i])
    {
      assert data[..i + 1][..i] == data[..i];
      crc16 := CrcUpdate(crc16, data[i]);
      i := i + 1;
      remaining := remaining - 1;
    }
  }

  // ---------------------------------------------------------------------
  // The bit-serial reference: eight shift-and-divide steps per byte.
  // ---------------------------------------------------------------------

  /** One bit of polynomial division, least significant bit first. */
  function BitStep(crc: bv16): bv16
  {
    if crc & 1 == 1 then (crc >> 1) ^ 0x8408 else crc >> 1
  }

  /** The textbook reflected CRC-16/CCITT update: xor the byte in, then eight bit steps. */
  function BitSerialUpdate(crc: bv16, data: bv8): bv16
  {
    var x := crc ^ (data as bv16);
    BitStep(BitStep(BitStep(BitStep(BitStep(BitStep(BitStep(BitStep(x))))))))
  }

  // Helper facts stated on plain bit-vector expressions, where the solver
  // reasons about them cheaply.

  lemma AssembleAsXor(d: bv8, crc: bv16)
    ensures Assemble(d, crc) == (((d as bv16) << 8) ^ (crc >> 8)) ^ ((d >> 4) as bv16) ^ ((d as bv16) << 3)
  {
  }

  lemma BitStepBranchFree(crc: bv16)
    ensures BitStep(crc) == (crc >> 1) ^ ((0 - (crc & 1)) & 0x8408)
  {
    if crc & 1 == 1 {
      assert 0 - (crc & 1) == 0xFFFF;
    } else {
      assert crc & 1 == 0;
    }
  }

  /**
   * Four bit steps at once: the low nibble `n` of the register is divided
   * out, leaving `n ^ (n << 7) ^ (n << 12)` (that is, `n * 0x1081`) xor the
   * register shifted by four.
   */
  lemma FourBitSteps(x0: bv16, x1: bv16, x2: bv16, x3: bv16, x4: bv16)
    requires x1 == (x0 >> 1) ^ ((0 - (x0 & 1)) & 0x8408)
    requires x2 == (x1 >> 1) ^ ((0 - (x1 & 1)) & 0x8408)
    requires x3 == (x2 >> 1) ^ ((0 - (x2 & 1)) & 0x8408)
    requires x4 == (x3 >> 1) ^ ((0 - (x3 & 1)) & 0x8408)
    ensures x4 == (x0 >> 4) ^ (x0 & 0xF) ^ ((x0 & 0xF) << 7) ^ ((x0 & 0xF) << 12)
  {
  }

  /** Two nibble steps after xor-ing the byte in are the three byte-serial stages. */
  lemma NibblesAsByte(crc: bv16, data: bv8, x0: bv16, y: bv16, z: bv16, d0: bv8, d: bv8, r: bv16)
    requires x0 == crc ^ (data as bv16)
    requires y == (x0 >> 4) ^ (x0 & 0xF) ^ ((x0 & 0xF) << 7) ^ ((x0 & 0xF) << 12)
    requires z == (y >> 4) ^ (y & 0xF) ^ ((y & 0xF) << 7) ^ ((y & 0xF) << 12)
    requires d0 == data ^ ((crc & 0xFF) as bv8) && d == d0 ^ (d0 << 4)
    requires r == (((d as bv16) << 8) ^ (crc >> 8)) ^ ((d >> 4) as bv16) ^ ((d as bv16) << 3)
    ensures r == z
  {
  }

  // ---------------------------------------------------------------------
  // The stages are one-to-one.  The new high byte depends on the spread
  // byte `d` alone, through a map that is one-to-one; the low byte is the old
  // high byte xor a tap of `d`.
  // ---------------------------------------------------------------------

  /** The low-byte contribution of the spread byte. */
  function Tap(d: bv8): bv8 { (d >> 4) ^ (d << 3) }

  lemma AssembleHi(d: bv8, crc: bv16)
    ensures Hi(Assemble(d, crc)) == d ^ (d >> 5)
  {
  }

  lemma AssembleLo(d: bv8, crc: bv16)
    ensures Lo(Assemble(d, crc)) == Hi(crc) ^ Tap(d)
  {
  }

  lemma MixInjective(x: bv8, y: bv8)
    ensures x ^ (x >> 5) == y ^ (y >> 5) ==> x == y
  {
  }

  lemma SpreadInjective(x: bv8, y: bv8)
    ensures Spread(x) == Spread(y) ==> x == y
  {
  }

  lemma FoldInInjective(crc: bv16, a: bv8, b: bv8)
    ensures FoldIn(crc, a) == FoldIn(crc, b) ==> a == b
  {
  }

  lemma FoldInSameLow(r1: bv16, r2: bv16, a: bv8)
    ensures FoldIn(r1, a) == FoldIn(r2, a) ==> Lo(r1) == Lo(r2)
  {
  }

  lemma FoldInZero(crc: bv16, data: bv8)
    ensures FoldIn(crc, data) == 0 <==> data == Lo(crc)
  {
  }

  lemma XorCancel(x: bv8, y: bv8, k: bv8)
    ensures x ^ k == y ^ k ==> x == y
  {
  }

  lemma SameBytes(r1: bv16, r2: bv16)
    ensures Lo(r1) == Lo(r2) && Hi(r1) == Hi(r2) ==> r1 == r2
  {
  }

  lemma ZeroBytes(r: bv16)
    ensures r == 0 <==> Lo(r) == 0 && Hi(r) == 0
  {
  }

  // ---------------------------------------------------------------------
  // Properties of the update.
  // ---------------------------------------------------------------------

  /** Four bit steps are one nibble step. */
  lemma NibbleOfBitSteps(x: bv16)
    ensures BitStep(BitStep(BitStep(BitStep(x)))) == (x >> 4) ^ (x & 0xF) ^ ((x & 0xF) << 7) ^ ((x & 0xF) << 12)
  {
    var x1 := BitStep(x);
    var x2 := BitStep(x1);
    var x3 := BitStep(x2);
    var x4 := BitStep(x3);
    BitStepBranchFree(x); BitStepBranchFree(x1); BitStepBranchFree(x2); BitStepBranchFree(x3);
    FourBitSteps(x, x1, x2, x3, x4);
  }

  /** The byte-serial update computes the same register as eight bit steps with polynomial 0x8408. */
  lemma CrcUpdateIsBitSerial(crc: bv16, data: bv8)
    ensures CrcUpdate(crc, data) == BitSerialUpdate(crc, data)
  {
    AssembleAsXor(Spread(FoldIn(crc, data)), crc);
    var x0 := crc ^ (data as bv16);
    var y := BitStep(BitStep(BitStep(BitStep(x0))));
    NibbleOfBitSteps(x0);
    NibbleOfBitSteps(y);
    NibblesAsByte(crc, data, x0, y, BitStep(BitStep(BitStep(BitStep(y)))),
                  FoldIn(crc, data), Spread(FoldIn(crc, data)), CrcUpdate(crc, data));
  }

  /** For a fixed register, different data bytes give different registers. */
  lemma UpdateInjectiveInData(crc: bv16, a: bv8, b: bv8)
    requires CrcUpdate(crc, a) == CrcUpdate(crc, b)
    ensures a == b
  {
    AssembleHi(Spread(FoldIn(crc, a)), crc);
    AssembleHi(Spread(FoldIn(crc, b)), crc);
    MixInjective(Spread(FoldIn(crc, a)), Spread(FoldIn(crc, b)));
    SpreadInjective(FoldIn(crc, a), FoldIn(crc, b));
    FoldInInjective(crc, a, b);
  }

  /** Equal updates of the same byte have equal spread bytes and equal old low bytes. */
  lemma UpdateSameLow(r1: bv16, r2: bv16, data: bv8)
    requires CrcUpdate(r1, data) == CrcUpdate(r2, data)
    ensures Spread(FoldIn(r1, data)) == Spread(FoldIn(r2, data))
    ensures Lo(r1) == Lo(r2)
  {
    var d1, d2 := Spread(FoldIn(r1, data)), Spread(FoldIn(r2, data));
    AssembleHi(d1, r1);
    AssembleHi(d2, r2);
    MixInjective(d1, d2);
    SpreadInjective(FoldIn(r1, data), FoldIn(r2, data));
    FoldInSameLow(r1, r2, data);
  }

  lemma UpdateSameHigh(r1: bv16, r2: bv16, data: bv8)
    requires CrcUpdate(r1, data) == CrcUpdate(r2, data)
    requires Spread(FoldIn(r1, data)) == Spread(FoldIn(r2, data))
    ensures Hi(r1) == Hi(r2)
  {
    var d := Spread(FoldIn(r1, data));
    AssembleLo(d, r1);
    AssembleLo(d, r2);
    XorCancel(Hi(r1), Hi(r2), Tap(d));
  }

  /** For a fixed data byte, different registers give different registers. */
  lemma UpdateInjectiveInRegister(r1: bv16, r2: bv16, data: bv8)
    requires CrcUpdate(r1, data) == CrcUpdate(r2, data)
    ensures r1 == r2
  {
    UpdateSameLow(r1, r2, data);
    UpdateSameHigh(r1, r2, data);
    SameBytes(r1, r2);
  }

  /** An update clears the high byte exactly when the data byte is the register's low byte. */
  lemma UpdateHighZero(crc: bv16, data: bv8)
    ensures Hi(CrcUpdate(crc, data)) == 0 <==> data == Lo(crc)
  {
    var d := Spread(FoldIn(crc, data));
    AssembleHi(d, crc);
    MixInjective(d, 0);
    SpreadInjective(FoldIn(crc, data), 0);
    FoldInZero(crc, data);
  }

  /** Feeding the register its own low byte shifts the high byte down. */
  lemma UpdateOwnLow(crc: bv16)
    ensures Lo(CrcUpdate(crc, Lo(crc))) == Hi(crc)
  {
    FoldInZero(crc, Lo(crc));
    AssembleLo(Spread(FoldIn(crc, Lo(crc))), crc);
  }

  /** An update yields 0 exactly when the register's high byte is 0 and the data is its low byte. */
  lemma UpdateZero(crc: bv16, data: bv8)
    ensures CrcUpdate(crc, data) == 0 <==> data == Lo(crc) && Hi(crc) == 0
  {
    UpdateHighZero(crc, data);
    ZeroBytes(CrcUpdate(crc, data));
    if data == Lo(crc) {
      UpdateOwnLow(crc);
    }
  }

  /**
   * Two more bytes bring the register to 0 exactly when they are its low
   * byte followed by its high byte: the trailer is unique.
   */
  lemma UpdateTrailer(crc: bv16, a: bv8, b: bv8)
    ensures CrcUpdate(CrcUpdate(crc, a), b) == 0 <==> a == Lo(crc) && b == Hi(crc)
  {
    UpdateZero(CrcUpdate(crc, a), b);
    UpdateHighZero(crc, a);
    if a == Lo(crc) {
      UpdateOwnLow(crc);
    }
  }

  // ---------------------------------------------------------------------
  // Properties of the fold.
  // ---------------------------------------------------------------------

  /** Folding over a concatenation is folding over each part in turn. */
  lemma {:induction false} CrcFoldAppend(crc: bv16, s: seq<bv8>, t: seq<bv8>)
    ensures CrcFold(crc, s + t) == CrcFold(CrcFold(crc, s), t)
    decreases |t|
  {
    if |t| == 0 {
      assert s + t == s;
    } else {
      var t' := t[..|t| - 1];
      assert (s + t)[..|s + t| - 1] == s + t';
      CrcFoldAppend(crc, s, t');
    }
  }

  /** One byte appended to `s` is one further register update. */
  lemma CrcAppendOne(s: seq<bv8>, x: bv8)
    ensures Crc(s + [x]) == CrcUpdate(Crc(s), x)
  {
    assert (s + [x])[..|s + [x]| - 1] == s;
  }

  /** Two bytes appended to `s` are two further register updates. */
  lemma CrcAppendTwo(s: seq<bv8>, x: bv8, y: bv8)
    ensures Crc(s + [x, y]) == CrcUpdate(CrcUpdate(Crc(s), x), y)
  {
    CrcAppendOne(s, x);
    CrcAppendOne(s + [x], y);
    assert s + [x] + [y] == s + [x, y];
  }

  /**
   * The acceptance test of a frame: the checksum of `s` followed by two
   * bytes is 0 if and only if those bytes are the low and then the high
   * byte of `Crc(s)`.
   */
  lemma CrcAcceptsExactlyTrailer(s: seq<bv8>, a: bv8, b: bv8)
    ensures Crc(s + [a, b]) == 0 <==> a == Lo(Crc(s)) && b == Hi(Crc(s))
  {
    CrcAppendTwo(s, a, b);
    UpdateTrailer(Crc(s), a, b);
  }

  /** Appending the register's low byte and then its high byte makes the checksum 0. */
  lemma CrcResidue(s: seq<bv8>)
    ensures Crc(s + [Lo(Crc(s)), Hi(Crc(s))]) == 0
  {
    CrcAcceptsExactlyTrailer(s, Lo(Crc(s)), Hi(Crc(s)));
  }

  /** Folding the same bytes from different registers never meets. */
  lemma {:induction false} CrcFoldInjective(r1: bv16, r2: bv16, t: seq<bv8>)
    ensures CrcFold(r1, t) == CrcFold(r2, t) <==> r1 == r2
    decreases |t|
  {
    if |t| > 0 {
      CrcFoldInjective(r1, r2, t[..|t| - 1]);
      if CrcFold(r1, t) == CrcFold(r2, t) {
        UpdateInjectiveInRegister(CrcFold(r1, t[..|t| - 1]), CrcFold(r2, t[..|t| - 1]), t[|t| - 1]);
      }
    }
  }

  /**
   * Any change confined to one byte changes the checksum; in particular a
   * sequence that checks (checksum 0) fails once the bits `m != 0` of one
   * of its bytes are flipped.
   */
  lemma ByteErrorDetected(s: seq<bv8>, i: nat, m: bv8)
    requires i < |s| && m != 0
    ensures Crc(s[i := s[i] ^ m]) != Crc(s)
  {
    var p, q := s[..i], s[i + 1..];
    var s' := s[i := s[i] ^ m];
    assert s == (p + [s[i]]) + q;
    assert s' == (p + [s[i] ^ m]) + q;
    CrcFoldAppend(0, p + [s[i]], q);
    CrcFoldAppend(0, p + [s[i] ^ m], q);
    assert (p + [s[i]])[..|p|] == p;
    assert (p + [s[i] ^ m])[..|p|] == p;
    assert s[i] ^ m != s[i];
    if CrcUpdate(Crc(p), s[i]) == CrcUpdate(Crc(p), s[i] ^ m) {
      UpdateInjectiveInData(Crc(p), s[i], s[i] ^ m);
    }
    CrcFoldInjective(CrcUpdate(Crc(p), s[i]), CrcUpdate(Crc(p), s[i] ^ m), q);
  }

  /** Flipping any single bit of a sequence that checks makes it fail. */
  lemma SingleBitFlipDetected(s: seq<bv8>, i: nat, k: nat)
    requires Crc(s) == 0
    requires i < |s| && k < 8
    ensures Crc(s[i := s[i] ^ ((1 as bv8) << k)]) != 0
  {
    assert (1 as bv8) << k != 0 by {
      assert k == 0 || k == 1 || k == 2 || k == 3 || k == 4 || k == 5 || k == 6 || k == 7;
    }
    ByteErrorDetected(s, i, (1 as bv8) << k);
  }

  /** The catalogue check value of this CRC (CRC-16/KERMIT): the ASCII digits "123456789" give 0x2189. */
  lemma CheckValue()
    ensures Crc([0x31, 0x32, 0x33, 0x34, 0x35, 0x36, 0x37, 0x38, 0x39]) == 0x2189
  {
    var s: seq<bv8> := [];
    CrcAppendOne(s, 0x31); s := s + [0x31];
    assert Crc(s) == 0x200A;
    CrcAppendOne(s, 0x32); s := s + [0x32];
    assert Crc(s) == 0xBDEB;
    CrcAppendOne(s, 0x33); s := s + [0x33];
    assert Crc(s) == 0x5A78;
    CrcAppendOne(s, 0x34); s := s + [0x34];
    assert Crc(s) == 0x8832;
    CrcAppendOne(s, 0x35); s := s + [0x35];
    assert Crc(s) == 0x7437;
    CrcAppendOne(s, 0x36); s := s + [0x36];
    assert Crc(s) == 0x11FD;
    CrcAppendOne(s, 0x37); s := s + [0x37];
    assert Crc(s) == 0x6947;
    CrcAppendOne(s, 0x38); s := s + [0x38];
    assert Crc(s) == 0x8B19;
    CrcAppendOne(s, 0x39); s := s + [0x39];
    assert s == [0x31, 0x32, 0x33, 0x34, 0x35, 0x36, 0x37, 0x38, 0x39];
  }}
