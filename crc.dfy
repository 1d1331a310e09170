/** CRC-16/Modbus as used by SDM::calculateCRC: initial value 0xFFFF,
    reflected polynomial 0xA001, bits processed least significant first,
    no final XOR (section 2.5.1.2 of the MODBUS over Serial Line
    Specification and Implementation Guide V1.02).

    The specification is a fold over the bytes (`Crc16`); the method
    `CalculateCrc` is the nested loop of the source, proved against it. */
module Crc {

  const Init: bv16 := 0xFFFF
  const Poly: bv16 := 0xA001

  /** One of the eight shift rounds: shift right, XOR the polynomial in
      when the bit shifted out was set. */
  function ShiftRound(crc: bv16): bv16 {
    if crc & 1 == 1 then (crc >> 1) ^ Poly else crc >> 1
  }

  /** `k` shift rounds in a row. */
  function Rounds(crc: bv16, k: nat): bv16
    decreases k
  {
    if k == 0 then crc else Rounds(ShiftRound(crc), k - 1)
  }

  /** Absorb one byte: XOR it into the low byte, then eight shift rounds. */
  function ByteStep(crc: bv16, b: bv8): bv16 {
    Rounds(crc ^ (b as bv16), 8)
  }

  /** Absorb the bytes of `s` in order, starting from `crc`. */
  function CrcFold(crc: bv16, s: seq<bv8>): bv16
    decreases |s|
  {
    if s == [] then crc else CrcFold(ByteStep(crc, s[0]), s[1..])
  }

  /** CRC-16/Modbus of a byte string. */
  function Crc16(s: seq<bv8>): (r: bv16)
    ensures s == [] ==> r == Init
  {
    CrcFold(Init, s)
  }

  /** Folding over a concatenation is folding over each part in turn. */
  lemma {:induction false} CrcFoldAppend(crc: bv16, s: seq<bv8>, t: seq<bv8>)
    ensures CrcFold(crc, s + t) == CrcFold(CrcFold(crc, s), t)
    decreases |s|
  {
    if s == [] {
      assert s + t == t;
    } else {
      assert (s + t)[1..] == s[1..] + t;
      CrcFoldAppend(ByteStep(crc, s[0]), s[1..], t);
    }
  }

  /** The CRC of no bytes is the initial value, and the CRC of `n + 1` bytes
      is one byte step applied to the CRC of the first `n`. */
  lemma CrcEmptyAndSnoc(s: seq<bv8>, b: bv8)
    ensures Crc16([]) == 0xFFFF
    ensures Crc16(s + [b]) == ByteStep(Crc16(s), b)
  {
    CrcFoldAppend(Init, s, [b]);
  }

  /** A shift round loses no information: the top bit of its result tells
      whether the polynomial was XORed in. */
  lemma ShiftRoundInjective(a: bv16, b: bv16)
    requires ShiftRound(a) == ShiftRound(b)
    ensures a == b
  {
  }

  lemma {:induction false} RoundsInjective(a: bv16, b: bv16, k: nat)
    requires Rounds(a, k) == Rounds(b, k)
    ensures a == b
    decreases k
  {
    if k > 0 {
      RoundsInjective(ShiftRound(a), ShiftRound(b), k - 1);
      ShiftRoundInjective(a, b);
    }
  }

  /** Different bytes absorbed into the same register give different
      registers, and the same byte absorbed into different registers too. */
  lemma ByteStepInjective(c: bv16, d: bv16, x: bv8, y: bv8)
    requires ByteStep(c, x) == ByteStep(d, y)
    ensures c == d <==> x == y
  {
    RoundsInjective(c ^ (x as bv16), d ^ (y as bv16), 8);
    XorWiden(c, d, x, y);
  }

  lemma XorWiden(c: bv16, d: bv16, x: bv8, y: bv8)
    requires c ^ (x as bv16) == d ^ (y as bv16)
    ensures c == d <==> x == y
  {
  }

  /** Folding the same bytes over different registers keeps them different. */
  lemma {:induction false} CrcFoldInjective(c: bv16, d: bv16, s: seq<bv8>)
    requires CrcFold(c, s) == CrcFold(d, s)
    ensures c == d
    decreases |s|
  {
    if s != [] {
      CrcFoldInjective(ByteStep(c, s[0]), ByteStep(d, s[0]), s[1..]);
      ByteStepInjective(c, d, s[0], s[0]);
    }
  }

  /** Error detection: changing any one byte of a string changes its CRC. */
  lemma CrcDetectsByteChange(s: seq<bv8>, i: nat, b: bv8)
    requires i < |s| && b != s[i]
    ensures Crc16(s[i := b]) != Crc16(s)
  {
    var p, q := s[..i], s[i + 1..];
    var c := Crc16(p);
    assert s == p + ([s[i]] + q);
    assert s[i := b] == p + ([b] + q);
    CrcFoldAppend(Init, p, [s[i]] + q);
    CrcFoldAppend(Init, p, [b] + q);
    assert CrcFold(c, [s[i]] + q) == CrcFold(ByteStep(c, s[i]), q);
    assert CrcFold(c, [b] + q) == CrcFold(ByteStep(c, b), q);
    if Crc16(s[i := b]) == Crc16(s) {
      CrcFoldInjective(ByteStep(c, s[i]), ByteStep(c, b), q);
      ByteStepInjective(c, c, s[i], b);
    }
  }

  /** In particular, flipping any single bit is detected. */
  lemma CrcDetectsBitFlip(s: seq<bv8>, i: nat, k: nat)
    requires i < |s| && k < 8
    ensures Crc16(s[i := s[i] ^ (1 as bv8 << k)]) != Crc16(s)
  {
    assert s[i] ^ (1 as bv8 << k) != s[i];
    CrcDetectsByteChange(s, i, s[i] ^ (1 as bv8 << k));
  }

  /** SDM::calculateCRC: the CRC of the first `num` bytes of `a`. The count is
      a uint8_t in the source and the loop reads `a[0..num)`. */
  method CalculateCrc(a: array<bv8>, num: nat) returns (crc: bv16)
    requires num < 256 && num <= a.Length
    ensures crc == Crc16(a[..num])
  {
    crc := Init;
    var i := 0;
    while i < num
      invariant 0 <= i <= num
      invariant crc == Crc16(a[..i])
    {
      ghost var before := crc;
      crc := crc ^ (a[i] as bv16);
      var j := 8;
      while j > 0
        invariant 0 <= j <= 8
        invariant Rounds(crc, j) == ByteStep(before, a[i])
      {
        var flag := crc & 1;
        crc := crc >> 1;
        if flag != 0 {
          crc := crc ^ Poly;
        }
        j := j - 1;
      }
      assert a[..i + 1] == a[..i] + [a[i]];
      CrcEmptyAndSnoc(a[..i], a[i]);
      i := i + 1;
    }
    assert a[..num] == a[..i];
  }
}
