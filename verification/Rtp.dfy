/** The packed bit-field layouts of sample/h264tortp.h. `/` and `%` by powers of two are the shifts
    and masks of the little-endian bit fields. */
module Rtp {
  import opened Bytes

  type Packet = seq<byte>

  const HEADER_LEN: nat := 12
  const H264: byte := 96
  const FU_A: byte := 28
  const SSRC_NUM: uint32 := 10

  // ---------- reading (section 5.1 of RFC 3550, sections 5.3 and 5.8 of RFC 6184) ----------

  predicate HasHeader(p: Packet) { |p| >= HEADER_LEN }

  function Version(p: Packet): nat requires HasHeader(p) { p[0] / 64 }
  function Padding(p: Packet): nat requires HasHeader(p) { p[0] / 32 % 2 }
  function Extension(p: Packet): nat requires HasHeader(p) { p[0] / 16 % 2 }
  function CsrcCount(p: Packet): nat requires HasHeader(p) { p[0] % 16 }
  function Marker(p: Packet): nat requires HasHeader(p) { p[1] / 128 }
  function PayloadType(p: Packet): nat requires HasHeader(p) { p[1] % 128 }
  function SeqNo(p: Packet): nat requires HasHeader(p) { p[2] as int * 0x100 + p[3] }
  function Timestamp(p: Packet): nat requires HasHeader(p) {
    (p[4] as int * 0x100 + p[5]) * 0x1_0000 + (p[6] as int * 0x100 + p[7])
  }
  function Ssrc(p: Packet): nat requires HasHeader(p) {
    (p[8] as int * 0x100 + p[9]) * 0x1_0000 + (p[10] as int * 0x100 + p[11])
  }

  /** The NAL header byte and the FU indicator: f, nri, type. */
  function F(b: byte): bit { b / 128 }
  function Nri(b: byte): nat { b / 32 % 4 }
  function Type(b: byte): nat { b % 32 }

  /** The FU header byte: s, e, r, type. */
  function FuS(b: byte): bit { b / 128 }
  function FuE(b: byte): bit { b / 64 % 2 }
  function FuR(b: byte): bit { b / 32 % 2 }

  // ---------- writing ----------

  /** A NAL header or FU indicator byte from its fields. */
  function NalByte(f: bit, nri: nat, t: nat): (b: byte)
    requires nri < 4 && t < 32
    ensures F(b) == f && Nri(b) == nri && Type(b) == t
  {
    f * 128 + nri * 32 + t
  }

  /** An FU header byte from its fields. */
  function FuByte(s: bit, e: bit, r: bit, t: nat): (b: byte)
    requires t < 32
    ensures FuS(b) == s && FuE(b) == e && FuR(b) == r && Type(b) == t
  {
    (if s == 1 then 128 else 0) + (if e == 1 then 64 else 0) + (if r == 1 then 32 else 0) + t
  }

  /** htons and htonl into a packed field: most significant byte first. */
  function Be16(x: uint16): seq<byte> { [x / 0x100, x % 0x100] }

  function Be32(x: uint32): seq<byte> { Be16(x / 0x1_0000) + Be16(x % 0x1_0000) }

  /** A NAL header byte is its three fields. */
  lemma NalByteFields(b: byte)
    ensures NalByte(F(b), Nri(b), Type(b)) == b
  {
    var q := b / 32;
    assert b == 32 * q + b % 32 && q == 4 * (q / 4) + q % 4;
    assert b / 128 == q / 4;
  }

  /** Keeping f and nri of a byte keeps its upper three bits. */
  lemma UpperBits(b: byte, t: nat)
    requires t < 32
    ensures NalByte(F(b), Nri(b), t) == b / 32 * 32 + t
  {
    var q := b / 32;
    assert q == 4 * (q / 4) + q % 4 && b / 128 == q / 4;
  }

  /** The fixed 12-byte header that the sender writes. */
  function Header(marker: bit, seqNo: uint16, ts: uint32): (h: seq<byte>)
    ensures |h| == HEADER_LEN
  {
    [2 * 64, H264 + marker * 128] + Be16(seqNo) + Be32(ts) + Be32(SSRC_NUM)
  }

  /** The header byte for byte: version 2, payload type 96 with the marker on top, then sequence
      number, timestamp and source 10, the most significant byte first. */
  lemma HeaderBytes(marker: bit, seqNo: uint16, ts: uint32)
    ensures Header(marker, seqNo, ts)
         == [128, 96 + 128 * marker, seqNo / 0x100, seqNo % 0x100,
             ts / 0x1_0000 / 0x100, ts / 0x1_0000 % 0x100, ts % 0x1_0000 / 0x100, ts % 0x1_0000 % 0x100,
             0, 0, 0, 10]
  {
    assert Be32(SSRC_NUM) == [0, 0, 0, 10];
  }

  /** The header says version 2, payload type 96, source 10, no padding, extension or sources, and
      carries the given marker, sequence number and timestamp. */
  ghost predicate Carries(p: Packet, marker: bit, seqNo: uint16, ts: uint32) {
    && HasHeader(p)
    && Version(p) == 2 && Padding(p) == 0 && Extension(p) == 0 && CsrcCount(p) == 0
    && PayloadType(p) == 96 && Ssrc(p) == 10
    && Marker(p) == marker && SeqNo(p) == seqNo && Timestamp(p) == ts
  }

  /** A packet starts with the header for some fields exactly when reading the fields gives them. */
  lemma HeaderCarries(p: Packet, marker: bit, seqNo: uint16, ts: uint32)
    ensures Carries(p, marker, seqNo, ts) <==> HasHeader(p) && p[..HEADER_LEN] == Header(marker, seqNo, ts)
  {
    if HasHeader(p) {
      var h := Header(marker, seqNo, ts);
      Be16Inverse(p[2], p[3]);
      Be32Inverse(p[4], p[5], p[6], p[7]);
      Be32Inverse(p[8], p[9], p[10], p[11]);
      assert h[2..4] == Be16(seqNo) && h[4..8] == Be32(ts) && h[8..12] == Be32(SSRC_NUM);
      assert h[2] == Be16(seqNo)[0] && h[3] == Be16(seqNo)[1];
      if Carries(p, marker, seqNo, ts) {
        assert p[0] == 128 && p[1] == h[1];
        assert p[..HEADER_LEN] == h;
      }
    }
  }

  lemma Be16Inverse(a: byte, b: byte)
    ensures Be16(a as int * 0x100 + b) == [a, b]
  {
  }

  lemma Halves(hi: uint16, lo: uint16)
    ensures (hi as int * 0x1_0000 + lo) / 0x1_0000 == hi && (hi as int * 0x1_0000 + lo) % 0x1_0000 == lo
  {
  }

  lemma Be32Inverse(a: byte, b: byte, c: byte, d: byte)
    ensures Be32((a as int * 0x100 + b) * 0x1_0000 + (c as int * 0x100 + d)) == [a, b] + [c, d]
  {
    Be16Inverse(a, b);
    Be16Inverse(c, d);
    Halves(a as int * 0x100 + b, c as int * 0x100 + d);
  }
}
