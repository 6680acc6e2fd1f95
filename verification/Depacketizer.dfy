/** The RTP depacketizer of sample/test_decode_rtp2h264.c (decode_rtp2h264). */
module Depacketizer {
  import opened Bytes
  import opened CLibrary
  import opened Rtp
  import opened AnnexB

  /** The packet is long enough for the bytes that the decoder reads; the C code does not check. */
  predicate Decodable(p: Packet) {
    |p| >= 13 && (Type(p[12]) == FU_A ==> |p| >= 14)
  }

  predicate AllDecodable(ps: seq<Packet>) { forall i :: 0 <= i < |ps| ==> Decodable(ps[i]) }

  /** What the decoder appends to the file for one packet; the end bit is looked at first. */
  function DecodePacket(p: Packet): seq<byte>
    requires Decodable(p)
  {
    if Type(p[12]) == FU_A then
      if FuE(p[13]) == 1 then p[14..]
      else if FuS(p[13]) == 1 then LONG_CODE + [NalByte(F(p[12]), Nri(p[12]), Type(p[13]))] + p[14..]
      else p[14..]
    else LONG_CODE + [NalByte(F(p[12]), Nri(p[12]), Type(p[12]))] + p[13..]
  }

  /** The same byte by byte. A packet whose low five bits are not 28 is written out behind a start
      code as it is. An FU-A packet with the E bit, or without both bits, gives its payload; one with
      S and without E gives a start code, the header byte put together from the indicator's upper
      three bits and the FU header's lower five, and its payload. */
  lemma DecodeOnWire(p: Packet)
    requires |p| >= 13 && (p[12] % 32 == 28 ==> |p| >= 14)
    ensures Decodable(p)
    ensures p[12] % 32 != 28 ==> DecodePacket(p) == [0, 0, 0, 1] + p[12..]
    ensures p[12] % 32 == 28 && (p[13] / 64 % 2 == 1 || p[13] / 128 == 0) ==> DecodePacket(p) == p[14..]
    ensures p[12] % 32 == 28 && p[13] / 64 % 2 == 0 && p[13] / 128 == 1 ==>
              DecodePacket(p) == [0, 0, 0, 1] + [p[12] / 32 * 32 + p[13] % 32] + p[14..]
  {
    if p[12] % 32 == 28 {
      UpperBits(p[12], Type(p[13]));
      hide NalByte;
    } else {
      NalByteFields(p[12]);
      hide NalByte;
      assert [p[12]] + p[13..] == p[12..];
      PlusAssoc(LONG_CODE, [p[12]], p[13..]);
    }
  }

  function DecodeAll(ps: seq<Packet>): seq<byte>
    requires AllDecodable(ps)
  {
    if ps == [] then [] else DecodeAll(ps[..|ps| - 1]) + DecodePacket(ps[|ps| - 1])
  }

  lemma DecodeAllSnoc(ps: seq<Packet>, p: Packet)
    requires AllDecodable(ps) && Decodable(p)
    ensures AllDecodable(ps + [p])
    ensures DecodeAll(ps + [p]) == DecodeAll(ps) + DecodePacket(p)
  {
    assert (ps + [p])[..|ps|] == ps;
  }

  lemma AllDecodableSplit(a: seq<Packet>, b: seq<Packet>)
    ensures AllDecodable(a + b) <==> AllDecodable(a) && AllDecodable(b)
  {
    hide Decodable;
    assert forall i :: 0 <= i < |a| ==> a[i] == (a + b)[i];
    assert forall i :: 0 <= i < |b| ==> b[i] == (a + b)[|a| + i];
  }

  /** The decoder can read the packets and writes `file`. */
  ghost predicate DecodesTo(ps: seq<Packet>, file: seq<byte>) {
    AllDecodable(ps) && DecodeAll(ps) == file
  }

  lemma DecodeNext(ps: seq<Packet>, k: nat, file: seq<byte>)
    requires k < |ps| && Decodable(ps[k]) && DecodesTo(ps[..k], file)
    ensures DecodesTo(ps[..k + 1], file + DecodePacket(ps[k]))
  {
    assert ps[..k + 1] == ps[..k] + [ps[k]];
    DecodeAllSnoc(ps[..k], ps[k]);
  }

  lemma DecodeFirst(ps: seq<Packet>)
    requires ps != [] && Decodable(ps[0])
    ensures DecodesTo(ps[..1], DecodePacket(ps[0]))
  {
    assert ps[..0] == [];
    DecodeNext(ps, 0, []);
    assert [] + DecodePacket(ps[0]) == DecodePacket(ps[0]);
  }

  lemma {:induction false} DecodeAllAppend(a: seq<Packet>, b: seq<Packet>)
    requires AllDecodable(a) && AllDecodable(b)
    ensures AllDecodable(a + b) && DecodeAll(a + b) == DecodeAll(a) + DecodeAll(b)
  {
    if b == [] {
      assert a + b == a;
    } else {
      var c, p := b[..|b| - 1], b[|b| - 1];
      assert b == c + [p];
      DecodeAllAppend(a, c);
      DecodeAllSnoc(c, p);
      DecodeAllSnoc(a + c, p);
      PlusAssoc(a, c, [p]);
      PlusAssoc(DecodeAll(a), DecodeAll(c), DecodePacket(p));
    }
  }

  /** The five fputc calls that begin a unit. */
  method PutUnitStart(saveFp: OutFile, header: byte)
    modifies saveFp
    ensures saveFp.written == old(saveFp.written) + (LONG_CODE + [header])
  {
    saveFp.Fputc(0);
    saveFp.Fputc(0);
    saveFp.Fputc(0);
    saveFp.Fputc(1);
    saveFp.Fputc(header);
  }

  /** decode_rtp2h264 */
  method DecodeRtp2H264(rtpBuf: array<byte>, len: nat, saveFp: OutFile)
    requires len <= rtpBuf.Length && Decodable(rtpBuf[..len])
    modifies saveFp
    ensures saveFp.written == old(saveFp.written) + DecodePacket(rtpBuf[..len])
  {
    ghost var p, before := rtpBuf[..len], saveFp.written;
    if Type(rtpBuf[12]) == FU_A {
      assert p[14..] == rtpBuf[14..len];
      if FuE(rtpBuf[13]) == 1 {
        saveFp.Fwrite(rtpBuf, 14, len - 14);
      } else if FuS(rtpBuf[13]) == 1 {
        var header := NalByte(F(rtpBuf[12]), Nri(rtpBuf[12]), Type(rtpBuf[13]));
        PutUnitStart(saveFp, header);
        saveFp.Fwrite(rtpBuf, 14, len - 14);
        PlusAssoc(before, LONG_CODE + [header], p[14..]);
      } else {
        saveFp.Fwrite(rtpBuf, 14, len - 14);
      }
    } else {
      assert p[13..] == rtpBuf[13..len];
      var header := NalByte(F(rtpBuf[12]), Nri(rtpBuf[12]), Type(rtpBuf[12]));
      PutUnitStart(saveFp, header);
      saveFp.Fwrite(rtpBuf, 13, len - 13);
      PlusAssoc(before, LONG_CODE + [header], p[13..]);
    }
  }
}
