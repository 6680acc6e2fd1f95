/** What the packets of one NAL unit say, and that decoding them gives the unit back. */
module RtpTheorems {
  import opened Bytes
  import opened Rtp
  import opened AnnexB
  import opened Packetizer
  import opened Depacketizer

  /** The parts of one fragment packet. */
  lemma FuPacketParts(nal: seq<byte>, k: nat, seqNo: uint16, ts: uint32)
    requires |nal| > RTP_PAYLOAD_MAX_SIZE && k < FragmentCount(|nal|)
    ensures var p := FuPacket(nal, k, seqNo, ts);
            var last := if k == FragmentCount(|nal|) - 1 then 1 else 0;
            && |p| == 14 + FragmentSize(|nal|, k)
            && p[..HEADER_LEN] == Header(last, seqNo, ts)
            && p[12] == NalByte(F(nal[0]), Nri(nal[0]), FU_A)
            && p[13] == FuByte(if k == 0 then 1 else 0, last, 0, Type(nal[0]))
            && FragmentStart(k) + FragmentSize(|nal|, k) <= |nal|
            && p[14..] == nal[FragmentStart(k)..FragmentStart(k) + FragmentSize(|nal|, k)]
  {
    FragmentTiling(|nal|, k);
  }

  /** Every packet of a call carries the call's timestamp, its own sequence number and a constant
      rest of the header, and fits the send buffer. The marker is on the last fragment only: a NAL
      unit in one packet goes without it. */
  lemma EmittedHeader(st: SenderState, nal: seq<byte>, k: nat)
    requires nal != [] && k < |Emit(st, nal)|
    ensures var p := Emit(st, nal)[k];
            var last := |nal| > RTP_PAYLOAD_MAX_SIZE && k == |Emit(st, nal)| - 1;
            && Carries(p, if last then 1 else 0, SeqField(Advance(st.seqNum, k + 1)), st.ts)
            && 13 <= |p| <= 1414
  {
    var p := Emit(st, nal)[k];
    var last := if |nal| > RTP_PAYLOAD_MAX_SIZE && k == |Emit(st, nal)| - 1 then 1 else 0;
    var seqNo := SeqField(Advance(st.seqNum, k + 1));
    if |nal| > RTP_PAYLOAD_MAX_SIZE {
      assert p == FuPacket(nal, k, seqNo, st.ts);
      FuPacketParts(nal, k, seqNo, st.ts);
      FragmentTiling(|nal|, k);
    } else {
      assert p == SinglePacket(nal, seqNo, st.ts);
    }
    assert |p| >= HEADER_LEN && p[..HEADER_LEN] == Header(last, seqNo, st.ts);
    HeaderCarries(p, last, seqNo, st.ts);
  }

  /** The same as the first twelve bytes. */
  lemma EmittedHeaderBytes(st: SenderState, nal: seq<byte>, k: nat)
    requires nal != [] && k < |Emit(st, nal)|
    ensures var p, n := Emit(st, nal)[k], (st.seqNum + k + 1) % 0x1_0000 % 0xFFFF;
            var last := |nal| > 1400 && k == |Emit(st, nal)| - 1;
            && |p| >= 12
            && p[..12] == [128, if last then 224 else 96, n / 0x100, n % 0x100,
                           st.ts / 0x1_0000 / 0x100, st.ts / 0x1_0000 % 0x100,
                           st.ts % 0x1_0000 / 0x100, st.ts % 0x1_0000 % 0x100, 0, 0, 0, 10]
  {
    var last := if |nal| > 1400 && k == |Emit(st, nal)| - 1 then 1 else 0;
    var seqNo := SeqField(Advance(st.seqNum, k + 1));
    assert seqNo == (st.seqNum + k + 1) % 0x1_0000 % 0xFFFF;
    hide Emit, Carries, SeqField, Advance, Rtp.Header;
    EmittedHeader(st, nal, k);
    HeaderCarries(Emit(st, nal)[k], last, seqNo, st.ts);
    HeaderBytes(last, seqNo, st.ts);
  }

  /** A long unit becomes FU-A packets: S on the first only, E on the last only, never both; all
      share the unit's F, NRI and type; and payload `k` is the unit's bytes of fragment `k`. */
  lemma FragmentStructure(st: SenderState, nal: seq<byte>, k: nat)
    requires |nal| > RTP_PAYLOAD_MAX_SIZE && k < |Emit(st, nal)|
    ensures |Emit(st, nal)| == FragmentCount(|nal|) >= 2
    ensures var p := Emit(st, nal)[k];
            && |p| == 14 + FragmentSize(|nal|, k) >= 15
            && F(p[12]) == F(nal[0]) && Nri(p[12]) == Nri(nal[0]) && Type(p[12]) == 28
            && (FuS(p[13]) == 1 <==> k == 0)
            && (FuE(p[13]) == 1 <==> k == |Emit(st, nal)| - 1)
            && !(FuS(p[13]) == 1 && FuE(p[13]) == 1)
            && FuR(p[13]) == 0 && Type(p[13]) == Type(nal[0])
            && FragmentStart(k) + |p| - 14 <= |nal|
            && p[14..] == nal[FragmentStart(k)..FragmentStart(k) + |p| - 14]
  {
    hide Rtp.Header, Packetizer.Advance, Packetizer.SeqField, Rtp.NalByte, Rtp.FuByte;
    FragmentTiling(|nal|, k);
    FragmentBounds(|nal|);
    hide Packetizer.FragmentSize, Packetizer.FragmentStart, Packetizer.FragmentCount;
    var seqNo := SeqField(Advance(st.seqNum, k + 1));
    var p := FuPacket(nal, k, seqNo, st.ts);
    assert Emit(st, nal)[k] == p;
    FuPacketParts(nal, k, seqNo, st.ts);
    hide Packetizer.FuPacket;
    assert FragmentStart(k) + |p| - 14 == FragmentStart(k) + FragmentSize(|nal|, k);
  }

  // ---------- round trip of one unit ----------

  /** A unit of type 28 that fits one packet is taken for a fragment by the decoder. */
  predicate Ambiguous(nal: seq<byte>) {
    1 <= |nal| <= RTP_PAYLOAD_MAX_SIZE && Type(nal[0]) == FU_A
  }

  /** Where fragment `k` ends in the unit. */
  function FragmentEnd(n: nat, k: nat): nat { FragmentStart(k) + FragmentSize(n, k) }

  /** A packet with S but not E decodes to a start code, the rebuilt header and the payload. */
  lemma StartDecodes(p: Packet, header: byte)
    requires |p| >= 14 && Type(p[12]) == FU_A && FuE(p[13]) != 1 && FuS(p[13]) == 1
    requires F(p[12]) == F(header) && Nri(p[12]) == Nri(header) && Type(p[13]) == Type(header)
    ensures Decodable(p) && DecodePacket(p) == LONG_CODE + ([header] + p[14..])
  {
    NalByteFields(header);
    PlusAssoc(LONG_CODE, [header], p[14..]);
  }

  /** A fragment without S decodes to its payload. */
  lemma OtherDecodes(p: Packet)
    requires |p| >= 14 && Type(p[12]) == FU_A && FuS(p[13]) != 1
    ensures Decodable(p) && DecodePacket(p) == p[14..]
  {
  }

  /** The first fragment decodes to a start code and the unit's first bytes, another one to its own
      bytes. */
  lemma FragmentDecodes(st: SenderState, nal: seq<byte>, k: nat)
    requires |nal| > RTP_PAYLOAD_MAX_SIZE && k < |Emit(st, nal)|
    ensures FragmentStart(k) <= FragmentEnd(|nal|, k) <= |nal|
    ensures Decodable(Emit(st, nal)[k])
    ensures DecodePacket(Emit(st, nal)[k])
         == if k == 0 then LONG_CODE + nal[..FragmentEnd(|nal|, 0)]
            else nal[FragmentStart(k)..FragmentEnd(|nal|, k)]
  {
    var p := Emit(st, nal)[k];
    FragmentStructure(st, nal, k);
    FragmentTiling(|nal|, k);
    var end := FragmentEnd(|nal|, k);
    assert end == FragmentStart(k) + |p| - 14 && FragmentStart(0) == 1;
    hide *;
    if k == 0 {
      StartDecodes(p, nal[0]);
      assert [nal[0]] + nal[1..end] == nal[..end];
    } else {
      OtherDecodes(p);
    }
  }

  /** One more fragment, holding bytes `a` to `b` of the unit. */
  lemma OneMoreFragment(ps: seq<Packet>, k: nat, nal: seq<byte>, a: nat, b: nat)
    requires k < |ps| && a <= b <= |nal|
    requires DecodesTo(ps[..k], LONG_CODE + nal[..a])
    requires Decodable(ps[k]) && DecodePacket(ps[k]) == nal[a..b]
    ensures DecodesTo(ps[..k + 1], LONG_CODE + nal[..b])
  {
    hide Depacketizer.DecodePacket, Depacketizer.Decodable;
    DecodeNext(ps, k, LONG_CODE + nal[..a]);
    PlusAssoc(LONG_CODE, nal[..a], nal[a..b]);
    assert nal[..a] + nal[a..b] == nal[..b];
  }

  lemma {:induction false} FragmentsDecode(st: SenderState, nal: seq<byte>, k: nat)
    requires |nal| > RTP_PAYLOAD_MAX_SIZE && 1 <= k <= |Emit(st, nal)|
    ensures FragmentEnd(|nal|, k - 1) <= |nal|
    ensures DecodesTo(Emit(st, nal)[..k], LONG_CODE + nal[..FragmentEnd(|nal|, k - 1)])
  {
    hide *;
    FragmentDecodes(st, nal, k - 1);
    if k == 1 {
      DecodeFirst(Emit(st, nal));
    } else {
      FragmentsDecode(st, nal, k - 1);
      FragmentsAbut(st, nal, k - 2);
      OneMoreFragment(Emit(st, nal), k - 1, nal, FragmentStart(k - 1), FragmentEnd(|nal|, k - 1));
    }
  }

  lemma FragmentsAbut(st: SenderState, nal: seq<byte>, k: nat)
    requires |nal| > RTP_PAYLOAD_MAX_SIZE && k + 1 < |Emit(st, nal)|
    ensures FragmentEnd(|nal|, k) == FragmentStart(k + 1)
  {
    FragmentTiling(|nal|, k);
  }

  lemma {:induction false} SingleDecodes(st: SenderState, nal: seq<byte>)
    requires 1 <= |nal| <= RTP_PAYLOAD_MAX_SIZE && !Ambiguous(nal)
    ensures DecodesTo(Emit(st, nal), LONG_CODE + nal)
  {
    var p := Emit(st, nal)[0];
    assert p[12] == nal[0] && p[13..] == nal[1..];
    assert Emit(st, nal)[..1] == Emit(st, nal);
    DecodeFirst(Emit(st, nal));
    NalByteFields(nal[0]);
    hide Rtp.NalByte, Rtp.F, Rtp.Nri, Rtp.Type;
    assert [nal[0]] + nal[1..] == nal;
    PlusAssoc(LONG_CODE, [nal[0]], nal[1..]);
  }

  /** What the decoder writes for an ambiguous unit, if it can read the packet at all, is too short. */
  lemma AmbiguousTooShort(st: SenderState, nal: seq<byte>)
    requires Ambiguous(nal) && AllDecodable(Emit(st, nal))
    ensures |DecodeAll(Emit(st, nal))| < |LONG_CODE + nal|
  {
    var p := Emit(st, nal)[0];
    assert p[12] == nal[0] && Decodable(p);
    assert Emit(st, nal)[..1] == Emit(st, nal);
    DecodeFirst(Emit(st, nal));
  }

  /** Decoding the packets of a unit gives a start code and the unit exactly when the unit is not
      an ambiguous one. */
  lemma {:induction false} NalRoundTrip(st: SenderState, nal: seq<byte>)
    requires nal != []
    ensures DecodesTo(Emit(st, nal), LONG_CODE + nal) <==> !Ambiguous(nal)
  {
    if Ambiguous(nal) {
      if AllDecodable(Emit(st, nal)) {
        AmbiguousTooShort(st, nal);
      }
    } else if |nal| <= RTP_PAYLOAD_MAX_SIZE {
      SingleDecodes(st, nal);
    } else {
      var n := FragmentCount(|nal|);
      FragmentBounds(|nal|);
      FragmentTiling(|nal|, n - 1);
      FragmentsDecode(st, nal, n);
      assert Emit(st, nal)[..n] == Emit(st, nal);
      assert nal[..|nal|] == nal;
    }
  }
}
