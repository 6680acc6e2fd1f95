/** The RTP packetizer of sample/send_h264file_rtp.c (h264nal2rtp_send). */
module Packetizer {
  import opened Bytes
  import opened CLibrary
  import opened Rtp

  const RTP_PAYLOAD_MAX_SIZE: nat := 1400
  const SEND_BUF_SIZE: nat := 1500

  // ---------- fragment arithmetic ----------

  /** fu_pack_num */
  function FragmentCount(n: nat): nat {
    if n % RTP_PAYLOAD_MAX_SIZE != 0 then n / RTP_PAYLOAD_MAX_SIZE + 1 else n / RTP_PAYLOAD_MAX_SIZE
  }

  /** last_fu_pack_size */
  function LastFragmentSize(n: nat): nat {
    if n % RTP_PAYLOAD_MAX_SIZE != 0 then n % RTP_PAYLOAD_MAX_SIZE else RTP_PAYLOAD_MAX_SIZE
  }

  /** Where in the NAL unit the payload of fragment `k` is copied from. */
  function FragmentStart(k: nat): nat { if k == 0 then 1 else RTP_PAYLOAD_MAX_SIZE * k }

  /** How many bytes are copied for fragment `k`. */
  function FragmentSize(n: nat, k: nat): nat {
    if k == 0 then RTP_PAYLOAD_MAX_SIZE - 1
    else if k + 1 < FragmentCount(n) then RTP_PAYLOAD_MAX_SIZE
    else LastFragmentSize(n)
  }

  /** There are at least two fragments, and the last one is neither empty nor too long. */
  lemma FragmentBounds(n: nat)
    requires n > RTP_PAYLOAD_MAX_SIZE
    ensures FragmentCount(n) >= 2
    ensures 1 <= LastFragmentSize(n) <= RTP_PAYLOAD_MAX_SIZE
    ensures RTP_PAYLOAD_MAX_SIZE * (FragmentCount(n) - 1) + LastFragmentSize(n) == n
  {
    assert n == RTP_PAYLOAD_MAX_SIZE * (n / RTP_PAYLOAD_MAX_SIZE) + n % RTP_PAYLOAD_MAX_SIZE;
  }

  /** The fragments are contiguous, the first starts at byte 1, the last ends at byte `n`, and none
      is empty, so they cut bytes 1 to n-1 into disjoint parts. */
  lemma FragmentTiling(n: nat, k: nat)
    requires n > RTP_PAYLOAD_MAX_SIZE && k < FragmentCount(n)
    ensures FragmentStart(0) == 1
    ensures FragmentStart(k) + FragmentSize(n, k)
         == if k == FragmentCount(n) - 1 then n else FragmentStart(k + 1)
    ensures FragmentStart(k) + FragmentSize(n, k) <= n
    ensures 1 <= FragmentSize(n, k) <= RTP_PAYLOAD_MAX_SIZE
  {
    FragmentBounds(n);
  }

  // ---------- what one call sends ----------

  datatype SenderState = SenderState(ts: uint32, seqNum: uint16)

  const START := SenderState(0, 0)

  /** `++seq_num % UINT16_MAX` when the counter has just become `seqNum`. */
  function SeqField(seqNum: uint16): uint16 { seqNum % UINT16_MAX }

  /** `seqNum` after `k` increments of a 16-bit counter. */
  function Advance(seqNum: uint16, k: nat): uint16 { (seqNum + k) % TWO_16 }

  lemma AdvanceStep(seqNum: uint16, k: nat)
    ensures Advance(Advance(seqNum, k), 1) == Advance(seqNum, k + 1)
  {
  }

  /** Division of C, which truncates toward zero. */
  function CDiv(a: int, b: int): int
    requires b != 0
  {
    if (a >= 0) == (b > 0) then Abs(a) / Abs(b) else -(Abs(a) / Abs(b))
  }

  function Abs(x: int): nat { if x < 0 then -x else x }

  function SinglePacket(nal: seq<byte>, seqNo: uint16, ts: uint32): Packet { Header(0, seqNo, ts) + nal }

  /** RTP header, FU indicator and FU header of fragment `k`. */
  function FuPrefix(nal: seq<byte>, k: nat, seqNo: uint16, ts: uint32): (p: Packet)
    requires |nal| > RTP_PAYLOAD_MAX_SIZE && k < FragmentCount(|nal|)
    ensures |p| == 14
  {
    var last := if k == FragmentCount(|nal|) - 1 then 1 else 0;
    Header(last, seqNo, ts)
    + [NalByte(F(nal[0]), Nri(nal[0]), FU_A)]
    + [FuByte(if k == 0 then 1 else 0, last, 0, Type(nal[0]))]
  }

  function FuPacket(nal: seq<byte>, k: nat, seqNo: uint16, ts: uint32): Packet
    requires |nal| > RTP_PAYLOAD_MAX_SIZE && k < FragmentCount(|nal|)
  {
    FragmentTiling(|nal|, k);
    FuPrefix(nal, k, seqNo, ts) + nal[FragmentStart(k)..FragmentStart(k) + FragmentSize(|nal|, k)]
  }

  /** The packets of a call that finds `st`, its timestamp already advanced. */
  function Emit(st: SenderState, nal: seq<byte>): (ps: seq<Packet>)
    requires nal != []
  {
    if |nal| <= RTP_PAYLOAD_MAX_SIZE then [SinglePacket(nal, SeqField(Advance(st.seqNum, 1)), st.ts)]
    else seq(FragmentCount(|nal|), k requires 0 <= k < FragmentCount(|nal|) =>
               FuPacket(nal, k, SeqField(Advance(st.seqNum, k + 1)), st.ts))
  }

  /** A whole call: the new state and the packets sent. */
  function Call(st: SenderState, framerate: int, nal: seq<byte>): (SenderState, seq<Packet>)
    requires framerate != 0
  {
    var ticked := st.(ts := (st.ts + CDiv(90000, framerate)) % TWO_32);
    if nal == [] then (ticked, [])
    else
      var ps := Emit(ticked, nal);
      (ticked.(seqNum := Advance(st.seqNum, |ps|)), ps)
  }

  // ---------- the packets byte by byte ----------

  /** A unit of 1 to 1400 bytes, of whatever type, is sent as it is in one packet. */
  lemma EmitShort(st: SenderState, nal: seq<byte>)
    requires 1 <= |nal| <= 1400
    ensures |Emit(st, nal)| == 1
    ensures |Emit(st, nal)[0]| == 12 + |nal| && Emit(st, nal)[0][12..] == nal
  {
    hide Advance, SeqField, Header;
  }

  /** One packet exactly for at most 1400 bytes; a longer unit takes the least number of packets that
      1400 bytes each can make. */
  lemma EmitCount(st: SenderState, nal: seq<byte>)
    requires nal != []
    ensures |Emit(st, nal)| == 1 <==> |nal| <= 1400
    ensures |nal| > 1400 ==> 1400 * (|Emit(st, nal)| - 1) < |nal| <= 1400 * |Emit(st, nal)|
  {
    hide FuPacket, SinglePacket, Advance, SeqField;
    if |nal| > 1400 {
      FragmentBounds(|nal|);
    }
  }

  /** Packet `k` of a longer unit: FU indicator and FU header as bytes, and the unit's bytes from
      1400 k, or from 1 for the first, up to 1400 (k + 1), or to the end for the last. */
  lemma EmitLong(st: SenderState, nal: seq<byte>, k: nat)
    requires |nal| > 1400 && k < |Emit(st, nal)|
    ensures var p, last, b: int := Emit(st, nal)[k], k == |Emit(st, nal)| - 1, nal[0];
            var start, end := if k == 0 then 1 else 1400 * k, if last then |nal| else 1400 * (k + 1);
            && start < end <= |nal| && |p| == 14 + end - start
            && p[12] == b / 32 * 32 + 28
            && p[13] == (if k == 0 then 128 else if last then 64 else 0) + b % 32
            && p[14..] == nal[start..end]
            && (0 < k && !last ==> |p| == 1414)
  {
    FragmentBounds(|nal|);
    FragmentTiling(|nal|, k);
    var seqNo := SeqField(Advance(st.seqNum, k + 1));
    assert Emit(st, nal)[k] == FuPacket(nal, k, seqNo, st.ts);
    assert |Emit(st, nal)| == FragmentCount(|nal|) >= 2;
    FuBytes(nal, k, seqNo, st.ts);
    hide FuPacket, FuPrefix, Emit, Advance, SeqField, FragmentCount, LastFragmentSize;
  }

  lemma FuBytes(nal: seq<byte>, k: nat, seqNo: uint16, ts: uint32)
    requires |nal| > 1400 && k < FragmentCount(|nal|) && FragmentCount(|nal|) >= 2
    ensures var p, b: int := FuPacket(nal, k, seqNo, ts), nal[0];
            && |p| == 14 + FragmentSize(|nal|, k)
            && p[12] == b / 32 * 32 + 28
            && p[13] == (if k == 0 then 128 else if k == FragmentCount(|nal|) - 1 then 64 else 0) + b % 32
            && FragmentStart(k) + FragmentSize(|nal|, k) <= |nal|
            && p[14..] == nal[FragmentStart(k)..FragmentStart(k) + FragmentSize(|nal|, k)]
  {
    FragmentTiling(|nal|, k);
    FuPrefixBytes(nal, k, seqNo, ts);
    hide FuPrefix, FragmentStart, FragmentSize, FragmentCount;
  }

  lemma FuPrefixBytes(nal: seq<byte>, k: nat, seqNo: uint16, ts: uint32)
    requires |nal| > 1400 && k < FragmentCount(|nal|) && FragmentCount(|nal|) >= 2
    ensures var q, b: int := FuPrefix(nal, k, seqNo, ts), nal[0];
            && q[12] == b / 32 * 32 + 28
            && q[13] == (if k == 0 then 128 else if k == FragmentCount(|nal|) - 1 then 64 else 0) + b % 32
  {
    UpperBits(nal[0], FU_A);
    FuHeaderByte(k == 0, k == FragmentCount(|nal|) - 1, nal[0]);
    hide Header, NalByte, FuByte, F, Nri, Type, FragmentCount;
  }

  lemma FuHeaderByte(first: bool, last: bool, b: byte)
    requires !(first && last)
    ensures var x: int := b;
            FuByte(if first then 1 else 0, if last then 1 else 0, 0, Type(b))
            == (if first then 128 else if last then 64 else 0) + x % 32
  {
  }

  /** The number of ticks per call is 90000 divided by the frame rate, rounded toward zero. */
  lemma TickIsQuotient(framerate: int)
    requires framerate != 0
    ensures var q, f := CDiv(90000, framerate), if framerate < 0 then -framerate else framerate;
            if framerate > 0 then q * f <= 90000 < (q + 1) * f && q >= 0
            else -q * f <= 90000 < (-q + 1) * f && q <= 0
  {
    var f := Abs(framerate);
    assert 90000 == f * (90000 / f) + 90000 % f;
  }

  // ---------- the C function ----------

  function SetMarker(b: byte, v: bit): byte { v * 128 + b % 128 }

  function SetPayloadType(b: byte, v: byte): byte
    requires v < 128
  {
    b / 128 * 128 + v
  }

  /** The static variables of h264nal2rtp_send, the one send buffer, and the packets handed to
      send_data_to_client_list so far. */
  class Sender {
    var tsCurrent: uint32
    var seqNum: uint16
    const sendBuffer: array<byte>
    var sent: seq<Packet>

    constructor ()
      ensures Valid() && State() == START && sent == [] && fresh(sendBuffer)
    {
      tsCurrent, seqNum := 0, 0;
      sendBuffer := new byte[SEND_BUF_SIZE];
      sent := [];
    }

    ghost predicate Valid() { sendBuffer.Length == SEND_BUF_SIZE }

    ghost function State(): SenderState reads this { SenderState(tsCurrent, seqNum) }

    /** The RTP header fields that every branch sets; the marker bit of byte 1 stays as it is. */
    method FillRtpHeader()
      requires Valid()
      modifies this`seqNum, sendBuffer
      ensures seqNum == Advance(old(seqNum), 1)
      ensures sendBuffer[..HEADER_LEN] == Header(old(sendBuffer[1]) / 128, SeqField(seqNum), tsCurrent)
    {
      sendBuffer[0] := 2 * 64;
      sendBuffer[1] := SetPayloadType(sendBuffer[1], H264);
      seqNum := (seqNum + 1) % TWO_16;
      var be := Be16(SeqField(seqNum)) + Be32(tsCurrent) + Be32(SSRC_NUM);
      forall i | 0 <= i < 10 {
        sendBuffer[2 + i] := be[i];
      }
      assert sendBuffer[..HEADER_LEN] == sendBuffer[..2] + be;
    }

    /** rtp_hdr->marker = v */
    method PutMarker(v: bit, ghost seqNo: uint16)
      requires Valid() && sendBuffer[..HEADER_LEN] == Header(0, seqNo, tsCurrent)
      modifies sendBuffer
      ensures sendBuffer[..HEADER_LEN] == Header(v, seqNo, tsCurrent)
    {
      assert sendBuffer[1] == sendBuffer[..HEADER_LEN][1];
      sendBuffer[1] := SetMarker(sendBuffer[1], v);
      assert Header(v, seqNo, tsCurrent) == Header(0, seqNo, tsCurrent)[1 := H264 + v * 128];
    }

    /** One payload header byte, written behind what is already in the buffer. */
    method PutByte(i: nat, b: byte)
      requires Valid() && i < SEND_BUF_SIZE
      modifies sendBuffer
      ensures sendBuffer[..i + 1] == old(sendBuffer[..i]) + [b]
    {
      sendBuffer[i] := b;
    }

    /** The single NAL unit header, field by field; together the fields are the byte itself. */
    method PutNalHeader(b: byte)
      requires Valid()
      modifies sendBuffer
      ensures sendBuffer[..13] == old(sendBuffer[..12]) + [b]
    {
      NalByteFields(b);
      PutByte(12, NalByte(F(b), Nri(b), Type(b)));
    }

    /** Marker, FU indicator and FU header of a fragment. */
    method PutFuHeaders(s: bit, e: bit, header: byte, ghost seqNo: uint16)
      requires Valid() && sendBuffer[..HEADER_LEN] == Header(0, seqNo, tsCurrent)
      modifies sendBuffer
      ensures sendBuffer[..14] == Header(e, seqNo, tsCurrent)
                                  + [NalByte(F(header), Nri(header), FU_A)]
                                  + [FuByte(s, e, 0, Type(header))]
    {
      hide Header;
      PutMarker(e, seqNo);
      PutByte(12, NalByte(F(header), Nri(header), FU_A));
      PutByte(13, FuByte(s, e, 0, Type(header)));
    }

    /** memcpy of `n` bytes of the NAL unit behind what is already in the buffer. */
    method PutPayload(i: nat, nal: array<byte>, ghost len: nat, start: nat, n: nat)
      requires Valid() && nal != sendBuffer
      requires i + n <= SEND_BUF_SIZE && start + n <= len <= nal.Length
      modifies sendBuffer
      ensures sendBuffer[..i + n] == old(sendBuffer[..i]) + nal[..len][start..start + n]
    {
      Memcpy(sendBuffer, i, nal, start, n);
      assert sendBuffer[..i + n] == sendBuffer[..i] + sendBuffer[i..i + n];
      assert nal[start..start + n] == nal[..len][start..start + n];
    }

    /** send_data_to_client_list, seen as appending to the trace of sent packets. */
    method SendDataToClientList(len: nat)
      requires Valid() && len <= SEND_BUF_SIZE
      modifies this`sent
      ensures sent == old(sent) + [sendBuffer[..len]]
    {
      sent := sent + [sendBuffer[..len]];
    }

    /** The branch for a NAL unit that fits one packet; it never writes the marker bit. */
    method SendSingle(nal: array<byte>, len: nat)
      requires Valid() && nal != sendBuffer
      requires 1 <= len <= RTP_PAYLOAD_MAX_SIZE && len <= nal.Length
      modifies this`seqNum, this`sent, sendBuffer
      ensures seqNum == Advance(old(seqNum), 1)
      ensures sent == old(sent) + [SinglePacket(nal[..len], SeqField(seqNum), tsCurrent)]
      ensures |sent[|old(sent)|]| == 12 + len && sent[|old(sent)|][12..] == nal[..len]
    {
      hide Header, SeqField, Advance;
      Memset(sendBuffer, 0, 0, SEND_BUF_SIZE);
      FillRtpHeader();
      PutNalHeader(nal[0]);
      PutPayload(13, nal, len, 1, len - 1);
      ghost var h, unit := Header(0, SeqField(seqNum), tsCurrent), nal[..len];
      assert sendBuffer[..12 + len] == h + unit by {
        assert [unit[0]] + unit[1..] == unit;
        PlusAssoc(h, [unit[0]], unit[1..]);
      }
      SendDataToClientList(12 + len);
    }

    /** One turn of the fragment loop. */
    method SendFragment(nal: array<byte>, len: nat, fuPackNum: nat, lastFuPackSize: nat, fuSeq: nat)
      requires Valid() && nal != sendBuffer
      requires RTP_PAYLOAD_MAX_SIZE < len <= nal.Length && fuSeq < fuPackNum
      requires fuPackNum == FragmentCount(len) && lastFuPackSize == LastFragmentSize(len)
      modifies this`seqNum, this`sent, sendBuffer
      ensures seqNum == Advance(old(seqNum), 1)
      ensures sent == old(sent) + [FuPacket(nal[..len], fuSeq, SeqField(seqNum), tsCurrent)]
    {
      hide Header, NalByte, FuByte, SeqField, Advance;
      FragmentTiling(len, fuSeq);
      FragmentBounds(len);
      hide FragmentCount, LastFragmentSize;
      Memset(sendBuffer, 0, 0, SEND_BUF_SIZE);
      FillRtpHeader();
      ghost var seqNo := SeqField(seqNum);
      var start, size := 0, 0;
      if fuSeq == 0 {
        PutFuHeaders(1, 0, nal[0], seqNo);
        start, size := 1, RTP_PAYLOAD_MAX_SIZE - 1;
      } else if fuSeq < fuPackNum - 1 {
        PutFuHeaders(0, 0, nal[0], seqNo);
        start, size := RTP_PAYLOAD_MAX_SIZE * fuSeq, RTP_PAYLOAD_MAX_SIZE;
      } else {
        PutFuHeaders(0, 1, nal[0], seqNo);
        start, size := RTP_PAYLOAD_MAX_SIZE * fuSeq, lastFuPackSize;
      }
      assert sendBuffer[..14] == FuPrefix(nal[..len], fuSeq, seqNo, tsCurrent);
      PutPayload(14, nal, len, start, size);
      assert sendBuffer[..14 + size] == FuPacket(nal[..len], fuSeq, seqNo, tsCurrent);
      SendDataToClientList(14 + size);
    }

    /** h264nal2rtp_send */
    method H264Nal2RtpSend(framerate: int, nal: array<byte>, naluLen: nat) returns (ret: int)
      requires Valid() && nal != sendBuffer
      requires framerate != 0 && naluLen <= nal.Length
      modifies this, sendBuffer
      ensures Valid()
      ensures ret == if naluLen < 1 then -1 else 0
      ensures State() == Call(old(State()), framerate, nal[..naluLen]).0
      ensures sent == old(sent) + Call(old(State()), framerate, nal[..naluLen]).1
      ensures naluLen == 0 ==> sent == old(sent)
      ensures 1 <= naluLen <= 1400 ==>
                |sent| == |old(sent)| + 1 && |sent[|old(sent)|]| == 12 + naluLen
                && sent[|old(sent)|][12..] == nal[..naluLen]
      ensures naluLen > 1400 ==>
                1400 * (|sent| - |old(sent)| - 1) < naluLen <= 1400 * (|sent| - |old(sent)|)
    {
      hide CDiv, SeqField, FuPacket, SinglePacket;
      tsCurrent := (tsCurrent + CDiv(90000, framerate)) % TWO_32;
      if naluLen < 1 {
        return -1;
      }
      ghost var before, unit := State(), nal[..naluLen];
      EmitCount(before, unit);
      if naluLen <= 1400 {
        EmitShort(before, unit);
      }
      if naluLen <= RTP_PAYLOAD_MAX_SIZE {
        SendSingle(nal, naluLen);
      } else {
        var fuPackNum, lastFuPackSize := FragmentCount(naluLen), LastFragmentSize(naluLen);
        var fuSeq := 0;
        while fuSeq < fuPackNum
          invariant 0 <= fuSeq <= fuPackNum
          invariant tsCurrent == before.ts && seqNum == Advance(before.seqNum, fuSeq)
          invariant sent == old(sent) + Emit(before, unit)[..fuSeq]
        {
          AdvanceStep(before.seqNum, fuSeq);
          SendFragment(nal, naluLen, fuPackNum, lastFuPackSize, fuSeq);
          fuSeq := fuSeq + 1;
        }
      }
      return 0;
    }
  }
}
