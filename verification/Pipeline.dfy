/** The driver of sample/send_h264file_rtp.c, the receiving loop of sample/test_decode_rtp2h264.c,
    and what the two programs do together over a network that neither loses nor reorders. */
module Pipeline {
  import opened Bytes
  import opened CLibrary
  import opened Rtp
  import opened AnnexB
  import opened AnnexBTheorems
  import opened Packetizer
  import opened Depacketizer
  import opened RtpTheorems
  import opened SenderRuns

  const NAL_BUF_SIZE: nat := 1500 * 50
  const FRAMERATE: int := 25

  // ---------- the two programs as functions ----------

  /** The units, each as one call at the driver's frame rate. */
  function AtFramerate(units: seq<seq<byte>>): (calls: seq<CallInput>)
    ensures ValidRates(calls)
  {
    seq(|units|, i requires 0 <= i < |units| => CallInput(FRAMERATE, units[i]))
  }

  /** Every packet the driver sends for these units. */
  function Transmit(st: SenderState, units: seq<seq<byte>>): seq<Packet> {
    Flatten(RunCalls(st, AtFramerate(units)))
  }

  /** The normal form of a file: a four-byte start code before every unit that is not empty. */
  function Normal(units: seq<seq<byte>>): seq<byte> {
    if units == [] then [] else NormalUnit(units[0]) + Normal(units[1..])
  }

  function NormalUnit(u: seq<byte>): seq<byte> { if u == [] then [] else LONG_CODE + u }

  lemma TransmitCons(st: SenderState, units: seq<seq<byte>>)
    requires units != []
    ensures var (next, ps) := Call(st, FRAMERATE, units[0]);
            Transmit(st, units) == ps + Transmit(next, units[1..])
  {
    assert AtFramerate(units)[1..] == AtFramerate(units[1..]);
    var (next, ps) := Call(st, FRAMERATE, units[0]);
    assert RunCalls(st, AtFramerate(units))[1..] == RunCalls(next, AtFramerate(units[1..]));
  }

  // ---------- the imperative driver and receiver ----------

  /** The C buffer holds every unit, and the tail that no start code ends. */
  predicate Fits(s: seq<byte>, cap: nat) {
    ScanConservation(s);
    |Scan(s).out| <= cap && (Scan(s).Found? ==> Fits(Scan(s).rest, cap))
  }

  /** A file no longer than the buffer always fits. */
  lemma {:induction false} SmallFileFits(s: seq<byte>, cap: nat)
    requires |s| <= cap
    ensures Fits(s, cap)
    decreases |s|
  {
    ScanConservation(s);
    if Scan(s).Found? {
      SmallFileFits(Scan(s).rest, cap);
    }
  }

  /** A stream of clean units fits exactly when every unit does and what follows it does. */
  lemma {:induction false} EncodedFits(units: seq<seq<byte>>, long: seq<bool>, tail: seq<byte>, cap: nat)
    requires |units| == |long| && AllClean(units)
    ensures Fits(Encode(units, long) + tail, cap)
       <==> (forall i :: 0 <= i < |units| ==> |units[i]| <= cap) && Fits(tail, cap)
  {
    if units == [] {
      assert Encode(units, long) + tail == tail;
    } else {
      var rest := Encode(units[1..], long[1..]) + tail;
      assert Encode(units, long) + tail == units[0] + (StartCode(long[0]) + rest);
      ScanUnit(units[0], long[0], rest);
      EncodedFits(units[1..], long[1..], tail, cap);
    }
  }

  /** The driver's buffer: 75000 bytes for every unit, and for what is scanned of the tail. */
  lemma DriverFits(units: seq<seq<byte>>, long: seq<bool>, tail: seq<byte>)
    requires |units| == |long| && AllClean(units)
    requires forall q :: !CodeAt(tail, q)
    ensures Fits(Encode(units, long) + tail, NAL_BUF_SIZE)
       <==> (forall i :: 0 <= i < |units| ==> |units[i]| <= 75000) && |Scan(tail).out| <= 75000
  {
    EncodedFits(units, long, tail, NAL_BUF_SIZE);
    NoCodeNoUnit(tail);
    hide Scan, Encode;
  }

  /** The while loop of main. */
  method SendFile(fp: InFile, nalBuf: array<byte>, sender: Sender)
    requires fp.Valid() && sender.Valid() && nalBuf != sender.sendBuffer
    requires nalBuf.Length == NAL_BUF_SIZE && Fits(fp.Rest(), NAL_BUF_SIZE)
    modifies fp, nalBuf, sender, sender.sendBuffer
    ensures sender.sent == old(sender.sent) + Transmit(old(sender.State()), SplitAll(old(fp.Rest())))
  {
    ghost var all := sender.sent + Transmit(sender.State(), SplitAll(fp.Rest()));
    while true
      invariant fp.Valid() && sender.Valid() && Fits(fp.Rest(), NAL_BUF_SIZE)
      invariant all == sender.sent + Transmit(sender.State(), SplitAll(fp.Rest()))
      decreases |fp.Rest()|
    {
      ghost var st, rest, sent := sender.State(), fp.Rest(), sender.sent;
      ScanConservation(rest);
      var ret, len := CopyNalFromFile(fp, nalBuf);
      if ret == -1 {
        assert SplitAll(rest) == [] && Transmit(st, []) == [];
        assert all == sent + [];
        return;
      }
      ghost var unit := nalBuf[..len];
      assert SplitAll(rest) == [unit] + SplitAll(fp.Rest());
      var _ := sender.H264Nal2RtpSend(FRAMERATE, nalBuf, len);
      TransmitCons(st, SplitAll(rest));
      assert SplitAll(rest)[1..] == SplitAll(fp.Rest());
      PlusAssoc(sent, Call(st, FRAMERATE, unit).1, Transmit(sender.State(), SplitAll(fp.Rest())));
    }
  }

  /** recv: the packet arrives in the buffer. */
  method Recv(buf: array<byte>, p: Packet)
    requires |p| <= buf.Length
    modifies buf
    ensures buf[..|p|] == p
  {
    forall i | 0 <= i < |p| {
      buf[i] := p[i];
    }
  }

  /** recv and decode, one packet after the other. */
  method ReceiveAll(packets: seq<Packet>, saveFp: OutFile)
    requires AllDecodable(packets)
    requires forall i :: 0 <= i < |packets| ==> |packets[i]| <= 1500
    modifies saveFp
    ensures saveFp.written == old(saveFp.written) + DecodeAll(packets)
  {
    var buf := new byte[1500];
    ghost var got: seq<byte> := [];
    assert DecodesTo(packets[..0], []);
    assert forall n :: 0 <= n < |packets| ==> Decodable(packets[n]);
    hide DecodePacket, Decodable, DecodesTo;
    for n := 0 to |packets|
      invariant DecodesTo(packets[..n], got)
      invariant saveFp.written == old(saveFp.written) + got
    {
      var p := packets[n];
      Recv(buf, p);
      DecodeRtp2H264(buf, |p|, saveFp);
      DecodeNext(packets, n, got);
      PlusAssoc(old(saveFp.written), got, DecodePacket(p));
      got := got + DecodePacket(p);
    }
    assert DecodeAll(packets) == got by {
      WholeDecoded(packets, got);
    }
  }

  lemma WholeDecoded(ps: seq<Packet>, file: seq<byte>)
    requires DecodesTo(ps[..|ps|], file)
    ensures DecodesTo(ps, file)
    ensures AllDecodable(ps) && DecodeAll(ps) == file
  {
    assert ps[..|ps|] == ps;
  }

  // ---------- round trips ----------

  predicate NoneAmbiguous(units: seq<seq<byte>>) {
    forall i :: 0 <= i < |units| ==> !Ambiguous(units[i])
  }

  /** The receiver's file is never longer than the normal form, and shorter if a unit is ambiguous. */
  ghost predicate DecodesAtMost(ps: seq<Packet>, file: seq<byte>, strictly: bool) {
    AllDecodable(ps) ==> |DecodeAll(ps)| <= |file| && (strictly ==> |DecodeAll(ps)| < |file|)
  }

  lemma {:induction false} DecodesAppend(a: seq<Packet>, b: seq<Packet>, s: seq<byte>, t: seq<byte>, p: bool, q: bool)
    requires DecodesAtMost(a, s, p) && DecodesAtMost(b, t, q)
    ensures DecodesAtMost(a + b, s + t, p || q)
    ensures DecodesTo(a, s) && DecodesTo(b, t) ==> DecodesTo(a + b, s + t)
  {
    AllDecodableSplit(a, b);
    if AllDecodable(a) && AllDecodable(b) {
      DecodeAllAppend(a, b);
    }
  }

  lemma UnitDecodes(st: SenderState, u: seq<byte>)
    requires u != []
    ensures !Ambiguous(u) ==> DecodesTo(Emit(st, u), LONG_CODE + u)
    ensures DecodesAtMost(Emit(st, u), LONG_CODE + u, Ambiguous(u))
  {
    hide Emit, DecodeAll, Decodable;
    NalRoundTrip(st, u);
    if Ambiguous(u) && AllDecodable(Emit(st, u)) {
      AmbiguousTooShort(st, u);
    }
  }

  lemma {:induction false} CallDecodes(st: SenderState, u: seq<byte>)
    ensures var ps := Call(st, FRAMERATE, u).1;
            && (!Ambiguous(u) ==> DecodesTo(ps, NormalUnit(u)))
            && DecodesAtMost(ps, NormalUnit(u), Ambiguous(u))
  {
    if u != [] {
      var ticked := st.(ts := (st.ts + CDiv(90000, FRAMERATE)) % TWO_32);
      assert Call(st, FRAMERATE, u).1 == Emit(ticked, u) && NormalUnit(u) == LONG_CODE + u;
      hide *;
      UnitDecodes(ticked, u);
    }
  }

  lemma {:induction false} TransmitDecodes(st: SenderState, units: seq<seq<byte>>)
    ensures NoneAmbiguous(units) ==> DecodesTo(Transmit(st, units), Normal(units))
    ensures DecodesAtMost(Transmit(st, units), Normal(units), !NoneAmbiguous(units))
    decreases |units|
  {
    if units != [] {
      var (next, ps) := Call(st, FRAMERATE, units[0]);
      var u, rest := units[0], units[1..];
      assert Normal(units) == NormalUnit(u) + Normal(rest);
      assert NoneAmbiguous(units) <==> !Ambiguous(u) && NoneAmbiguous(rest);
      hide *;
      TransmitCons(st, units);
      TransmitDecodes(next, rest);
      CallDecodes(st, u);
      DecodesAppend(ps, Transmit(next, rest), NormalUnit(u), Normal(rest), Ambiguous(u), !NoneAmbiguous(rest));
    }
  }

  /** The receiver's file is the normal form of the units exactly when no unit is ambiguous: a unit
      of type 28 in a single packet is taken for a fragment. */
  lemma {:induction false} TransmitRoundTrip(st: SenderState, units: seq<seq<byte>>)
    ensures DecodesTo(Transmit(st, units), Normal(units)) <==> NoneAmbiguous(units)
  {
    TransmitDecodes(st, units);
  }

  /** Sending the file `s` and receiving its packets writes `received`. */
  ghost predicate Relays(st: SenderState, s: seq<byte>, received: seq<byte>) {
    DecodesTo(Transmit(st, SplitAll(s)), received)
  }

  /** End to end, for clean units with any mix of start codes and a tail without one: the receiver
      writes every unit that is not empty, in order, behind a four-byte start code, and nothing
      else, exactly when no unit is ambiguous. */
  lemma {:induction false} EndToEnd(st: SenderState, units: seq<seq<byte>>, long: seq<bool>, tail: seq<byte>)
    requires |units| == |long| && AllClean(units)
    requires forall q :: !CodeAt(tail, q)
    ensures Relays(st, Encode(units, long) + tail, Normal(units)) <==> NoneAmbiguous(units)
  {
    SplitInvertsEncode(units, long, tail);
    TransmitRoundTrip(st, units);
  }

  /** Every packet of unit `c` of the driver's file, empty units counted, carries (c + 1) * 3600. */
  lemma DriverTimestamps(units: seq<seq<byte>>, c: nat, j: nat)
    requires c < |units| && j < |RunCalls(START, AtFramerate(units))[c]|
    ensures HasHeader(RunCalls(START, AtFramerate(units))[c][j])
    ensures Timestamp(RunCalls(START, AtFramerate(units))[c][j]) == (c + 1) * 3600 % TWO_32
  {
    assert CDiv(90000, FRAMERATE) == 3600;
    hide Packetizer.CDiv;
    Timestamps(AtFramerate(units), FRAMERATE, c, j);
  }

  // ---------- a second pass changes nothing ----------

  function NonEmpty(units: seq<seq<byte>>): seq<seq<byte>> {
    if units == [] then []
    else (if units[0] == [] then [] else [units[0]]) + NonEmpty(units[1..])
  }

  function AllLong(n: nat): (r: seq<bool>)
    ensures |r| == n
  {
    seq(n, _ => true)
  }

  lemma {:induction false} NormalIsEncoded(units: seq<seq<byte>>)
    ensures Normal(units) + LONG_CODE
         == LONG_CODE + Encode(NonEmpty(units), AllLong(|NonEmpty(units)|))
    ensures Normal(NonEmpty(units)) == Normal(units)
  {
    if units == [] {
    } else {
      var u, rest := units[0], units[1..];
      NormalIsEncoded(rest);
      if u == [] {
        assert NonEmpty(units) == NonEmpty(rest) && Normal(units) == Normal(rest);
      } else {
        var ne := NonEmpty(rest);
        var code := Encode(ne, AllLong(|ne|));
        assert NonEmpty(units) == [u] + ne && NonEmpty(units)[1..] == ne;
        assert AllLong(|ne| + 1)[1..] == AllLong(|ne|);
        assert Encode(NonEmpty(units), AllLong(|ne| + 1)) == u + LONG_CODE + code;
        PlusAssoc(LONG_CODE + u, Normal(rest), LONG_CODE);
        PlusAssoc(LONG_CODE + u, LONG_CODE, code);
        PlusAssoc(LONG_CODE, u, LONG_CODE + code);
        PlusAssoc(u, LONG_CODE, code);
      }
    }
  }

  lemma {:induction false} NonEmptyKeeps(units: seq<seq<byte>>)
    ensures AllClean(units) ==> AllClean(NonEmpty(units))
    ensures NoneAmbiguous(units) ==> NoneAmbiguous(NonEmpty(units))
  {
    if units != [] {
      NonEmptyKeeps(units[1..]);
    }
  }

  lemma {:induction false} EncodeAfterEmpty(units: seq<seq<byte>>)
    ensures Encode([[]] + units, AllLong(|units| + 1)) == LONG_CODE + Encode(units, AllLong(|units|))
  {
    var again: seq<seq<byte>> := [[]] + units;
    assert again[1..] == units && AllLong(|units| + 1)[1..] == AllLong(|units|);
    assert [] + LONG_CODE == LONG_CODE;
  }

  /** For every input file, well formed or not: the normal form of its units, closed by one start
      code, splits into the same units (after the empty one in front of the first start code). */
  lemma {:induction false} NormalForm(s: seq<byte>)
    ensures SplitAll(Normal(SplitAll(s)) + LONG_CODE) == [[]] + NonEmpty(SplitAll(s))
  {
    var units := NonEmpty(SplitAll(s));
    var again: seq<seq<byte>> := [[]] + units;
    SplitAllClean(s);
    NonEmptyKeeps(SplitAll(s));
    assert AllClean(again);
    hide *;
    NormalIsEncoded(SplitAll(s));
    EncodeAfterEmpty(units);
    NoCodeInNothing();
    SplitInvertsEncode(again, AllLong(|again|), []);
    assert Encode(again, AllLong(|again|)) + [] == Encode(again, AllLong(|again|));
  }

  lemma NoCodeInNothing()
    ensures forall q :: !CodeAt([], q)
  {
  }

  /** Two passes: whatever file is sent first, if the receiver got its units right, sending the
      received file closed by a start code makes a second receiver write the same file. */
  lemma {:induction false} SecondPassIsIdentity(first: SenderState, second: SenderState, s: seq<byte>, received: seq<byte>)
    requires NoneAmbiguous(SplitAll(s))
    requires Relays(first, s, received)
    ensures Relays(second, received + LONG_CODE, received)
  {
    var units := SplitAll(s);
    var again := [[]] + NonEmpty(units);
    TransmitRoundTrip(first, units);
    NormalForm(s);
    NonEmptyKeeps(units);
    NormalIsEncoded(units);
    assert again[1..] == NonEmpty(units);
    assert NoneAmbiguous(again);
    TransmitRoundTrip(second, again);
    assert Normal(again) == [] + Normal(NonEmpty(units));
  }

  // ---------- both programs together ----------

  lemma {:induction false} TransmitSizes(st: SenderState, units: seq<seq<byte>>, k: nat)
    requires k < |Transmit(st, units)|
    ensures |Transmit(st, units)[k]| <= 1414
    decreases |units|
  {
    var (next, ps) := Call(st, FRAMERATE, units[0]);
    TransmitCons(st, units);
    if k < |ps| {
      EmittedHeader(st.(ts := next.ts), units[0], k);
    } else {
      TransmitSizes(next, units[1..], k - |ps|);
    }
  }

  /** A freshly started sender and receiver move the file's units across, in normal form. */
  method Relay(fp: InFile, nalBuf: array<byte>, sender: Sender, saveFp: OutFile)
    requires fp.Valid() && sender.Valid() && nalBuf != sender.sendBuffer
    requires sender.State() == START && sender.sent == [] && saveFp.written == []
    requires nalBuf.Length == NAL_BUF_SIZE && Fits(fp.Rest(), NAL_BUF_SIZE)
    requires NoneAmbiguous(SplitAll(fp.Rest()))
    modifies fp, nalBuf, sender, sender.sendBuffer, saveFp
    ensures saveFp.written == Normal(SplitAll(old(fp.Rest())))
  {
    ghost var units := SplitAll(fp.Rest());
    SendFile(fp, nalBuf, sender);
    assert sender.sent == Transmit(START, units);
    TransmitRoundTrip(START, units);
    forall k | 0 <= k < |sender.sent| ensures |sender.sent[k]| <= 1500 {
      TransmitSizes(START, units, k);
    }
    ReceiveAll(sender.sent, saveFp);
  }
}
