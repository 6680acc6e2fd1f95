/** Sequence numbers and timestamps over whole runs of h264nal2rtp_send. */
module SenderRuns {
  import opened Bytes
  import opened Rtp
  import opened Packetizer
  import opened RtpTheorems

  datatype CallInput = CallInput(framerate: int, nal: seq<byte>)

  predicate ValidRates(calls: seq<CallInput>) { forall i :: 0 <= i < |calls| ==> calls[i].framerate != 0 }

  /** The packets of successive calls, call by call. */
  function RunCalls(st: SenderState, calls: seq<CallInput>): (r: seq<seq<Packet>>)
    requires ValidRates(calls)
    ensures |r| == |calls|
    decreases |calls|
  {
    if calls == [] then []
    else
      var (next, ps) := Call(st, calls[0].framerate, calls[0].nal);
      [ps] + RunCalls(next, calls[1..])
  }

  lemma AdvanceTwice(seqNum: uint16, a: nat, b: nat)
    ensures Advance(Advance(seqNum, a), b) == Advance(seqNum, a + b)
  {
  }

  /** The `k`-th packet of a run, counted from 0 over all calls, has its counter advanced `k + 1` times. */
  lemma {:induction false} RunSeqField(st: SenderState, calls: seq<CallInput>, k: nat)
    requires ValidRates(calls) && k < |Flatten(RunCalls(st, calls))|
    ensures HasHeader(Flatten(RunCalls(st, calls))[k])
    ensures SeqNo(Flatten(RunCalls(st, calls))[k]) == SeqField(Advance(st.seqNum, k + 1))
    decreases |calls|
  {
    var (next, ps) := Call(st, calls[0].framerate, calls[0].nal);
    var rest := RunCalls(next, calls[1..]);
    assert RunCalls(st, calls)[1..] == rest;
    hide Rtp.SeqNo, Packetizer.Advance, Packetizer.CDiv, Packetizer.Emit, Packetizer.SeqField;
    if k < |ps| {
      var ticked := st.(ts := (st.ts + CDiv(90000, calls[0].framerate)) % TWO_32);
      EmittedHeader(ticked, calls[0].nal, k);
    } else {
      RunSeqField(next, calls[1..], k - |ps|);
      if calls[0].nal == [] {
        assert next.seqNum == st.seqNum;
      } else {
        AdvanceTwice(st.seqNum, |ps|, k - |ps| + 1);
      }
    }
  }

  /** Counting from the program start, the `k`-th packet ever sent carries
      ((k + 1) mod 65536) mod 65535, whatever the calls. */
  lemma SequenceNumbers(calls: seq<CallInput>, k: nat)
    requires ValidRates(calls) && k < |Flatten(RunCalls(START, calls))|
    ensures HasHeader(Flatten(RunCalls(START, calls))[k])
    ensures SeqNo(Flatten(RunCalls(START, calls))[k]) == (k + 1) % 0x1_0000 % 0xFFFF
  {
    RunSeqField(START, calls, k);
  }

  /** Section 5.1 of RFC 3550 wants each number to be the previous one plus 1 modulo 65536. That
      fails at exactly two places of each turn of the counter: 65534 is followed by 0, and that 0
      by another 0. */
  lemma SequenceSteps(calls: seq<CallInput>, k: nat)
    requires ValidRates(calls) && k + 1 < |Flatten(RunCalls(START, calls))|
    ensures var ps := Flatten(RunCalls(START, calls));
            && HasHeader(ps[k]) && HasHeader(ps[k + 1])
            && (SeqNo(ps[k + 1]) == (SeqNo(ps[k]) + 1) % 0x1_0000
                <==> (k + 1) % 0x1_0000 !in {65534, 65535})
            && (SeqNo(ps[k + 1]) == SeqNo(ps[k]) <==> (k + 1) % 0x1_0000 == 65535)
  {
    hide *;
    SequenceNumbers(calls, k);
    SequenceNumbers(calls, k + 1);
    SequenceArithmetic(k + 1);
  }

  lemma SequenceArithmetic(c: nat)
    ensures var a, b := c % 0x1_0000 % 0xFFFF, (c + 1) % 0x1_0000 % 0xFFFF;
            && (b == (a + 1) % 0x1_0000 <==> c % 0x1_0000 !in {65534, 65535})
            && (b == a <==> c % 0x1_0000 == 65535)
  {
    var m := c % 0x1_0000;
    assert (c + 1) % 0x1_0000 == if m == 65535 then 0 else m + 1;
    assert m < 65535 ==> m % 0xFFFF == m;
    assert m < 65534 ==> (m + 1) % 0xFFFF == m + 1;
  }

  /** Clock ticks of a run of calls; a call that sends nothing ticks too. */
  function Ticks(calls: seq<CallInput>): int
    requires ValidRates(calls)
  {
    if calls == [] then 0 else CDiv(90000, calls[0].framerate) + Ticks(calls[1..])
  }

  lemma ModPlus(a: int, b: int)
    ensures (a % TWO_32 + b) % TWO_32 == (a + b) % TWO_32
  {
  }

  /** Every packet of call `c` carries the ticks of the calls up to and including it. */
  lemma {:induction false} RunTimestamp(st: SenderState, calls: seq<CallInput>, c: nat, j: nat)
    requires ValidRates(calls) && c < |calls| && j < |RunCalls(st, calls)[c]|
    ensures HasHeader(RunCalls(st, calls)[c][j])
    ensures Timestamp(RunCalls(st, calls)[c][j]) == (st.ts + Ticks(calls[..c + 1])) % TWO_32
    decreases c
  {
    var head, tail := calls[..c + 1], calls[1..][..c];
    assert head[0] == calls[0] && head[1..] == tail;
    var q := CDiv(90000, calls[0].framerate);
    var next := Call(st, calls[0].framerate, calls[0].nal).0;
    RunCallsCons(st, calls);
    CallTimestamp(st, calls[0].framerate, calls[0].nal);
    assert Ticks(head) == q + Ticks(tail);
    assert ValidRates(calls[1..]) && ValidRates(tail);
    hide *;
    if c == 0 {
      NoTicks(tail);
    } else {
      RunTimestamp(next, calls[1..], c - 1, j);
      ModPlus(st.ts + q, Ticks(tail));
    }
  }

  lemma RunCallsCons(st: SenderState, calls: seq<CallInput>)
    requires ValidRates(calls) && calls != []
    ensures var (next, ps) := Call(st, calls[0].framerate, calls[0].nal);
            && RunCalls(st, calls) == [ps] + RunCalls(next, calls[1..])
            && RunCalls(st, calls)[0] == ps
            && forall c :: 1 <= c < |calls| ==> RunCalls(st, calls)[c] == RunCalls(next, calls[1..])[c - 1]
  {
  }

  /** A call advances the clock by one tick, and all its packets carry the new time. */
  lemma CallTimestamp(st: SenderState, framerate: int, nal: seq<byte>)
    requires framerate != 0
    ensures var (next, ps) := Call(st, framerate, nal);
            && next.ts == (st.ts + CDiv(90000, framerate)) % TWO_32
            && forall j :: 0 <= j < |ps| ==> HasHeader(ps[j]) && Timestamp(ps[j]) == next.ts
  {
    var (next, ps) := Call(st, framerate, nal);
    hide Packetizer.CDiv, Rtp.Timestamp, Packetizer.Emit;
    forall j | 0 <= j < |ps| ensures HasHeader(ps[j]) && Timestamp(ps[j]) == next.ts {
      EmittedHeader(st.(ts := next.ts), nal, j);
    }
  }

  lemma NoTicks(calls: seq<CallInput>)
    requires calls == []
    ensures Ticks(calls) == 0
  {
  }

  /** At a fixed frame rate the packets of call `c`, counted from 0, carry (c + 1) times the tick. */
  lemma {:induction false} Timestamps(calls: seq<CallInput>, framerate: int, c: nat, j: nat)
    requires ValidRates(calls) && c < |calls| && j < |RunCalls(START, calls)[c]|
    requires forall i :: 0 <= i < |calls| ==> calls[i].framerate == framerate
    ensures HasHeader(RunCalls(START, calls)[c][j])
    ensures Timestamp(RunCalls(START, calls)[c][j]) == (c + 1) * CDiv(90000, framerate) % TWO_32
  {
    RunTimestamp(START, calls, c, j);
    ConstantTicks(calls[..c + 1], framerate);
  }

  lemma {:induction false} ConstantTicks(calls: seq<CallInput>, framerate: int)
    requires framerate != 0
    requires forall i :: 0 <= i < |calls| ==> calls[i].framerate == framerate
    ensures ValidRates(calls) && Ticks(calls) == |calls| * CDiv(90000, framerate)
  {
    if calls != [] {
      ConstantTicks(calls[1..], framerate);
      var q := CDiv(90000, framerate);
      hide Packetizer.CDiv;
      assert |calls| * q == (|calls| - 1) * q + q;
    }
  }
}
