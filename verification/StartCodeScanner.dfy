/** The start-code scanner of file_parse/file_parse.c: after a start code it skips four bytes, and it
    counts I and P units over all calls. */
module StartCodeScanner {
  import opened Bytes

  const NAL_SLICE: nat := 1
  const NAL_IDR_SLICE: nat := 5

  /** The types of g_nal_str. */
  const NAL_TYPES: seq<nat> := [1, 2, 3, 4, 5, 6, 7, 8, 9, 10, 11, 12, 13, 19, 0xff0f001]

  /** A start code 00 00 00 01 lies at `i`. */
  predicate StartCodeAt(s: seq<byte>, i: int) {
    0 <= i && i + 4 <= |s| && s[i] == 0 && s[i + 1] == 0 && s[i + 2] == 0 && s[i + 3] == 1
  }

  // ---------- what the scan should find ----------

  /** Every position from `i` on that holds a start code, found by trying them all. */
  function Naive(s: seq<byte>, i: nat): seq<nat>
    requires i <= |s|
    decreases |s| - i
  {
    if i == |s| then [] else (if StartCodeAt(s, i) then [i] else []) + Naive(s, i + 1)
  }

  /** The positions are exactly those that hold a start code, in ascending order. */
  lemma {:induction false} NaiveFindsAll(s: seq<byte>, i: nat)
    requires i <= |s|
    ensures forall k :: 0 <= k < |Naive(s, i)| ==> i <= Naive(s, i)[k] && StartCodeAt(s, Naive(s, i)[k])
    ensures forall j, k :: 0 <= j < k < |Naive(s, i)| ==> Naive(s, i)[j] < Naive(s, i)[k]
    ensures forall p :: i <= p && StartCodeAt(s, p) ==> p in Naive(s, i)
    decreases |s| - i
  {
    if i < |s| {
      NaiveFindsAll(s, i + 1);
    }
  }

  // ---------- what the scan does ----------

  /** The positions at which the skipping scan stops. */
  function Skipping(s: seq<byte>, i: nat): seq<nat>
    requires i <= |s|
    decreases |s| - i
  {
    if i == |s| then []
    else if StartCodeAt(s, i) then [i] + Skipping(s, i + 4)
    else Skipping(s, i + 1)
  }

  lemma NoOverlap(s: seq<byte>, i: nat)
    requires StartCodeAt(s, i)
    ensures i + 4 <= |s| && !StartCodeAt(s, i + 1) && !StartCodeAt(s, i + 2) && !StartCodeAt(s, i + 3)
  {
  }

  lemma NaiveGoesOn(s: seq<byte>, i: nat)
    requires i < |s| && !StartCodeAt(s, i)
    ensures Naive(s, i) == Naive(s, i + 1)
  {
  }

  /** A start code cannot overlap another one, so skipping it loses nothing. */
  lemma {:induction false} SkippingIsNaive(s: seq<byte>, i: nat)
    requires i <= |s|
    ensures Skipping(s, i) == Naive(s, i)
    decreases |s| - i
  {
    if i < |s| {
      if StartCodeAt(s, i) {
        NoOverlap(s, i);
        SkippingIsNaive(s, i + 4);
        NaiveGoesOn(s, i + 1);
        NaiveGoesOn(s, i + 2);
        NaiveGoesOn(s, i + 3);
      } else {
        SkippingIsNaive(s, i + 1);
      }
      hide StartCodeAt;
    }
  }

  /** The low five bits of the byte after the start code at `p`. */
  function NalTypeAt(memory: seq<byte>, p: nat): nat
    requires p + 4 < |memory|
  {
    memory[p + 4] % 32
  }

  /** How many of the units that begin at `codes` have type `t`. */
  function CountType(memory: seq<byte>, codes: seq<nat>, t: nat): nat
    requires forall k :: 0 <= k < |codes| ==> codes[k] + 4 < |memory|
  {
    if codes == [] then 0
    else (if NalTypeAt(memory, codes[0]) == t then 1 else 0) + CountType(memory, codes[1..], t)
  }

  /** The byte after every start code can be read: one lies behind the buffer if a start code ends
      the data. */
  predicate Readable(memory: seq<byte>, n: nat) {
    n <= |memory| && (n == |memory| ==> !StartCodeAt(memory, n - 4))
  }

  lemma CodesReadable(memory: seq<byte>, n: nat, i: nat)
    requires Readable(memory, n) && i <= n
    ensures forall k :: 0 <= k < |Naive(memory[..n], i)| ==> Naive(memory[..n], i)[k] + 4 < |memory|
  {
    NaiveFindsAll(memory[..n], i);
    forall k | 0 <= k < |Naive(memory[..n], i)| ensures Naive(memory[..n], i)[k] + 4 < |memory| {
      var p := Naive(memory[..n], i)[k];
      assert StartCodeAt(memory[..n], p);
      assert StartCodeAt(memory, p);
    }
  }

  /** The byte offset just past the last start code, or 0. */
  function PastLast(codes: seq<nat>): nat { if codes == [] then 0 else codes[|codes| - 1] + 4 }

  lemma TableTypes(t: nat)
    ensures t in NAL_TYPES <==> 1 <= t <= 13 || t == 19 || t == 0xff0f001
  {
    assert forall i :: 0 <= i < 13 ==> NAL_TYPES[i] == i + 1;
    assert NAL_TYPES[13] == 19 && NAL_TYPES[14] == 0xff0f001;
    assert 1 <= t <= 13 ==> NAL_TYPES[t - 1] == t;
  }

  /** The static counters of print_nal_type, which outlive the calls. */
  class NalCounters {
    var I: nat
    var P: nat

    constructor ()
      ensures I == 0 && P == 0
    {
      I, P := 0, 0;
    }

    /** print_nal_type without the trace output. */
    method PrintNalType(nalType: nat) returns (ret: int)
      modifies this
      ensures ret == if 1 <= nalType <= 13 || nalType == 19 || nalType == 0xff0f001 then 0 else -1
      ensures I == old(I) + if nalType == 5 then 1 else 0
      ensures P == old(P) + if nalType == 1 then 1 else 0
    {
      ret := -1;
      var i := 0;
      TableTypes(nalType);
      assert NAL_TYPES[0] == NAL_SLICE && NAL_TYPES[4] == NAL_IDR_SLICE;
      while i < |NAL_TYPES|
        invariant 0 <= i <= |NAL_TYPES|
        invariant ret == -1 && I == old(I) && P == old(P)
        invariant nalType !in NAL_TYPES[..i]
      {
        if nalType == NAL_TYPES[i] {
          if nalType == NAL_IDR_SLICE {
            I := I + 1;
          } else if nalType == NAL_SLICE {
            P := P + 1;
          }
          ret := 0;
          return;
        }
        i := i + 1;
      }
    }
  }

  /** find_nal_type on the bytes from `at` on, of which `n` are left. */
  method FindNalType(buff: array<byte>, at: nat, n: nat) returns (b: bool)
    requires at + n <= buff.Length
    ensures b == StartCodeAt(buff[..at + n], at)
  {
    if n < 4 {
      return false;
    }
    return buff[at] == 0 && buff[at + 1] == 0 && buff[at + 2] == 0 && buff[at + 3] == 1;
  }

  // ---------- the same without the scan ----------

  /** The four bytes from `i` on are a start code. */
  predicate CodeBytes(memory: seq<byte>, n: nat, i: int) {
    0 <= i && i + 4 <= n <= |memory| && memory[i..i + 4] == [0, 0, 0, 1]
  }

  /** The positions from `i` on of the start codes of units of type `t`. */
  ghost function UnitsOfType(memory: seq<byte>, n: nat, i: nat, t: nat): set<nat> {
    set p: nat | i <= p < n && CodeBytes(memory, n, p) && p + 4 < |memory| && memory[p + 4] % 32 == t
  }

  lemma CodesAgree(memory: seq<byte>, n: nat, i: int)
    requires n <= |memory|
    ensures CodeBytes(memory, n, i) <==> StartCodeAt(memory[..n], i)
  {
    if 0 <= i && i + 4 <= n {
      var w := memory[i..i + 4];
      assert w[0] == memory[i] && w[1] == memory[i + 1] && w[2] == memory[i + 2] && w[3] == memory[i + 3];
    }
  }

  /** The list of start codes counted by type, as the size of a set of positions. */
  lemma {:induction false} CountIsSize(memory: seq<byte>, n: nat, i: nat, t: nat)
    requires Readable(memory, n) && i <= n
    ensures forall k :: 0 <= k < |Naive(memory[..n], i)| ==> Naive(memory[..n], i)[k] + 4 < |memory|
    ensures CountType(memory, Naive(memory[..n], i), t) == |UnitsOfType(memory, n, i, t)|
    decreases n - i
  {
    CodesReadable(memory, n, i);
    if i == n {
      assert UnitsOfType(memory, n, i, t) == {};
    } else {
      CountIsSize(memory, n, i + 1, t);
      CodesAgree(memory, n, i);
      UnitsStep(memory, n, i, t);
      var codes, later := Naive(memory[..n], i), Naive(memory[..n], i + 1);
      if StartCodeAt(memory[..n], i) {
        assert codes == [i] + later && codes[1..] == later;
        assert CountType(memory, codes, t) == (if memory[i + 4] % 32 == t then 1 else 0) + CountType(memory, later, t);
      } else {
        assert codes == later;
      }
      hide Naive, CountType, UnitsOfType, CodeBytes;
    }
  }

  lemma UnitsStep(memory: seq<byte>, n: nat, i: nat, t: nat)
    requires i < n
    ensures var more := CodeBytes(memory, n, i) && i + 4 < |memory| && memory[i + 4] % 32 == t;
            |UnitsOfType(memory, n, i, t)| == |UnitsOfType(memory, n, i + 1, t)| + if more then 1 else 0
  {
    var rest := UnitsOfType(memory, n, i + 1, t);
    hide CodeBytes;
    if CodeBytes(memory, n, i) && i + 4 < |memory| && memory[i + 4] % 32 == t {
      assert UnitsOfType(memory, n, i, t) == rest + {i} && i !in rest;
    } else {
      assert UnitsOfType(memory, n, i, t) == rest;
    }
  }

  /** The offset is 0 exactly when there is no start code; otherwise it is just past the last one. */
  lemma PastLastExact(memory: seq<byte>, n: nat)
    requires n <= |memory|
    ensures var r := PastLast(Naive(memory[..n], 0));
            && (r == 0 <==> forall i :: !CodeBytes(memory, n, i))
            && (r != 0 ==> r >= 4 && CodeBytes(memory, n, r - 4))
            && (r != 0 ==> forall i :: i > r - 4 ==> !CodeBytes(memory, n, i))
  {
    var codes := Naive(memory[..n], 0);
    NaiveFindsAll(memory[..n], 0);
    forall i ensures CodeBytes(memory, n, i) <==> StartCodeAt(memory[..n], i) {
      CodesAgree(memory, n, i);
    }
    assert forall i :: CodeBytes(memory, n, i) ==> i >= 0 && i in codes;
    hide CodeBytes, StartCodeAt, Naive;
    if codes != [] {
      var last := codes[|codes| - 1];
      assert last in codes && PastLast(codes) == last + 4;
      assert forall k :: 0 <= k < |codes| ==> codes[k] <= last;
    }
  }

  /** parse_h264_file: `n_parse_len` is the offset past the last start code of the data, and the
      counters grow by the I and P units that begin in it. */
  method ParseH264File(buff: array<byte>, nReadLen: nat, counters: NalCounters)
    returns (ret: int, nParseLen: nat)
    requires Readable(buff[..], nReadLen)
    modifies counters
    ensures ret == 0
    ensures nParseLen == 0 <==> forall i :: !CodeBytes(buff[..], nReadLen, i)
    ensures nParseLen != 0 ==>
              && nParseLen >= 4 && CodeBytes(buff[..], nReadLen, nParseLen - 4)
              && forall i :: i > nParseLen - 4 ==> !CodeBytes(buff[..], nReadLen, i)
    ensures counters.I == old(counters.I) + |UnitsOfType(buff[..], nReadLen, 0, 5)|
    ensures counters.P == old(counters.P) + |UnitsOfType(buff[..], nReadLen, 0, 1)|
  {
    ghost var memory, s := buff[..], buff[..nReadLen];
    ghost var codes := Naive(s, 0);
    CodesReadable(memory, nReadLen, 0);
    assert memory[..nReadLen] == s;
    SkippingIsNaive(s, 0);
    var at, left, parsed := 0, nReadLen, 0;
    ghost var done: seq<nat> := [];
    assert PastLast([]) == 0;
    assert CountType(memory, [], NAL_IDR_SLICE) == 0 && CountType(memory, [], NAL_SLICE) == 0;
    hide Naive, CountType, NalTypeAt, PastLast, CodeBytes, UnitsOfType;
    while left != 0
      invariant at + left == nReadLen && buff[..] == memory
      invariant codes == done + Skipping(s, at)
      invariant parsed == PastLast(done)
      invariant forall k :: 0 <= k < |done| ==> done[k] + 4 < buff.Length
      invariant counters.I == old(counters.I) + CountType(memory, done, NAL_IDR_SLICE)
      invariant counters.P == old(counters.P) + CountType(memory, done, NAL_SLICE)
      decreases left
    {
      var step := 1;
      var found := FindNalType(buff, at, left);
      if found {
        assert StartCodeAt(s, at);
        ghost var rest := Skipping(s, at + 4);
        NextCode(done, at, rest);
        assert codes[|done|] == at;
        CountSnoc(memory, done, at, NAL_IDR_SLICE);
        CountSnoc(memory, done, at, NAL_SLICE);
        var nalType := buff[at + 4] % 32;
        assert nalType == memory[at + 4] % 32;
        var _ := counters.PrintNalType(nalType);
        step := 4;
        parsed := at + 4;
        done := done + [at];
      }
      at := at + step;
      left := left - step;
    }
    assert done + [] == done;
    PastLastExact(memory, nReadLen);
    CountIsSize(memory, nReadLen, 0, NAL_IDR_SLICE);
    CountIsSize(memory, nReadLen, 0, NAL_SLICE);
    return 0, parsed;
  }

  lemma NextCode(done: seq<nat>, p: nat, rest: seq<nat>)
    ensures done + ([p] + rest) == done + [p] + rest
    ensures (done + ([p] + rest))[|done|] == p
    ensures PastLast(done + [p]) == p + 4
  {
  }

  lemma {:induction false} CountSnoc(memory: seq<byte>, codes: seq<nat>, p: nat, t: nat)
    requires forall k :: 0 <= k < |codes| ==> codes[k] + 4 < |memory|
    requires p + 4 < |memory|
    ensures CountType(memory, codes + [p], t)
         == CountType(memory, codes, t) + if memory[p + 4] % 32 == t then 1 else 0
  {
    if codes != [] {
      assert (codes + [p])[1..] == codes[1..] + [p];
      CountSnoc(memory, codes[1..], p, t);
    }
  }
}
