/** What the splitter gets right, on which inputs, and what it never does. */
module AnnexBTheorems {
  import opened Bytes
  import opened AnnexB

  // ---------- conservation ----------

  /** Every byte read is written, held back, part of a start code, or part of a discarded group;
      a successful call stops just past a start code. */
  predicate Accounted(s: seq<byte>, r: Scanned) {
    match r
    case Found(out, d, rest) =>
      && |rest| + 3 <= |s| && s[|s| - |rest|..] == rest
      && |s| - |rest| - |out| - 4 * d in {3, 4}
      && CodeAt(s, |s| - |rest| - 3)
    case Eof(out, d) => 0 <= |s| - |out| - 4 * d <= 3
  }

  /** Bytes in front that are written or discarded are accounted for too. */
  lemma AccountedMore(s: seq<byte>, k: nat, pre: seq<byte>, d: nat, r: Scanned)
    requires k <= |s| && k == |pre| + 4 * d && Accounted(s[k..], r)
    ensures Accounted(s, Extend(pre, d, r))
  {
    var t := s[k..];
    if r.Found? {
      assert t[|t| - |r.rest|..] == s[|s| - |r.rest|..];
      assert |pre + r.out| == |pre| + |r.out|;
    }
  }

  lemma {:induction false} ScanConservation(s: seq<byte>)
    ensures Accounted(s, Scan(s))
  {
    if HeldBack(s) || ShortCode(s) || LongCode(s) {
    } else if TripleZero(s) {
      assert Scan(s) == Extend([], 1, Scan(s[4..]));
      hide *;
      ScanConservation(s[4..]);
      AccountedMore(s, 4, [], 1, Scan(s[4..]));
    } else {
      assert s != [] && Scan(s) == Extend([s[0]], 0, Scan(s[1..]));
      hide *;
      ScanConservation(s[1..]);
      AccountedMore(s, 1, [s[0]], 0, Scan(s[1..]));
    }
  }

  // ---------- what the flag means ----------

  /** The length of the run of zeros that `s` ends in. */
  function TrailingZeros(s: seq<byte>): (k: nat)
    ensures k <= |s| && (forall i :: |s| - k <= i < |s| ==> s[i] == 0)
    ensures k < |s| ==> s[|s| - k - 1] != 0
  {
    if s == [] || s[|s| - 1] != 0 then 0 else TrailingZeros(s[..|s| - 1]) + 1
  }

  /** Four zeros begin at `i`. */
  predicate FourZerosAt(s: seq<byte>, i: int) {
    0 <= i && i + 4 <= |s| && s[i] == 0 && s[i + 1] == 0 && s[i + 2] == 0 && s[i + 3] == 0
  }

  lemma {:induction false} FlagWithoutFourZeros(s: seq<byte>)
    requires forall i :: !FourZerosAt(s, i)
    ensures FlagAfter(s) == TrailingZeros(s)
  {
    if s != [] {
      var t := s[..|s| - 1];
      forall i ensures !FourZerosAt(t, i) {
        assert !FourZerosAt(s, i);
      }
      FlagWithoutFourZeros(t);
      assert !FourZerosAt(s, |s| - 4);
    }
  }

  lemma {:induction false} FlagAtMostThree(s: seq<byte>)
    ensures FlagAfter(s) <= 3
  {
    if s != [] {
      FlagAtMostThree(s[..|s| - 1]);
    }
  }

  /** At every point of the input the flag is the length of the run of zeros just read exactly when
      the input holds no four zeros in a row; in particular when every 00 00 00 is followed by 01. */
  lemma FlagIsZeroRunIff(s: seq<byte>)
    ensures (forall k :: 0 <= k <= |s| ==> FlagAfter(s[..k]) == TrailingZeros(s[..k]))
       <==> forall i :: !FourZerosAt(s, i)
  {
    if i :| FourZerosAt(s, i) {
      var t := s[..i + 4];
      FlagAtMostThree(t);
      assert FourZerosAt(t, i);
      assert TrailingZeros(t) >= 4;
    } else {
      forall k | 0 <= k <= |s| ensures FlagAfter(s[..k]) == TrailingZeros(s[..k]) {
        forall i ensures !FourZerosAt(s[..k], i) {
          assert !FourZerosAt(s, i);
        }
        FlagWithoutFourZeros(s[..k]);
      }
    }
  }

  // ---------- the written bytes are always a proper NAL unit ----------

  /** No two zeros inside the unit are followed by 00 or 01, and it does not end in a zero. */
  predicate Clean(u: seq<byte>) {
    && (forall i :: 0 <= i && i + 2 < |u| && u[i] == 0 && u[i + 1] == 0 ==> u[i + 2] > 1)
    && (u != [] ==> u[|u| - 1] != 0)
  }

  /** The number of zeros, at most three, that `s` starts with. */
  function LeadingZeros(s: seq<byte>): (k: nat)
    ensures k <= |s| && s[..k] == Zeros(k)
    ensures k < 3 && k < |s| ==> s[k] != 0
    ensures k <= 3
  {
    if s == [] || s[0] != 0 then 0
    else if |s| == 1 || s[1] != 0 then 1
    else if |s| == 2 || s[2] != 0 then 2
    else 3
  }

  /** Zeros and a byte that ends their run keep a clean rest clean. */
  lemma CleanPrepend(k: nat, b: byte, u: seq<byte>)
    requires k <= 2 && b != 0 && (k == 2 ==> b > 1) && Clean(u)
    ensures Clean(Zeros(k) + [b] + u)
  {
    var w := Zeros(k) + [b] + u;
    forall i | 0 <= i && i + 2 < |w| && w[i] == 0 && w[i + 1] == 0 ensures w[i + 2] > 1 {
      if i > k {
        assert w[i] == u[i - k - 1] && w[i + 1] == u[i - k] && w[i + 2] == u[i - k + 1];
      }
    }
  }

  /** Every suffix of a clean unit is clean. */
  lemma CleanSuffix(u: seq<byte>, k: nat)
    requires Clean(u) && k <= |u|
    ensures Clean(u[k..])
  {
    var v := u[k..];
    forall i | 0 <= i && i + 2 < |v| && v[i] == 0 && v[i + 1] == 0 ensures v[i + 2] > 1 {
      assert v[i] == u[k + i] && v[i + 1] == u[k + i + 1] && v[i + 2] == u[k + i + 2];
    }
  }

  /** On every input, malformed ones included, what is written is clean. */
  lemma {:induction false} ScanClean(s: seq<byte>)
    ensures Clean(Scan(s).out)
  {
    var k := LeadingZeros(s);
    if HeldBack(s) {
    } else {
      var b, rest := s[k], s[k + 1..];
      assert s == Zeros(k) + [b] + rest;
      if b == 1 && k >= 2 {
        ScanCode(k, rest);
      } else if k == 3 {
        ScanDiscard(b, rest);
        ScanClean(rest);
      } else {
        ScanEmit(k, b, rest);
        ScanClean(rest);
        CleanPrepend(k, b, Scan(rest).out);
      }
    }
  }

  // ---------- exactness against the first start code ----------

  predicate CodeAt(s: seq<byte>, i: int) {
    0 <= i && i + 3 <= |s| && s[i] == 0 && s[i + 1] == 0 && s[i + 2] == 1
  }

  predicate TripleZeroAt(s: seq<byte>, i: int) {
    0 <= i && i + 3 <= |s| && s[i] == 0 && s[i + 1] == 0 && s[i + 2] == 0
  }

  /** `p` is where the first 00 00 01 of `s` begins. */
  predicate FirstCode(s: seq<byte>, p: nat) {
    CodeAt(s, p) && forall q :: 0 <= q < p ==> !CodeAt(s, q)
  }

  /** The bytes before the start code at `p`, a zero just before it counting as part of the code. */
  function UnitBefore(s: seq<byte>, p: nat): seq<byte>
    requires p <= |s|
  {
    if p > 0 && s[p - 1] == 0 then s[..p - 1] else s[..p]
  }

  /** The call cuts at the first start code. */
  predicate CutsAt(s: seq<byte>, p: nat)
    requires CodeAt(s, p)
  {
    Scan(s).Found? && Scan(s).out == UnitBefore(s, p) && Scan(s).rest == s[p + 3..]
  }

  /** No 00 00 00 comes before the code at `p`, other than the one that begins a four-byte code. */
  ghost predicate NoStrayZeros(s: seq<byte>, p: nat) { forall i :: 0 <= i && i + 2 <= p ==> !TripleZeroAt(s, i) }

  /** The first code and the stray zeros behind a first byte that is not held back. */
  lemma CodeBehindByte(s: seq<byte>, p: nat)
    requires FirstCode(s, p) && p >= 1 && !TripleZeroAt(s, 0)
    ensures FirstCode(s[1..], p - 1)
    ensures NoStrayZeros(s, p) <==> NoStrayZeros(s[1..], p - 1)
  {
    var t := s[1..];
    forall q: nat ensures CodeAt(t, q) <==> CodeAt(s, q + 1) {}
    forall q: nat ensures TripleZeroAt(t, q) <==> TripleZeroAt(s, q + 1) {}
    if NoStrayZeros(t, p - 1) {
      forall i | 0 <= i && i + 2 <= p ensures !TripleZeroAt(s, i) {
        assert i > 0 ==> !TripleZeroAt(t, i - 1);
      }
    }
  }

  lemma CutBehindByte(s: seq<byte>, p: nat)
    requires CodeAt(s, p) && p >= 1 && CodeAt(s[1..], p - 1) && !(p == 1 && s[0] == 0)
    requires Scan(s) == Extend([s[0]], 0, Scan(s[1..]))
    ensures CutsAt(s, p) <==> CutsAt(s[1..], p - 1)
  {
    var t := s[1..];
    hide Scan, CodeAt;
    assert UnitBefore(s, p) == [s[0]] + UnitBefore(t, p - 1);
    assert t[p - 1 + 3..] == s[p + 3..];
    if CutsAt(s, p) {
      assert Scan(s).out[1..] == Scan(t).out;
      assert UnitBefore(s, p)[1..] == UnitBefore(t, p - 1);
    }
  }

  /** The call cuts at the first start code exactly when no 00 00 00 comes before that code, other
      than the one that begins a four-byte code. */
  lemma {:induction false} SplitterExactness(s: seq<byte>, p: nat)
    requires FirstCode(s, p)
    ensures CutsAt(s, p) <==> NoStrayZeros(s, p)
  {
    if ShortCode(s) {
      assert CodeAt(s, 0);
    } else if LongCode(s) {
      assert CodeAt(s, 1);
    } else if TripleZero(s) {
      assert TripleZeroAt(s, 0) && p >= 2;
      ScanConservation(s);
      ScanConservation(s[4..]);
    } else {
      assert p >= 1 && !TripleZeroAt(s, 0) && !(p == 1 && s[0] == 0);
      assert Scan(s) == Extend([s[0]], 0, Scan(s[1..]));
      hide Scan, CutsAt, NoStrayZeros;
      CodeBehindByte(s, p);
      CutBehindByte(s, p);
      SplitterExactness(s[1..], p - 1);
    }
  }

  /** Without a start code the call runs to the end of the file and returns -1. */
  lemma NoCodeNoUnit(s: seq<byte>)
    requires forall q :: !CodeAt(s, q)
    ensures Scan(s).Eof?
  {
    ScanConservation(s);
  }

  /** A clean unit passes through unchanged, whatever follows it. */
  lemma {:induction false} CleanPassesThrough(u: seq<byte>, t: seq<byte>)
    requires Clean(u)
    ensures Scan(u + t) == Extend(u, 0, Scan(t))
  {
    if u == [] {
      assert u + t == t;
    } else {
      var k := LeadingZeros(u);
      assert k < 3 && k < |u|;
      var w, v := Zeros(k) + [u[k]], u[k + 1..];
      assert u == w + v;
      CleanSuffix(u, k + 1);
      CleanPassesThrough(v, t);
      PlusAssoc(w, v, t);
      ScanEmit(k, u[k], v + t);
      ExtendTwice(w, 0, v, 0, Scan(t));
    }
  }

  /** Section B.1 of ITU-T H.264 lets extra zero bytes stand before a start code. With one extra
      byte before a long code the splitter never sees the code: it drops four zeros and keeps the
      01 as data. */
  lemma ExtraZeroByteMissed(u: seq<byte>, rest: seq<byte>)
    requires Clean(u)
    ensures Scan(u + ([0] + LONG_CODE + rest)) == Extend(u, 1, Extend([1], 0, Scan(rest)))
  {
    var t := [0] + LONG_CODE + rest;
    CleanPassesThrough(u, t);
    assert t == Zeros(3) + [0] + ([1] + rest);
    ScanDiscard(0, [1] + rest);
    assert [1] + rest == Zeros(0) + [1] + rest;
    ScanEmit(0, 1, rest);
    ExtendTwice([], 1, [1], 0, Scan(rest));
    ExtendTwice(u, 0, [1], 1, Scan(rest));
    ExtendTwice(u, 1, [1], 0, Scan(rest));
  }

  // ---------- whole streams ----------

  /** The units of successive calls up to the first -1. */
  function SplitAll(s: seq<byte>): seq<seq<byte>> {
    ScanConservation(s);
    match Scan(s)
    case Found(out, _, rest) => [out] + SplitAll(rest)
    case Eof(_, _) => []
  }

  function StartCode(long: bool): seq<byte> { if long then LONG_CODE else SHORT_CODE }

  /** A byte stream: every unit followed by a start code of its own length. */
  function Encode(units: seq<seq<byte>>, long: seq<bool>): seq<byte>
    requires |units| == |long|
  {
    if units == [] then [] else units[0] + StartCode(long[0]) + Encode(units[1..], long[1..])
  }

  predicate AllClean(units: seq<seq<byte>>) { forall i :: 0 <= i < |units| ==> Clean(units[i]) }

  /** One unit followed by a start code is read back exactly when it is clean. */
  lemma ScanUnit(u: seq<byte>, long: bool, rest: seq<byte>)
    ensures Scan(u + (StartCode(long) + rest)) == Found(u, 0, rest) <==> Clean(u)
  {
    var t := StartCode(long) + rest;
    if Clean(u) {
      CleanPassesThrough(u, t);
      assert t == Zeros(if long then 3 else 2) + [1] + rest;
      ScanCode(if long then 3 else 2, rest);
      assert u + [] == u;
    } else {
      ScanClean(u + t);
    }
  }

  /** A stream of clean units, whatever its mix of start codes and whatever follows it, is split
      into those units. */
  lemma {:induction false} SplitEncode(units: seq<seq<byte>>, long: seq<bool>, tail: seq<byte>)
    requires |units| == |long| && AllClean(units)
    ensures SplitAll(Encode(units, long) + tail) == units + SplitAll(tail)
  {
    if units == [] {
      assert Encode(units, long) + tail == tail;
      assert units + SplitAll(tail) == SplitAll(tail);
    } else {
      var rest := Encode(units[1..], long[1..]) + tail;
      assert Encode(units, long) + tail == units[0] + (StartCode(long[0]) + rest);
      ScanUnit(units[0], long[0], rest);
      SplitEncode(units[1..], long[1..], tail);
      HeadTail(units, SplitAll(tail));
    }
  }

  lemma {:induction false} SplitAllClean(s: seq<byte>)
    ensures AllClean(SplitAll(s))
    decreases |s|
  {
    ScanConservation(s);
    ScanClean(s);
    if Scan(s).Found? {
      SplitAllClean(Scan(s).rest);
    }
  }

  /** Splitting inverts encoding exactly on clean units, when the tail holds no start code. */
  lemma SplitInvertsEncode(units: seq<seq<byte>>, long: seq<bool>, tail: seq<byte>)
    requires |units| == |long|
    requires forall q :: !CodeAt(tail, q)
    ensures SplitAll(Encode(units, long) + tail) == units <==> AllClean(units)
  {
    NoCodeNoUnit(tail);
    if AllClean(units) {
      SplitEncode(units, long, tail);
      assert units + [] == units;
    } else {
      SplitAllClean(Encode(units, long) + tail);
    }
  }
}
