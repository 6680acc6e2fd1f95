/** The Annex B byte-stream splitter of sample/send_h264file_rtp.c (copy_nal_from_file). */
module AnnexB {
  import opened Bytes
  import opened CLibrary

  const LONG_CODE: seq<byte> := [0, 0, 0, 1]
  const SHORT_CODE: seq<byte> := [0, 0, 1]

  // ---------- what one call of the splitter reads and writes ----------

  /** Outcome of one call: `out` is what was written to the caller's buffer and `discards` counts
      the four-byte groups 00 00 00 xx (xx other than 01) that were dropped. */
  datatype Scanned =
    | Found(out: seq<byte>, discards: nat, rest: seq<byte>)
    | Eof(out: seq<byte>, discards: nat)

  /** `r` preceded by the bytes `pre` and by `d` discards. */
  function Extend(pre: seq<byte>, d: nat, r: Scanned): Scanned {
    match r
    case Found(out, discards, rest) => Found(pre + out, d + discards, rest)
    case Eof(out, discards) => Eof(pre + out, d + discards)
  }

  predicate TripleZero(s: seq<byte>) { |s| >= 3 && s[0] == 0 && s[1] == 0 && s[2] == 0 }

  predicate ShortCode(s: seq<byte>) { |s| >= 3 && s[0] == 0 && s[1] == 0 && s[2] == 1 }

  predicate LongCode(s: seq<byte>) { TripleZero(s) && |s| >= 4 && s[3] == 1 }

  /** At end of file up to three zeros may still be held back; they are never written. */
  predicate HeldBack(s: seq<byte>) {
    |s| <= 3 && (|s| > 0 ==> s[0] == 0) && (|s| > 1 ==> s[1] == 0) && (|s| > 2 ==> s[2] == 0)
  }

  /** Window form of the splitter: it looks at up to four bytes ahead instead of keeping a state. */
  function Scan(s: seq<byte>): Scanned {
    if HeldBack(s) then Eof([], 0)
    else if ShortCode(s) then Found([], 0, s[3..])
    else if LongCode(s) then Found([], 0, s[4..])
    else if TripleZero(s) then Extend([], 1, Scan(s[4..]))
    else Extend([s[0]], 0, Scan(s[1..]))
  }

  lemma ExtendTwice(a: seq<byte>, d: nat, b: seq<byte>, e: nat, r: Scanned)
    ensures Extend(a, d, Extend(b, e, r)) == Extend(a + b, d + e, r)
  {
    PlusAssoc(a, b, r.out);
  }

  /** Held-back zeros and the byte that ends their run are written. */
  lemma {:induction false} ScanEmit(flag: nat, b: byte, rest: seq<byte>)
    requires flag <= 2 && b != 0 && (flag == 2 ==> b != 1)
    ensures Scan(Zeros(flag) + [b] + rest) == Extend(Zeros(flag) + [b], 0, Scan(rest))
  {
    var s := Zeros(flag) + [b] + rest;
    if flag == 0 {
      assert s[1..] == rest && Zeros(0) + [b] == [s[0]];
    } else {
      assert s[1..] == Zeros(flag - 1) + [b] + rest;
      ScanEmit(flag - 1, b, rest);
      ExtendTwice([0], 0, Zeros(flag - 1) + [b], 0, Scan(rest));
      assert [0] + (Zeros(flag - 1) + [b]) == Zeros(flag) + [b];
    }
  }

  /** Two or three held-back zeros and 01 end the unit. */
  lemma ScanCode(flag: nat, rest: seq<byte>)
    requires flag in {2, 3}
    ensures Scan(Zeros(flag) + [1] + rest) == Found([], 0, rest)
  {
    var s := Zeros(flag) + [1] + rest;
    assert s[flag] == 1 && s[flag + 1..] == rest;
  }

  /** Three held-back zeros and a byte other than 01 are dropped. */
  lemma ScanDiscard(b: byte, rest: seq<byte>)
    requires b != 1
    ensures Scan(Zeros(3) + [b] + rest) == Extend([], 1, Scan(rest))
  {
    var s := Zeros(3) + [b] + rest;
    assert s[3] == b && s[4..] == rest;
  }

  /** The flag after one more byte, and after all bytes of `s`. */
  function NextFlag(flag: nat, b: byte): nat { if flag < 3 && b == 0 then flag + 1 else 0 }

  function FlagAfter(s: seq<byte>): nat {
    if s == [] then 0 else NextFlag(FlagAfter(s[..|s| - 1]), s[|s| - 1])
  }

  lemma FlagSnoc(s: seq<byte>, b: byte)
    ensures FlagAfter(s + [b]) == NextFlag(FlagAfter(s), b)
  {
    assert (s + [b])[..|s|] == s;
  }

  /** Does the byte `b` after `flag` zeros go to the buffer, behind those zeros? */
  predicate Written(flag: nat, b: byte) { flag < 3 && b != 0 && !(flag == 2 && b == 1) }

  /** One byte of the machine: `before` is in the buffer, `flag` zeros are held back, `b` is read. */
  lemma {:induction false} MachineStep(total: Scanned, before: seq<byte>, d: nat, flag: nat, b: byte, rest: seq<byte>)
    requires flag <= 3
    requires total == Extend(before, d, Scan(Zeros(flag) + ([b] + rest)))
    ensures flag < 3 && b == 0 ==> total == Extend(before, d, Scan(Zeros(flag + 1) + rest))
    ensures flag >= 2 && b == 1 ==> total == Found(before, d, rest)
    ensures flag == 3 && b != 1 ==> total == Extend(before, d + 1, Scan(Zeros(0) + rest))
    ensures Written(flag, b) ==>
              && |before| + flag + 1 <= |total.out|
              && total == Extend(before + (Zeros(flag) + [b]), d, Scan(Zeros(0) + rest))
  {
    var held := Zeros(flag) + [b];
    PlusAssoc(Zeros(flag), [b], rest);
    assert Zeros(0) + rest == rest;
    if flag >= 2 && b == 1 {
      ScanCode(flag, rest);
      assert before + [] == before;
    } else if flag == 3 {
      ScanDiscard(b, rest);
      ExtendTwice(before, d, [], 1, Scan(rest));
      assert before + [] == before;
    } else if b == 0 {
      assert held == Zeros(flag + 1);
    } else {
      ScanEmit(flag, b, rest);
      ExtendTwice(before, d, held, 0, Scan(rest));
    }
  }

  /** The loop invariant of the machine, when `read` has been read of `start` and `rest` is left:
      `before` is in the buffer, `d` groups were discarded and `flag` zeros are held back. */
  ghost predicate Midway(start: seq<byte>, read: seq<byte>, rest: seq<byte>, before: seq<byte>, d: nat, flag: nat) {
    && flag <= 3
    && start == read + rest
    && Scan(start) == Extend(before, d, Scan(Zeros(flag) + rest))
    && |read| == |before| + flag + 4 * d
    && flag == FlagAfter(read)
  }

  lemma MidwayStart(start: seq<byte>)
    ensures Midway(start, [], start, [], 0, 0)
  {
    assert Zeros(0) + start == start && [] + start == start;
    assert [] + Scan(start).out == Scan(start).out;
    hide Scan;
  }

  lemma MidwayStep(start: seq<byte>, read: seq<byte>, rest: seq<byte>, before: seq<byte>, d: nat, flag: nat, b: byte)
    requires Midway(start, read, [b] + rest, before, d, flag)
    ensures Written(flag, b) ==> |before| + flag + 1 <= |Scan(start).out|
    ensures if flag >= 2 && b == 1 then Scan(start) == Found(before, d, rest)
            else Midway(start, read + [b], rest, before + if Written(flag, b) then Zeros(flag) + [b] else [],
                        if flag == 3 then d + 1 else d, NextFlag(flag, b))
  {
    MachineStep(Scan(start), before, d, flag, b, rest);
    FlagSnoc(read, b);
    PlusAssoc(read, [b], rest);
    assert before + [] == before;
    hide Scan, FlagAfter;
  }

  /** At end of file the zeros held back are dropped. */
  lemma MidwayEnd(start: seq<byte>, read: seq<byte>, before: seq<byte>, d: nat, flag: nat)
    requires Midway(start, read, [], before, d, flag)
    ensures Scan(start) == Eof(before, d)
  {
    assert HeldBack(Zeros(flag) + []);
    assert before + [] == before;
  }

  /** The statement pair buf[*len] = b; (*len)++. */
  method Put(buf: array<byte>, len: nat, b: byte) returns (next: nat)
    requires len < buf.Length
    modifies buf
    ensures next == len + 1 && buf[..next] == old(buf[..len]) + [b]
  {
    buf[len] := b;
    next := len + 1;
  }

  /** The loop body of copy_nal_from_file after a successful fread; `done` is the return inside it. */
  method OneByte(flag: nat, tmpbuf: seq<byte>, b: byte, buf: array<byte>, len: nat)
    returns (flag': nat, tmpbuf': seq<byte>, len': nat, done: bool)
    requires flag <= 3 && |tmpbuf| == 4 && tmpbuf[..flag] == Zeros(flag) && len <= buf.Length
    requires Written(flag, b) ==> len + flag + 1 <= buf.Length
    modifies buf
    ensures |tmpbuf'| == 4 && flag' <= 3 && tmpbuf'[..flag'] == Zeros(flag')
    ensures done <==> flag >= 2 && b == 1
    ensures flag' == NextFlag(flag, b)
    ensures len' == if Written(flag, b) then len + flag + 1 else len
    ensures buf[..len'] == old(buf[..len]) + if Written(flag, b) then Zeros(flag) + [b] else []
  {
    flag', tmpbuf', len', done := flag, tmpbuf, len, false;
    if flag == 0 && b != 0 {
      len' := Put(buf, len', b);
    } else if flag == 0 {
      flag' := 1;
      tmpbuf' := tmpbuf'[0 := b];
    } else {
      match flag
      case 1 =>
        if b == 0 {
          flag' := flag' + 1;
          tmpbuf' := tmpbuf'[1 := b];
        } else {
          flag' := 0;
          len' := Put(buf, len', tmpbuf[0]);
          len' := Put(buf, len', b);
        }
      case 2 =>
        if b == 0 {
          flag' := flag' + 1;
          tmpbuf' := tmpbuf'[2 := b];
        } else if b == 1 {
          flag', done := 0, true;
        } else {
          flag' := 0;
          len' := Put(buf, len', tmpbuf[0]);
          len' := Put(buf, len', tmpbuf[1]);
          len' := Put(buf, len', b);
        }
      case _ =>
        flag', done := 0, b == 1;
    }
  }

  /** copy_nal_from_file: the byte-at-a-time machine; `flag` counts the zeros held back. */
  method CopyNalFromFile(fp: InFile, buf: array<byte>) returns (ret: int, len: nat)
    requires fp.Valid()
    requires |Scan(fp.Rest()).out| <= buf.Length  // the C buffer has no bounds check
    modifies fp, buf
    ensures fp.Valid() && len <= buf.Length
    ensures buf[..len] == Scan(old(fp.Rest())).out
    ensures match Scan(old(fp.Rest()))
            case Found(_, _, rest) => ret == len && fp.Rest() == rest
            case Eof(_, _) => ret == -1 && fp.Rest() == []
  {
    var tmpbuf: seq<byte> := Zeros(4);
    var flag, done := 0, false;
    len := 0;
    ghost var start, read, discards := fp.Rest(), [], 0;
    MidwayStart(start);
    hide Midway, Scan;
    while true
      invariant fp.Valid() && 0 <= flag <= 3 && len <= buf.Length
      invariant |tmpbuf| == 4 && tmpbuf[..flag] == Zeros(flag)
      invariant Midway(start, read, fp.Rest(), buf[..len], discards, flag)
      decreases |fp.data| - fp.pos
    {
      ghost var before := buf[..len];
      var ok, b := fp.ReadByte();
      if !ok {
        MidwayEnd(start, read, before, discards, flag);
        return -1, len;
      }
      MidwayStep(start, read, fp.Rest(), before, discards, flag, b);
      read := read + [b];
      discards := if flag == 3 then discards + 1 else discards;
      flag, tmpbuf, len, done := OneByte(flag, tmpbuf, b, buf, len);
      assert before + [] == before;
      if done {
        return len, len;
      }
    }
  }
}
