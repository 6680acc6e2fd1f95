/** Machine integers and the memory and file primitives that the modelled C code calls. */
module Bytes {
  type byte = x: int | 0 <= x < 0x100
  type bit = x: int | 0 <= x < 2
  type uint16 = x: int | 0 <= x < 0x1_0000
  type uint32 = x: int | 0 <= x < 0x1_0000_0000

  const TWO_16: nat := 0x1_0000
  const TWO_32: nat := 0x1_0000_0000
  const UINT16_MAX: nat := 0xFFFF

  /** `n` zero bytes. */
  function Zeros(n: nat): (s: seq<byte>)
    ensures |s| == n
  {
    seq(n, _ => 0)
  }

  lemma HeadTail<T>(a: seq<T>, b: seq<T>)
    requires a != []
    ensures a + b == [a[0]] + (a[1..] + b)
  {
  }

  lemma PlusAssoc<T>(a: seq<T>, b: seq<T>, c: seq<T>)
    ensures a + b + c == a + (b + c)
  {
  }

  /** Concatenation of a sequence of sequences. */
  function Flatten<T>(ss: seq<seq<T>>): seq<T> {
    if ss == [] then [] else ss[0] + Flatten(ss[1..])
  }

  lemma {:induction false} FlattenAppend<T>(a: seq<seq<T>>, b: seq<seq<T>>)
    ensures Flatten(a + b) == Flatten(a) + Flatten(b)
  {
    if a == [] {
      assert a + b == b;
    } else {
      assert (a + b)[1..] == a[1..] + b;
      FlattenAppend(a[1..], b);
    }
  }
}

/** The parts of <string.h> and <stdio.h> that the modelled code calls. */
module CLibrary {
  import opened Bytes

  method Memset(a: array<byte>, offset: nat, value: byte, n: nat)
    requires offset + n <= a.Length
    modifies a
    ensures forall i :: offset <= i < offset + n ==> a[i] == value
    ensures forall i :: 0 <= i < a.Length && !(offset <= i < offset + n) ==> a[i] == old(a[i])
  {
    forall i | offset <= i < offset + n {
      a[i] := value;
    }
  }

  method Memcpy(dst: array<byte>, dstOffset: nat, src: array<byte>, srcOffset: nat, n: nat)
    requires dst != src
    requires dstOffset + n <= dst.Length && srcOffset + n <= src.Length
    modifies dst
    ensures dst[dstOffset..dstOffset + n] == src[srcOffset..srcOffset + n]
    ensures forall i :: 0 <= i < dst.Length && !(dstOffset <= i < dstOffset + n) ==> dst[i] == old(dst[i])
  {
    forall i | 0 <= i < n {
      dst[dstOffset + i] := src[srcOffset + i];
    }
  }

  /** A file opened for reading: fixed contents and a cursor. */
  class InFile {
    const data: seq<byte>
    var pos: nat

    constructor (contents: seq<byte>)
      ensures Valid() && data == contents && pos == 0
    {
      data, pos := contents, 0;
    }

    ghost predicate Valid() reads this { pos <= |data| }

    /** The bytes not read yet. */
    ghost function Rest(): seq<byte>
      requires Valid()
      reads this
    {
      data[pos..]
    }

    /** fread of one byte; `ok` is false exactly at end of file. */
    method ReadByte() returns (ok: bool, b: byte)
      requires Valid()
      modifies this
      ensures Valid() && ok == (old(Rest()) != [])
      ensures ok ==> old(Rest()) == [b] + Rest() && pos == old(pos) + 1 && b == data[old(pos)]
      ensures !ok ==> pos == old(pos)
    {
      ok, b := pos < |data|, 0;
      if ok {
        b, pos := data[pos], pos + 1;
      }
    }
  }

  /** A file opened for writing: everything written so far. */
  class OutFile {
    var written: seq<byte>

    constructor ()
      ensures written == []
    {
      written := [];
    }

    method Fputc(b: byte)
      modifies this
      ensures written == old(written) + [b]
    {
      written := written + [b];
    }

    method Fwrite(a: array<byte>, offset: nat, n: nat)
      requires offset + n <= a.Length
      modifies this
      ensures written == old(written) + a[offset..offset + n]
    {
      written := written + a[offset..offset + n];
    }
  }
}
