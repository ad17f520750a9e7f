/** Writing messages front to back into byte arrays: freshly made ones, and slices of
    the pooled packet buffers, which still hold an earlier packet until cleared. */
module Buffers {
  import opened Bytes

  const POOL_SIZE := 2048

  /** The first `size` bytes are what has been written, and zero from there on. */
  ghost predicate Holds(buf: array<uint8>, size: nat, written: bytes)
    reads buf
  {
    |written| <= size <= buf.Length && buf[..size] == written + Zeros(size - |written|)
  }

  /** What a copy right after the written bytes leaves. */
  lemma Spliced(before: bytes, after: bytes, written: bytes, part: bytes)
    requires |before| == |after| && |written| + |part| <= |before|
    requires before == written + Zeros(|before| - |written|)
    requires forall i :: 0 <= i < |written| ==> after[i] == before[i]
    requires forall i :: 0 <= i < |part| ==> after[|written| + i] == part[i]
    requires forall i :: |written| + |part| <= i < |after| ==> after[i] == before[i]
    ensures after == written + part + Zeros(|after| - |written + part|)
  {
    assert after[..|written|] == written && after[|written|..|written| + |part|] == part;
    assert after[|written| + |part|..] == Zeros(|after| - |written| - |part|);
    assert after == after[..|written|] + after[|written|..|written| + |part|] + after[|written| + |part|..];
  }

  /** copy(buf[offset:], part), right after what has been written. */
  method CopyInto(buf: array<uint8>, size: nat, offset: nat, part: bytes, ghost written: bytes)
    requires Holds(buf, size, written) && |written| == offset && offset + |part| <= size
    modifies buf
    ensures Holds(buf, size, written + part) && buf[size..] == old(buf[size..])
  {
    ghost var before := buf[..size];
    forall i | 0 <= i < |part| {
      buf[offset + i] := part[i];
    }
    Spliced(before, buf[..size], written, part);
  }

  /** Zero bytes that are already there need not be written. */
  lemma Skip(buf: array<uint8>, size: nat, written: bytes, n: nat)
    requires Holds(buf, size, written) && |written| + n <= size
    ensures Holds(buf, size, written + Zeros(n))
  {
    assert Zeros(size - |written|) == Zeros(n) + Zeros(size - |written| - n);
  }

  /** clear(buf[:size]). */
  method Clear(buf: array<uint8>, size: nat)
    requires size <= buf.Length
    modifies buf
    ensures Holds(buf, size, []) && buf[size..] == old(buf[size..])
  {
    forall i | 0 <= i < size {
      buf[i] := 0;
    }
    assert buf[..size] == Zeros(size) == [] + Zeros(size);
  }

  /** make([]byte, size). */
  method Make(size: nat) returns (buf: array<uint8>)
    ensures fresh(buf) && buf.Length == size && Holds(buf, size, [])
  {
    buf := new uint8[size](_ => 0);
    assert buf[..size] == [] + Zeros(size);
  }
}
