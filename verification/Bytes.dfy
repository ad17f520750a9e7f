/** Fixed-width integers, byte strings and the error values shared by every
    component.  Byte strings are sequences; a Go slice that is only read, or that
    is freshly made and returned, is such a sequence. */
module Bytes {

  type uint8 = x: int | 0 <= x < 0x100
  type uint16 = x: int | 0 <= x < 0x1_0000
  type uint32 = x: int | 0 <= x < 0x1_0000_0000

  type bytes = seq<uint8>

  const TWO16 := 0x1_0000
  const TWO32 := 0x1_0000_0000
  const TWO63 := 0x8000_0000_0000_0000
  const TWO64 := 0x1_0000_0000_0000_0000

  /** The sentinel errors of common/types.go and the few messages built in place. */
  datatype Error =
    | InvalidMessageLength
    | InvalidMBZ
    | InvalidIPVN
    | InvalidNumSlots
    | InvalidNumPackets
    | InvalidPaddingLength
    | InvalidTypePDescriptor
    | InvalidKeyLength
    | InvalidBlockSize
    | InvalidModeCombo
    | NoCompatibleMode
    | UnsupportedMode
    | Rfc5618Violation
    | HMACVerificationFailed
    | UnknownCommand
    | UnknownSequenceNumber
    | InvalidPortRange
    | EndOfStream
    | ClientTerminatedConnection
    | ServerNoModes
    | SharedSecretRequired
    | UnknownKeyID
    | DecryptFailed
    | SessionCountMismatch
    | ServerRejected
    | SessionConflict
    | NoSessionsToStart
    | BufferOverrun        // slicing a pooled buffer beyond its capacity panics

  datatype Option<+T> = None | Some(value: T)

  /** A value or the error a Go function returns instead of it. */
  datatype Result<+T> = Ok(value: T) | Err(error: Error) {
    predicate IsFailure() {
      Err?
    }

    function PropagateFailure<U>(): Result<U>
      requires Err?
    {
      Err(error)
    }

    function Extract(): T
      requires Ok?
    {
      value
    }
  }

  /** A check that either passes or returns an error. */
  datatype Check = Pass | Fail(error: Error) {
    predicate IsFailure() {
      Fail?
    }

    function PropagateFailure<U>(): Result<U>
      requires Fail?
    {
      Err(error)
    }
  }

  function Need(condition: bool, error: Error): Check {
    if condition then Pass else Fail(error)
  }

  function Zeros(n: nat): (z: bytes)
    ensures |z| == n
  {
    seq(n, _ => 0)
  }

  predicate AllZero(s: bytes) {
    forall i :: 0 <= i < |s| ==> s[i] == 0
  }

  lemma AllZeroIsZeros(s: bytes)
    ensures AllZero(s) <==> s == Zeros(|s|)
  {
    if AllZero(s) {
      assert s == Zeros(|s|);
    }
  }

  /** Big-endian encodings (encoding/binary). */
  function PutUint16(x: uint16): (b: bytes)
    ensures |b| == 2
  {
    [x / 0x100, x % 0x100]
  }

  function Uint16(b: bytes): uint16
    requires |b| == 2
  {
    b[0] as int * 0x100 + b[1] as int
  }

  function PutUint32(x: uint32): (b: bytes)
    ensures |b| == 4
  {
    [x / 0x100_0000, x / 0x1_0000 % 0x100, x / 0x100 % 0x100, x % 0x100]
  }

  function Uint32(b: bytes): uint32
    requires |b| == 4
  {
    b[0] as int * 0x100_0000 + b[1] as int * 0x1_0000 + b[2] as int * 0x100 + b[3] as int
  }

  lemma Uint16Inverse(x: uint16, b: bytes)
    requires |b| == 2
    ensures Uint16(PutUint16(x)) == x
    ensures PutUint16(Uint16(b)) == b
  {
  }

  lemma Uint32Inverse(x: uint32, b: bytes)
    requires |b| == 4
    ensures Uint32(PutUint32(x)) == x
    ensures PutUint32(Uint32(b)) == b
  {
    Uint32Digits(x);
    Uint32Unique(Uint32(b), b[0], b[1], b[2], b[3]);
  }

  lemma Uint32Digits(x: uint32)
    ensures x == x / 0x100_0000 * 0x100_0000 + x / 0x1_0000 % 0x100 * 0x1_0000 + x / 0x100 % 0x100 * 0x100 + x % 0x100
  {
    var q, r: int := x / 0x100, x / 0x1_0000;
    assert x == q * 0x100 + x % 0x100;
    assert q / 0x100 == r && q == r * 0x100 + q % 0x100;
    assert r / 0x100 == x / 0x100_0000 && r == r / 0x100 * 0x100 + r % 0x100;
  }

  lemma Uint32Unique(y: uint32, b0: int, b1: int, b2: int, b3: int)
    requires 0 <= b0 < 0x100 && 0 <= b1 < 0x100 && 0 <= b2 < 0x100 && 0 <= b3 < 0x100
    requires y == b0 * 0x100_0000 + b1 * 0x1_0000 + b2 * 0x100 + b3
    ensures b0 == y / 0x100_0000 && b1 == y / 0x1_0000 % 0x100 && b2 == y / 0x100 % 0x100 && b3 == y % 0x100
  {
    assert y / 0x100 == b0 * 0x1_0000 + b1 * 0x100 + b2;
    assert y / 0x1_0000 == b0 * 0x100 + b1;
    assert y / 0x100_0000 == b0;
  }

  /** Network order: the first byte is the most significant one. */
  lemma NetworkOrder(b: bytes)
    ensures |b| == 2 ==> Uint16(b) / 0x100 == b[0] && Uint16(b) % 0x100 == b[1]
    ensures |b| == 4 ==> Uint32(b) / 0x1_0000 == Uint16(b[..2]) && Uint32(b) % 0x1_0000 == Uint16(b[2..])
  {
    if |b| == 4 {
      assert Uint32(b) == Uint16(b[..2]) * 0x1_0000 + Uint16(b[2..]);
    }
  }

  /** Adjacent slices join up. */
  lemma JoinSlices(s: bytes, i: nat, j: nat, k: nat)
    requires i <= j <= k <= |s|
    ensures s[i..j] + s[j..k] == s[i..k]
  {
  }

  lemma SubSlice(b: bytes, lo: nat, hi: nat, i: nat, j: nat)
    requires lo <= hi <= |b| && i <= j <= hi - lo
    ensures b[lo..hi][i..j] == b[lo + i..lo + j]
  {
    var x, y := b[lo..hi][i..j], b[lo + i..lo + j];
    assert |x| == |y|;
    assert forall k :: 0 <= k < |x| ==> x[k] == b[lo..hi][i + k] == b[lo + i + k] == y[k];
    assert x == y;
  }

  /** Reading one field off the front of what is left, and putting it back. */
  lemma Peel(b: bytes, i: nat, field: bytes, rest: bytes)
    requires i <= |b| && b[i..] == field + rest
    ensures i + |field| <= |b| && b[i..i + |field|] == field && b[i + |field|..] == rest
  {
    assert b[i..i + |field|] == b[i..][..|field|] && b[i + |field|..] == b[i..][|field|..];
  }

  lemma Rejoin(b: bytes, i: nat, j: nat)
    requires i <= j <= |b|
    ensures b[i..] == b[i..j] + b[j..]
  {
  }

  /** The loop that checks the must-be-zero bytes of a message. */
  method ValidateMBZ(data: bytes, start: nat, end: nat) returns (ok: bool)
    requires start <= end <= |data|
    ensures ok <==> AllZero(data[start..end])
  {
    var i := start;
    while i < end
      invariant start <= i <= end
      invariant forall j :: start <= j < i ==> data[j] == 0
    {
      if data[i] != 0 {
        assert data[start..end][i - start] != 0;
        return false;
      }
      i := i + 1;
    }
    return true;
  }
}
