/** Shared vocabulary of the HID host layer: bytes, optional values, the
    status codes of the open/report calls, and the two C library routines
    (memset, memcpy) the framing code uses on its scratch buffers. */
module HidTypes {

  /** An unsigned 8-bit value, the element type of every buffer here. */
  type byte = b: int | 0 <= b < 256

  /** An unsigned 16-bit value: a USB identifier or a UTF-16 code unit. */
  type u16 = u: int | 0 <= u < 0x1_0000

  datatype Option<+T> = None | Some(value: T)

  /** The characters of a NUL-terminated C string, without the NUL: no
      byte of it is zero, so `==` on these is what strcmp's zero result
      says about the strings. */
  type CString = s: seq<byte> | forall k :: 0 <= k < |s| ==> s[k] != 0

  /** The status codes USBOPEN_SUCCESS ... USBOPEN_ERR_NOTFOUND. */
  datatype OpenCode = Success | ErrAccess | ErrIO | ErrNotFound
  {
    /** The integer the C code returns for this status. */
    function Code(): (c: int)
      ensures 0 <= c <= 3
      ensures c == 0 <==> this == Success
    {
      match this
      case Success => 0
      case ErrAccess => 1
      case ErrIO => 2
      case ErrNotFound => 3
    }
  }

  /** `n` zero bytes. */
  function Zeros(n: nat): (z: seq<byte>)
    ensures |z| == n
    ensures forall k :: 0 <= k < n ==> z[k] == 0
  {
    seq(n, _ => 0)
  }

  /** memset(a, 0, a.Length) */
  method Memset(a: array<byte>)
    modifies a
    ensures a[..] == Zeros(a.Length)
  {
    var k := 0;
    while k < a.Length
      invariant 0 <= k <= a.Length
      invariant forall j :: 0 <= j < k ==> a[j] == 0
    {
      a[k] := 0;
      k := k + 1;
    }
  }

  /** memcpy(dst + at, src + from, n): overwrites dst[at .. at+n) with
      src[from .. from+n) and leaves every other byte of dst alone. */
  method Memcpy(dst: array<byte>, at: nat, src: seq<byte>, from: nat, n: nat)
    requires at + n <= dst.Length
    requires from + n <= |src|
    modifies dst
    ensures dst[..] == old(dst[..at]) + src[from..from + n] + old(dst[at + n..])
  {
    var k := 0;
    while k < n
      invariant 0 <= k <= n
      invariant forall j :: 0 <= j < at ==> dst[j] == old(dst[j])
      invariant forall j :: at <= j < at + k ==> dst[j] == src[from + j - at]
      invariant forall j :: at + k <= j < dst.Length ==> dst[j] == old(dst[j])
    {
      dst[at + k] := src[from + k];
      k := k + 1;
    }
    assert dst[..] == old(dst[..at]) + src[from..from + n] + old(dst[at + n..]);
  }
}
