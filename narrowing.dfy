/** convertUniToAscii (Windows path): the lossy narrowing of a NUL-terminated
    UTF-16 string to ISO Latin-1, done in place in the byte buffer that
    HidD_GetManufacturerString / HidD_GetProductString filled. `wchar_t` is
    taken as a little-endian 16-bit unit. */
module Narrowing {
  import opened HidTypes

  /** The character '?', which replaces units outside ISO Latin-1. */
  const QUESTION_MARK: byte := 0x3F

  /** One UTF-16 unit as a Latin-1 char: itself when it fits a byte. */
  function NarrowUnit(u: u16): byte
  {
    if u > 0xff then QUESTION_MARK else u
  }

  /** Narrows every unit of a wide string. */
  function Narrow(units: seq<u16>): (s: seq<byte>)
    ensures |s| == |units|
    ensures forall k :: 0 <= k < |units| ==> s[k] == NarrowUnit(units[k])
  {
    seq(|units|, k requires 0 <= k < |units| => NarrowUnit(units[k]))
  }

  /** The units of a wide C string: everything before the first zero unit. */
  function WideCString(units: seq<u16>): (w: seq<u16>)
    ensures w <= units
    ensures forall k :: 0 <= k < |w| ==> w[k] != 0
    ensures |w| < |units| ==> units[|w|] == 0
  {
    if units == [] || units[0] == 0 then []
    else [units[0]] + WideCString(units[1..])
  }

  /** The narrow name convertUniToAscii leaves for a wide string. */
  function WideName(units: seq<u16>): seq<byte>
  {
    Narrow(WideCString(units))
  }

  /** The k-th `wchar_t` of a byte buffer, low byte first. */
  function UnitAt(bytes: seq<byte>, k: nat): u16
    requires 2 * k + 1 < |bytes|
  {
    bytes[2 * k] as int + 256 * bytes[2 * k + 1] as int
  }

  /** A byte buffer read as an array of `wchar_t`. */
  function Units(bytes: seq<byte>): (us: seq<u16>)
    ensures |us| == |bytes| / 2
  {
    seq(|bytes| / 2, k requires 0 <= k < |bytes| / 2 => UnitAt(bytes, k))
  }

  /** The buffer holds a zero unit, so the narrowing loop stops inside it. */
  predicate Terminated(bytes: seq<byte>)
  {
    0 in Units(bytes)
  }

  lemma TerminatorInside(bytes: seq<byte>)
    requires Terminated(bytes)
    ensures |WideCString(Units(bytes))| < |Units(bytes)|
  {
  }

  /** The buffer after convertUniToAscii: the narrowed name, one NUL, and
      whatever the rewrite did not reach. */
  function Converted(bytes: seq<byte>): (r: seq<byte>)
    requires Terminated(bytes)
    ensures |r| == |bytes|
  {
    TerminatorInside(bytes);
    var name := WideName(Units(bytes));
    name + [0] + bytes[|name| + 1..]
  }

  /** The C string left at the start of the converted buffer is exactly the
      narrowed name: the name holds no NUL and is followed by one. This is
      what the caller's strcmp compares. */
  lemma ConvertedHoldsName(bytes: seq<byte>)
    requires Terminated(bytes)
    ensures var name := WideName(Units(bytes));
      && |name| < |bytes|
      && Converted(bytes)[..|name|] == name
      && Converted(bytes)[|name|] == 0
      && forall k :: 0 <= k < |name| ==> name[k] != 0
  {
    TerminatorInside(bytes);
  }

  /** The buffer after `a` rounds of the narrowing loop: byte k holds the
      k-th unit narrowed, for each k < a; the rest is as before. */
  ghost function Rewritten(bytes: seq<byte>, a: nat): (r: seq<byte>)
    requires 2 * a <= |bytes|
    ensures |r| == |bytes|
  {
    if a == 0 then bytes
    else Rewritten(bytes, a - 1)[a - 1 := NarrowUnit(UnitAt(bytes, a - 1))]
  }

  /** The loop reads only bytes it has not yet overwritten. */
  lemma {:induction false} RewrittenRead(bytes: seq<byte>, a: nat, i: nat)
    requires 2 * a <= |bytes| && a <= i < |bytes|
    ensures Rewritten(bytes, a)[i] == bytes[i]
  {
    if a > 0 {
      RewrittenRead(bytes, a - 1, i);
    }
  }

  /** What the first `a` rounds leave before offset `a`. */
  lemma {:induction false} RewrittenHead(bytes: seq<byte>, a: nat, k: nat)
    requires 2 * a <= |bytes| && k < a
    ensures Rewritten(bytes, a)[k] == NarrowUnit(UnitAt(bytes, k))
  {
    if k < a - 1 {
      RewrittenHead(bytes, a - 1, k);
    }
  }

  /** The position of the terminating unit, as the loop sees it. */
  lemma NameLength(bytes: seq<byte>) returns (n: nat)
    requires Terminated(bytes)
    ensures n == |WideCString(Units(bytes))|
    ensures 2 * n + 1 < |bytes| && UnitAt(bytes, n) == 0
    ensures forall k :: 0 <= k < n ==> UnitAt(bytes, k) != 0
  {
    TerminatorInside(bytes);
    n := |WideCString(Units(bytes))|;
    forall k | 0 <= k < n
      ensures UnitAt(bytes, k) != 0
    {
      assert WideCString(Units(bytes))[k] == Units(bytes)[k];
    }
  }

  /** The final NUL after `n` rounds completes the conversion. */
  lemma RewrittenConverted(bytes: seq<byte>, n: nat)
    requires Terminated(bytes) && n == |WideCString(Units(bytes))| && 2 * n + 1 < |bytes|
    ensures Rewritten(bytes, n)[n := 0] == Converted(bytes)
  {
    var name := WideCString(Units(bytes));
    var after := Rewritten(bytes, n)[n := 0];
    forall k | 0 <= k < |bytes|
      ensures after[k] == Converted(bytes)[k]
    {
      if k < n {
        RewrittenHead(bytes, n, k);
        assert name[k] == Units(bytes)[k];
      } else if k > n {
        RewrittenRead(bytes, n, k);
      }
    }
  }

  /** A Latin-1 string widened to UTF-16. */
  function Widen(s: seq<byte>): (us: seq<u16>)
    ensures |us| == |s|
  {
    seq(|s|, k requires 0 <= k < |s| => s[k] as u16)
  }

  /** Narrowing undoes widening: a NUL-free Latin-1 string stored as a wide
      C string comes back unchanged. */
  lemma {:induction false} NarrowWidenRoundTrip(s: seq<byte>)
    requires forall k :: 0 <= k < |s| ==> s[k] != 0
    ensures WideName(Widen(s) + [0]) == s
  {
    if s != [] {
      var w := Widen(s) + [0];
      assert w[0] == s[0] && w[1..] == Widen(s[1..]) + [0];
      NarrowWidenRoundTrip(s[1..]);
      assert WideCString(w) == [s[0] as u16] + WideCString(w[1..]);
      assert s == [s[0]] + s[1..];
    }
  }

  /** convertUniToAscii: reads the buffer as `wchar_t` units up to the
      first zero unit and writes each, narrowed, as one char from the start
      of the same buffer, then a NUL. The write offset never passes the read
      offset, so no unit is overwritten before it is read. */
  method ConvertUniToAscii(buffer: array<byte>)
    requires Terminated(buffer[..])
    modifies buffer
    ensures buffer[..] == Converted(old(buffer[..]))
  {
    ghost var before := buffer[..];
    ghost var n := NameLength(before);

    var uni := 0;    // byte offset of the next unit to read
    var ascii := 0;  // byte offset of the next char to write
    while buffer[uni] as int + 256 * buffer[uni + 1] as int != 0
      invariant uni == 2 * ascii && ascii <= n
      invariant buffer[..] == Rewritten(before, ascii)
      decreases n - ascii
    {
      RewrittenRead(before, ascii, uni);
      RewrittenRead(before, ascii, uni + 1);
      var u := buffer[uni] as int + 256 * buffer[uni + 1] as int;
      assert u == UnitAt(before, ascii);
      buffer[ascii] := if u > 0xff then QUESTION_MARK else u;
      ascii := ascii + 1;
      uni := uni + 2;
    }
    RewrittenRead(before, ascii, uni);
    RewrittenRead(before, ascii, uni + 1);
    assert UnitAt(before, ascii) == 0;
    buffer[ascii] := 0;
    RewrittenConverted(before, n);
  }
}
