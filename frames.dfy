/** The two-report framing of the programmer protocol: how HIDBurner lays a
    payload out over the "first" and "second" Feature reports, what a read
    keeps of an answered report, and what a write leaves on the device. */
module Frames {
  import opened HidTypes
  import opened Transport

  /** Size of the scratch buffer `sendbuff` in HIDBurner::WriteBytes. */
  const SEND_BUFFER_SIZE: nat := 128

  /** The report configuration HIDREP_FIRST_ID / HIDREP_FIRST_BYTES and
      HIDREP_SECOND_ID / HIDREP_SECOND_BYTES. */
  datatype Layout = Layout(firstId: byte, firstBytes: nat, secondId: byte, secondBytes: nat)
  {
    /** Both reports, id byte included, fit the write scratch buffer. */
    predicate Valid()
    {
      firstBytes + 1 <= SEND_BUFFER_SIZE && secondBytes + 1 <= SEND_BUFFER_SIZE
    }

    /** The largest payload one WriteBytes call can carry. */
    function Capacity(): nat
    {
      firstBytes + secondBytes
    }
  }

  function Min(a: int, b: int): int
  {
    if a < b then a else b
  }

  /** The first report of a write: the first id, then up to firstBytes
      payload bytes, zero-padded. */
  function FirstReport(L: Layout, p: seq<byte>): (r: seq<byte>)
    ensures |r| == L.firstBytes + 1
    ensures r[0] == L.firstId
    ensures forall k :: 1 <= k <= L.firstBytes ==> r[k] == if k <= |p| then p[k - 1] else 0
  {
    var n := Min(|p|, L.firstBytes);
    [L.firstId] + p[..n] + Zeros(L.firstBytes - n)
  }

  /** The second report of a write: the second id, then the payload from
      offset firstBytes on, zero-padded to secondBytes. */
  function SecondReport(L: Layout, p: seq<byte>): (r: seq<byte>)
    requires L.firstBytes < |p| <= L.Capacity()
    ensures |r| == L.secondBytes + 1
    ensures r[0] == L.secondId
    ensures forall k :: 1 <= k <= L.secondBytes ==>
      r[k] == if L.firstBytes + k <= |p| then p[L.firstBytes + k - 1] else 0
  {
    [L.secondId] + p[L.firstBytes..] + Zeros(L.Capacity() - |p|)
  }

  /** The reports a successful write of `p` delivers, in order. */
  function Frames(L: Layout, p: seq<byte>): (fs: seq<seq<byte>>)
    requires |p| <= L.Capacity()
    ensures |fs| == (if |p| <= L.firstBytes then 1 else 2)
  {
    if |p| <= L.firstBytes then [FirstReport(L, p)]
    else [FirstReport(L, p), SecondReport(L, p)]
  }

  /** A report without its leading id byte. */
  function Body(report: seq<byte>): seq<byte>
  {
    if report == [] then [] else report[1..]
  }

  /** The payload regions of a run of reports, concatenated. */
  function Bodies(reports: seq<seq<byte>>): seq<byte>
  {
    if reports == [] then [] else Bodies(reports[..|reports| - 1]) + Body(reports[|reports| - 1])
  }

  lemma BodiesOfPair(a: seq<byte>, b: seq<byte>)
    ensures Bodies([a]) == Body(a)
    ensures Bodies([a, b]) == Body(a) + Body(b)
  {
    var none: seq<seq<byte>> := [];
    assert [a][..0] == none;
    assert [a, b][..1] == [a];
  }

  /** How many zero bytes follow a payload of `n` bytes in its frames. */
  function Padding(L: Layout, n: nat): nat
    requires n <= L.Capacity()
  {
    if n <= L.firstBytes then L.firstBytes - n else L.Capacity() - n
  }

  lemma BodiesOfOneFrame(L: Layout, p: seq<byte>)
    requires |p| <= L.firstBytes
    ensures Bodies([FirstReport(L, p)]) == p + Zeros(L.firstBytes - |p|)
  {
    var f1 := FirstReport(L, p);
    BodiesOfPair(f1, f1);
    var lhs := Body(f1);
    var rhs := p + Zeros(L.firstBytes - |p|);
    forall i | 0 <= i < |rhs|
      ensures lhs[i] == rhs[i]
    {
      assert lhs[i] == f1[i + 1];
    }
    assert lhs == rhs;
  }

  lemma BodiesOfTwoFrames(L: Layout, p: seq<byte>)
    requires L.firstBytes < |p| <= L.Capacity()
    ensures Bodies([FirstReport(L, p), SecondReport(L, p)]) == p + Zeros(L.Capacity() - |p|)
  {
    var f1 := FirstReport(L, p);
    var f2 := SecondReport(L, p);
    BodiesOfPair(f1, f2);
    var lhs := Body(f1) + Body(f2);
    var rhs := p + Zeros(L.Capacity() - |p|);
    forall i | 0 <= i < |rhs|
      ensures lhs[i] == rhs[i]
    {
      if i < L.firstBytes {
        assert lhs[i] == f1[i + 1];
      } else {
        assert lhs[i] == f2[i - L.firstBytes + 1];
      }
    }
    assert lhs == rhs;
  }

  /** The frames of `p` carry `p` followed by zero padding. */
  lemma BodiesOfFrames(L: Layout, p: seq<byte>)
    requires |p| <= L.Capacity()
    ensures Bodies(Frames(L, p)) == p + Zeros(Padding(L, |p|))
  {
    if |p| <= L.firstBytes {
      BodiesOfOneFrame(L, p);
    } else {
      BodiesOfTwoFrames(L, p);
    }
  }

  /** Splitting a payload into frames and joining their payload regions
      gives the payload back, followed only by padding. */
  lemma FramesRoundTrip(L: Layout, p: seq<byte>)
    requires |p| <= L.Capacity()
    ensures |p| <= |Bodies(Frames(L, p))|
    ensures Bodies(Frames(L, p))[..|p|] == p
    ensures forall k :: |p| <= k < |Bodies(Frames(L, p))| ==> Bodies(Frames(L, p))[k] == 0
  {
    BodiesOfFrames(L, p);
    var b := Bodies(Frames(L, p));
    assert b[..|p|] == p;
  }

  /** Whether WriteBytes reports success, given the byte counts the bus
      reports for its first (c0) and second (c1) Set_Report. */
  predicate WriteOk(L: Layout, n: nat, c0: int, c1: int)
  {
    c0 == L.firstBytes + 1 && (n <= L.firstBytes || c1 == L.secondBytes + 1)
  }

  /** The control transfers WriteBytes issues for payload `p` when the bus
      reports the counts c0 and c1: the second report is tried only when
      the payload needs it and the first succeeded. */
  function WriteTransfers(L: Layout, p: seq<byte>, c0: int, c1: int): seq<Transfer>
    requires |p| <= L.Capacity()
  {
    var first := SetFeature(SetReportWValue(L.firstId), FirstReport(L, p), c0);
    if c0 == L.firstBytes + 1 && |p| > L.firstBytes then
      [first, SetFeature(SetReportWValue(L.secondId), SecondReport(L, p), c1)]
    else
      [first]
  }

  /** A write succeeds exactly when the device has accepted every frame of
      the payload, in order. */
  lemma WriteDeliversFrames(L: Layout, p: seq<byte>, c0: int, c1: int)
    requires |p| <= L.Capacity()
    ensures WriteOk(L, |p|, c0, c1) <==> Delivered(WriteTransfers(L, p, c0, c1)) == Frames(L, p)
  {
    var ts := WriteTransfers(L, p, c0, c1);
    assert Delivered(ts[..1]) == Delivered([]) + Delivered([ts[0]]) by {
      DeliveredAppend([], [ts[0]]);
      assert [] + [ts[0]] == ts[..1];
    }
    if |ts| == 2 {
      assert ts[..1] + [ts[1]] == ts;
      DeliveredAppend(ts[..1], [ts[1]]);
    }
  }

  /** A failed first Set_Report ends the write: nothing reaches the device
      and the second report is never tried. */
  lemma WriteShortCircuits(L: Layout, p: seq<byte>, c0: int, c1: int)
    requires |p| <= L.Capacity()
    requires c0 != L.firstBytes + 1
    ensures |WriteTransfers(L, p, c0, c1)| == 1
    ensures Delivered(WriteTransfers(L, p, c0, c1)) == []
    ensures !WriteOk(L, |p|, c0, c1)
  {
    var ts := WriteTransfers(L, p, c0, c1);
    assert ts[..0] == [];
  }

  /** A failed second Set_Report fails the write but leaves the first
      report delivered: there is no rollback. */
  lemma WriteKeepsFirstOnSecondFailure(L: Layout, p: seq<byte>, c0: int, c1: int)
    requires |p| <= L.Capacity()
    requires c0 == L.firstBytes + 1 && |p| > L.firstBytes && c1 != L.secondBytes + 1
    ensures |WriteTransfers(L, p, c0, c1)| == 2
    ensures Delivered(WriteTransfers(L, p, c0, c1)) == [FirstReport(L, p)]
    ensures !WriteOk(L, |p|, c0, c1)
  {
    var ts := WriteTransfers(L, p, c0, c1);
    assert ts[..1] == [ts[0]];
    assert [ts[0]][..0] == [];
  }

  /** What ReadFirst / ReadSecond copy out for a report of `capacity`
      payload bytes: bytes [1, 1 + capacity) of the scratch buffer after the
      Get_Report, whose untouched bytes are zero in this model. */
  function ReadOutput(r: Reply, capacity: nat): (out: seq<byte>)
    ensures |out| == capacity
    ensures forall k :: 0 <= k < capacity ==>
      out[k] == if k + 1 < r.count && k + 1 < |r.data| then r.data[k + 1] else 0
  {
    var landed := Landed(r, capacity + 1);
    (landed + Zeros(capacity + 1 - |landed|))[1..]
  }

  /** Reading a report that the device echoes in full yields exactly its
      payload region: the id byte is dropped and nothing else. */
  lemma ReadStripsId(r: Reply, capacity: nat)
    requires r.count == |r.data| == capacity + 1
    ensures ReadOutput(r, capacity) == Body(r.data)
  {
  }

  /** If the device answers the two reads in full with the two frames a
      write of `p` sent, the payload regions read back start with `p`. */
  lemma ReadBackWrittenFrames(L: Layout, p: seq<byte>)
    requires L.firstBytes < |p| <= L.Capacity()
    ensures var fs := Frames(L, p);
      (ReadOutput(Reply(|fs[0]|, fs[0]), L.firstBytes) + ReadOutput(Reply(|fs[1]|, fs[1]), L.secondBytes))[..|p|] == p
  {
    var fs := Frames(L, p);
    ReadStripsId(Reply(|fs[0]|, fs[0]), L.firstBytes);
    ReadStripsId(Reply(|fs[1]|, fs[1]), L.secondBytes);
    FramesRoundTrip(L, p);
    BodiesOfPair(fs[0], fs[1]);
  }
}
