/** The RAM block device: a segmented request becomes one copy per segment into or out of a flat
    store, and refines one flat copy. */
module RamBlock {
  import opened SfsLayout

  const SECTOR_SIZE := 512
  const DEVICE_SECTORS := 1024
  const IO_ERROR := 5

  // ---------- segments as values ----------

  /** The bytes of the whole sectors in `n` bytes. */
  function SectorBytes(n: nat): (r: nat)
    ensures r <= n
  {
    if n < SECTOR_SIZE then 0 else SECTOR_SIZE + SectorBytes(n - SECTOR_SIZE)
  }

  lemma {:induction false} SectorBytesIsQuotient(n: nat)
    ensures SectorBytes(n) == n / SECTOR_SIZE * SECTOR_SIZE
    ensures n % SECTOR_SIZE == 0 <==> SectorBytes(n) == n
  {
    if n >= SECTOR_SIZE {
      SectorBytesIsQuotient(n - SECTOR_SIZE);
    }
  }

  /** The whole sectors of a segment; a rest shorter than a sector is dropped. */
  function Whole(s: seq<Byte>): (r: seq<Byte>)
    ensures |r| == SectorBytes(|s|)
  {
    s[..SectorBytes(|s|)]
  }

  /** The whole sectors of the first `n` segments in a row. */
  function Flat(segs: seq<seq<Byte>>, n: nat): seq<Byte>
    requires n <= |segs|
  {
    if n == 0 then [] else Flat(segs, n - 1) + Whole(segs[n - 1])
  }

  /** The first `n` segments in a row. */
  function Concat(segs: seq<seq<Byte>>, n: nat): seq<Byte>
    requires n <= |segs|
  {
    if n == 0 then [] else Concat(segs, n - 1) + segs[n - 1]
  }

  predicate Aligned(segs: seq<seq<Byte>>, n: nat)
    requires n <= |segs|
  {
    forall k :: 0 <= k < n ==> |segs[k]| % SECTOR_SIZE == 0
  }

  lemma AlignedNext(segs: seq<seq<Byte>>, n: nat)
    requires n < |segs|
    ensures Aligned(segs, n + 1) <==> Aligned(segs, n) && |segs[n]| % SECTOR_SIZE == 0
  {
  }

  lemma {:induction false} FlatIsPrefix(segs: seq<seq<Byte>>, k: nat, n: nat)
    requires k <= n <= |segs|
    ensures Flat(segs, k) <= Flat(segs, n)
  {
    if k < n {
      FlatIsPrefix(segs, k, n - 1);
    }
  }

  lemma {:induction false} AlignedFlat(segs: seq<seq<Byte>>, n: nat)
    requires n <= |segs| && Aligned(segs, n)
    ensures Flat(segs, n) == Concat(segs, n)
  {
    if n > 0 {
      AlignedFlat(segs, n - 1);
      SectorBytesIsQuotient(|segs[n - 1]|);
      assert Whole(segs[n - 1]) == segs[n - 1];
    }
  }

  /** The sector arithmetic of one round of the loop of `rb_transfer`. */
  lemma NextAddress(start: nat, offset: nat, segs: seq<seq<Byte>>, k: nat)
    requires k < |segs| && offset * SECTOR_SIZE == |Flat(segs, k)|
    ensures (start + offset) * SECTOR_SIZE == start * SECTOR_SIZE + |Flat(segs, k)|
    ensures (offset + |segs[k]| / SECTOR_SIZE) * SECTOR_SIZE == |Flat(segs, k + 1)| <= |Flat(segs, |segs|)|
  {
    FlatIsPrefix(segs, k + 1, |segs|);
    SectorBytesIsQuotient(|segs[k]|);
  }

  /** 0 or the error that `rb_transfer` returns. */
  function Status(segs: seq<seq<Byte>>, count: nat): int {
    if Aligned(segs, |segs|) && |Flat(segs, |segs|)| == count * SECTOR_SIZE then 0 else -IO_ERROR
  }

  /** The store after the first `n` segments went to address `at`. */
  function Written(store: seq<Byte>, at: nat, segs: seq<seq<Byte>>, n: nat): seq<Byte>
    requires n <= |segs| && at + |Flat(segs, n)| <= |store|
  {
    Splice(store, at, Flat(segs, n))
  }

  /** Segment `k` of a read from address `at`: its whole sectors are filled from the store, a rest
      is kept. */
  predicate ReadInto(store: seq<Byte>, at: nat, segs: seq<seq<Byte>>, k: nat, s: seq<Byte>)
    requires k < |segs|
  {
    var from, len := at + |Flat(segs, k)|, |Whole(segs[k])|;
    from + len <= |store| && s == Splice(segs[k], 0, store[from..from + len])
  }

  /** The first `n` segments of a read from address `at` went from `segs` to `segs'`; the others
      are as they were. */
  predicate ReadSoFar(store: seq<Byte>, at: nat, segs: seq<seq<Byte>>, segs': seq<seq<Byte>>, n: nat) {
    && |segs'| == |segs| && n <= |segs| && segs'[n..] == segs[n..]
    && forall k {:trigger ReadInto(store, at, segs, k, segs'[k])} :: 0 <= k < n ==>
         ReadInto(store, at, segs, k, segs'[k])
  }

  lemma NotYetRead(store: seq<Byte>, at: nat, segs: seq<seq<Byte>>, segs': seq<seq<Byte>>, n: nat)
    requires ReadSoFar(store, at, segs, segs', n) && n < |segs|
    ensures segs'[n] == segs[n]
  {
    assert segs'[n..][0] == segs[n..][0];
  }

  lemma SegmentRead(store: seq<Byte>, at: nat, segs: seq<seq<Byte>>, k: nat, sector: nat, s: seq<Byte>)
    requires k < |segs| && sector * SECTOR_SIZE == at + |Flat(segs, k)| && at + |Flat(segs, k + 1)| <= |store|
    requires (sector + |segs[k]| / SECTOR_SIZE) * SECTOR_SIZE <= |store|
    requires s == Splice(segs[k], 0, store[sector * SECTOR_SIZE..(sector + |segs[k]| / SECTOR_SIZE) * SECTOR_SIZE])
    ensures ReadInto(store, at, segs, k, s)
  {
    SectorBytesIsQuotient(|segs[k]|);
  }

  lemma ReadNext(store: seq<Byte>, at: nat, segs: seq<seq<Byte>>, segs': seq<seq<Byte>>, n: nat, s: seq<Byte>)
    requires ReadSoFar(store, at, segs, segs', n) && n < |segs| && ReadInto(store, at, segs, n, s)
    ensures ReadSoFar(store, at, segs, segs'[n := s], n + 1)
  {
    var t := segs'[n := s];
    forall k | 0 <= k < n
      ensures ReadInto(store, at, segs, k, t[k])
    {
      assert ReadInto(store, at, segs, k, segs'[k]);
    }
  }

  // ---------- the device ----------

  /** The buffers hold the segments `segs`. */
  ghost predicate Hold(bufs: seq<array<Byte>>, segs: seq<seq<Byte>>)
    reads bufs
  {
    |segs| == |bufs| && forall k :: 0 <= k < |bufs| ==> bufs[k][..] == segs[k]
  }

  class RamDevice {
    const data: array<Byte>

    constructor ()
      ensures fresh(data) && data.Length == DEVICE_SECTORS * SECTOR_SIZE
    {
      data := new Byte[DEVICE_SECTORS * SECTOR_SIZE];
    }

    /** `ramdevice_write`. */
    method DeviceWrite(sector: nat, buffer: array<Byte>, sectors: nat)
      requires sectors * SECTOR_SIZE <= buffer.Length && (sector + sectors) * SECTOR_SIZE <= data.Length
      requires buffer != data
      modifies data
      ensures data[..] == Splice(old(data[..]), sector * SECTOR_SIZE, old(buffer[..])[..sectors * SECTOR_SIZE])
    {
      CopyIn(data, sector * SECTOR_SIZE, buffer[..sectors * SECTOR_SIZE]);
    }

    /** `ramdevice_read`. */
    method DeviceRead(sector: nat, buffer: array<Byte>, sectors: nat)
      requires sectors * SECTOR_SIZE <= buffer.Length && (sector + sectors) * SECTOR_SIZE <= data.Length
      requires buffer != data
      modifies buffer
      ensures buffer[..] == Splice(old(buffer[..]), 0,
                                   old(data[..])[sector * SECTOR_SIZE..(sector + sectors) * SECTOR_SIZE])
      ensures data[..] == old(data[..])
    {
      CopyIn(buffer, 0, data[sector * SECTOR_SIZE..(sector + sectors) * SECTOR_SIZE]);
    }

    /** The buffers of a request: none of them is the store. */
    predicate OutsideStore(bufs: seq<array<Byte>>) {
      forall k :: 0 <= k < |bufs| ==> bufs[k] != data
    }

    /** The buffers of a read request are also different from each other. */
    predicate GoodBuffers(bufs: seq<array<Byte>>) {
      OutsideStore(bufs) && forall j, k :: 0 <= j < k < |bufs| ==> bufs[j] != bufs[k]
    }

    /** One round of the loop of `rb_transfer`, writing. */
    method WriteSegment(sector: nat, buf: array<Byte>, ghost at: nat, ghost segs: seq<seq<Byte>>, ghost k: nat)
      requires k < |segs| && buf != data && buf[..] == segs[k]
      requires sector * SECTOR_SIZE == at + |Flat(segs, k)| && at + |Flat(segs, k + 1)| <= data.Length
      modifies data
      ensures data[..] == Splice(old(data[..]), at + |Flat(segs, k)|, Whole(segs[k]))
    {
      SectorBytesIsQuotient(buf.Length);
      DeviceWrite(sector, buf, buf.Length / SECTOR_SIZE);
    }

    /** One round of the loop of `rb_transfer`, reading: buffer `k` gets the contents `s`. */
    method ReadSegment(sector: nat, bufs: seq<array<Byte>>, k: nat, ghost at: nat, ghost segs: seq<seq<Byte>>,
                       ghost held: seq<seq<Byte>>) returns (ghost s: seq<Byte>)
      requires GoodBuffers(bufs) && Hold(bufs, held) && k < |bufs| == |segs| && held[k] == segs[k]
      requires sector * SECTOR_SIZE == at + |Flat(segs, k)| && at + |Flat(segs, k + 1)| <= data.Length
      modifies bufs[k]
      ensures data[..] == old(data[..])
      ensures ReadInto(data[..], at, segs, k, s) && Hold(bufs, held[k := s])
    {
      ghost var store := data[..];
      SectorBytesIsQuotient(|segs[k]|);
      assert bufs[k][..] == segs[k];
      DeviceRead(sector, bufs[k], bufs[k].Length / SECTOR_SIZE);
      s := bufs[k][..];
      SegmentRead(store, at, segs, k, sector, s);
    }

    /** `rb_transfer` of a write request; `segs` is what the buffers hold. */
    method TransferOut(start: nat, count: nat, bufs: seq<array<Byte>>, ghost segs: seq<seq<Byte>>) returns (ret: int)
      requires OutsideStore(bufs) && Hold(bufs, segs)
      requires start * SECTOR_SIZE + |Flat(segs, |segs|)| <= data.Length
      modifies data
      ensures data[..] == Written(old(data[..]), start * SECTOR_SIZE, segs, |segs|)
      ensures ret == Status(segs, count)
    {
      ret := 0;
      ghost var store, at := data[..], start * SECTOR_SIZE;
      var offset, k := 0, 0;
      while k < |bufs|
        invariant 0 <= k <= |bufs| && Hold(bufs, segs)
        invariant offset * SECTOR_SIZE == |Flat(segs, k)| <= |Flat(segs, |segs|)|
        invariant data[..] == Written(store, at, segs, k)
        invariant ret == if Aligned(segs, k) then 0 else -IO_ERROR
      {
        NextAddress(start, offset, segs, k);
        if bufs[k].Length % SECTOR_SIZE != 0 {
          ret := -IO_ERROR;
        }
        assert bufs[k][..] == segs[k];
        AlignedNext(segs, k);
        var sectors := bufs[k].Length / SECTOR_SIZE;
        WrittenNext(store, at, segs, k);
        WriteSegment(start + offset, bufs[k], at, segs, k);
        offset := offset + sectors;
        k := k + 1;
      }
      if offset != count {
        ret := -IO_ERROR;
      }
    }

    /** `rb_transfer` of a read request; `segs` is what the buffers hold before. */
    method TransferIn(start: nat, count: nat, bufs: seq<array<Byte>>, ghost segs: seq<seq<Byte>>)
      returns (ret: int, ghost segs': seq<seq<Byte>>)
      requires GoodBuffers(bufs) && Hold(bufs, segs)
      requires start * SECTOR_SIZE + |Flat(segs, |segs|)| <= data.Length
      modifies bufs
      ensures data[..] == old(data[..])
      ensures ret == Status(segs, count)
      ensures Hold(bufs, segs')
      ensures ReadSoFar(data[..], start * SECTOR_SIZE, segs, segs', |segs|)
    {
      ret := 0;
      segs' := segs;
      ghost var store, at := data[..], start * SECTOR_SIZE;
      var offset, k := 0, 0;
      while k < |bufs|
        invariant 0 <= k <= |bufs| && data[..] == store && Hold(bufs, segs')
        invariant offset * SECTOR_SIZE == |Flat(segs, k)| <= |Flat(segs, |segs|)|
        invariant ReadSoFar(store, at, segs, segs', k)
        invariant ret == if Aligned(segs, k) then 0 else -IO_ERROR
      {
        NextAddress(start, offset, segs, k);
        if bufs[k].Length % SECTOR_SIZE != 0 {
          ret := -IO_ERROR;
        }
        NotYetRead(store, at, segs, segs', k);
        assert bufs[k][..] == segs'[k];
        AlignedNext(segs, k);
        var sectors := bufs[k].Length / SECTOR_SIZE;
        ghost var s := ReadSegment(start + offset, bufs, k, at, segs, segs');
        ReadNext(store, at, segs, segs', k, s);
        segs' := segs'[k := s];
        offset := offset + sectors;
        k := k + 1;
      }
      if offset != count {
        ret := -IO_ERROR;
      }
    }
  }

  lemma WrittenNext(store: seq<Byte>, at: nat, segs: seq<seq<Byte>>, k: nat)
    requires k < |segs| && at + |Flat(segs, k + 1)| <= |store|
    ensures |Flat(segs, k + 1)| == |Flat(segs, k)| + |Whole(segs[k])|
    ensures Written(store, at, segs, k + 1)
            == Splice(Written(store, at, segs, k), at + |Flat(segs, k)|, Whole(segs[k]))
  {
    SpliceTwice(store, at, Flat(segs, k), Whole(segs[k]));
  }

  lemma SpliceTwice(d: seq<Byte>, at: nat, a: seq<Byte>, b: seq<Byte>)
    requires at + |a| + |b| <= |d|
    ensures Splice(d, at, a + b) == Splice(Splice(d, at, a), at + |a|, b)
  {
  }

  // ---------- properties ----------

  /** The result is 0 exactly when every segment is a whole number of sectors and the lengths add
      up to the sectors of the request. */
  lemma SuccessExactly(segs: seq<seq<Byte>>, count: nat)
    ensures Status(segs, count) == 0 <==>
              (forall k :: 0 <= k < |segs| ==> |segs[k]| % SECTOR_SIZE == 0)
              && |Concat(segs, |segs|)| == count * SECTOR_SIZE
  {
    if Aligned(segs, |segs|) {
      AlignedFlat(segs, |segs|);
    }
  }

  /** A successful write is one flat copy of the segments: the request's sectors hold exactly
      the bytes given, and no other sector changes. */
  lemma WriteIsFlatCopy(store: seq<Byte>, start: nat, count: nat, segs: seq<seq<Byte>>)
    requires Status(segs, count) == 0 && start * SECTOR_SIZE + count * SECTOR_SIZE <= |store|
    ensures var at, end := start * SECTOR_SIZE, start * SECTOR_SIZE + count * SECTOR_SIZE;
            var store' := Written(store, at, segs, |segs|);
            && store'[at..end] == Concat(segs, |segs|)
            && store'[..at] == store[..at]
            && store'[end..] == store[end..]
  {
    AlignedFlat(segs, |segs|);
  }

  /** The segments a read fills, put together, are the flat bytes of the store. */
  lemma {:induction false} ReadIsFlatCopy(store: seq<Byte>, at: nat, segs: seq<seq<Byte>>, segs': seq<seq<Byte>>,
                                          n: nat)
    requires ReadSoFar(store, at, segs, segs', |segs|) && n <= |segs| && at <= |store|
    ensures |Flat(segs', n)| == |Flat(segs, n)|
    ensures at + |Flat(segs, n)| <= |store| && Flat(segs', n) == store[at..at + |Flat(segs, n)|]
  {
    if n > 0 {
      ReadIsFlatCopy(store, at, segs, segs', n - 1);
      assert ReadInto(store, at, segs, n - 1, segs'[n - 1]);
      JoinPiece(store, at, Flat(segs', n - 1), |Flat(segs, n - 1)|, segs[n - 1], segs'[n - 1],
                |Whole(segs[n - 1])|);
    }
  }

  lemma SliceJoin(s: seq<Byte>, a: nat, b: nat, c: nat)
    requires a <= b <= c <= |s|
    ensures s[a..b] + s[b..c] == s[a..c]
  {
  }

  lemma JoinPiece(store: seq<Byte>, at: nat, flat: seq<Byte>, len: nat, s: seq<Byte>, s': seq<Byte>, n: nat)
    requires n == |Whole(s)| && at + len + n <= |store| && flat == store[at..at + len]
    requires s' == Splice(s, 0, store[at + len..at + len + n])
    ensures flat + Whole(s') == store[at..at + len + n]
  {
    ReadPiece(s, store[at + len..at + len + n], s');
    SliceJoin(store, at, at + len, at + len + n);
  }

  lemma ReadPiece(s: seq<Byte>, bytes: seq<Byte>, s': seq<Byte>)
    requires |bytes| == |Whole(s)| && s' == Splice(s, 0, bytes)
    ensures Whole(s') == bytes
  {
  }

  /** Writing with one segmentation and reading with any other gives the same bytes back. */
  lemma SegmentationDoesNotMatter(store: seq<Byte>, start: nat, count: nat, out: seq<seq<Byte>>,
                                  segs: seq<seq<Byte>>, segs': seq<seq<Byte>>)
    requires Status(out, count) == 0 && Status(segs, count) == 0
    requires start * SECTOR_SIZE + count * SECTOR_SIZE <= |store|
    requires ReadSoFar(Written(store, start * SECTOR_SIZE, out, |out|), start * SECTOR_SIZE, segs, segs', |segs|)
    ensures Concat(segs', |segs'|) == Concat(out, |out|)
  {
    WriteIsFlatCopy(store, start, count, out);
    ReadsConcat(Written(store, start * SECTOR_SIZE, out, |out|), start * SECTOR_SIZE, count * SECTOR_SIZE, segs, segs');
  }

  lemma ReadsConcat(store: seq<Byte>, at: nat, len: nat, segs: seq<seq<Byte>>, segs': seq<seq<Byte>>)
    requires ReadSoFar(store, at, segs, segs', |segs|) && Aligned(segs, |segs|)
    requires |Flat(segs, |segs|)| == len && at + len <= |store|
    ensures Concat(segs', |segs'|) == store[at..at + len]
  {
    ReadIsFlatCopy(store, at, segs, segs', |segs|);
    AlignedAfterRead(store, at, segs, segs');
    AlignedFlat(segs', |segs'|);
  }

  lemma AlignedAfterRead(store: seq<Byte>, at: nat, segs: seq<seq<Byte>>, segs': seq<seq<Byte>>)
    requires ReadSoFar(store, at, segs, segs', |segs|) && Aligned(segs, |segs|)
    ensures Aligned(segs', |segs'|)
  {
    forall k | 0 <= k < |segs|
      ensures |segs'[k]| % SECTOR_SIZE == 0
    {
      assert ReadInto(store, at, segs, k, segs'[k]);
    }
  }
}
