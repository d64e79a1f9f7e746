/** Scatter/gather lists: cutting a DMA buffer into physical segments, encoding
    them as ADMA descriptors, and what a chip walking the descriptors touches. */
module ScatterGather {
  import opened Prelude
  import opened Words
  import opened Bitfield
  import opened RtsxChip

  const MAXPHYS: nat := 0x2_0000
  const PAGE_SIZE: nat := 0x1000
  const MAXNSEGS: nat := 33  // MAXPHYS / PAGE_SIZE + 1

  datatype Segment = Segment(addr: nat, len: nat)

  /** The addresses of a run of bytes, and of a list of segments, in order. */
  function Range(addr: nat, len: nat): (r: seq<nat>)
    ensures |r| == len
  {
    seq(len, i => addr + i)
  }

  function Addresses(segs: seq<Segment>): seq<nat>
  {
    if |segs| == 0 then [] else Range(segs[0].addr, segs[0].len) + Addresses(segs[1..])
  }

  lemma {:induction false} AddressesAppend(a: seq<Segment>, b: seq<Segment>)
    ensures Addresses(a + b) == Addresses(a) + Addresses(b)
  {
    if |a| == 0 {
      assert a + b == b;
    } else {
      assert (a + b)[1..] == a[1..] + b;
      AddressesAppend(a[1..], b);
    }
  }

  // ------------------------------------------------------------------------
  // bus_dmamap_load

  /** One answer of genIOVMSegments: a segment and the offset after it. */
  datatype GenResult = GenError(code: int) | Gen(seg: Segment, next: nat)

  /** What IOKit promises: the segment lies inside the descriptor, has a 32-bit
      address and maps the bytes from the offset on to their physical addresses. */
  ghost predicate Maps(gen: nat -> GenResult, phys: nat -> nat, mdLength: nat)
  {
    forall off :: 0 <= off < mdLength ==> MapsAt(gen(off), phys, mdLength, off)
  }

  ghost predicate MapsAt(g: GenResult, phys: nat -> nat, mdLength: nat, off: nat)
  {
    match g
    case GenError(code) => code != 0
    case Gen(seg, next) =>
      && next == off + seg.len <= mdLength && seg.addr < WORD
      && Range(seg.addr, seg.len) == MapRange(phys, off, seg.len)
  }

  function MapRange(phys: nat -> nat, off: nat, len: nat): (r: seq<nat>)
    ensures |r| == len
  {
    seq(len, i requires 0 <= i => phys(off + i))
  }

  /** The loop of bus_dmamap_load fills dm_segs, trims the last segment to the
      requested length and gives up when the map has no slot left.  On success
      the segments are, address by address, the first buflen bytes. */
  method DmamapLoad(dmSegs: array<Segment>, gen: nat -> GenResult, ghost phys: nat -> nat,
                    mdLength: nat, buflen: nat) returns (err: int, nsegs: nat)
    requires Maps(gen, phys, mdLength)
    modifies dmSegs
    ensures err == 0 ==>
      && nsegs <= dmSegs.Length
      && buflen <= mdLength
      && Addresses(dmSegs[..nsegs]) == MapRange(phys, 0, buflen)
      && (forall i :: 0 <= i < nsegs ==> dmSegs[i].len <= buflen && dmSegs[i].addr < WORD)
      && (buflen > 0 ==> nsegs > 0)
    ensures err == 0 <==> buflen <= mdLength && Reaches(gen, 0, buflen, dmSegs.Length)
  {
    nsegs := 0;
    if mdLength < buflen {
      return ENOTSUP, 0;
    }
    var offset := 0;
    while offset < buflen && nsegs < dmSegs.Length
      invariant nsegs <= dmSegs.Length && offset <= buflen
      invariant Addresses(dmSegs[..nsegs]) == MapRange(phys, 0, offset)
      invariant forall i :: 0 <= i < nsegs ==> dmSegs[i].len <= buflen && dmSegs[i].addr < WORD
      invariant offset > 0 ==> nsegs > 0
      invariant Reaches(gen, 0, buflen, dmSegs.Length) <==> Reaches(gen, offset, buflen, dmSegs.Length - nsegs)
      decreases dmSegs.Length - nsegs
    {
      match gen(offset) {
        case GenError(code) =>
          return code, nsegs;
        case Gen(seg, next) =>
          var len, end := seg.len, next;
          if end > buflen {
            len := len - (end - buflen);
            end := buflen;
          }
          ghost var before := dmSegs[..nsegs];
          dmSegs[nsegs] := Segment(seg.addr, len);
          assert dmSegs[..nsegs + 1] == before + [Segment(seg.addr, len)];
          ExtendMapped(before, phys, offset, seg, len);
          nsegs := nsegs + 1;
          offset := end;
      }
    }
    err := if offset != buflen then ENOTSUP else 0;
  }

  /** Appending (the first len bytes of) the next segment extends the mapping. */
  lemma ExtendMapped(before: seq<Segment>, phys: nat -> nat, off: nat, seg: Segment, len: nat)
    requires Addresses(before) == MapRange(phys, 0, off)
    requires Range(seg.addr, seg.len) == MapRange(phys, off, seg.len) && len <= seg.len
    ensures Addresses(before + [Segment(seg.addr, len)]) == MapRange(phys, 0, off + len)
  {
    AddressesAppend(before, [Segment(seg.addr, len)]);
    assert [Segment(seg.addr, len)][1..] == [];
    assert Range(seg.addr, len) == Range(seg.addr, seg.len)[..len];
    assert MapRange(phys, off, len) == MapRange(phys, off, seg.len)[..len];
    assert MapRange(phys, 0, off + len) == MapRange(phys, 0, off) + MapRange(phys, off, len);
  }

  /** `room` segments get from off to buflen. */
  predicate Reaches(gen: nat -> GenResult, off: nat, buflen: nat, room: nat)
    decreases room
  {
    off >= buflen || (room > 0 && gen(off).Gen? && Reaches(gen, gen(off).next, buflen, room - 1))
  }

  lemma {:induction false} PagesReach(gen: nat -> GenResult, off: nat, buflen: nat, room: nat)
    requires forall o :: 0 < o < buflen ==>
               gen(o).Gen? && (gen(o).next >= buflen || gen(o).next >= o + PAGE_SIZE)
    requires 0 < off && buflen <= off + room * PAGE_SIZE
    ensures Reaches(gen, off, buflen, room)
    decreases room
  {
    if off < buflen {
      var next := gen(off).next;
      if next < buflen {
        PagesReach(gen, next, buflen, room - 1);
      }
    }
  }

  /** When every segment but the first and the last is at least a page, each
      transfer up to MAXPHYS fits a map of SDMMC_MAXNSEGS segments. */
  lemma MaxPhysFits(gen: nat -> GenResult, buflen: nat)
    requires buflen <= MAXPHYS
    requires gen(0).Gen? && gen(0).next > 0
    requires forall o :: 0 < o < buflen ==>
               gen(o).Gen? && (gen(o).next >= buflen || gen(o).next >= o + PAGE_SIZE)
    ensures Reaches(gen, 0, buflen, MAXNSEGS)
  {
    PagesReach(gen, gen(0).next, buflen, MAXNSEGS - 1);
  }

  // ------------------------------------------------------------------------
  // bus_dmamem_alloc

  /** How an allocation ends.  Overrun is a store behind the caller's array:
      the loop checks the index only after it has stored. */
  datatype AllocResult = AllocOk | AllocError(code: int) | Overrun

  /** A piece the loop accepts at offset off. */
  predicate GoodPiece(piece: nat -> Segment, off: nat, size: nat)
  {
    off < size && piece(off).addr != 0 && 0 < piece(off).len <= size - off
  }

  /** The next k pieces from off are all good. */
  predicate GoodPieces(piece: nat -> Segment, off: nat, size: nat, k: nat)
    decreases k
  {
    k == 0 || (GoodPiece(piece, off, size) && GoodPieces(piece, off + piece(off).len, size, k - 1))
  }

  /** Good pieces lead from off to the end, with at most `room` of them. */
  predicate Fills(piece: nat -> Segment, off: nat, size: nat, room: nat)
    decreases room
  {
    off >= size
    || (room > 0 && GoodPiece(piece, off, size) && Fills(piece, off + piece(off).len, size, room - 1))
  }

  /** bus_dmamem_alloc after the memory has been prepared; `piece` answers
      getPhysicalSegment.  The first piece is taken without the checks that
      the others get, even if it is longer than the buffer. */
  method DmamemAlloc(segs: array<Segment>, piece: nat -> Segment, ghost phys: nat -> nat, size: nat)
    returns (r: AllocResult, rsegs: nat)
    requires segs.Length >= 1
    requires forall o :: 0 <= o < size ==> Range(piece(o).addr, piece(o).len) == MapRange(phys, o, piece(o).len)
    modifies segs
    ensures r.AllocOk? && piece(0).len <= size ==>
      && 1 <= rsegs <= segs.Length
      && Addresses(segs[..rsegs]) == MapRange(phys, 0, size)
    ensures r.AllocOk? <==>
      && piece(0).addr != 0 && (segs.Length > 1 || piece(0).len == size)
      && Fills(piece, piece(0).len, size, segs.Length - 1)
    ensures r.AllocOk? && piece(0).len > size ==> rsegs == 1 && segs[0] == piece(0)
    ensures r.Overrun? <==>
      && segs.Length > 1 && piece(0).addr != 0
      && GoodPieces(piece, piece(0).len, size, segs.Length)
  {
    var physAddr, len := piece(0).addr, piece(0).len;
    if (segs.Length == 1 && len != size) || physAddr == 0 {
      return AllocError(ENOTSUP), 0;
    }
    segs[0] := Segment(physAddr, len);
    rsegs := 1;
    var total := len;
    if len <= size {
      assert size == 0 ==> Range(physAddr, len) == MapRange(phys, 0, len);
      ExtendMapped([], phys, 0, piece(0), len);
    }
    assert segs[..1] == [] + [piece(0)];
    while total < size
      invariant 1 <= rsegs <= segs.Length
      invariant len <= size ==> total <= size && Addresses(segs[..rsegs]) == MapRange(phys, 0, total)
      invariant len > size ==> total == len && rsegs == 1 && segs[0] == piece(0)
      invariant GoodPieces(piece, len, size, segs.Length)
           <==> GoodPieces(piece, total, size, segs.Length + 1 - rsegs)
      invariant Fills(piece, len, size, segs.Length - 1) <==> Fills(piece, total, size, segs.Length - rsegs)
      decreases size - total
    {
      var p := piece(total);
      if p.addr == 0 || p.len == 0 {
        return AllocError(ENOMEM), rsegs;
      }
      if total + p.len > size {
        return AllocError(ENOMEM), rsegs;
      }
      if rsegs == segs.Length {
        return Overrun, rsegs;
      }
      ghost var before := segs[..rsegs];
      segs[rsegs] := p;
      assert segs[..rsegs + 1] == before + [p];
      ExtendMapped(before, phys, total, p, p.len);
      rsegs := rsegs + 1;
      total := total + p.len;
      // The source's own bound check stands here, after the store; it cannot
      // fire before the index has left the array.
      assert !(rsegs > segs.Length);
    }
    r := AllocOk;
  }

  /** The page-count argument: when every piece but the last is at least a page,
      k further pieces need k - 1 further pages. */
  lemma PagesBoundPieces(piece: nat -> Segment, off: nat, size: nat, k: nat)
    requires forall o :: 0 <= o < size ==> o + piece(o).len == size || piece(o).len >= PAGE_SIZE
    requires k > 0 && GoodPieces(piece, off, size, k)
    ensures (k - 1) * PAGE_SIZE < size - off
    decreases k
  {
    if k > 1 {
      PagesBoundPieces(piece, off + piece(off).len, size, k - 1);
    }
  }

  /** So with SDMMC_MAXNSEGS slots no transfer up to MAXPHYS leaves the array. */
  lemma MaxPhysNeverOverruns(piece: nat -> Segment, size: nat)
    requires 0 < size <= MAXPHYS
    requires forall o :: 0 <= o < size ==> o + piece(o).len == size || piece(o).len >= PAGE_SIZE
    ensures !GoodPieces(piece, piece(0).len, size, MAXNSEGS)
  {
    if GoodPieces(piece, piece(0).len, size, MAXNSEGS) {
      PagesBoundPieces(piece, piece(0).len, size, MAXNSEGS);
    }
  }

  /** Without it the array can be left: 128 KiB in 512-byte pieces. */
  lemma SmallPiecesOverrun(piece: nat -> Segment)
    requires forall o: nat :: piece(o) == Segment(0x1000 + o, 512)
    ensures GoodPieces(piece, piece(0).len, MAXPHYS, MAXNSEGS)
  {
    SmallPieces(piece, 512, MAXNSEGS);
  }

  lemma {:induction false} SmallPieces(piece: nat -> Segment, off: nat, k: nat)
    requires forall o: nat :: piece(o) == Segment(0x1000 + o, 512)
    requires off + 512 * k <= MAXPHYS
    ensures GoodPieces(piece, off, MAXPHYS, k)
    decreases k
  {
    if k > 0 { SmallPieces(piece, off + 512, k - 1); }
  }

  // ------------------------------------------------------------------------
  // ADMA descriptors

  const SG_VALID: nat := 0x01
  const SG_END: nat := 0x02
  const SG_TRANS_DATA: nat := 0x20

  datatype Descriptor = Descriptor(addr: nat, len: nat, flags: nat)

  function SgFlags(last: bool): nat
  {
    if last then Or(Or(SG_VALID, SG_TRANS_DATA), SG_END) else Or(SG_VALID, SG_TRANS_DATA)
  }

  lemma SgFlagValues()
    ensures SgFlags(false) == 0x21 && SgFlags(true) == 0x23
  {
  }

  /** The 64-bit descriptor of one segment. */
  function EncodeDesc(seg: Segment, flags: nat): nat
  {
    Or(Or(Low(Shl(seg.addr, 32), 64), Shl(And(seg.len, 0x00ff_ffff), 12)), flags)
  }

  /** How the chip reads it: address above bit 32, twenty length bits, flags. */
  function DecodeDesc(d: nat): Descriptor
  {
    Descriptor(Bits(d, 32, 32), Bits(d, 12, 20), Bits(d, 0, 12))
  }

  /** The address and the length survive exactly when they fit their fields:
      the driver's 24-bit length mask is wider than the field. */
  lemma DescriptorRoundTrip(seg: Segment, flags: nat)
    requires flags < 0x1000
    ensures DecodeDesc(EncodeDesc(seg, flags)) == Descriptor(seg.addr, seg.len, flags)
       <==> seg.addr < 0x1_0000_0000 && seg.len < 0x10_0000
  {
    hide Or, And, Low, Shl, Shr;
    var d := EncodeDesc(seg, flags);
    LowBound(Shr(d, 32), 32);
    LowBound(Shr(d, 12), 20);
    Pow2At32();
    Pow2At20();
    if seg.addr < 0x1_0000_0000 && seg.len < 0x10_0000 {
      FittingDescriptor(seg, flags);
    }
  }

  lemma Pow2At20()
    ensures Pow2(12) == 0x1000 && Pow2(20) == 0x10_0000 && Pow2(24) == 0x100_0000
  {
    Pow2Times256(4);
    Pow2Times256(12);
    Pow2At32();
  }

  lemma FittingDescriptor(seg: Segment, flags: nat)
    requires flags < 0x1000 && seg.addr < 0x1_0000_0000 && seg.len < 0x10_0000
    ensures DecodeDesc(EncodeDesc(seg, flags)) == Descriptor(seg.addr, seg.len, flags)
  {
    hide Or, And, Low, Shl, Shr;
    Pow2At32();
    Pow2At20();
    LowShl(seg.addr, 32, 32);
    LowOfSmall(seg.addr, 32);
    AndMask(seg.len, 24);
    Pow2Mono(20, 24);
    LowOfSmall(seg.len, 24);
    var upper := seg.addr * 0x10_0000 + seg.len;
    OrFields(seg.addr, seg.len, 20, 12);
    OrLow(flags, upper, 12);
    var d := flags + Shl(upper, 12);
    assert EncodeDesc(seg, flags) == d;
    Join(flags, upper, 12);
    ShlIsMul(seg.addr, 20);
    Join(seg.len, seg.addr, 20);
    ShrAdd(d, 12, 20);
    ShrAdd(d, 0, 0);
    ShiftZero(d);
  }

  lemma ShiftZero(d: nat)
    ensures Shr(d, 0) == d
  {
  }

  /** The descriptor table of a segment list: END on the last one only. */
  function Table(segs: seq<Segment>): (t: seq<nat>)
    ensures |t| == |segs|
  {
    seq(|segs|, i requires 0 <= i < |segs| => EncodeDesc(segs[i], SgFlags(i == |segs| - 1)))
  }

  /** rtsx_xfer_adma: write the table into the descriptor buffer. */
  method BuildAdma(admabuf: array<nat>, segs: array<Segment>, nsegs: nat)
    requires nsegs <= segs.Length && nsegs <= admabuf.Length
    modifies admabuf
    ensures admabuf[..nsegs] == Table(segs[..nsegs])
    ensures admabuf[nsegs..] == old(admabuf[nsegs..])
  {
    hide EncodeDesc, SgFlags;
    for i := 0 to nsegs
      invariant forall k :: 0 <= k < i ==> admabuf[k] == EncodeDesc(segs[k], SgFlags(k == nsegs - 1))
      invariant admabuf[nsegs..] == old(admabuf[nsegs..])
    {
      var flags := Or(SG_VALID, SG_TRANS_DATA);
      if i == nsegs - 1 {
        flags := Or(flags, SG_END);
      }
      assert flags == SgFlags(i == nsegs - 1) by { FlagsOf(i == nsegs - 1); }
      admabuf[i] := EncodeDesc(segs[i], flags);
    }
  }

  lemma FlagsOf(last: bool)
    ensures SgFlags(last) == if last then Or(Or(SG_VALID, SG_TRANS_DATA), SG_END) else Or(SG_VALID, SG_TRANS_DATA)
  {
  }

  /** The chip walks the buffer descriptor by descriptor up to END; the result
      is the sequence of addresses it transfers to or from. */
  function Walk(table: seq<nat>): seq<nat>
    decreases |table|
  {
    if |table| == 0 then []
    else
      var d := DecodeDesc(table[0]);
      if d.flags % 2 == 0 || d.flags / 16 != 2 then []
      else Range(d.addr, d.len) + (if d.flags / 2 % 2 == 1 then [] else Walk(table[1..]))
  }

  /** Whatever stale descriptors follow, the chip transfers exactly the bytes of
      the segment list, in order. */
  lemma {:induction false} WalkIsFlat(segs: seq<Segment>, stale: seq<nat>)
    requires |segs| > 0
    requires forall i :: 0 <= i < |segs| ==> segs[i].addr < 0x1_0000_0000 && segs[i].len <= MAXPHYS
    ensures Walk(Table(segs) + stale) == Addresses(segs)
    decreases |segs|
  {
    hide EncodeDesc, DecodeDesc, SgFlags;
    var t := Table(segs) + stale;
    var last := |segs| == 1;
    SgFlagValues();
    FittingDescriptor(segs[0], SgFlags(last));
    if !last {
      assert t[1..] == Table(segs[1..]) + stale;
      WalkIsFlat(segs[1..], stale);
    } else {
      assert segs[1..] == [];
    }
  }

  // ------------------------------------------------------------------------
  // Memory

  /** Bytes at a list of addresses. */
  function Gather(mem: map<nat, byte>, addrs: seq<nat>): (d: seq<byte>)
    requires forall a :: a in addrs ==> a in mem
    ensures |d| == |addrs|
  {
    seq(|addrs|, i requires 0 <= i < |addrs| => mem[addrs[i]])
  }

  /** Storing bytes one after the other at a list of addresses. */
  function Scatter(mem: map<nat, byte>, addrs: seq<nat>, d: seq<byte>): map<nat, byte>
    requires |addrs| == |d|
    decreases |addrs|
  {
    if |addrs| == 0 then mem
    else Scatter(mem[addrs[0] := d[0]], addrs[1..], d[1..])
  }

  ghost predicate Distinct(addrs: seq<nat>)
  {
    forall i, j :: 0 <= i < j < |addrs| ==> addrs[i] != addrs[j]
  }

  /** DMA into distinct addresses stores the data there and touches nothing
      else. */
  lemma {:induction false} ScatterStores(mem: map<nat, byte>, addrs: seq<nat>, d: seq<byte>)
    requires |addrs| == |d| && Distinct(addrs)
    ensures
      var m := Scatter(mem, addrs, d);
      && m.Keys == mem.Keys + (set a | a in addrs)
      && (forall i :: 0 <= i < |addrs| ==> m[addrs[i]] == d[i])
      && (forall a :: a in mem && a !in addrs ==> m[a] == mem[a])
    decreases |addrs|
  {
    if |addrs| > 0 {
      ScatterStores(mem[addrs[0] := d[0]], addrs[1..], d[1..]);
      assert addrs == [addrs[0]] + addrs[1..];
      assert addrs[0] !in addrs[1..];
      var m := Scatter(mem, addrs, d);
      forall i | 0 <= i < |addrs| ensures m[addrs[i]] == d[i] {
        if i > 0 { assert addrs[i] == addrs[1..][i - 1]; }
      }
    }
  }
}
