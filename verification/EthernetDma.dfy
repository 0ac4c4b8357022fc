/**
 The Ethernet driver's copies between a pbuf chain and a ring of fixed-size DMA
 buffers.  Row d of `data` is the buffer of descriptor d; descriptors are linked
 in a circle.  A frame lies in the ring as its segments: full buffers and then
 whatever is left.
 */
module EthernetDma {
  import opened Arithmetic

  newtype byte = x: int | 0 <= x < 256

  // ------------------------------------------------- frames and segments

  function Flatten(chain: seq<seq<byte>>): seq<byte> {
    if chain == [] then [] else chain[0] + Flatten(chain[1..])
  }

  lemma {:induction false} FlattenAppends(chain: seq<seq<byte>>, q: seq<byte>)
    ensures Flatten(chain + [q]) == Flatten(chain) + q
    decreases |chain|
  {
    if chain == [] {
      assert [q][1..] == [];
    } else {
      FlattenAppends(chain[1..], q);
      assert (chain + [q])[1..] == chain[1..] + [q];
    }
  }

  lemma FlattenPrefix(chain: seq<seq<byte>>, i: nat)
    requires i < |chain|
    ensures Flatten(chain[..i + 1]) == Flatten(chain[..i]) + chain[i]
  {
    assert chain[..i + 1] == chain[..i] + [chain[i]];
    FlattenAppends(chain[..i], chain[i]);
  }

  lemma {:induction false} FlattenStartsWith(chain: seq<seq<byte>>, i: nat)
    requires i <= |chain|
    ensures Flatten(chain[..i]) <= Flatten(chain)
    decreases |chain| - i
  {
    if i == |chain| {
      assert chain[..i] == chain;
    } else {
      FlattenPrefix(chain, i);
      FlattenStartsWith(chain, i + 1);
    }
  }

  /** The bytes of pbuf i are those of the frame behind the pbufs before it. */
  lemma PbufInFrame(chain: seq<seq<byte>>, i: nat, start: nat)
    requires i < |chain| && start <= |Flatten(chain)| && Flatten(chain[..i]) == Flatten(chain)[..start]
    ensures start + |chain[i]| <= |Flatten(chain)|
    ensures Flatten(chain)[start..start + |chain[i]|] == chain[i]
    ensures Flatten(chain[..i + 1]) == Flatten(chain)[..start + |chain[i]|]
  {
    FlattenPrefix(chain, i);
    FlattenStartsWith(chain, i + 1);
  }

  /** The frame cut into buffers of `size` bytes, at least one buffer. */
  function Segments(frame: seq<byte>, size: nat): (segs: seq<seq<byte>>)
    requires size > 0
    ensures |segs| >= 1
    decreases |frame|
  {
    if |frame| <= size then [frame]
    else [frame[..size]] + Segments(frame[size..], size)
  }

  /** Every buffer but the last is full, only a single buffer may be empty, and in
      order they are the frame. */
  lemma {:induction false} SegmentsAreTheFrame(frame: seq<byte>, size: nat)
    requires size > 0
    ensures var segs := Segments(frame, size);
      && Flatten(segs) == frame
      && (forall j :: 0 <= j < |segs| - 1 ==> |segs[j]| == size)
      && |segs[|segs| - 1]| <= size
      && (|segs| > 1 ==> |segs[|segs| - 1]| > 0)
    decreases |frame|
  {
    if |frame| > size {
      SegmentsAreTheFrame(frame[size..], size);
      assert Segments(frame, size)[1..] == Segments(frame[size..], size);
    } else {
      assert Flatten([frame]) == frame + Flatten([]);
    }
  }

  /** Segment c begins at byte `base` of the frame. */
  ghost predicate SegmentAt(frame: seq<byte>, size: nat, c: nat, base: nat)
    requires size > 0
  {
    && c < |Segments(frame, size)|
    && base <= |frame|
    && Segments(frame, size)[c..] == Segments(frame[base..], size)
  }

  lemma NextSegment(frame: seq<byte>, size: nat, c: nat, base: nat)
    requires size > 0 && SegmentAt(frame, size, c, base) && |frame| - base > size
    ensures Segments(frame, size)[c] == frame[base..base + size]
    ensures SegmentAt(frame, size, c + 1, base + size)
  {
    var segs := Segments(frame, size);
    var rest := frame[base..];
    assert segs[c] == segs[c..][0] == rest[..size];
    assert segs[c + 1..] == segs[c..][1..] == Segments(rest[size..], size);
    assert rest[size..] == frame[base + size..];
  }

  lemma SegmentCounted(frame: seq<byte>, size: nat, c: nat, base: nat)
    requires size > 0 && SegmentAt(frame, size, c, base)
    ensures c < |Segments(frame, size)| && base <= |frame|
  {
  }

  lemma LastSegment(frame: seq<byte>, size: nat, c: nat, base: nat)
    requires size > 0 && SegmentAt(frame, size, c, base) && |frame| - base <= size
    ensures |Segments(frame, size)| == c + 1 && Segments(frame, size)[c] == frame[base..]
  {
    var segs := Segments(frame, size);
    assert segs[c] == segs[c..][0] && |segs[c..]| == 1;
  }

  /** Bytes after the end of a frame only lengthen its last segment and add more. */
  lemma {:induction false} SegmentsOfPrefix(frame: seq<byte>, more: seq<byte>, size: nat)
    requires size > 0
    ensures var segs, longer := Segments(frame, size), Segments(frame + more, size);
      |segs| <= |longer| && forall j :: 0 <= j < |segs| ==> segs[j] <= longer[j]
    decreases |frame|
  {
    if |frame| > size {
      SegmentsOfPrefix(frame[size..], more, size);
      assert (frame + more)[size..] == frame[size..] + more && (frame + more)[..size] == frame[..size];
    } else if |frame + more| > size {
      assert frame <= (frame + more)[..size];
    }
  }

  /** The number of buffers HAL_ETH_TransmitFrame works out from the length. */
  function BufferCount(length: nat, size: nat): nat
    requires size > 0
  {
    if length > size then
      if length % size != 0 then length / size + 1 else length / size
    else 1
  }

  /** It is the number of buffers the driver has filled: the rounded-up quotient,
      and one for an empty frame. */
  lemma {:induction false} BufferCountIsSegments(frame: seq<byte>, size: nat)
    requires size > 0
    ensures BufferCount(|frame|, size) == |Segments(frame, size)|
    ensures var count := |Segments(frame, size)|;
      (count - 1) * size + |Segments(frame, size)[count - 1]| == |frame|
    decreases |frame|
  {
    if |frame| > size {
      var rest := frame[size..];
      BufferCountIsSegments(rest, size);
      var count := |Segments(rest, size)|;
      assert Segments(frame, size)[count] == Segments(rest, size)[count - 1];
      assert count * size == (count - 1) * size + size;
      DropOneBuffer(|frame|, size);
    }
  }

  lemma DropOneBuffer(length: nat, size: nat)
    requires 0 < size < length
    ensures BufferCount(length, size) == 1 + BufferCount(length - size, size)
  {
    var q, r := (length - size) / size, (length - size) % size;
    assert length == (q + 1) * size + r;
    QuotientIs(length, size, q + 1, r);
    if length - size < size {
      QuotientIs(length - size, size, 0, length - size);
    } else if length - size == size {
      QuotientIs(length - size, size, 1, 0);
    }
  }

  // ------------------------------------------------------------ the circle

  function Next(d: nat, n: nat): nat {
    if d + 1 == n then 0 else d + 1
  }

  /** The descriptor reached from d after j links. */
  function Hop(d: nat, j: nat, n: nat): nat {
    if j == 0 then d else Next(Hop(d, j - 1, n), n)
  }

  lemma {:induction false} HopInRing(d: nat, j: nat, n: nat)
    requires d < n
    ensures Hop(d, j, n) < n
  {
    if j > 0 { HopInRing(d, j - 1, n); }
  }

  lemma {:induction false} HopWithinLap(d: nat, j: nat, n: nat)
    requires d < n && j < n
    ensures Hop(d, j, n) == if d + j < n then d + j else d + j - n
  {
    if j > 0 { HopWithinLap(d, j - 1, n); }
  }

  lemma {:induction false} HopAdds(d: nat, i: nat, j: nat, n: nat)
    ensures Hop(d, i + j, n) == Hop(Hop(d, i, n), j, n)
    decreases j
  {
    if j > 0 { HopAdds(d, i, j - 1, n); }
  }

  /** Fewer than n links never lead back to the same descriptor. */
  lemma HopsDiffer(d: nat, i: nat, j: nat, n: nat)
    requires d < n && i < j < i + n
    ensures Hop(d, i, n) != Hop(d, j, n)
  {
    HopInRing(d, i, n);
    HopAdds(d, i, j - i, n);
    HopWithinLap(Hop(d, i, n), j - i, n);
  }

  /** Whole laps of n links lead back to the start. */
  lemma {:induction false} HopLaps(d: nat, k: nat, n: nat)
    requires d < n
    ensures Hop(d, k * n, n) == d
    decreases k
  {
    if k > 0 {
      HopLaps(d, k - 1, n);
      HopAdds(d, (k - 1) * n, n, n);
      HopWithinLap(d, n - 1, n);
      assert (k - 1) * n + n == k * n;
    }
  }

  // -------------------------------------------------------------- the rings

  datatype Desc = Desc(own: bool, first: bool, last: bool, length: nat)

  datatype TxResult = ErrOk | ErrUse

  class Ring {
    const n: nat
    const size: nat
    const data: array2<byte>
    const desc: array<Desc>
    var current: nat  // EthHandle.TxDesc, or RxFrameInfos.FSRxDesc
    var scan: nat     // EthHandle.RxDesc
    var segCount: nat // RxFrameInfos.SegCount

    constructor (n: nat, size: nat)
      requires n > 0 && 0 < size <= 0x1FFF
      ensures Valid() && this.n == n && this.size == size && current == scan == segCount == 0
      ensures forall d :: 0 <= d < n ==> desc[d] == Desc(false, false, false, 0)
      ensures fresh(data) && fresh(desc)
    {
      this.n := n;
      this.size := size;
      data := new byte[n, size]((i, k) => 0);
      desc := new Desc[n](i => Desc(false, false, false, 0));
      current := 0;
      scan := 0;
      segCount := 0;
    }

    ghost predicate Shape() {
      && 0 < n
      && 0 < size <= 0x1FFF
      && data.Length0 == n && data.Length1 == size
      && desc.Length == n
    }

    ghost predicate Valid()
      reads this
    {
      Shape() && current < n && scan < n
    }

    /** The buffer of descriptor e begins with seg. */
    ghost predicate RowBegins(e: nat, seg: seq<byte>)
      requires Shape() && e < n && |seg| <= size
      reads data
    {
      forall k :: 0 <= k < |seg| ==> data[e, k] == seg[k]
    }

    /** The j-th descriptor from d holds segment j. */
    ghost predicate Holds(d: nat, segs: seq<seq<byte>>, j: nat)
      requires Shape() && d < n && j < |segs|
      reads data
    {
      Hop(d, j, n) < n && |segs[j]| <= size && RowBegins(Hop(d, j, n), segs[j])
    }

    /** One of the first m descriptors from d still belongs to the DMA. */
    ghost predicate Blocked(d: nat, m: nat)
      requires Shape() && d < n
      reads desc
    {
      exists j :: 0 <= j < m && Hop(d, j, n) < n && desc[Hop(d, j, n)].own
    }

    /** d is none of the first m descriptors from `start`. */
    ghost predicate Beyond(start: nat, m: nat, d: nat)
    {
      forall j :: 0 <= j < m ==> Hop(start, j, n) != d
    }

    /** The first `written` bytes of the frame are in place: the c-th buffer from
        `current` holds those from `base` on, and earlier segments are whole unless
        the ring has come round to them again. */
    ghost predicate Filled(frame: seq<byte>, c: nat, base: nat, written: nat)
      requires Valid()
      reads this, data
    {
      && SegmentAt(frame, size, c, base)
      && base <= written <= |frame| && written <= base + size
      && (forall j :: 0 <= j < c < j + n ==> Holds(current, Segments(frame, size), j))
      && Hop(current, c, n) < n
      && RowBegins(Hop(current, c, n), frame[base..written])
    }

    lemma FilledBounds(frame: seq<byte>, c: nat, base: nat, written: nat)
      requires Valid() && Filled(frame, c, base, written)
      ensures c < |Segments(frame, size)| && Hop(current, c, n) < n
      ensures base <= written <= |frame| && written <= base + size
    {
    }

    /** A descriptor found free extends the free run, one found owned ends it. */
    lemma FreeRun(d: nat, c: nat)
      requires Shape() && d < n && Hop(d, c, n) < n
      ensures Blocked(d, c + 1) <==> Blocked(d, c) || desc[Hop(d, c, n)].own
    {
    }

    lemma {:induction false} BlockedGrows(d: nat, m: nat, m': nat)
      requires Shape() && d < n && m <= m' && Blocked(d, m)
      ensures Blocked(d, m')
    {
    }

    lemma NextHop(d: nat, c: nat)
      ensures Hop(d, c + 1, n) == Next(Hop(d, c, n), n)
    {
    }

    lemma BufferFull(frame: seq<byte>, c: nat, base: nat)
      requires Valid() && base + size < |frame| && Filled(frame, c, base, base + size)
      ensures Filled(frame, c + 1, base + size, base + size)
    {
      NextSegment(frame, size, c, base);
      HopInRing(current, c + 1, n);
      assert Holds(current, Segments(frame, size), c);
      assert frame[base + size..base + size] == [];
    }

    lemma FrameFilled(frame: seq<byte>, c: nat, base: nat)
      requires Valid() && Filled(frame, c, base, |frame|)
      ensures |Segments(frame, size)| == c + 1
      ensures forall j :: 0 <= j < |Segments(frame, size)| <= j + n ==> Holds(current, Segments(frame, size), j)
    {
      LastSegment(frame, size, c, base);
    }

    lemma NothingFilled(frame: seq<byte>)
      requires Valid()
      ensures Filled(frame, 0, 0, 0) && !Blocked(current, 0)
      ensures Hop(current, 0, n) == current && Flatten([]) == frame[..0]
    {
      assert frame[0..] == frame && frame[0..0] == [];
    }

    /** The copy loops of rt_stm32_eth_tx.  A frame longer than the ring leaves only
        its last n segments; a frame that fits leaves them all. */
    method CopyChain(p: seq<seq<byte>>) returns (r: TxResult, framelength: nat)
      requires Valid()
      modifies data
      ensures r == ErrUse <==> p != [] && Blocked(current, |Segments(Flatten(p), size)|)
      ensures r == ErrOk ==> framelength == |Flatten(p)|
      ensures r == ErrOk ==> var segs := Segments(Flatten(p), size);
        forall j :: 0 <= j < |segs| <= j + n ==> Holds(current, segs, j)
      ensures forall d, k :: 0 <= d < n && 0 <= k < size ==>
        desc[d].own || Beyond(current, |Segments(Flatten(p), size)|, d) ==> data[d, k] == old(data[d, k])
    {
      hide SegmentAt, Holds, RowBegins, Blocked, Beyond;
      ghost var frame := Flatten(p);
      ghost var c: nat := 0;     // full buffers so far
      ghost var base: nat := 0;  // bytes in them
      var d := current;
      var bufferoffset: nat := 0;
      framelength := 0;
      var i := 0;
      NothingFilled(frame);
      hide Filled, Hop, Segments, Flatten;
      while i < |p|
        invariant 0 <= i <= |p| && d == Hop(current, c, n)
        invariant framelength == base + bufferoffset <= |frame| && Flatten(p[..i]) == frame[..framelength]
        invariant Filled(frame, c, base, framelength)
        invariant !Blocked(current, if i > 0 then c + 1 else c)
        invariant forall e, k :: 0 <= e < n && 0 <= k < size ==>
          desc[e].own || Beyond(current, |Segments(frame, size)|, e) ==> data[e, k] == old(data[e, k])
      {
        PbufInFrame(p, i, framelength);
        FilledBounds(frame, c, base, framelength);
        FreeRun(current, c);
        if desc[d].own {
          BlockedGrows(current, c + 1, |Segments(frame, size)|);
          return ErrUse, framelength;
        }
        var ok;
        ok, d, bufferoffset, c, base := CopyPbuf(p[i], d, bufferoffset, frame, c, base);
        if !ok {
          return ErrUse, framelength;
        }
        framelength := framelength + |p[i]|;
        i := i + 1;
      }
      assert p[..i] == p && frame[..framelength] == frame;
      FrameFilled(frame, c, base);
      r := ErrOk;
    }

    /** One round of the outer loop: the bytes of the pbuf q. */
    method CopyPbuf(q: seq<byte>, d0: nat, offset: nat, ghost frame: seq<byte>, ghost c0: nat, ghost base0: nat)
      returns (ok: bool, d: nat, bufferoffset: nat, ghost c: nat, ghost base: nat)
      requires Valid() && Filled(frame, c0, base0, base0 + offset)
      requires d0 == Hop(current, c0, n) && !Blocked(current, c0 + 1)
      requires base0 + offset + |q| <= |frame| && frame[base0 + offset..base0 + offset + |q|] == q
      modifies data
      ensures ok ==>
        && d == Hop(current, c, n) && !Blocked(current, c + 1)
        && base + bufferoffset == base0 + offset + |q|
        && Filled(frame, c, base, base + bufferoffset)
      ensures !ok ==> Blocked(current, |Segments(frame, size)|)
      ensures forall e, k :: 0 <= e < n && 0 <= k < size ==>
        desc[e].own || Beyond(current, |Segments(frame, size)|, e) ==> data[e, k] == old(data[e, k])
    {
      hide Filled, Segments, SegmentAt, Holds, RowBegins, Hop, Blocked;
      FilledBounds(frame, c0, base0, base0 + offset);
      ok, d, bufferoffset, c, base := true, d0, offset, c0, base0;
      var byteslefttocopy: nat := |q|;
      var payloadoffset: nat := 0;
      while byteslefttocopy + bufferoffset > size
        invariant d == Hop(current, c, n) && !Blocked(current, c + 1)
        invariant payloadoffset + byteslefttocopy == |q|
        invariant base + bufferoffset == base0 + offset + payloadoffset && bufferoffset <= size
        invariant Filled(frame, c, base, base + bufferoffset)
        invariant forall e, k :: 0 <= e < n && 0 <= k < size ==>
          desc[e].own || Beyond(current, |Segments(frame, size)|, e) ==> data[e, k] == old(data[e, k])
        decreases byteslefttocopy, bufferoffset
      {
        FilledBounds(frame, c, base, base + bufferoffset);
        FreeRun(current, c);
        CopyIn(d, bufferoffset, q, payloadoffset, size - bufferoffset, frame, c, base);
        BufferFull(frame, c, base);
        NextHop(current, c);
        d := Next(d, n);
        c := c + 1;
        FilledBounds(frame, c, base + size, base + size);
        FreeRun(current, c);
        if desc[d].own {
          BlockedGrows(current, c + 1, |Segments(frame, size)|);
          ok := false;
          return;
        }
        byteslefttocopy := byteslefttocopy - (size - bufferoffset);
        payloadoffset := payloadoffset + (size - bufferoffset);
        base := base + size;
        bufferoffset := 0;
      }
      FilledBounds(frame, c, base, base + bufferoffset);
      FreeRun(current, c);
      CopyIn(d, bufferoffset, q, payloadoffset, byteslefttocopy, frame, c, base);
      bufferoffset := bufferoffset + byteslefttocopy;
    }

    /** SMEMCPY of m bytes of the pbuf q to `offset` in descriptor d's buffer. */
    method CopyIn(d: nat, offset: nat, q: seq<byte>, po: nat, m: nat,
                  ghost frame: seq<byte>, ghost c: nat, ghost base: nat)
      requires Valid() && Filled(frame, c, base, base + offset)
      requires d == Hop(current, c, n) && offset + m <= size && po + m <= |q|
      requires var start := base + offset - po;
        0 <= start && start + |q| <= |frame| && frame[start..start + |q|] == q
      modifies data
      ensures Filled(frame, c, base, base + offset + m)
      ensures forall e, k :: 0 <= e < n && 0 <= k < size && e != d ==> data[e, k] == old(data[e, k])
    {
      forall k | offset <= k < offset + m {
        data[d, k] := q[po + (k - offset)];
      }
      ghost var start := base + offset - po;
      forall k | 0 <= k < offset + m
        ensures data[d, k] == frame[base..base + offset + m][k]
      {
        if k < offset {
          assert frame[base..base + offset][k] == frame[base + k];
        } else {
          assert q[po + (k - offset)] == frame[start..start + |q|][po + (k - offset)];
        }
      }
      forall j | 0 <= j < c < j + n
        ensures Holds(current, Segments(frame, size), j)
      {
        HopsDiffer(current, j, c, n);
        assert old(Holds(current, Segments(frame, size), j));
      }
    }

    /** HAL_ETH_TransmitFrame: hands the buffers of a frame over to the DMA. */
    method TransmitFrame(length: nat) returns (ok: bool)
      requires Valid()
      modifies desc, `current
      ensures Valid()
      ensures ok <==> length != 0 && !old(desc[current].own)
      ensures !ok ==> current == old(current) && desc[..] == old(desc[..])
      ensures ok ==> var m := BufferCount(length, size);
        && current == Hop(old(current), m, n)
        && (forall j :: 0 <= j < m <= j + n ==> HandedOver(old(current), length, j))
        && (forall d :: 0 <= d < n && Beyond(old(current), m, d) ==> desc[d] == old(desc[d]))
    {
      if length == 0 {
        return false;
      }
      if desc[current].own {
        return false;
      }
      var bufcount := BufferCount(length, size);
      if bufcount == 1 {
        desc[current] := desc[current].(first := true, last := true, length := length, own := true);
        current := Next(current, n);
      } else {
        ghost var start := current;
        var i := 0;
        while i < bufcount
          invariant 0 <= i <= bufcount && current == Hop(start, i, n) < n
          invariant forall j :: 0 <= j < i <= j + n ==> HandedOver(start, length, j)
          invariant forall d :: 0 <= d < n && Beyond(start, bufcount, d) ==> desc[d] == old(desc[d])
        {
          OtherHops(start, i);
          label Before:
          HandOver(i, bufcount, length);
          forall j | 0 <= j < i < j + n
            ensures HandedOver(start, length, j)
          {
            assert old@Before(HandedOver(start, length, j));
          }
          assert HandedOver(start, length, i);
          HopInRing(start, i + 1, n);
          current := Next(current, n);
          i := i + 1;
        }
      }
      ok := true;
    }

    /** The i-th descriptor of a frame in bufcount buffers. */
    method HandOver(i: nat, bufcount: nat, length: nat)
      requires Valid() && i < bufcount == BufferCount(length, size) && bufcount > 1
      modifies desc
      ensures desc[current] ==
        Desc(true, i == 0, i == bufcount - 1, if i == bufcount - 1 then length - (bufcount - 1) * size else size)
      ensures forall d :: 0 <= d < n && d != current ==> desc[d] == old(desc[d])
    {
      LastBufferLength(length, size);
      var dd := desc[current].(first := false, last := false);
      if i == 0 {
        dd := dd.(first := true);
      }
      dd := dd.(length := size);
      if i == bufcount - 1 {
        dd := dd.(last := true, length := length - (bufcount - 1) * size);
      }
      desc[current] := dd.(own := true);
    }

    lemma OtherHops(d: nat, c: nat)
      requires d < n
      ensures forall j :: 0 <= j < c < j + n ==> Hop(d, j, n) != Hop(d, c, n)
    {
      forall j | 0 <= j < c < j + n
        ensures Hop(d, j, n) != Hop(d, c, n)
      {
        HopsDiffer(d, j, c, n);
      }
    }

    /** The j-th descriptor from d has been given to the DMA as part of a frame of
        `length` bytes; only the first and the last carry the frame marks. */
    ghost predicate HandedOver(d: nat, length: nat, j: nat)
      requires Shape() && d < n
      reads desc
    {
      var m := BufferCount(length, size);
      && Hop(d, j, n) < n
      && desc[Hop(d, j, n)].own
      && (desc[Hop(d, j, n)].first <==> j == 0)
      && (desc[Hop(d, j, n)].last <==> j == m - 1)
      && desc[Hop(d, j, n)].length == if j == m - 1 then length - (m - 1) * size else size
    }

    /** The bytes the DMA reads from m descriptors, starting at d. */
    ghost function Fetched(d: nat, m: nat): seq<byte>
      requires Shape() && d < n
      reads desc, data
      decreases m
    {
      if m == 0 then [] else Fetch(d) + Fetched(Next(d, n), m - 1)
    }

    ghost function Fetch(d: nat): (s: seq<byte>)
      requires Shape() && d < n
      reads desc, data
    {
      var length := if desc[d].length <= size then desc[d].length else size;
      seq(length, k requires 0 <= k < length && Shape() && d < n reads data => data[d, k])
    }

    lemma FetchedSegment(d: nat, frame: seq<byte>, j: nat)
      requires Shape() && d < n && j < |Segments(frame, size)|
      requires HandedOver(d, |frame|, j) && Holds(d, Segments(frame, size), j)
      ensures Fetch(Hop(d, j, n)) == Segments(frame, size)[j]
    {
      SegmentsAreTheFrame(frame, size);
      BufferCountIsSegments(frame, size);
    }

    lemma {:induction false} FetchedIsTheFrame(d: nat, frame: seq<byte>, j: nat)
      requires Shape() && d < n && j <= |Segments(frame, size)|
      requires var segs := Segments(frame, size);
        forall i :: 0 <= i < |segs| ==> HandedOver(d, |frame|, i) && Holds(d, segs, i)
      ensures var segs := Segments(frame, size);
        Hop(d, j, n) < n && Fetched(Hop(d, j, n), |segs| - j) == Flatten(segs[j..])
      decreases |Segments(frame, size)| - j
    {
      var segs := Segments(frame, size);
      HopInRing(d, j, n);
      if j < |segs| {
        FetchedIsTheFrame(d, frame, j + 1);
        FetchedSegment(d, frame, j);
        assert segs[j..][1..] == segs[j + 1..];
      }
    }

    /** rt_stm32_eth_tx. */
    method Transmit(p: seq<seq<byte>>) returns (r: TxResult)
      requires Valid()
      modifies data, desc, `current
      ensures Valid()
      ensures r == ErrUse <==> p != [] && old(Blocked(current, |Segments(Flatten(p), size)|))
      ensures r == ErrUse || Flatten(p) == [] ==> current == old(current) && desc[..] == old(desc[..])
      ensures r == ErrOk && Flatten(p) != [] ==>
        var segs := Segments(Flatten(p), size);
        && current == Hop(old(current), |segs|, n)
        && (forall j :: 0 <= j < |segs| <= j + n ==>
              HandedOver(old(current), |Flatten(p)|, j) && Holds(old(current), segs, j))
        && (|segs| <= n ==> Fetched(old(current), |segs|) == Flatten(p))
        && (desc[old(current)].first <==> |segs| <= n)
      ensures forall d, k :: 0 <= d < n && 0 <= k < size ==>
        old(desc[d].own) || Beyond(old(current), |Segments(Flatten(p), size)|, d) ==>
          data[d, k] == old(data[d, k])
      ensures forall d :: 0 <= d < n && Beyond(old(current), |Segments(Flatten(p), size)|, d) ==>
        desc[d] == old(desc[d])
    {
      FlattenNone(p);
      hide Segments, Flatten, Hop, BufferCount, Holds, HandedOver, Fetched, Blocked, Beyond;
      ghost var frame := Flatten(p);
      ghost var segs := Segments(frame, size);
      ghost var start := current;
      var framelength;
      r, framelength := CopyChain(p);
      if r == ErrUse {
        return;
      }
      BufferCountIsSegments(frame, size);
      if p != [] {
        FirstFree(current, |segs|);
      }
      var state := TransmitFrame(framelength);
      if state {
        FirstMarkIff(start, framelength);
        if |segs| <= n {
          AllFetched(start, frame);
        }
      }
    }

    /** The descriptor that a frame starts at carries the first-segment mark exactly
        when the frame needs no more buffers than the ring has: otherwise a later
        segment has taken that buffer. */
    lemma FirstMarkIff(d: nat, length: nat)
      requires Shape() && d < n && BufferCount(length, size) >= 1
      requires forall j :: 0 <= j < BufferCount(length, size) <= j + n ==> HandedOver(d, length, j)
      ensures desc[d].first <==> BufferCount(length, size) <= n
    {
      hide BufferCount;
      var m := BufferCount(length, size);
      var k := (m - 1) / n;
      Division(m - 1, n);
      HopLaps(d, k, n);
      assert HandedOver(d, length, k * n);
      if m <= n { QuotientIs(m - 1, n, 0, m - 1); } else { QuotientAbove(m, n, 1); LastLap(m, n); }
    }

    /** A frame that fails, one full buffer longer than the ring: the transmit reports
        success, but no descriptor starts a frame at its place and the 1s, the whole
        first segment, are in no buffer any more. */
    method LoseOverlongFrame() returns (r: TxResult)
      requires Valid() && forall d :: 0 <= d < n ==> !desc[d].own
      modifies data, desc, `current
      ensures r == ErrOk && !desc[old(current)].first
      ensures forall d, k :: 0 <= d < n && 0 <= k < size ==> data[d, k] == 2
    {
      var frame: seq<byte> := seq(size, _ => 1) + seq(n * size, _ => 2);
      ghost var start := current;
      ghost var segs := Segments(frame, size);
      OneFrame(frame);
      OneThenTwos(frame, size, n);
      hide Flatten, Segments, Fetched, HandedOver;
      assert !Blocked(current, |segs|);
      r := Transmit([frame]);
      forall d, k | 0 <= d < n && 0 <= k < size
        ensures data[d, k] == 2
      {
        var j := HopTo(start, d);
        assert Holds(start, segs, j) && segs[j][k] == 2;
      }
    }

    /** Every descriptor is reached by at least one and at most n links. */
    lemma HopTo(start: nat, d: nat) returns (j: nat)
      requires start < n && d < n
      ensures 1 <= j <= n && Hop(start, j, n) == d
    {
      if d == start {
        j := n;
        HopLaps(start, 1, n);
      } else {
        j := if d > start then d - start else d + n - start;
        HopWithinLap(start, j, n);
      }
    }

    lemma FlattenNone(p: seq<seq<byte>>)
      ensures p == [] ==> Flatten(p) == []
    {
    }

    lemma FirstFree(d: nat, m: nat)
      requires Shape() && d < n && m >= 1 && !Blocked(d, m)
      ensures !desc[d].own
    {
      assert Hop(d, 0, n) == d;
    }

    lemma AllFetched(d: nat, frame: seq<byte>)
      requires Shape() && d < n && |Segments(frame, size)| <= n
      requires var segs := Segments(frame, size);
        forall j :: 0 <= j < |segs| <= j + n ==> HandedOver(d, |frame|, j) && Holds(d, segs, j)
      ensures Fetched(d, |Segments(frame, size)|) == frame
    {
      var segs := Segments(frame, size);
      FetchedIsTheFrame(d, frame, 0);
      SegmentsAreTheFrame(frame, size);
      assert segs[0..] == segs && Hop(d, 0, n) == d;
    }

    // ------------------------------------------------------------ receive

    /** The buffers from `current` on hold the frame. */
    ghost predicate Received(frame: seq<byte>)
      requires Valid()
      reads this, data
    {
      forall j :: 0 <= j < |Segments(frame, size)| ==> Holds(current, Segments(frame, size), j)
    }

    /** The checksum the MAC stores behind a frame does not disturb the frame. */
    lemma ReceivedWithChecksum(frame: seq<byte>, crc: seq<byte>, wire: seq<byte>)
      requires Valid() && wire == frame + crc && Received(wire)
      ensures Received(frame) && |Segments(frame, size)| <= |Segments(wire, size)|
    {
      SegmentsOfPrefix(frame, crc, size);
      var segs, longer := Segments(frame, size), Segments(wire, size);
      forall j | 0 <= j < |segs|
        ensures Holds(current, segs, j)
      {
        assert Holds(current, longer, j) && segs[j] <= longer[j];
      }
    }

    lemma RowOfFrame(frame: seq<byte>, c: nat, base: nat)
      requires Valid() && Received(frame) && SegmentAt(frame, size, c, base)
      ensures Hop(current, c, n) < n
      ensures forall k :: 0 <= k < size && base + k < |frame| ==> data[Hop(current, c, n), k] == frame[base + k]
    {
      assert Holds(current, Segments(frame, size), c);
      if |frame| - base > size {
        NextSegment(frame, size, c, base);
      } else {
        LastSegment(frame, size, c, base);
      }
    }

    /** Of a frame that the DMA stores from descriptor d on, the first `ready` segments
        have arrived; the descriptor of the next one still belongs to the DMA. */
    ghost predicate Arrived(d: nat, wire: seq<byte>, ready: nat)
      requires Shape() && d < n
      reads desc, data
    {
      var segs := Segments(wire, size);
      && ready <= |segs| <= n
      && (forall j :: 0 <= j < ready ==> Marked(d, |segs|, j, |wire|) && Holds(d, segs, j))
      && (ready < |segs| ==> Hop(d, ready, n) < n && desc[Hop(d, ready, n)].own)
    }

    /** The j-th of m descriptors as the DMA leaves it; the last one has the length. */
    ghost predicate Marked(d: nat, m: nat, j: nat, length: nat)
      requires Shape() && d < n
      reads desc
    {
      && Hop(d, j, n) < n
      && !desc[Hop(d, j, n)].own
      && (desc[Hop(d, j, n)].first <==> j == 0)
      && (desc[Hop(d, j, n)].last <==> j == m - 1)
      && (j == m - 1 ==> desc[Hop(d, j, n)].length == length)
    }

    /** The scan has passed the first segCount descriptors of the frame at d. */
    ghost predicate Scanned(d: nat)
      requires Shape() && d < n
      reads this
    {
      scan == Hop(d, segCount, n) && (segCount > 0 ==> current == d)
    }

    /** HAL_ETH_GetReceivedFrame_IT: it may see a frame over several calls.  It finds
        the frame exactly when all of it has arrived. */
    method GetReceivedFrame(ghost d: nat, ghost wire: seq<byte>, ghost ready: nat) returns (found: bool, length: nat)
      requires Valid() && d < n && Arrived(d, wire, ready) && 4 <= |wire|
      requires Scanned(d) && segCount <= ready && segCount < |Segments(wire, size)|
      modifies `current, `scan, `segCount
      ensures Valid() && Scanned(d) && segCount == ready
      ensures found <==> ready == |Segments(wire, size)|
      ensures found ==> length == |wire| - 4
    {
      ghost var m := |Segments(wire, size)|;
      hide Segments, Holds, Hop;
      length := 0;
      var descriptorscancounter := 0;
      while !desc[scan].own && descriptorscancounter < n
        invariant Valid() && Scanned(d) && segCount <= ready && segCount < m
        invariant descriptorscancounter == segCount - old(segCount)
        decreases n - descriptorscancounter
      {
        descriptorscancounter := descriptorscancounter + 1;
        assert Marked(d, m, segCount, |wire|);
        NextHop(d, segCount);
        FromFirst(d);
        if desc[scan].first && !desc[scan].last {
          current := scan;
          segCount := 1;
          scan := Next(scan, n);
        } else if !desc[scan].first && !desc[scan].last {
          segCount := segCount + 1;
          scan := Next(scan, n);
        } else {
          segCount := segCount + 1;
          if segCount == 1 {
            current := scan;
          }
          length := desc[scan].length - 4;
          scan := Next(scan, n);
          return true, length;
        }
      }
      NextOwnedIff(d, wire, ready, segCount);
      found := false;
    }

    lemma NextOwnedIff(d: nat, wire: seq<byte>, ready: nat, c: nat)
      requires Shape() && d < n && Arrived(d, wire, ready) && c <= ready && c < |Segments(wire, size)|
      ensures Hop(d, c, n) < n && (desc[Hop(d, c, n)].own <==> c == ready)
    {
      if c < ready {
        assert Marked(d, |Segments(wire, size)|, c, |wire|);
      }
    }

    lemma FromFirst(d: nat)
      ensures Hop(d, 0, n) == d
    {
    }

    /** rt_stm32_eth_rx.  p is the chain pbuf_alloc returns for the frame without its
        checksum, empty if it returns none; `visited` counts the buffers looked at. */
    method Receive(p: seq<array<byte>>, ghost d: nat, ghost wire: seq<byte>, ghost ready: nat)
      returns (found: bool, ghost visited: nat)
      requires Valid() && d < n && Arrived(d, wire, ready) && 4 <= |wire| < 0x4000
      requires Scanned(d) && segCount <= ready && segCount < |Segments(wire, size)|
      requires p != [] ==> |wire| > 4 && TotalLength(p) == |wire| - 4
      requires Distinct(p)
      modifies p, desc, `current, `scan, `segCount
      ensures Valid()
      ensures found <==> ready == |Segments(wire, size)|
      ensures !found ==>
        Scanned(d) && segCount == ready && desc[..] == old(desc[..]) && ChainBytes(p) == old(ChainBytes(p))
      ensures found && p != [] ==> ChainBytes(p) == wire[..|wire| - 4]
      ensures visited <= |Segments(wire[..|wire| - 4], size)|
      ensures found ==> segCount == 0 && scan == Hop(d, ready, n)
      ensures found ==> forall j :: 0 <= j < ready ==>
        Hop(d, j, n) < n && desc[Hop(d, j, n)] == old(desc[Hop(d, j, n)]).(own := true)
      ensures found ==> forall e :: 0 <= e < n && Beyond(d, ready, e) ==> desc[e] == old(desc[e])
    {
      visited := 0;
      ghost var frame := wire[..|wire| - 4];
      var length;
      found, length := GetReceivedFrame(d, wire, ready);
      if !found {
        return;
      }
      var len := length % 0x1_0000;
      if len > 0 && p != [] {
        ReceivedWithChecksum(frame, wire[|wire| - 4..], wire);
        visited := GatherInto(p, frame);
      }
      hide Segments, Hop, Beyond, Holds;
      ReleaseBuffers();
      segCount := 0;
    }

    lemma NothingGathered(p: seq<array<byte>>, frame: seq<byte>)
      requires Valid()
      ensures SegmentAt(frame, size, 0, 0) && Hop(current, 0, n) == current
      ensures TotalLength(p[0..]) == TotalLength(p) && ChainBytes(p[..0]) == [] == frame[..0]
    {
      assert p[0..] == p && p[..0] == [] && frame[0..] == frame;
    }

    /** The copy loops of rt_stm32_eth_rx. */
    method GatherInto(p: seq<array<byte>>, ghost frame: seq<byte>) returns (ghost visited: nat)
      requires Valid() && Received(frame) && TotalLength(p) == |frame|
      requires Distinct(p)
      modifies p
      ensures ChainBytes(p) == frame
      ensures visited <= |Segments(frame, size)|
    {
      ghost var c: nat, base: nat := 0, 0;
      var d := current;
      var bufferoffset: nat := 0;
      ghost var done: nat := 0;
      var i := 0;
      NothingGathered(p, frame);
      hide SegmentAt, Received, Segments, Hop, TotalLength, ChainBytes, Distinct;
      while i < |p|
        invariant 0 <= i <= |p| && d == Hop(current, c, n)
        invariant done == base + bufferoffset && bufferoffset <= size
        invariant done + TotalLength(p[i..]) == |frame|
        invariant SegmentAt(frame, size, c, base)
        invariant ChainBytes(p[..i]) == frame[..done]
      {
        TotalLengthStep(p, i);
        NotAmongEarlier(p, i);
        ghost var before := ChainBytes(p[..i]);
        ghost var upto := done + p[i].Length;
        d, bufferoffset, c, base := FillPbuf(p[i], d, bufferoffset, frame, c, base);
        assert ChainBytes(p[..i]) == before;
        assert ChainBytes(p[..i + 1]) == frame[..upto] by {
          ChainBytesPrefix(p, i);
          JoinSlices(frame, done, upto);
        }
        done := upto;
        i := i + 1;
      }
      WholeChain(p);
      SegmentCounted(frame, size, c, base);
      visited := c + 1;
    }

    /** One round of the outer loop: fills the pbuf q. */
    method FillPbuf(q: array<byte>, d0: nat, offset: nat, ghost frame: seq<byte>, ghost c0: nat, ghost base0: nat)
      returns (d: nat, bufferoffset: nat, ghost c: nat, ghost base: nat)
      requires Valid() && Received(frame) && SegmentAt(frame, size, c0, base0)
      requires d0 == Hop(current, c0, n) && offset <= size && base0 + offset + q.Length <= |frame|
      modifies q
      ensures q[..] == frame[base0 + offset..base0 + offset + q.Length]
      ensures d == Hop(current, c, n) && SegmentAt(frame, size, c, base)
      ensures base + bufferoffset == base0 + offset + q.Length && bufferoffset <= size
    {
      hide Received, SegmentAt, Hop;
      d, bufferoffset, c, base := d0, offset, c0, base0;
      ghost var start := base0 + offset;
      var byteslefttocopy: nat := q.Length;
      var payloadoffset: nat := 0;
      while byteslefttocopy + bufferoffset > size
        invariant d == Hop(current, c, n) && SegmentAt(frame, size, c, base)
        invariant payloadoffset + byteslefttocopy == q.Length
        invariant base + bufferoffset == start + payloadoffset && bufferoffset <= size
        invariant forall k :: 0 <= k < payloadoffset ==> q[k] == frame[start + k]
        decreases byteslefttocopy, bufferoffset
      {
        CopyOut(d, bufferoffset, q, payloadoffset, size - bufferoffset, frame, c, base);
        NextSegment(frame, size, c, base);
        NextHop(current, c);
        d := Next(d, n);
        c := c + 1;
        byteslefttocopy := byteslefttocopy - (size - bufferoffset);
        payloadoffset := payloadoffset + (size - bufferoffset);
        base := base + size;
        bufferoffset := 0;
      }
      CopyOut(d, bufferoffset, q, payloadoffset, byteslefttocopy, frame, c, base);
      bufferoffset := bufferoffset + byteslefttocopy;
    }

    /** SMEMCPY of m bytes at `offset` in descriptor d's buffer into the pbuf q. */
    method CopyOut(d: nat, offset: nat, q: array<byte>, po: nat, m: nat,
                   ghost frame: seq<byte>, ghost c: nat, ghost base: nat)
      requires Valid() && Received(frame) && SegmentAt(frame, size, c, base)
      requires d == Hop(current, c, n) && offset + m <= size && po + m <= q.Length
      requires base + offset + m <= |frame|
      modifies q
      ensures forall k :: po <= k < po + m ==> q[k] == frame[base + offset + (k - po)]
      ensures forall k :: 0 <= k < q.Length && !(po <= k < po + m) ==> q[k] == old(q[k])
    {
      RowOfFrame(frame, c, base);
      forall k | po <= k < po + m {
        q[k] := data[d, offset + (k - po)];
      }
    }

    /** Gives segCount buffers, from the first one of the frame on, back to the DMA. */
    method ReleaseBuffers()
      requires Valid() && segCount <= n
      modifies desc
      ensures forall j :: 0 <= j < segCount ==>
        Hop(current, j, n) < n && desc[Hop(current, j, n)] == old(desc[Hop(current, j, n)]).(own := true)
      ensures forall d :: 0 <= d < n && Beyond(current, segCount, d) ==> desc[d] == old(desc[d])
    {
      var d := current;
      var i := 0;
      while i < segCount
        invariant 0 <= i <= segCount && d == Hop(current, i, n) < n
        invariant forall j :: 0 <= j < i ==>
          Hop(current, j, n) < n && desc[Hop(current, j, n)] == old(desc[Hop(current, j, n)]).(own := true)
        invariant forall e :: 0 <= e < n && Beyond(current, i, e) ==> desc[e] == old(desc[e])
      {
        forall j | 0 <= j < i
          ensures Hop(current, j, n) != d
        {
          HopsDiffer(current, j, i, n);
        }
        assert Beyond(current, i, d);
        desc[d] := desc[d].(own := true);
        HopInRing(current, i + 1, n);
        d := Next(d, n);
        i := i + 1;
      }
    }

    /** The wire and the receiving DMA: stores what comes in, checksum and all, from the
        next descriptor on. */
    method Deliver(wire: seq<byte>)
      requires Valid() && segCount == 0 && |Segments(wire, size)| <= n
      requires forall j :: 0 <= j < |Segments(wire, size)| ==> Hop(scan, j, n) < n && desc[Hop(scan, j, n)].own
      modifies data, desc
      ensures Arrived(scan, wire, |Segments(wire, size)|) && Scanned(scan)
    {
      SegmentsAreTheFrame(wire, size);
      var segs := Segments(wire, size);
      FromFirst(scan);
      hide Segments, Hop, Flatten;
      var d := scan;
      var j := 0;
      while j < |segs|
        invariant 0 <= j <= |segs| && d == Hop(scan, j, n) < n
        invariant forall i :: 0 <= i < j ==> Marked(scan, |segs|, i, |wire|) && Holds(scan, segs, i)
      {
        label Before:
        OtherHops(scan, j);
        Store(d, segs[j], Desc(false, j == 0, j == |segs| - 1, if j == |segs| - 1 then |wire| else 0));
        forall i | 0 <= i < j
          ensures Marked(scan, |segs|, i, |wire|) && Holds(scan, segs, i)
        {
          assert old@Before(Marked(scan, |segs|, i, |wire|) && Holds(scan, segs, i));
        }
        HopInRing(scan, j + 1, n);
        NextHop(scan, j);
        d := Next(d, n);
        j := j + 1;
      }
    }

    method Store(d: nat, seg: seq<byte>, mark: Desc)
      requires Valid() && d < n && |seg| <= size
      modifies data, desc
      ensures RowBegins(d, seg) && desc[d] == mark
      ensures forall e, k :: 0 <= e < n && 0 <= k < size && e != d ==> data[e, k] == old(data[e, k])
      ensures forall e :: 0 <= e < n && e != d ==> desc[e] == old(desc[e])
    {
      desc[d] := mark;
      forall k | 0 <= k < |seg| {
        data[d, k] := seg[k];
      }
    }
  }

  lemma LastLap(m: nat, n: nat)
    requires n > 0 && m > n
    ensures (m - 1) / n * n != 0 && (m - 1) / n * n < m <= (m - 1) / n * n + n
  {
    Division(m - 1, n);
    QuotientMonotone(n, m - 1, n);
    QuotientIs(n, n, 1, 0);
    Scale(n, 1, (m - 1) / n);
  }

  lemma OneFrame(frame: seq<byte>)
    ensures Flatten([frame]) == frame
  {
    assert [frame][1..] == [];
  }

  /** m full buffers of the same byte. */
  lemma {:induction false} UniformSegments(frame: seq<byte>, size: nat, m: nat, b: byte)
    requires size > 0 && m >= 1 && |frame| == m * size && forall k :: 0 <= k < |frame| ==> frame[k] == b
    ensures var segs := Segments(frame, size);
      |segs| == m && forall j :: 0 <= j < m ==> |segs[j]| == size && forall k :: 0 <= k < size ==> segs[j][k] == b
    decreases m
  {
    if m > 1 {
      Scale(size, 2, m);
      UniformSegments(frame[size..], size, m - 1, b);
    }
  }

  /** A buffer of 1s and m buffers of 2s. */
  lemma OneThenTwos(frame: seq<byte>, size: nat, m: nat)
    requires size > 0 && m >= 1 && |frame| == size + m * size
    requires forall k :: 0 <= k < |frame| ==> frame[k] == if k < size then 1 else 2
    ensures var segs := Segments(frame, size);
      && |segs| == m + 1
      && forall j :: 1 <= j <= m ==> |segs[j]| == size && forall k :: 0 <= k < size ==> segs[j][k] == 2
  {
    Scale(size, 1, m);
    var rest := frame[size..];
    UniformSegments(rest, size, m, 2);
    assert Segments(frame, size)[1..] == Segments(rest, size);
  }

  lemma LastBufferLength(length: nat, size: nat)
    requires 0 < size < length
    ensures var m := BufferCount(length, size);
      0 < length - (m - 1) * size <= size
  {
  }

  function TotalLength(p: seq<array<byte>>): nat {
    if p == [] then 0 else p[0].Length + TotalLength(p[1..])
  }

  /** No pbuf occurs twice in a chain. */
  ghost predicate Distinct(p: seq<array<byte>>) {
    forall i, j :: 0 <= i < j < |p| ==> p[i] != p[j]
  }

  lemma NotAmongEarlier(p: seq<array<byte>>, i: nat)
    requires i < |p| && Distinct(p)
    ensures p[i] !in p[..i]
  {
  }

  lemma JoinSlices(s: seq<byte>, a: nat, b: nat)
    requires a <= b <= |s|
    ensures s[..a] + s[a..b] == s[..b]
  {
  }

  lemma TotalLengthStep(p: seq<array<byte>>, i: nat)
    requires i < |p|
    ensures TotalLength(p[i..]) == p[i].Length + TotalLength(p[i + 1..])
  {
    assert p[i..][1..] == p[i + 1..];
  }

  lemma WholeChain(p: seq<array<byte>>)
    ensures TotalLength(p[|p|..]) == 0 && ChainBytes(p[..|p|]) == ChainBytes(p)
  {
    assert p[..|p|] == p;
  }

  /** The bytes of a chain of pbufs. */
  ghost function ChainBytes(p: seq<array<byte>>): seq<byte>
    reads p
  {
    if p == [] then [] else p[0][..] + ChainBytes(p[1..])
  }

  lemma {:induction false} ChainBytesPrefix(p: seq<array<byte>>, i: nat)
    requires i < |p|
    ensures ChainBytes(p[..i + 1]) == ChainBytes(p[..i]) + p[i][..]
  {
    if i == 0 {
      assert p[..1][1..] == [] && p[..0] == [];
    } else {
      ChainBytesPrefix(p[1..], i - 1);
      assert p[..i + 1][1..] == p[1..][..i] && p[..i][1..] == p[1..][..i - 1];
    }
  }

  /** What a chain sent by one interface brings the other: the receiving chain holds
      the bytes of the sending chain, however differently the two are cut.  The wire
      adds a checksum that the receiving side stores but does not count. */
  method Loopback(tx: Ring, rx: Ring, p: seq<seq<byte>>, q: seq<array<byte>>, crc: seq<byte>) returns (sent: bool)
    requires tx.Valid() && rx.Valid() && rx.segCount == 0
    requires tx != rx && tx.data != rx.data && tx.desc != rx.desc
    requires |crc| == 4 && 0 < |Flatten(p)| < 0x4000 - 4
    requires var m := |Segments(Flatten(p) + crc, rx.size)|;
      m <= rx.n && forall j :: 0 <= j < m ==> Hop(rx.scan, j, rx.n) < rx.n && rx.desc[Hop(rx.scan, j, rx.n)].own
    requires |Segments(Flatten(p), tx.size)| <= tx.n
    requires q != [] && TotalLength(q) == |Flatten(p)| && Distinct(q)
    modifies tx, tx.data, tx.desc, rx, rx.data, rx.desc, q
    ensures sent <==> !old(tx.Blocked(tx.current, |Segments(Flatten(p), tx.size)|))
    ensures sent ==> ChainBytes(q) == Flatten(p)
  {
    ghost var start := tx.current;
    var frame := Flatten(p);
    var wire := frame + crc;
    assert wire[..|wire| - 4] == frame;
    var r := tx.Transmit(p);
    if r == ErrUse {
      return false;
    }
    assert tx.Fetched(start, |Segments(frame, tx.size)|) == frame;
    rx.Deliver(wire);
    ghost var visited;
    sent, visited := rx.Receive(q, rx.scan, wire, |Segments(wire, rx.size)|);
  }
}
