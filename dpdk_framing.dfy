/** The application framing that `dpdk_sendto` writes after the 42 header
    bytes and `dpdk_recvfrom` reads back (src/c++/apps/echo/dpdk_common.cpp):
    an 8-byte segment count, then for each segment in order an 8-byte
    length and the segment's bytes.  The 8-byte fields are host (little
    endian) `uint64_t` values. */
module DpdkFraming {
  import opened Bytes
  import opened Options
  import opened Wire

  const SLOT_LEN: nat := 8

  /** The count and every length fit the 64-bit fields that carry them. */
  predicate SgFits(sga: SgArray)
  {
    && |sga| < 0x1_0000_0000_0000_0000
    && forall i :: 0 <= i < |sga| ==> |sga[i]| < 0x1_0000_0000_0000_0000
  }

  lemma SgFitsTail(sga: SgArray)
    requires SgFits(sga) && sga != []
    ensures SgFits(sga[1..])
  {
    var t := sga[1..];
    forall i | 0 <= i < |t| ensures |t[i]| < 0x1_0000_0000_0000_0000 {
      assert t[i] == sga[i + 1];
    }
  }

  lemma SgFitsPrefix(sga: SgArray, i: nat)
    requires SgFits(sga) && i <= |sga|
    ensures SgFits(sga[..i])
  {
    var p := sga[..i];
    forall j | 0 <= j < |p| ensures |p[j]| < 0x1_0000_0000_0000_0000 {
      assert p[j] == sga[j];
    }
  }

  /** The length fields and bytes of the segments. */
  function EncodeSegs(sga: SgArray): seq<u8>
    requires SgFits(sga)
  {
    if sga == [] then []
    else
      SgFitsTail(sga);
      LE64(|sga[0]|) + sga[0] + EncodeSegs(sga[1..])
  }

  /** The whole framing: count, then the segments. */
  function EncodeFraming(sga: SgArray): seq<u8>
    requires SgFits(sga)
  {
    LE64(|sga|) + EncodeSegs(sga)
  }

  /** `pkt_len` minus the headers: one slot for the count, and a slot and
      the bytes for every segment. */
  function FramingLen(sga: SgArray): nat
  {
    SLOT_LEN + SLOT_LEN * |sga| + TotalLen(sga)
  }

  lemma {:induction false} TotalLenCons(sga: SgArray)
    requires sga != []
    ensures TotalLen(sga) == |sga[0]| + TotalLen(sga[1..])
    decreases |sga|
  {
    if |sga| > 1 {
      var init := sga[..|sga| - 1];
      TotalLenCons(init);
      assert init[1..] == sga[1..][..|sga[1..]| - 1];
      assert init[0] == sga[0];
    } else {
      assert sga[1..] == [];
      assert sga[..0] == [];
    }
  }

  lemma {:induction false} EncodeSegsLength(sga: SgArray)
    requires SgFits(sga)
    ensures |EncodeSegs(sga)| == SLOT_LEN * |sga| + TotalLen(sga)
    decreases |sga|
  {
    if sga != [] {
      EncodeSegsLength(sga[1..]);
      TotalLenCons(sga);
    }
  }

  lemma EncodeFramingLength(sga: SgArray)
    requires SgFits(sga)
    ensures |EncodeFraming(sga)| == FramingLen(sga)
  {
    EncodeSegsLength(sga);
  }

  /** Appending a segment appends its slot and bytes. */
  lemma {:induction false} EncodeSegsAppend(sga: SgArray, seg: seq<u8>)
    requires SgFits(sga + [seg]) && |seg| < 0x1_0000_0000_0000_0000
    ensures SgFits(sga)
    ensures EncodeSegs(sga + [seg]) == EncodeSegs(sga) + LE64(|seg|) + seg
    decreases |sga|
  {
    SgFitsPrefix(sga + [seg], |sga|);
    assert (sga + [seg])[..|sga|] == sga;
    var all := sga + [seg];
    SgFitsTail(all);
    if sga == [] {
      assert all[1..] == [];
    } else {
      assert all[1..] == sga[1..] + [seg];
      SgFitsTail(sga);
      EncodeSegsAppend(sga[1..], seg);
      assert all[0] == sga[0];
    }
  }

  /** The same, for the prefixes of an array the loop of `dpdk_sendto`
      walks. */
  lemma EncodeSegsSnoc(sga: SgArray, i: nat)
    requires SgFits(sga) && i < |sga|
    ensures SgFits(sga[..i]) && SgFits(sga[..i + 1])
    ensures EncodeSegs(sga[..i + 1]) == EncodeSegs(sga[..i]) + LE64(|sga[i]|) + sga[i]
  {
    SgFitsPrefix(sga, i + 1);
    assert sga[..i + 1] == sga[..i] + [sga[i]];
    EncodeSegsAppend(sga[..i], sga[i]);
  }

  /** Reading `k` segments starting at `pos`: the segments and where the
      next byte is, or None when the frame ends inside a field or a
      segment. */
  function ParseSegs(f: seq<u8>, pos: nat, k: nat): Option<(SgArray, nat)>
    decreases k
  {
    if k == 0 then Some(([], pos))
    else if pos + SLOT_LEN > |f| then None
    else
      var len := ReadLE64(f[pos..pos + SLOT_LEN]);
      if pos + SLOT_LEN + len > |f| then None
      else
        match ParseSegs(f, pos + SLOT_LEN + len, k - 1)
        case None => None
        case Some(r) => Some(([f[pos + SLOT_LEN..pos + SLOT_LEN + len]] + r.0, r.1))
  }

  /** The framing of a received frame: its segments, or None when the
      frame is too short for what its fields claim. */
  function ParseFraming(f: seq<u8>): Option<SgArray>
  {
    if |f| < HEADERS_LEN + SLOT_LEN then None
    else
      match ParseSegs(f, HEADERS_LEN + SLOT_LEN, ReadLE64(f[HEADERS_LEN..HEADERS_LEN + SLOT_LEN]))
      case None => None
      case Some(r) => Some(r.0)
  }

  /** Where `a + b + c` sits at `pos` in `f`, so do `a`, `b` and `c`. */
  lemma Split3(f: seq<u8>, pos: nat, a: seq<u8>, b: seq<u8>, c: seq<u8>)
    requires pos + |a + b + c| <= |f| && f[pos..pos + |a + b + c|] == a + b + c
    ensures f[pos..pos + |a|] == a
    ensures f[pos + |a|..pos + |a| + |b|] == b
    ensures f[pos + |a| + |b|..pos + |a| + |b| + |c|] == c
  {
    var w := a + b + c;
    forall k | 0 <= k < |a| ensures f[pos..pos + |a|][k] == a[k] {
      assert f[pos + k] == w[k];
    }
    forall k | 0 <= k < |b| ensures f[pos + |a|..pos + |a| + |b|][k] == b[k] {
      assert f[pos + |a| + k] == w[|a| + k];
    }
    forall k | 0 <= k < |c| ensures f[pos + |a| + |b|..pos + |a| + |b| + |c|][k] == c[k] {
      assert f[pos + |a| + |b| + k] == w[|a| + |b| + k];
    }
  }

  /** What `ParseSegs` returns once `acc` is put in front of its segments. */
  function Prepend(acc: SgArray, r: Option<(SgArray, nat)>): Option<(SgArray, nat)>
  {
    match r
    case None => None
    case Some(p) => Some((acc + p.0, p.1))
  }

  lemma HeadTail(sga: SgArray)
    requires sga != []
    ensures [sga[0]] + sga[1..] == sga
  {
  }

  lemma PrependNothing(r: Option<(SgArray, nat)>)
    ensures Prepend([], r) == r
  {
    match r
    case None =>
    case Some(p) => assert [] + p.0 == p.0;
  }

  lemma PrependTwice(a: SgArray, b: SgArray, r: Option<(SgArray, nat)>)
    ensures Prepend(a, Prepend(b, r)) == Prepend(a + b, r)
  {
    match r
    case None =>
    case Some(p) => assert a + (b + p.0) == a + b + p.0;
  }

  /** One step of `ParseSegs`: a length slot that reads `|s|` followed by
      the bytes `s`. */
  lemma ParseSegsStep(f: seq<u8>, pos: nat, k: nat, s: seq<u8>)
    requires k > 0 && pos + SLOT_LEN + |s| <= |f|
    requires ReadLE64(f[pos..pos + SLOT_LEN]) == |s|
    requires f[pos + SLOT_LEN..pos + SLOT_LEN + |s|] == s
    ensures ParseSegs(f, pos, k) == Prepend([s], ParseSegs(f, pos + SLOT_LEN + |s|, k - 1))
  {
  }

  /** Where an encoded array sits in `f`, its first segment parses and
      the encoding of the others follows it. */
  lemma ParseEncodeHead(f: seq<u8>, pos: nat, sga: SgArray)
    requires SgFits(sga) && sga != []
    requires pos + |EncodeSegs(sga)| <= |f| && f[pos..pos + |EncodeSegs(sga)|] == EncodeSegs(sga)
    ensures SgFits(sga[1..])
    ensures var next := pos + SLOT_LEN + |sga[0]|;
      var rest := EncodeSegs(sga[1..]);
      && next + |rest| == pos + |EncodeSegs(sga)|
      && f[next..next + |rest|] == rest
      && ParseSegs(f, pos, |sga|) == Prepend([sga[0]], ParseSegs(f, next, |sga| - 1))
  {
    SgFitsTail(sga);
    var s := sga[0];
    var rest := EncodeSegs(sga[1..]);
    assert EncodeSegs(sga) == LE64(|s|) + s + rest;
    Split3(f, pos, LE64(|s|), s, rest);
    ParseSegsStep(f, pos, |sga|, s);
  }

  lemma {:induction false} ParseEncodeSegs(f: seq<u8>, pos: nat, sga: SgArray)
    requires SgFits(sga)
    requires pos + |EncodeSegs(sga)| <= |f| && f[pos..pos + |EncodeSegs(sga)|] == EncodeSegs(sga)
    ensures ParseSegs(f, pos, |sga|) == Some((sga, pos + |EncodeSegs(sga)|))
    decreases |sga|
  {
    if sga != [] {
      ParseEncodeHead(f, pos, sga);
      var next: nat := pos + SLOT_LEN + |sga[0]|;
      var last := pos + |EncodeSegs(sga)|;
      ParseEncodeSegs(f, next, sga[1..]);
      assert ParseSegs(f, next, |sga| - 1) == Some((sga[1..], last));
      HeadTail(sga);
      assert Prepend([sga[0]], Some((sga[1..], last))) == Some((sga, last));
    }
  }

  /** Decoding what the encoder wrote gives back the segments, whatever
      the headers are and whatever follows the framing. */
  lemma FramingRoundTrip(h: seq<u8>, sga: SgArray, tail: seq<u8>)
    requires |h| == HEADERS_LEN && SgFits(sga)
    ensures ParseFraming(h + EncodeFraming(sga) + tail) == Some(sga)
  {
    var f := h + EncodeFraming(sga) + tail;
    var e := EncodeSegs(sga);
    assert f[HEADERS_LEN..HEADERS_LEN + SLOT_LEN] == LE64(|sga|);
    assert f[HEADERS_LEN + SLOT_LEN..HEADERS_LEN + SLOT_LEN + |e|] == e;
    ParseEncodeSegs(f, HEADERS_LEN + SLOT_LEN, sga);
  }

  /** The bookkeeping of one turn of the decoding loop. */
  lemma DecodeStep(f: seq<u8>, numBufs: nat, pos: nat, k: nat, sga: SgArray, seg: seq<u8>)
    requires k > 0 && pos + SLOT_LEN + |seg| <= |f|
    requires ReadLE64(f[pos..pos + SLOT_LEN]) == |seg|
    requires f[pos + SLOT_LEN..pos + SLOT_LEN + |seg|] == seg
    requires ParseSegs(f, HEADERS_LEN + SLOT_LEN, numBufs) == Prepend(sga, ParseSegs(f, pos, k))
    ensures ParseSegs(f, HEADERS_LEN + SLOT_LEN, numBufs)
         == Prepend(sga + [seg], ParseSegs(f, pos + SLOT_LEN + |seg|, k - 1))
    ensures TotalLen(sga + [seg]) == TotalLen(sga) + |seg|
  {
    ParseSegsStep(f, pos, k, seg);
    PrependTwice(sga, [seg], ParseSegs(f, pos + SLOT_LEN + |seg|, k - 1));
    TotalLenSnoc(sga + [seg], |sga|);
    assert (sga + [seg])[..|sga|] == sga;
    assert (sga + [seg])[..|sga| + 1] == sga + [seg];
  }

  /** The decoding loop of `dpdk_recvfrom`: the segments and the sum of
      their lengths (`data_len`). */
  method DecodeFraming(f: seq<u8>) returns (r: Option<SgArray>, dataLen: nat)
    ensures r == ParseFraming(f)
    ensures r.Some? ==> dataLen == TotalLen(r.value)
  {
    if |f| < HEADERS_LEN + SLOT_LEN {
      return None, 0;
    }
    var numBufs := ReadLE64(f[HEADERS_LEN..HEADERS_LEN + SLOT_LEN]);
    var pos: nat := HEADERS_LEN + SLOT_LEN;
    var sga: SgArray := [];
    dataLen := 0;
    var i: nat := 0;
    PrependNothing(ParseSegs(f, pos, numBufs));
    while i < numBufs
      invariant 0 <= i <= numBufs
      invariant |sga| == i && dataLen == TotalLen(sga)
      invariant ParseSegs(f, HEADERS_LEN + SLOT_LEN, numBufs) == Prepend(sga, ParseSegs(f, pos, numBufs - i))
    {
      if pos + SLOT_LEN > |f| {
        return None, 0;
      }
      var len := ReadLE64(f[pos..pos + SLOT_LEN]);
      if pos + SLOT_LEN + len > |f| {
        return None, 0;
      }
      var seg := f[pos + SLOT_LEN..pos + SLOT_LEN + len];
      DecodeStep(f, numBufs, pos, numBufs - i, sga, seg);
      sga := sga + [seg];
      dataLen := dataLen + len;
      pos := pos + SLOT_LEN + len;
      i := i + 1;
    }
    assert ParseSegs(f, pos, 0) == Some(([], pos));
    assert sga + [] == sga;
    return Some(sga), dataLen;
  }

  // The encoder as written: `*ptr = sga.num_bufs` and `*ptr =
  // sga.bufs[i].len` store through a `uint8_t *`, so each 8-byte slot gets
  // only the low byte of its value; the other seven bytes keep whatever
  // the packet buffer held there.  Below, `r` is the buffer from the first
  // framing byte on, as it was before the stores.

  /** Where the send loop's `ptr` is after `i` segments, counted from the
      first framing byte. */
  function FramingOffset(sga: SgArray, i: nat): nat
    requires i <= |sga|
  {
    SLOT_LEN + SLOT_LEN * i + TotalLen(sga[..i])
  }

  lemma TotalLenPrefixMono(sga: SgArray, i: nat, j: nat)
    requires i <= j <= |sga|
    ensures TotalLen(sga[..i]) <= TotalLen(sga[..j])
    decreases j
  {
    if i < j {
      TotalLenSnoc(sga, j - 1);
      TotalLenPrefixMono(sga, i, j - 1);
    }
  }

  /** One turn of the send loop moves `ptr` past a slot and a segment,
      and never past the end of the framing. */
  lemma OffsetStep(sga: SgArray, i: nat)
    requires i < |sga|
    ensures TotalLen(sga[..i + 1]) == TotalLen(sga[..i]) + |sga[i]|
    ensures FramingOffset(sga, i + 1) == FramingOffset(sga, i) + SLOT_LEN + |sga[i]| <= FramingLen(sga)
  {
    TotalLenSnoc(sga, i);
    TotalLenPrefixMono(sga, i + 1, |sga|);
    assert sga[..|sga|] == sga;
  }

  /** A slot as written at `at`: the low byte of `v`, then the seven
      bytes `r` held. */
  function SlotOver(r: seq<u8>, at: nat, v: nat): (s: seq<u8>)
    requires at + SLOT_LEN <= |r|
    ensures |s| == SLOT_LEN && s[0] == v % 256
  {
    [v % 256] + r[at + 1..at + SLOT_LEN]
  }

  /** The framing as written over `r` once `i` segments are stored: the
      count slot, then each stored segment's slot and bytes. */
  function FramingOver(r: seq<u8>, sga: SgArray, i: nat): (s: seq<u8>)
    requires i <= |sga| && FramingLen(sga) <= |r|
    ensures |s| == FramingOffset(sga, i)
    decreases i
  {
    if i == 0 then
      assert sga[..0] == [];
      SlotOver(r, 0, |sga|)
    else
      OffsetStep(sga, i - 1);
      FramingOver(r, sga, i - 1) + SlotOver(r, FramingOffset(sga, i - 1), |sga[i - 1]|) + sga[i - 1]
  }

  /** A buffer whose bytes are all zero. */
  predicate Zeroed(r: seq<u8>)
  {
    forall k :: 0 <= k < |r| ==> r[k] == 0
  }

  const ZERO_RESIDUE: seq<u8> := [0, 0, 0, 0, 0, 0, 0]

  lemma SlotBelow256(v: nat)
    requires v < 256
    ensures [v % 256] + ZERO_RESIDUE == LE64(v)
  {
    var s: seq<u8> := [v % 256] + ZERO_RESIDUE;
    LeBytesOfLeValue(s);
    assert LeValue(s) == v by {
      assert s[1..] == ZERO_RESIDUE;
      assert LeValue(ZERO_RESIDUE) == 0 by {
        var z := ZERO_RESIDUE;
        assert z[1..][1..][1..][1..][1..][1..][1..] == [];
      }
    }
  }

  /** In a zeroed buffer a one-byte store writes the whole slot as long
      as the value is below 256. */
  lemma SlotOverZeroed(r: seq<u8>, at: nat, v: nat)
    requires at + SLOT_LEN <= |r| && Zeroed(r) && v < 256
    ensures SlotOver(r, at, v) == LE64(v)
  {
    assert r[at + 1..at + SLOT_LEN] == ZERO_RESIDUE;
    SlotBelow256(v);
  }

  lemma {:induction false} FramingOverZeroed(r: seq<u8>, sga: SgArray, i: nat)
    requires FramingLen(sga) <= |r| && Zeroed(r) && i <= |sga|
    requires |sga| < 256 && forall j :: 0 <= j < |sga| ==> |sga[j]| < 256
    ensures SgFits(sga) && SgFits(sga[..i])
    ensures FramingOver(r, sga, i) == LE64(|sga|) + EncodeSegs(sga[..i])
    decreases i
  {
    assert SgFits(sga);
    SgFitsPrefix(sga, i);
    if i == 0 {
      SlotOverZeroed(r, 0, |sga|);
      assert sga[..0] == [];
    } else {
      FramingOverZeroed(r, sga, i - 1);
      ZeroedStep(r, sga, i - 1);
    }
  }

  lemma ZeroedStep(r: seq<u8>, sga: SgArray, i: nat)
    requires FramingLen(sga) <= |r| && Zeroed(r) && i < |sga|
    requires SgFits(sga) && |sga[i]| < 256
    requires FramingOver(r, sga, i) == LE64(|sga|) + EncodeSegs(sga[..i])
    ensures SgFits(sga[..i + 1])
    ensures FramingOver(r, sga, i + 1) == LE64(|sga|) + EncodeSegs(sga[..i + 1])
  {
    OffsetStep(sga, i);
    var s := sga[i];
    var slot := SlotOver(r, FramingOffset(sga, i), |s|);
    SlotOverZeroed(r, FramingOffset(sga, i), |s|);
    EncodeSegsSnoc(sga, i);
    var e := EncodeSegs(sga[..i]);
    var c := LE64(|sga|);
    calc {
      FramingOver(r, sga, i + 1);
      FramingOver(r, sga, i) + slot + s;
      c + e + LE64(|s|) + s;
      { Assoc4(c, e, LE64(|s|), s); }
      c + EncodeSegs(sga[..i + 1]);
    }
  }

  lemma Assoc4(a: seq<u8>, b: seq<u8>, c: seq<u8>, d: seq<u8>)
    ensures a + b + c + d == a + (b + c + d)
  {
  }

  /** Over a zeroed buffer, with a count and lengths below 256, the stores
      as written leave exactly the encoding the decoder expects. */
  lemma AsWrittenAgreesBelow256(r: seq<u8>, sga: SgArray)
    requires FramingLen(sga) <= |r| && Zeroed(r)
    requires |sga| < 256 && forall i :: 0 <= i < |sga| ==> |sga[i]| < 256
    ensures SgFits(sga) && FramingOver(r, sga, |sga|) == EncodeFraming(sga)
  {
    FramingOverZeroed(r, sga, |sga|);
    assert sga[..|sga|] == sga;
  }

  /** A 256-byte segment over a zeroed buffer: its slot stores 0. */
  lemma LongSegmentSlots(r: seq<u8>, seg: seq<u8>)
    requires |seg| == 256 && FramingLen([seg]) <= |r| && Zeroed(r)
    ensures FramingOver(r, [seg], 1) == LE64(1) + LE64(0) + seg
  {
    assert FramingOffset([seg], 0) == SLOT_LEN by {
      assert [seg][..0] == [];
    }
    assert FramingOver(r, [seg], 1) == FramingOver(r, [seg], 0) + SlotOver(r, SLOT_LEN, 256) + seg;
    SlotOverZeroed(r, 0, 1);
    SlotOverZeroed(r, SLOT_LEN, 0);
    assert SlotOver(r, SLOT_LEN, 256) == SlotOver(r, SLOT_LEN, 0);
  }

  /** The defect: a 256-byte segment written into a zeroed buffer comes
      back as one empty segment, its length slot reading 0. */
  lemma AsWrittenLosesLongSegment(h: seq<u8>, r: seq<u8>, seg: seq<u8>, tail: seq<u8>)
    requires |h| == HEADERS_LEN && |seg| == 256
    requires FramingLen([seg]) <= |r| && Zeroed(r)
    ensures ParseFraming(h + FramingOver(r, [seg], 1) + tail) == Some([[]])
  {
    var e := FramingOver(r, [seg], 1);
    var f := h + e + tail;
    LongSegmentSlots(r, seg);
    assert f[HEADERS_LEN..HEADERS_LEN + |e|] == e;
    Split3(f, HEADERS_LEN, LE64(1), LE64(0), seg);
    assert ReadLE64(f[HEADERS_LEN..HEADERS_LEN + SLOT_LEN]) == 1;
    assert ReadLE64(f[HEADERS_LEN + SLOT_LEN..HEADERS_LEN + SLOT_LEN + SLOT_LEN]) == 0;
    ParseSegsStep(f, HEADERS_LEN + SLOT_LEN, 1, []);
    var end: nat := HEADERS_LEN + 2 * SLOT_LEN;
    var none: SgArray := [];
    assert ParseSegs(f, end, 0) == Some((none, end));
    var empty: seq<u8> := [];
    assert [empty] + none == [empty];
    assert ParseSegs(f, HEADERS_LEN + SLOT_LEN, 1) == Some(([empty], end));
  }
}
