/** The device side: the CRC over live flash, computed at boot from the
    linker's boundary symbols. Flash is a byte sequence indexed by
    address; the symbols are parameters; whether the device has a
    separate rodata MEMORY region is a flag of the symbol set. */
module CrcFlash {
  import opened Crc16

  /** The addresses get_flash_crc works from: __vectors, crc_value,
      __data_load_end and, when there is a rodata MEMORY region,
      __rodata_load_start and __rodata_load_end. */
  datatype Symbols = Symbols(
    vectors: nat,
    crcValue: nat,
    dataLoadEnd: nat,
    hasRodataRegion: bool,
    rodataLoadStart: nat,
    rodataLoadEnd: nat)

  /** A range of flash addresses, both ends included. */
  datatype Region = Region(first: nat, last: nat)

  /** What the traversal needs of the link: region 1 is not empty (it is
      folded without a guard), the slot lies below the end of the data
      load image, and the rodata region does not end before it starts. */
  predicate Layout(s: Symbols) {
    && s.vectors < s.crcValue
    && s.crcValue + CrcSize <= s.dataLoadEnd
    && (s.hasRodataRegion ==> s.rodataLoadStart <= s.rodataLoadEnd)
  }

  /** Every address the symbols name lies inside flash. */
  predicate WithinFlash(s: Symbols, size: nat) {
    s.dataLoadEnd <= size && (s.hasRodataRegion ==> s.rodataLoadEnd <= size)
  }

  /** The rodata region, when there is one, lies apart from the image
      [__vectors, __data_load_end). */
  predicate RodataApart(s: Symbols) {
    s.hasRodataRegion ==> s.rodataLoadEnd <= s.vectors || s.dataLoadEnd <= s.rodataLoadStart
  }

  /** The addresses whose bytes the checksum is meant to cover: the image
      up to the slot, the image after the slot, and the rodata region. */
  predicate Protected(s: Symbols, a: nat) {
    || s.vectors <= a < s.crcValue
    || s.crcValue + CrcSize <= a < s.dataLoadEnd
    || (s.hasRodataRegion && s.rodataLoadStart <= a < s.rodataLoadEnd)
  }

  predicate InRegion(r: Region, a: nat) {
    r.first <= a <= r.last
  }

  predicate Covered(rs: seq<Region>, a: nat) {
    exists i :: 0 <= i < |rs| && InRegion(rs[i], a)
  }

  /** No two regions share an address. */
  predicate Disjoint(rs: seq<Region>) {
    forall i, j :: 0 <= i < j < |rs| ==> rs[i].last < rs[j].first || rs[j].last < rs[i].first
  }

  /** Every region is a non-empty range of flash. */
  predicate InFlash(rs: seq<Region>, size: nat) {
    forall i :: 0 <= i < |rs| ==> rs[i].first <= rs[i].last < size
  }

  /** The regions get_flash_crc folds, in order: [__vectors, crc_value-1];
      then, unless it is empty, [crc_value+2, __data_load_end-1]; then,
      with a rodata region and unless it is empty,
      [__rodata_load_start, __rodata_load_end-1]. */
  function Plan(s: Symbols): seq<Region>
    requires Layout(s)
  {
    [Region(s.vectors, s.crcValue - 1)] + DataPart(s) + RodataPart(s)
  }

  /** Region 2, or nothing when crc_value + 2 == __data_load_end. */
  function DataPart(s: Symbols): seq<Region>
    requires Layout(s)
  {
    var start2, end2 := s.crcValue + CrcSize, s.dataLoadEnd;
    if start2 != end2 then [Region(start2, end2 - 1)] else []
  }

  /** Region 3, or nothing without a rodata region or when it is empty. */
  function RodataPart(s: Symbols): seq<Region>
    requires Layout(s)
  {
    var start3, end3 := s.rodataLoadStart, s.rodataLoadEnd;
    if s.hasRodataRegion && start3 != end3 then [Region(start3, end3 - 1)] else []
  }

  /** The plan covers exactly the protected addresses and never the slot;
      no region is empty; region 1 comes first, region 2 is present exactly
      when it is non-empty, and the rodata region, when non-empty, comes
      last. */
  lemma PlanShape(s: Symbols)
    requires Layout(s)
    ensures var rs := Plan(s);
      && 1 <= |rs| <= 3
      && rs[0] == Region(s.vectors, s.crcValue - 1)
      && (forall i :: 0 <= i < |rs| ==> rs[i].first <= rs[i].last)
      && (forall a: nat :: Covered(rs, a) <==> Protected(s, a))
      && (RodataApart(s) ==> !Covered(rs, s.crcValue) && !Covered(rs, s.crcValue + 1))
      && ((|rs| >= 2 && rs[1] == Region(s.crcValue + CrcSize, s.dataLoadEnd - 1))
          <==> s.crcValue + CrcSize != s.dataLoadEnd)
      && (s.hasRodataRegion && s.rodataLoadStart != s.rodataLoadEnd ==>
          rs[|rs| - 1] == Region(s.rodataLoadStart, s.rodataLoadEnd - 1))
  {
    var rs := Plan(s);
    forall a: nat ensures Covered(rs, a) <==> Protected(s, a) {
      if Protected(s, a) {
        if s.vectors <= a < s.crcValue {
          assert InRegion(rs[0], a);
        } else if s.crcValue + CrcSize <= a < s.dataLoadEnd {
          assert InRegion(rs[1], a);
        } else {
          assert InRegion(rs[|rs| - 1], a);
        }
      }
    }
  }

  /** The bytes of one region, in increasing address order (nothing for
      a region that is empty or runs past the end of flash). */
  function Bytes(flash: seq<bv8>, r: Region): seq<bv8> {
    if r.first <= r.last < |flash| then flash[r.first..r.last + 1] else []
  }

  /** The bytes the regions name, region after region. */
  function Stream(flash: seq<bv8>, rs: seq<Region>): seq<bv8>
    decreases |rs|
  {
    if |rs| == 0 then []
    else Stream(flash, rs[..|rs| - 1]) + Bytes(flash, rs[|rs| - 1])
  }

  /** The CRC get_flash_crc returns for this flash image. */
  function DeviceCrc(flash: seq<bv8>, s: Symbols): bv16
    requires Layout(s) && WithinFlash(s, |flash|)
  {
    Fold(0, Stream(flash, Plan(s)))
  }

  /** Fold the ROM locations start..end, both included, into crc: the stop
      test comes after the fold, so the byte at end is folded. */
  method CrcUpdateFromFlash(crc: bv16, flash: seq<bv8>, start: nat, end: nat) returns (r: bv16)
    requires start <= end < |flash|
    ensures r == Fold(crc, flash[start..end + 1])
  {
    r := crc;
    var addr := start;
    while true
      invariant start <= addr <= end
      invariant r == Fold(crc, flash[start..addr])
      decreases end - addr
    {
      ghost var done := flash[start..addr];
      r := Crc16Update(r, flash[addr]);
      FoldSnoc(crc, done, flash[addr]);
      assert done + [flash[addr]] == flash[start..addr + 1];
      if addr == end {
        break;
      }
      addr := addr + 1;
    }
  }

  /** One more region appends its bytes to the stream. */
  lemma StreamSnoc(flash: seq<bv8>, rs: seq<Region>, r: Region)
    ensures Stream(flash, rs + [r]) == Stream(flash, rs) + Bytes(flash, r)
  {
    assert (rs + [r])[..|rs|] == rs;
  }

  /** The CRC over regions 1, 2 and, with a rodata region, 3, starting
      from 0 like the host generator. */
  method GetFlashCrc(flash: seq<bv8>, s: Symbols) returns (crc: bv16)
    requires Layout(s) && WithinFlash(s, |flash|)
    ensures crc == DeviceCrc(flash, s)
  {
    crc := 0;
    var start1 := s.vectors;
    var end1 := s.crcValue;
    crc := CrcUpdateFromFlash(crc, flash, start1, end1 - 1);
    RegionOneStep(flash, s, crc);
    ghost var afterOne := crc;

    var start2 := end1 + CrcSize;
    var end2 := s.dataLoadEnd;
    if start2 != end2 {
      crc := CrcUpdateFromFlash(crc, flash, start2, end2 - 1);
      DataStep(flash, s, afterOne, crc);
    } else {
      DataSkipped(flash, s, crc);
    }
    ghost var afterTwo := crc;

    if s.hasRodataRegion {
      var start3 := s.rodataLoadStart;
      var end3 := s.rodataLoadEnd;
      if start3 != end3 {
        crc := CrcUpdateFromFlash(crc, flash, start3, end3 - 1);
        RodataStep(flash, s, afterTwo, crc);
      } else {
        RodataSkipped(flash, s, crc);
      }
    } else {
      RodataSkipped(flash, s, crc);
    }
    DeviceCrcByRegion(flash, s);
  }

  /** Region 1 folds the image from __vectors up to the slot. */
  lemma RegionOneStep(flash: seq<bv8>, s: Symbols, after: bv16)
    requires Layout(s) && WithinFlash(s, |flash|)
    requires after == Fold(0, flash[s.vectors..s.crcValue - 1 + 1])
    ensures after == Fold(0, RegionOne(flash, s))
  {
  }

  /** An empty region 2 is skipped, and there are no data bytes. */
  lemma DataSkipped(flash: seq<bv8>, s: Symbols, crc: bv16)
    requires Layout(s) && WithinFlash(s, |flash|)
    requires s.crcValue + CrcSize == s.dataLoadEnd
    ensures crc == Fold(crc, DataBytes(flash, s))
  {
    FoldEmpty(crc);
  }

  /** Without a non-empty rodata region, region 3 is skipped and there
      are no rodata bytes. */
  lemma RodataSkipped(flash: seq<bv8>, s: Symbols, crc: bv16)
    requires Layout(s) && WithinFlash(s, |flash|)
    requires !(s.hasRodataRegion && s.rodataLoadStart != s.rodataLoadEnd)
    ensures crc == Fold(crc, RodataBytes(flash, s))
  {
    FoldEmpty(crc);
  }

  /** A non-empty region 2 folds the data bytes. */
  lemma DataStep(flash: seq<bv8>, s: Symbols, before: bv16, after: bv16)
    requires Layout(s) && WithinFlash(s, |flash|)
    requires s.crcValue + CrcSize != s.dataLoadEnd
    requires after == Fold(before, flash[s.crcValue + CrcSize..s.dataLoadEnd - 1 + 1])
    ensures after == Fold(before, DataBytes(flash, s))
  {
  }

  /** A non-empty rodata region folds the rodata bytes. */
  lemma RodataStep(flash: seq<bv8>, s: Symbols, before: bv16, after: bv16)
    requires Layout(s) && WithinFlash(s, |flash|)
    requires s.hasRodataRegion && s.rodataLoadStart != s.rodataLoadEnd
    requires after == Fold(before, flash[s.rodataLoadStart..s.rodataLoadEnd - 1 + 1])
    ensures after == Fold(before, RodataBytes(flash, s))
  {
  }

  function RegionOne(flash: seq<bv8>, s: Symbols): seq<bv8>
    requires Layout(s) && WithinFlash(s, |flash|)
  {
    flash[s.vectors..s.crcValue]
  }

  function DataBytes(flash: seq<bv8>, s: Symbols): seq<bv8>
    requires Layout(s) && WithinFlash(s, |flash|)
  {
    if s.crcValue + CrcSize != s.dataLoadEnd then flash[s.crcValue + CrcSize..s.dataLoadEnd] else []
  }

  lemma DeviceCrcByRegion(flash: seq<bv8>, s: Symbols)
    requires Layout(s) && WithinFlash(s, |flash|)
    ensures DeviceCrc(flash, s)
         == Fold(Fold(Fold(0, RegionOne(flash, s)), DataBytes(flash, s)), RodataBytes(flash, s))
  {
    PlanStream(flash, s);
    FoldAppend(0, RegionOne(flash, s) + DataBytes(flash, s), RodataBytes(flash, s));
    FoldAppend(0, RegionOne(flash, s), DataBytes(flash, s));
  }

  /** The bytes of regions 1 and 2: the image from __vectors up to
      __data_load_end without the two slot bytes. */
  function ImageBytes(flash: seq<bv8>, s: Symbols): seq<bv8>
    requires Layout(s) && WithinFlash(s, |flash|)
  {
    RegionOne(flash, s) + DataBytes(flash, s)
  }

  /** The bytes of region 3, if it is folded. */
  function RodataBytes(flash: seq<bv8>, s: Symbols): seq<bv8>
    requires Layout(s) && WithinFlash(s, |flash|)
  {
    if s.hasRodataRegion && s.rodataLoadStart != s.rodataLoadEnd
    then flash[s.rodataLoadStart..s.rodataLoadEnd] else []
  }

  /** The stream of the plan: the image without the slot, then the rodata
      region. */
  lemma PlanStream(flash: seq<bv8>, s: Symbols)
    requires Layout(s) && WithinFlash(s, |flash|)
    ensures Stream(flash, Plan(s)) == ImageBytes(flash, s) + RodataBytes(flash, s)
  {
    ImageStream(flash, s);
    if s.hasRodataRegion && s.rodataLoadStart != s.rodataLoadEnd {
      PlanWithRodata(flash, s);
    } else {
      PlanWithoutRodata(flash, s);
    }
  }

  /** With a non-empty rodata region, its bytes follow those of the image. */
  lemma PlanWithRodata(flash: seq<bv8>, s: Symbols)
    requires Layout(s) && WithinFlash(s, |flash|)
    requires s.hasRodataRegion && s.rodataLoadStart != s.rodataLoadEnd
    ensures Stream(flash, Plan(s))
         == Stream(flash, [Region(s.vectors, s.crcValue - 1)] + DataPart(s)) + RodataBytes(flash, s)
  {
    var image := [Region(s.vectors, s.crcValue - 1)] + DataPart(s);
    var r3 := Region(s.rodataLoadStart, s.rodataLoadEnd - 1);
    assert Plan(s) == image + [r3] by {
      RodataLast(s);
    }
    assert Stream(flash, image + [r3]) == Stream(flash, image) + Bytes(flash, r3) by {
      StreamSnoc(flash, image, r3);
    }
    assert Bytes(flash, r3) == RodataBytes(flash, s);
  }

  /** With a non-empty rodata region, the plan is the image's regions and
      then that region. */
  lemma RodataLast(s: Symbols)
    requires Layout(s)
    requires s.hasRodataRegion && s.rodataLoadStart != s.rodataLoadEnd
    ensures Plan(s) == [Region(s.vectors, s.crcValue - 1)] + DataPart(s) + [Region(s.rodataLoadStart, s.rodataLoadEnd - 1)]
  {
    assert RodataPart(s) == [Region(s.rodataLoadStart, s.rodataLoadEnd - 1)];
  }

  /** Without one, the plan is the image alone. */
  lemma PlanWithoutRodata(flash: seq<bv8>, s: Symbols)
    requires Layout(s) && WithinFlash(s, |flash|)
    requires !(s.hasRodataRegion && s.rodataLoadStart != s.rodataLoadEnd)
    ensures Plan(s) == [Region(s.vectors, s.crcValue - 1)] + DataPart(s)
    ensures RodataBytes(flash, s) == []
  {
    assert RodataPart(s) == [];
  }

  /** The stream of regions 1 and 2. */
  lemma ImageStream(flash: seq<bv8>, s: Symbols)
    requires Layout(s) && WithinFlash(s, |flash|)
    ensures Stream(flash, [Region(s.vectors, s.crcValue - 1)] + DataPart(s)) == ImageBytes(flash, s)
  {
    RegionOneStream(flash, s);
    if s.crcValue + CrcSize != s.dataLoadEnd {
      ImageWithData(flash, s);
    } else {
      ImageWithoutData(flash, s);
    }
  }

  lemma ImageWithData(flash: seq<bv8>, s: Symbols)
    requires Layout(s) && WithinFlash(s, |flash|)
    requires s.crcValue + CrcSize != s.dataLoadEnd
    ensures Stream(flash, [Region(s.vectors, s.crcValue - 1)] + DataPart(s))
         == Stream(flash, [Region(s.vectors, s.crcValue - 1)]) + DataBytes(flash, s)
  {
    var r2 := Region(s.crcValue + CrcSize, s.dataLoadEnd - 1);
    DataSecond(flash, s);
    StreamSnoc(flash, [Region(s.vectors, s.crcValue - 1)], r2);
  }

  /** A non-empty region 2 is the one region of DataPart, and its bytes are
      DataBytes. */
  lemma DataSecond(flash: seq<bv8>, s: Symbols)
    requires Layout(s) && WithinFlash(s, |flash|)
    requires s.crcValue + CrcSize != s.dataLoadEnd
    ensures DataPart(s) == [Region(s.crcValue + CrcSize, s.dataLoadEnd - 1)]
    ensures Bytes(flash, Region(s.crcValue + CrcSize, s.dataLoadEnd - 1)) == DataBytes(flash, s)
  {
  }

  lemma ImageWithoutData(flash: seq<bv8>, s: Symbols)
    requires Layout(s) && WithinFlash(s, |flash|)
    requires s.crcValue + CrcSize == s.dataLoadEnd
    ensures [Region(s.vectors, s.crcValue - 1)] + DataPart(s) == [Region(s.vectors, s.crcValue - 1)]
    ensures DataBytes(flash, s) == []
  {
  }

  /** Region 1 alone streams the image up to the slot. */
  lemma RegionOneStream(flash: seq<bv8>, s: Symbols)
    requires Layout(s) && WithinFlash(s, |flash|)
    ensures Stream(flash, [Region(s.vectors, s.crcValue - 1)]) == RegionOne(flash, s)
  {
    var r1 := Region(s.vectors, s.crcValue - 1);
    StreamSnoc(flash, [], r1);
    assert [] + [r1] == [r1];
  }

  /** The little-endian 16-bit word at address at: flash[at] is its low
      byte and flash[at + 1] its high byte. */
  function ReadWord(flash: seq<bv8>, at: nat): (r: bv16)
    requires at + 2 <= |flash|
    ensures (r & 0xFF) as bv8 == flash[at] && (r >> 8) as bv8 == flash[at + 1]
  {
    (flash[at + 1] as bv16 << 8) | flash[at] as bv16
  }

  /** The little-endian 32-bit word at address at: the word at at is its
      low half and the word at at + 2 its high half. */
  function ReadDword(flash: seq<bv8>, at: nat): (r: bv32)
    requires at + 4 <= |flash|
    ensures (r & 0xFFFF) as bv16 == ReadWord(flash, at)
    ensures (r >> 16) as bv16 == ReadWord(flash, at + 2)
  {
    (ReadWord(flash, at + 2) as bv32 << 16) | ReadWord(flash, at) as bv32
  }

  /** read_crc_value for a crc_t of width bytes: a 2-byte read, a 4-byte
      read narrowed to the 16-bit crc_t, or 0 for any other width. Both
      reads yield the little-endian word in the slot. */
  function ReadCrcValue(flash: seq<bv8>, at: nat, width: nat): (r: bv16)
    requires width == 2 || width == 4 ==> at + width <= |flash|
    ensures width == 2 || width == 4 ==> r == ReadWord(flash, at)
    ensures width != 2 && width != 4 ==> r == 0
  {
    if width == 2 then ReadWord(flash, at)
    else if width == 4 then (ReadDword(flash, at) & 0xFFFF) as bv16
    else 0
  }

  /** The boot check: the firmware carries on only when the CRC over flash
      equals the value stored in the slot. */
  predicate BootAccepts(flash: seq<bv8>, s: Symbols)
    requires Layout(s) && WithinFlash(s, |flash|) && s.crcValue + CrcSize <= |flash|
  {
    DeviceCrc(flash, s) == ReadCrcValue(flash, s.crcValue, CrcSize)
  }

  // ---------------------------------------------------------------------
  // Properties of the plan and of the traversal

  /** The regions are pairwise disjoint when the rodata region lies apart
      from the image. */
  lemma PlanDisjoint(s: Symbols)
    requires Layout(s) && RodataApart(s)
    ensures Disjoint(Plan(s))
  {
  }

  /** Two images that agree at every covered address give the same
      stream. */
  lemma {:induction false} StreamAgrees(flash: seq<bv8>, flash': seq<bv8>, rs: seq<Region>)
    requires |flash| == |flash'| && InFlash(rs, |flash|)
    requires forall a :: 0 <= a < |flash| && Covered(rs, a) ==> flash[a] == flash'[a]
    ensures Stream(flash, rs) == Stream(flash', rs)
    decreases |rs|
  {
    if |rs| > 0 {
      var init, r := rs[..|rs| - 1], rs[|rs| - 1];
      forall a | 0 <= a < |flash| && Covered(init, a) ensures flash[a] == flash'[a] {
        var i :| 0 <= i < |init| && InRegion(init[i], a);
        assert InRegion(rs[i], a);
      }
      StreamAgrees(flash, flash', init);
      forall a | 0 <= a < |flash| && InRegion(r, a) ensures flash[a] == flash'[a] {
        assert InRegion(rs[|rs| - 1], a);
      }
      BytesAgree(flash, flash', r);
    }
  }

  /** Two images that agree inside a region give the same bytes for it. */
  lemma BytesAgree(flash: seq<bv8>, flash': seq<bv8>, r: Region)
    requires |flash| == |flash'|
    requires forall a :: 0 <= a < |flash| && InRegion(r, a) ==> flash[a] == flash'[a]
    ensures Bytes(flash, r) == Bytes(flash', r)
  {
    if r.first <= r.last < |flash| {
      assert flash[r.first..r.last + 1] == flash'[r.first..r.last + 1];
    }
  }

  /** The two bytes of the slot never influence the CRC over flash. */
  lemma DeviceIgnoresSlot(flash: seq<bv8>, flash': seq<bv8>, s: Symbols)
    requires Layout(s) && WithinFlash(s, |flash|) && RodataApart(s)
    requires |flash'| == |flash|
    requires forall a :: 0 <= a < |flash| && a != s.crcValue && a != s.crcValue + 1 ==> flash[a] == flash'[a]
    ensures DeviceCrc(flash, s) == DeviceCrc(flash', s)
  {
    PlanShape(s);
    StreamAgrees(flash, flash', Plan(s));
  }

  /** The premise of DeviceIgnoresSlot is needed: with a rodata region laid
      over the slot, get_flash_crc reads the slot's low byte, and changing
      it changes the CRC. */
  lemma OverlappingRodataReadsSlot(flash: seq<bv8>, v: bv8)
    requires |flash| >= 4 && v != flash[2]
    ensures var s := Symbols(0, 2, 4, true, 2, 3);
      && Layout(s) && WithinFlash(s, |flash|) && !RodataApart(s)
      && DeviceCrc(flash[2 := v], s) != DeviceCrc(flash, s)
  {
    var s := Symbols(0, 2, 4, true, 2, 3);
    var rs := Plan(s);
    assert rs == [Region(0, 1), Region(2, 2)];
    assert InRegion(rs[1], 2);
    var p, q := StreamChanged(flash, rs, 2, v);
    SingleByteChangeDetected(0, p, v, flash[2], q);
  }

  /** Writing an address outside a region leaves its bytes as they were. */
  lemma BytesUnchanged(flash: seq<bv8>, r: Region, a: nat, v: bv8)
    requires a < |flash| && !InRegion(r, a)
    ensures Bytes(flash[a := v], r) == Bytes(flash, r)
  {
    if r.first <= r.last < |flash| {
      assert flash[a := v][r.first..r.last + 1] == flash[r.first..r.last + 1];
    }
  }

  /** Writing an address inside a region changes that one byte of it. */
  lemma BytesChanged(flash: seq<bv8>, r: Region, a: nat, v: bv8) returns (p: seq<bv8>, q: seq<bv8>)
    requires r.last < |flash| && InRegion(r, a)
    ensures Bytes(flash, r) == p + [flash[a]] + q
    ensures Bytes(flash[a := v], r) == p + [v] + q
  {
    p, q := flash[r.first..a], flash[a + 1..r.last + 1];
    assert flash[r.first..r.last + 1] == p + [flash[a]] + q;
    assert flash[a := v][r.first..r.last + 1] == p + [v] + q;
  }

  /** Writing an address no region covers leaves the stream as it was. */
  lemma {:induction false} StreamUnchanged(flash: seq<bv8>, rs: seq<Region>, a: nat, v: bv8)
    requires a < |flash| && !Covered(rs, a)
    ensures Stream(flash[a := v], rs) == Stream(flash, rs)
    decreases |rs|
  {
    if |rs| > 0 {
      var init := rs[..|rs| - 1];
      assert !InRegion(rs[|rs| - 1], a);
      assert !Covered(init, a) by {
        forall i | 0 <= i < |init| ensures !InRegion(init[i], a) {
          assert init[i] == rs[i];
        }
      }
      StreamUnchanged(flash, init, a, v);
      BytesUnchanged(flash, rs[|rs| - 1], a, v);
    }
  }

  /** Writing an address that exactly one region covers changes exactly
      one byte of the stream. */
  lemma {:induction false} StreamChanged(flash: seq<bv8>, rs: seq<Region>, a: nat, v: bv8)
    returns (p: seq<bv8>, q: seq<bv8>)
    requires InFlash(rs, |flash|) && Disjoint(rs)
    requires a < |flash| && Covered(rs, a)
    ensures Stream(flash, rs) == p + [flash[a]] + q
    ensures Stream(flash[a := v], rs) == p + [v] + q
    decreases |rs|
  {
    var init, r := rs[..|rs| - 1], rs[|rs| - 1];
    if InRegion(r, a) {
      p, q := ChangedInLast(flash, rs, a, v);
    } else {
      InitCovers(flash, rs, a);
      var p', q' := StreamChanged(flash, init, a, v);
      BytesUnchanged(flash, r, a, v);
      p, q := p', q' + Bytes(flash, r);
      AppendAfter(p', flash[a], q', Bytes(flash, r));
      AppendAfter(p', v, q', Bytes(flash, r));
    }
  }

  lemma AppendAfter(p: seq<bv8>, x: bv8, q: seq<bv8>, b: seq<bv8>)
    ensures p + [x] + q + b == p + [x] + (q + b)
  {
  }

  /** The case where the last region holds the address. */
  lemma ChangedInLast(flash: seq<bv8>, rs: seq<Region>, a: nat, v: bv8)
    returns (p: seq<bv8>, q: seq<bv8>)
    requires InFlash(rs, |flash|) && Disjoint(rs)
    requires a < |flash| && |rs| > 0 && InRegion(rs[|rs| - 1], a)
    ensures Stream(flash, rs) == p + [flash[a]] + q
    ensures Stream(flash[a := v], rs) == p + [v] + q
  {
    var init, r := rs[..|rs| - 1], rs[|rs| - 1];
    assert !Covered(init, a) by {
      forall i | 0 <= i < |init| ensures !InRegion(init[i], a) {
        assert init[i] == rs[i];
      }
    }
    StreamUnchanged(flash, init, a, v);
    var p', q' := BytesChanged(flash, r, a, v);
    var front := Stream(flash, init);
    p, q := front + p', q';
    assert Stream(flash, rs) == front + (p' + [flash[a]] + q') by {
      assert Stream(flash, rs) == front + Bytes(flash, r);
    }
    AppendBefore(front, p', flash[a], q');
    assert Stream(flash[a := v], rs) == front + (p' + [v] + q') by {
      assert Stream(flash[a := v], rs) == Stream(flash[a := v], init) + Bytes(flash[a := v], r);
    }
    AppendBefore(front, p', v, q');
  }

  lemma AppendBefore(b: seq<bv8>, p: seq<bv8>, x: bv8, q: seq<bv8>)
    ensures b + (p + [x] + q) == b + p + [x] + q
  {
  }

  /** When the last region does not hold the address, the others do, and
      they are still disjoint ranges of flash. */
  lemma InitCovers(flash: seq<bv8>, rs: seq<Region>, a: nat)
    requires InFlash(rs, |flash|) && Disjoint(rs)
    requires Covered(rs, a) && !InRegion(rs[|rs| - 1], a)
    ensures InFlash(rs[..|rs| - 1], |flash|) && Disjoint(rs[..|rs| - 1]) && Covered(rs[..|rs| - 1], a)
  {
    var i :| 0 <= i < |rs| && InRegion(rs[i], a);
    assert InRegion(rs[..|rs| - 1][i], a);
  }

  /** Corrupting any one byte the checksum protects changes the CRC the
      device computes, so the boot check no longer sees the stored value. */
  lemma DeviceDetectsByteChange(flash: seq<bv8>, s: Symbols, a: nat, v: bv8)
    requires Layout(s) && WithinFlash(s, |flash|) && RodataApart(s)
    requires a < |flash| && Protected(s, a) && v != flash[a]
    ensures DeviceCrc(flash[a := v], s) != DeviceCrc(flash, s)
  {
    PlanShape(s);
    PlanDisjoint(s);
    PlanInFlash(s, |flash|);
    var p, q := StreamChanged(flash, Plan(s), a, v);
    SingleByteChangeDetected(0, p, v, flash[a], q);
  }

  /** Within flash, every region of the plan is a non-empty range of flash. */
  lemma PlanInFlash(s: Symbols, size: nat)
    requires Layout(s) && WithinFlash(s, size)
    ensures InFlash(Plan(s), size)
  {
  }

}
