/** The end-to-end law tying the two traversals together: on a flash image
    laid out from the three extracted images, the device computes the CRC
    the host generator prints; written into the slot, that value passes the
    boot check, and any later corruption of a covered byte fails it. */
module Agreement {
  import opened Crc16
  import opened GenCrc
  import opened CrcFlash

  /** The layout contract between the link, the extracted images and the
      build constants:
      - the symbols describe a traversable layout inside flash;
      - the device has a rodata region exactly when rodata_start is
        positive (the host's ordering rule);
      - the slot lies at the same offset from __vectors on the device as
        from text_start on the host, inside the text image;
      - without a rodata region, flash from __vectors to __data_load_end
        holds text, rodata and data in that order; with one, it holds text
        and data, and the rodata region holds rodata. */
  predicate Consistent(flash: seq<bv8>, s: Symbols, text: seq<bv8>, data: seq<bv8>, rodata: seq<bv8>,
                       crcAddress: Addr, textStart: Addr, rodataStart: Addr)
  {
    && Layout(s) && WithinFlash(s, |flash|)
    && (s.hasRodataRegion <==> rodataStart > 0)
    && textStart <= crcAddress
    && crcAddress - textStart + CrcSize < AddrLimit
    && s.crcValue - s.vectors == crcAddress - textStart
    && s.crcValue + CrcSize <= s.vectors + |text|
    && (if s.hasRodataRegion
        then flash[s.vectors..s.dataLoadEnd] == text + data
             && flash[s.rodataLoadStart..s.rodataLoadEnd] == rodata
        else flash[s.vectors..s.dataLoadEnd] == text + (rodata + data))
  }

  /** Regions 1 and 2 read the text image without its slot, followed by
      whatever the image holds after the text. */
  lemma ImageIsKeptText(flash: seq<bv8>, s: Symbols, text: seq<bv8>, rest: seq<bv8>)
    requires Layout(s) && WithinFlash(s, |flash|)
    requires flash[s.vectors..s.dataLoadEnd] == text + rest
    requires s.crcValue + CrcSize <= s.vectors + |text|
    ensures ImageBytes(flash, s)
         == text[..s.crcValue - s.vectors] + text[s.crcValue - s.vectors + CrcSize..] + rest
  {
    var o := s.crcValue - s.vectors;
    var image := flash[s.vectors..s.dataLoadEnd];
    assert RegionOne(flash, s) == text[..o] by {
      assert flash[s.vectors..s.crcValue] == image[..o];
    }
    assert DataBytes(flash, s) == text[o + CrcSize..] + rest by {
      if s.crcValue + CrcSize != s.dataLoadEnd {
        assert flash[s.crcValue + CrcSize..s.dataLoadEnd] == image[o + CrcSize..];
      } else {
        assert |image| == o + CrcSize;
      }
    }
  }

  /** The rodata bytes the device folds are the rodata image. */
  lemma RodataIsImage(flash: seq<bv8>, s: Symbols, rodata: seq<bv8>)
    requires Layout(s) && WithinFlash(s, |flash|) && s.hasRodataRegion
    requires flash[s.rodataLoadStart..s.rodataLoadEnd] == rodata
    ensures RodataBytes(flash, s) == rodata
  {
  }

  /** get_flash_crc over a consistent flash image equals the CRC the host
      generator prints for the three images. */
  lemma HostMatchesDevice(flash: seq<bv8>, s: Symbols, text: seq<bv8>, data: seq<bv8>, rodata: seq<bv8>,
                          crcAddress: Addr, textStart: Addr, rodataStart: Addr)
    requires Consistent(flash, s, text, data, rodata, crcAddress, textStart, rodataStart)
    ensures DeviceCrc(flash, s) == HostCrc(text, data, rodata, crcAddress, textStart, rodataStart)
  {
    if s.hasRodataRegion {
      StreamsAgreeWithRodata(flash, s, text, data, rodata, crcAddress, textStart, rodataStart);
    } else {
      StreamsAgreeWithoutRodata(flash, s, text, data, rodata, crcAddress, textStart, rodataStart);
    }
  }

  /** With a rodata region, the device reads text without the slot, data,
      then the rodata region; the host, with rodata_start positive, folds
      the same bytes in the same order. */
  lemma StreamsAgreeWithRodata(flash: seq<bv8>, s: Symbols, text: seq<bv8>, data: seq<bv8>, rodata: seq<bv8>,
                               crcAddress: Addr, textStart: Addr, rodataStart: Addr)
    requires Consistent(flash, s, text, data, rodata, crcAddress, textStart, rodataStart)
    requires s.hasRodataRegion
    ensures Stream(flash, Plan(s)) == HostStream(text, data, rodata, CrcLoc(crcAddress, textStart), rodataStart)
  {
    PlanStream(flash, s);
    ImageIsKept(flash, s, text, data, crcAddress, textStart);
    RodataIsImage(flash, s, rodata);
    RodataFoldedOnce(text, data, rodata, CrcLoc(crcAddress, textStart), rodataStart);
  }

  /** Without one, the device reads text without the slot and then the
      rodata and data that follow it in flash; the host, with rodata_start
      0, folds rodata before data. */
  lemma StreamsAgreeWithoutRodata(flash: seq<bv8>, s: Symbols, text: seq<bv8>, data: seq<bv8>, rodata: seq<bv8>,
                                  crcAddress: Addr, textStart: Addr, rodataStart: Addr)
    requires Consistent(flash, s, text, data, rodata, crcAddress, textStart, rodataStart)
    requires !s.hasRodataRegion
    ensures Stream(flash, Plan(s)) == HostStream(text, data, rodata, CrcLoc(crcAddress, textStart), rodataStart)
  {
    var kept := Kept(text, CrcLoc(crcAddress, textStart), CrcSize);
    NoRodataStream(flash, s);
    ImageIsKept(flash, s, text, rodata + data, crcAddress, textStart);
    RodataFoldedOnce(text, data, rodata, CrcLoc(crcAddress, textStart), rodataStart);
    Regroup(kept, rodata, data);
  }

  lemma Regroup(a: seq<bv8>, b: seq<bv8>, c: seq<bv8>)
    ensures a + (b + c) == a + b + c
  {
  }

  /** Without a rodata region the device folds regions 1 and 2 only. */
  lemma NoRodataStream(flash: seq<bv8>, s: Symbols)
    requires Layout(s) && WithinFlash(s, |flash|) && !s.hasRodataRegion
    ensures Stream(flash, Plan(s)) == ImageBytes(flash, s)
  {
    PlanStream(flash, s);
  }

  /** Regions 1 and 2 read the bytes the host keeps of the text image,
      followed by whatever the image holds after the text. */
  lemma ImageIsKept(flash: seq<bv8>, s: Symbols, text: seq<bv8>, rest: seq<bv8>, crcAddress: Addr, textStart: Addr)
    requires Layout(s) && WithinFlash(s, |flash|)
    requires flash[s.vectors..s.dataLoadEnd] == text + rest
    requires textStart <= crcAddress && crcAddress - textStart + CrcSize < AddrLimit
    requires s.crcValue - s.vectors == crcAddress - textStart
    requires s.crcValue + CrcSize <= s.vectors + |text|
    ensures ImageBytes(flash, s) == Kept(text, CrcLoc(crcAddress, textStart), CrcSize) + rest
  {
    var o := crcAddress - textStart;
    var front := text[..o] + text[o + CrcSize..];
    assert ImageBytes(flash, s) == front + rest by {
      ImageIsKeptText(flash, s, text, rest);
    }
    assert Kept(text, CrcLoc(crcAddress, textStart), CrcSize) == front by {
      TextWindowIsSlot(text, crcAddress, textStart);
    }
  }

  // ---------------------------------------------------------------------
  // Writing the CRC into the slot and reading it back

  /** The image with crc written into the 2-byte slot at address at, low
      byte first (AVR is little-endian). */
  function PatchSlot(flash: seq<bv8>, at: nat, crc: bv16): (r: seq<bv8>)
    requires at + CrcSize <= |flash|
    ensures |r| == |flash|
    ensures r[at] == (crc & 0xFF) as bv8 && r[at + 1] == (crc >> 8) as bv8
    ensures forall a :: 0 <= a < |flash| && a != at && a != at + 1 ==> r[a] == flash[a]
  {
    flash[at := (crc & 0xFF) as bv8][at + 1 := (crc >> 8) as bv8]
  }

  /** Joining the high and the low byte of a 16-bit value gives it back. */
  lemma JoinBytes(crc: bv16)
    ensures ((crc >> 8) as bv8 as bv16 << 8) | (crc & 0xFF) as bv8 as bv16 == crc
  {
  }

  /** read_crc_value returns the value written into the slot, whether
      crc_t is read as a 2-byte word or as the low half of a 4-byte one. */
  lemma ReadPatchedSlot(flash: seq<bv8>, at: nat, crc: bv16, width: nat)
    requires width == 2 || width == 4
    requires at + width <= |flash|
    ensures ReadCrcValue(PatchSlot(flash, at, crc), at, width) == crc
  {
    ValueFromBytes(PatchSlot(flash, at, crc), at, width, crc);
  }

  /** Whatever the width, read_crc_value returns the value whose low and
      high bytes sit at the slot. */
  lemma ValueFromBytes(flash: seq<bv8>, at: nat, width: nat, crc: bv16)
    requires width == 2 || width == 4
    requires at + width <= |flash|
    requires flash[at] == (crc & 0xFF) as bv8 && flash[at + 1] == (crc >> 8) as bv8
    ensures ReadCrcValue(flash, at, width) == crc
  {
    WordFromBytes(flash, at, crc);
  }

  /** The word whose two bytes are those of crc is crc. */
  lemma WordFromBytes(flash: seq<bv8>, at: nat, crc: bv16)
    requires at + 2 <= |flash|
    requires flash[at] == (crc & 0xFF) as bv8 && flash[at + 1] == (crc >> 8) as bv8
    ensures ReadWord(flash, at) == crc
  {
    JoinBytes(crc);
  }

  /** Writing the host's CRC into the slot of a consistent image makes the
      boot check pass: main.c carries on instead of calling abort. */
  lemma BootAcceptsPatchedImage(flash: seq<bv8>, s: Symbols, text: seq<bv8>, data: seq<bv8>, rodata: seq<bv8>,
                                crcAddress: Addr, textStart: Addr, rodataStart: Addr)
    requires Consistent(flash, s, text, data, rodata, crcAddress, textStart, rodataStart)
    requires RodataApart(s)
    ensures BootAccepts(PatchSlot(flash, s.crcValue, HostCrc(text, data, rodata, crcAddress, textStart, rodataStart)), s)
  {
    var crc := HostCrc(text, data, rodata, crcAddress, textStart, rodataStart);
    var image := PatchSlot(flash, s.crcValue, crc);
    HostMatchesDevice(flash, s, text, data, rodata, crcAddress, textStart, rodataStart);
    DeviceIgnoresSlot(flash, image, s);
    ReadPatchedSlot(flash, s.crcValue, crc, CrcSize);
  }

  /** Once an image passes the boot check, changing any byte the checksum
      covers makes it fail: the slot is not covered, so the stored value
      stays while the computed CRC moves. */
  lemma BootRejectsCorruption(flash: seq<bv8>, s: Symbols, a: nat, v: bv8)
    requires Layout(s) && WithinFlash(s, |flash|) && RodataApart(s)
    requires BootAccepts(flash, s)
    requires a < |flash| && Protected(s, a) && v != flash[a]
    ensures !BootAccepts(flash[a := v], s)
  {
    PlanShape(s);
    assert a != s.crcValue && a != s.crcValue + 1 by {
      assert Covered(Plan(s), a);
    }
    DeviceDetectsByteChange(flash, s, a, v);
    SlotReadUnchanged(flash, s.crcValue, a, v);
  }

  /** Writing outside the slot does not change what read_crc_value reads. */
  lemma SlotReadUnchanged(flash: seq<bv8>, at: nat, a: nat, v: bv8)
    requires at + CrcSize <= |flash| && a < |flash| && a != at && a != at + 1
    ensures ReadCrcValue(flash[a := v], at, CrcSize) == ReadCrcValue(flash, at, CrcSize)
  {
    assert flash[a := v][at] == flash[at] && flash[a := v][at + 1] == flash[at + 1];
  }
}
