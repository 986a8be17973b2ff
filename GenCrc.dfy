/** The build-host generator: it reads the text, data and rodata images
    extracted from the linked program and folds them through the CRC-16
    kernel in a fixed order, leaving out the two bytes of the checksum
    slot inside the text image. Each file is modelled as the sequence of
    its bytes. */
module GenCrc {
  import opened Crc16

  /** addr_t on the host is `unsigned`, 32 bits wide. */
  const AddrLimit: nat := 0x1_0000_0000

  type Addr = n: nat | n < AddrLimit

  /** The test that decides whether byte number n is folded: it lies before
      the skip window or at or after its end, the end being
      skip_start + skip_len computed in addr_t, so it wraps. */
  predicate Outside(n: nat, skipStart: Addr, skipLen: Addr) {
    n < skipStart || n >= (skipStart + skipLen) % AddrLimit
  }

  /** The bytes of s that the generator folds, in file order. */
  function Kept(s: seq<bv8>, skipStart: Addr, skipLen: Addr): seq<bv8>
    decreases |s|
  {
    if |s| == 0 then []
    else
      var n := |s| - 1;
      Kept(s[..n], skipStart, skipLen) + (if Outside(n, skipStart, skipLen) then [s[n]] else [])
  }

  /** Fold every byte of the stream into crc except those of the skip
      window; reaching end of stream returns without folding anything. */
  method CrcUpdateFromFile(crc: bv16, stream: seq<bv8>, skipStart: Addr, skipLen: Addr) returns (r: bv16)
    ensures r == Fold(crc, Kept(stream, skipStart, skipLen))
  {
    r := crc;
    var n: nat := 0;
    while true
      invariant n <= |stream|
      invariant r == Fold(crc, Kept(stream[..n], skipStart, skipLen))
      decreases |stream| - n
    {
      if n == |stream| {
        // fgetc has hit end of file
        assert stream[..n] == stream;
        return;
      }
      var c := stream[n];
      assert stream[..n + 1][..n] == stream[..n];
      if n < skipStart || n >= (skipStart + skipLen) % AddrLimit {
        FoldSnoc(crc, Kept(stream[..n], skipStart, skipLen), c);
        r := Crc16Update(r, c);
      } else {
        assert Kept(stream[..n + 1], skipStart, skipLen) == Kept(stream[..n], skipStart, skipLen);
      }
      n := n + 1;
    }
  }

  function Min(a: nat, b: nat): nat {
    if a <= b then a else b
  }

  /** Without wrap-around, the kept bytes are exactly those before the
      window and those after it, each part clipped to the file. */
  lemma KeptWindow(s: seq<bv8>, skipStart: Addr, skipLen: Addr)
    requires skipStart + skipLen < AddrLimit
    ensures Kept(s, skipStart, skipLen)
         == s[..Min(skipStart, |s|)] + s[Min(skipStart + skipLen, |s|)..]
  {
    if |s| <= skipStart {
      KeptBeforeWindow(s, skipStart, skipLen);
      assert s[..|s|] + s[|s|..] == s;
    } else if |s| <= skipStart + skipLen {
      KeptInWindow(s, skipStart, skipLen);
      assert s[..skipStart] + s[|s|..] == s[..skipStart];
    } else {
      KeptAfterWindow(s, skipStart, skipLen);
    }
  }

  /** A stream that ends before the window is kept whole. */
  lemma {:induction false} KeptBeforeWindow(s: seq<bv8>, skipStart: Addr, skipLen: Addr)
    requires |s| <= skipStart
    ensures Kept(s, skipStart, skipLen) == s
    decreases |s|
  {
    if |s| > 0 {
      var n := |s| - 1;
      KeptBeforeWindow(s[..n], skipStart, skipLen);
      assert s[..n] + [s[n]] == s;
    }
  }

  /** A stream that ends inside the window keeps only what precedes it. */
  lemma {:induction false} KeptInWindow(s: seq<bv8>, skipStart: Addr, skipLen: Addr)
    requires skipStart + skipLen < AddrLimit
    requires skipStart <= |s| <= skipStart + skipLen
    ensures Kept(s, skipStart, skipLen) == s[..skipStart]
    decreases |s|
  {
    if |s| == skipStart {
      KeptBeforeWindow(s, skipStart, skipLen);
    } else {
      var n := |s| - 1;
      KeptInWindow(s[..n], skipStart, skipLen);
      assert s[..n][..skipStart] == s[..skipStart];
    }
  }

  /** A stream that runs past the window keeps both sides of it. */
  lemma {:induction false} KeptAfterWindow(s: seq<bv8>, skipStart: Addr, skipLen: Addr)
    requires skipStart + skipLen < AddrLimit
    requires skipStart + skipLen <= |s|
    ensures Kept(s, skipStart, skipLen) == s[..skipStart] + s[skipStart + skipLen..]
    decreases |s|
  {
    var hi := skipStart + skipLen;
    if |s| == hi {
      KeptInWindow(s, skipStart, skipLen);
      assert s[hi..] == [];
    } else {
      var n := |s| - 1;
      KeptAfterWindow(s[..n], skipStart, skipLen);
      assert s[..n][..skipStart] == s[..skipStart];
      assert s[..n][hi..] + [s[n]] == s[hi..];
    }
  }

  /** With skip_len 0 the whole stream is folded. */
  lemma {:induction false} KeptNoSkip(s: seq<bv8>, skipStart: Addr)
    ensures Kept(s, skipStart, 0) == s
    decreases |s|
  {
    if |s| > 0 {
      KeptNoSkip(s[..|s| - 1], skipStart);
      assert s[..|s| - 1] + [s[|s| - 1]] == s;
    }
  }

  /** When skip_start + skip_len wraps in addr_t, the window end lies
      below its start and nothing is skipped at all. */
  lemma {:induction false} KeptWrapped(s: seq<bv8>, skipStart: Addr, skipLen: Addr)
    requires skipStart + skipLen >= AddrLimit
    ensures Kept(s, skipStart, skipLen) == s
    decreases |s|
  {
    if |s| > 0 {
      KeptWrapped(s[..|s| - 1], skipStart, skipLen);
      assert s[..|s| - 1] + [s[|s| - 1]] == s;
    }
  }

  /** The bytes inside the window never reach the CRC: two streams that
      agree outside it keep the same bytes. */
  lemma {:induction false} KeptIgnoresWindow(s: seq<bv8>, s': seq<bv8>, skipStart: Addr, skipLen: Addr)
    requires |s| == |s'|
    requires forall n :: 0 <= n < |s| && Outside(n, skipStart, skipLen) ==> s[n] == s'[n]
    ensures Kept(s, skipStart, skipLen) == Kept(s', skipStart, skipLen)
    decreases |s|
  {
    if |s| > 0 {
      KeptIgnoresWindow(s[..|s| - 1], s'[..|s| - 1], skipStart, skipLen);
    }
  }

  /** crc_loc: the slot address made relative to the start of .text,
      subtracted in addr_t. */
  function CrcLoc(crcAddress: Addr, textStart: Addr): (loc: Addr)
    ensures (textStart + loc) % AddrLimit == crcAddress
    ensures textStart <= crcAddress ==> textStart + loc == crcAddress
  {
    (crcAddress - textStart) % AddrLimit
  }

  /** The whole byte stream the generator folds: text without the slot,
      rodata when rodata_start is 0, data, rodata when rodata_start is
      positive. */
  function HostStream(text: seq<bv8>, data: seq<bv8>, rodata: seq<bv8>, crcLoc: Addr, rodataStart: Addr): seq<bv8> {
    Kept(text, crcLoc, CrcSize)
      + (if rodataStart == 0 then rodata else [])
      + data
      + (if rodataStart > 0 then rodata else [])
  }

  /** The CRC the generator prints for the three images and the layout
      constants of the build. */
  function HostCrc(text: seq<bv8>, data: seq<bv8>, rodata: seq<bv8>, crcAddress: Addr, textStart: Addr, rodataStart: Addr): bv16 {
    Fold(0, HostStream(text, data, rodata, CrcLoc(crcAddress, textStart), rodataStart))
  }

  /** The generator's main computation, the images given as byte
      sequences in place of the three file names. */
  method GenerateCrc(text: seq<bv8>, data: seq<bv8>, rodata: seq<bv8>, crcAddress: Addr, textStart: Addr, rodataStart: Addr)
    returns (crc: bv16)
    ensures crc == HostCrc(text, data, rodata, crcAddress, textStart, rodataStart)
  {
    var crcLoc := CrcLoc(crcAddress, textStart);
    ghost var kept := Kept(text, crcLoc, CrcSize);
    crc := 0;
    crc := CrcUpdateFromFile(crc, text, crcLoc, CrcSize);

    KeptNoSkip(rodata, 0);
    KeptNoSkip(data, 0);
    ghost var folded := kept;
    if rodataStart == 0 {
      crc := CrcUpdateFromFile(crc, rodata, 0, 0);
      FoldAppend(0, folded, rodata);
      folded := folded + rodata;
    }
    crc := CrcUpdateFromFile(crc, data, 0, 0);
    FoldAppend(0, folded, data);
    folded := folded + data;
    if rodataStart > 0 {
      crc := CrcUpdateFromFile(crc, rodata, 0, 0);
      FoldAppend(0, folded, rodata);
      folded := folded + rodata;
    }
    assert folded == HostStream(text, data, rodata, crcLoc, rodataStart) by {
      RodataFoldedOnce(text, data, rodata, crcLoc, rodataStart);
    }
  }

  /** Because rodata_start is unsigned, exactly one of the two rodata
      folds happens: before data when it is 0, after data otherwise, and
      every rodata byte is folded exactly once. */
  lemma RodataFoldedOnce(text: seq<bv8>, data: seq<bv8>, rodata: seq<bv8>, crcLoc: Addr, rodataStart: Addr)
    ensures rodataStart == 0 ==>
      HostStream(text, data, rodata, crcLoc, rodataStart) == Kept(text, crcLoc, CrcSize) + rodata + data
    ensures rodataStart > 0 ==>
      HostStream(text, data, rodata, crcLoc, rodataStart) == Kept(text, crcLoc, CrcSize) + data + rodata
    ensures multiset(HostStream(text, data, rodata, crcLoc, rodataStart))
         == multiset(Kept(text, crcLoc, CrcSize)) + multiset(data) + multiset(rodata)
  {
    var k := Kept(text, crcLoc, CrcSize);
    var h := HostStream(text, data, rodata, crcLoc, rodataStart);
    if rodataStart == 0 {
      assert h == k + rodata + data;
      assert multiset(h) == multiset(k) + multiset(rodata) + multiset(data);
    } else {
      assert h == k + data + rodata;
      assert multiset(h) == multiset(k) + multiset(data) + multiset(rodata);
    }
  }

  /** The text skip window is exactly the CrcSize = 2 bytes at the slot's
      offset from the start of .text; everything else of the text image is
      folded, in order. */
  lemma TextWindowIsSlot(text: seq<bv8>, crcAddress: Addr, textStart: Addr)
    requires textStart <= crcAddress
    requires crcAddress - textStart + CrcSize < AddrLimit
    requires crcAddress - textStart + CrcSize <= |text|
    ensures CrcLoc(crcAddress, textStart) == crcAddress - textStart
    ensures Kept(text, CrcLoc(crcAddress, textStart), CrcSize)
         == text[..crcAddress - textStart] + text[crcAddress - textStart + CrcSize..]
  {
    var o := crcAddress - textStart;
    assert CrcLoc(crcAddress, textStart) == o by {
      var loc := CrcLoc(crcAddress, textStart);
      assert textStart + loc == crcAddress;
    }
    KeptAfterWindow(text, o, CrcSize);
  }

  /** A 10-byte text image with the slot at offset 4: bytes 0 to 3 and 6
      to 9 are folded, 8 bytes in all. */
  lemma TenByteText(text: seq<bv8>)
    requires |text| == 10
    ensures Kept(text, 4, CrcSize) == text[..4] + text[6..]
    ensures |Kept(text, 4, CrcSize)| == 8
  {
    KeptAfterWindow(text, 4, CrcSize);
  }

  /** Whatever the slot bytes of the text image hold, the generator
      prints the same CRC. */
  lemma HostIgnoresSlot(text: seq<bv8>, text': seq<bv8>, data: seq<bv8>, rodata: seq<bv8>,
                        crcAddress: Addr, textStart: Addr, rodataStart: Addr)
    requires |text| == |text'|
    requires forall n :: 0 <= n < |text| && Outside(n, CrcLoc(crcAddress, textStart), CrcSize) ==> text[n] == text'[n]
    ensures HostCrc(text, data, rodata, crcAddress, textStart, rodataStart)
         == HostCrc(text', data, rodata, crcAddress, textStart, rodataStart)
  {
    KeptIgnoresWindow(text, text', CrcLoc(crcAddress, textStart), CrcSize);
  }
}
