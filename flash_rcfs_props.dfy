/// What RCFS_AddFile does to the flash (flash_rcfs.c): which half-words it may
/// change, the VTOC entry it leaves, the header and data it stores, that a
/// well-formed table stays well formed, and that the new file is found again
/// by name.
module RcfsProps {
  import opened Stm32Flash
  import opened RcfsSpec

  /** `m2` differs from `m1` at most in the half-words at [lo, hi). */
  ghost predicate ChangedOnlyIn(m1: map<int, uint16>, m2: map<int, uint16>, lo: int, hi: int)
  {
    forall x :: x < lo || hi <= x ==> Read16(m2, x) == Read16(m1, x)
  }

  // ---------------------------------------------------------------------------
  // Reading bytes back
  // ---------------------------------------------------------------------------

  /** The first m of n bytes read are the m bytes read. */
  lemma {:induction false} ReadBytesPrefix(mem: map<int, uint16>, a: int, m: nat, n: nat)
    requires m <= n
    ensures ReadBytes(mem, a, n)[..m] == ReadBytes(mem, a, m)
    decreases n
  {
    if m < n {
      ReadBytesPrefix(mem, a, m, n - 1);
      assert ReadBytes(mem, a, n)[..n - 1] == ReadBytes(mem, a, n - 1);
    }
  }

  /** Bytes read from [a, a + n) depend only on the half-words at [a - 1, a + n). */
  lemma {:induction false} ReadBytesFrame(m1: map<int, uint16>, m2: map<int, uint16>, a: int, n: nat)
    requires forall x :: a - 1 <= x < a + n ==> Read16(m1, x) == Read16(m2, x)
    ensures ReadBytes(m1, a, n) == ReadBytes(m2, a, n)
  {
    if n > 0 {
      ReadBytesFrame(m1, m2, a, n - 1);
      assert Read8(m1, a + n - 1) == Read8(m2, a + n - 1);
    }
  }

  /** A run of half-words stored from an even address reads back byte by byte, low byte first. */
  lemma {:induction false} ReadProgrammed(mem: map<int, uint16>, a: int, img: seq<uint16>)
    requires a % 2 == 0
    requires forall i :: 0 <= i < |img| ==> Read16(mem, a + 2 * i) == img[i]
    ensures forall k :: 0 <= k < 2 * |img| ==> Read8(mem, a + k) == ImageByte(img, k)
  {
    forall k | 0 <= k < 2 * |img|
      ensures Read8(mem, a + k) == ImageByte(img, k)
    {
      var q := k / 2;
      assert Read16(mem, a + 2 * q) == img[q];
      if k % 2 == 0 {
        assert (a + k) % 2 == 0 && a + k == a + 2 * q;
      } else {
        assert (a + k) % 2 == 1 && a + k - 1 == a + 2 * q;
      }
    }
  }

  lemma {:induction false} ReadBytesEqual(mem: map<int, uint16>, a: int, b: seq<uint8>)
    requires BytesAt(mem, a, b)
    ensures ReadBytes(mem, a, |b|) == b
  {
    ReadBytesAt(mem, a, |b|);
  }

  // ---------------------------------------------------------------------------
  // The writes of RCFS_AddFile
  // ---------------------------------------------------------------------------

  /** Programming a VTOC entry touches only its eight bytes. */
  lemma {:induction false} EntryWriteFrame(cfg: Config, p: Primitives, sr: nat -> bv32, h: Hw, slot: nat, offset: uint32, size: uint32)
    requires Implements(p, sr) && cfg.Valid()
    ensures ChangedOnlyIn(h.mem, EntryWriteSpec(cfg, p, h, slot, offset, size).hw.mem, cfg.TocAddr(slot), cfg.TocAddr(slot) + 8)
  {
    var t := cfg.TocAddr(slot);
    var o1 := p.word(h, t, offset);
    WordWrite(p, sr, h, t, offset);
    WordWrite(p, sr, o1.hw, t + 4, size);
  }

  /** When both word programs complete the entry reads back as (offset, size). */
  lemma {:induction false} EntryWriteValues(cfg: Config, p: Primitives, sr: nat -> bv32, h: Hw, slot: nat, offset: uint32, size: uint32)
    requires Implements(p, sr) && cfg.Valid()
    ensures var e := EntryWriteSpec(cfg, p, h, slot, offset, size);
      e.ok ==> Read32(e.hw.mem, cfg.TocAddr(slot)) == offset && Read32(e.hw.mem, cfg.TocAddr(slot) + 4) == size
  {
    var t := cfg.TocAddr(slot);
    var o1 := p.word(h, t, offset);
    var o2 := p.word(o1.hw, t + 4, size);
    WordWrite(p, sr, h, t, offset);
    WordWrite(p, sr, o1.hw, t + 4, size);
    assert Read16(o2.hw.mem, t) == Read16(o1.hw.mem, t);
    assert Read16(o2.hw.mem, t + 2) == Read16(o1.hw.mem, t + 2);
  }

  /** Programming a VTOC entry touches only its eight bytes, and when both word programs
      complete the entry reads back as (offset, size). */
  lemma {:induction false} EntryWriteEffect(cfg: Config, p: Primitives, sr: nat -> bv32, h: Hw, slot: nat, offset: uint32, size: uint32)
    requires Implements(p, sr) && cfg.Valid()
    ensures var e := EntryWriteSpec(cfg, p, h, slot, offset, size);
      && ChangedOnlyIn(h.mem, e.hw.mem, cfg.TocAddr(slot), cfg.TocAddr(slot) + 8)
      && (e.ok ==> Read32(e.hw.mem, cfg.TocAddr(slot)) == offset && Read32(e.hw.mem, cfg.TocAddr(slot) + 4) == size)
  {
    EntryWriteFrame(cfg, p, sr, h, slot, offset, size);
    EntryWriteValues(cfg, p, sr, h, slot, offset, size);
  }

  /** The header bytes of a file image stored from an even address read back. */
  lemma {:induction false} ImageHeaderReadsBack(mem: map<int, uint16>, addr: int, hdr: seq<uint8>, headerSize: int,
                                                bytes: seq<uint8>, len: nat)
    requires 0 <= headerSize <= |hdr| && headerSize % 2 == 0 && len <= |bytes| && addr % 2 == 0
    requires var img := FileImage(hdr, headerSize, bytes, len);
      forall i :: 0 <= i < |img| ==> Read16(mem, addr + 2 * i) == img[i]
    ensures BytesAt(mem, addr, hdr[..headerSize])
  {
    var img := FileImage(hdr, headerSize, bytes, len);
    ReadProgrammed(mem, addr, img);
    FileImageBytes(hdr, headerSize, bytes, len);
  }

  /** The data bytes of a file image stored from an even address read back after the header. */
  lemma {:induction false} ImageDataReadsBack(mem: map<int, uint16>, addr: int, hdr: seq<uint8>, headerSize: int,
                                              bytes: seq<uint8>, len: nat)
    requires 0 <= headerSize <= |hdr| && headerSize % 2 == 0 && len <= |bytes| && addr % 2 == 0
    requires var img := FileImage(hdr, headerSize, bytes, len);
      forall i :: 0 <= i < |img| ==> Read16(mem, addr + 2 * i) == img[i]
    ensures BytesAt(mem, addr + headerSize, bytes[..len])
  {
    var img := FileImage(hdr, headerSize, bytes, len);
    ReadProgrammed(mem, addr, img);
    FileImageBytes(hdr, headerSize, bytes, len);
    forall j | 0 <= j < len
      ensures Read8(mem, addr + headerSize + j) == bytes[..len][j]
    {
      var k := headerSize + j;
      assert Read8(mem, addr + k) == ImageByte(img, k);
    }
  }

  /** RCFS_Write touches only the header and the 2 * ceil(len / 2) data bytes from the file's
      address. */
  lemma {:induction false} FileWriteFrame(cfg: Config, p: Primitives, sr: nat -> bv32, h: Hw, addr: int, hdr: seq<uint8>,
                                          data: DataRef, len: nat)
    requires Implements(p, sr) && cfg.Valid() && |hdr| == HeaderStructSize && !data.InFlash?
    requires data.InRam? ==> len <= |data.bytes|
    ensures ChangedOnlyIn(h.mem, FileWriteSpec(cfg, p, h, addr, hdr, data, len).hw.mem, addr, addr + cfg.headerSize + len + 1)
  {
    if addr >= cfg.base && data.InRam? {
      var img := FileImage(hdr, cfg.headerSize, data.bytes, len);
      ProgramHalfWordsEffect(p, sr, h, addr, img);
      assert 2 * |img| <= cfg.headerSize + len + 1;
    }
  }

  /** When every program of RCFS_Write completes, the flash holds the file image from the
      file's address. */
  lemma {:induction false} FileWriteStored(cfg: Config, p: Primitives, sr: nat -> bv32, h: Hw, addr: int, hdr: seq<uint8>,
                                           data: DataRef, len: nat)
    requires Implements(p, sr) && cfg.Valid() && |hdr| == HeaderStructSize && !data.InFlash?
    requires data.InRam? ==> len <= |data.bytes|
    ensures var w := FileWriteSpec(cfg, p, h, addr, hdr, data, len);
      w.ok ==> && data.InRam?
               && var img := FileImage(hdr, cfg.headerSize, data.bytes, len);
                  forall i :: 0 <= i < |img| ==> Read16(w.hw.mem, addr + 2 * i) == img[i]
  {
    if addr >= cfg.base && data.InRam? {
      ProgramHalfWordsEffect(p, sr, h, addr, FileImage(hdr, cfg.headerSize, data.bytes, len));
    }
  }

  /** When every program of RCFS_Write completes, the header reads back from the file's address. */
  lemma {:induction false} FileWriteHeader(cfg: Config, p: Primitives, sr: nat -> bv32, h: Hw, addr: int, hdr: seq<uint8>,
                                           data: DataRef, len: nat)
    requires Implements(p, sr) && cfg.Valid() && |hdr| == HeaderStructSize && !data.InFlash?
    requires data.InRam? ==> len <= |data.bytes|
    requires addr % 2 == 0
    ensures var w := FileWriteSpec(cfg, p, h, addr, hdr, data, len);
      w.ok ==> data.InRam? && BytesAt(w.hw.mem, addr, hdr[..cfg.headerSize])
  {
    FileWriteStored(cfg, p, sr, h, addr, hdr, data, len);
    var w := FileWriteSpec(cfg, p, h, addr, hdr, data, len);
    if w.ok {
      ImageHeaderReadsBack(w.hw.mem, addr, hdr, cfg.headerSize, data.bytes, len);
    }
  }

  /** When every program of RCFS_Write completes, the data reads back after the header. */
  lemma {:induction false} FileWriteData(cfg: Config, p: Primitives, sr: nat -> bv32, h: Hw, addr: int, hdr: seq<uint8>,
                                         data: DataRef, len: nat)
    requires Implements(p, sr) && cfg.Valid() && |hdr| == HeaderStructSize && !data.InFlash?
    requires data.InRam? ==> len <= |data.bytes|
    requires addr % 2 == 0
    ensures var w := FileWriteSpec(cfg, p, h, addr, hdr, data, len);
      w.ok ==> data.InRam? && BytesAt(w.hw.mem, addr + cfg.headerSize, data.bytes[..len])
  {
    FileWriteStored(cfg, p, sr, h, addr, hdr, data, len);
    var w := FileWriteSpec(cfg, p, h, addr, hdr, data, len);
    if w.ok {
      ImageDataReadsBack(w.hw.mem, addr, hdr, cfg.headerSize, data.bytes, len);
    }
  }

  /** The header RCFS_ReadHeader sees where a new header was stored. */
  lemma {:induction false} NewHeaderReadsBack(mem: map<int, uint16>, cfg: Config, a: int, name: seq<uint8>)
    requires cfg.Valid()
    requires BytesAt(mem, a, NewHeader(cfg, name)[..cfg.headerSize])
    ensures HeaderAt(mem, a) == NewHeader(cfg, name)
  {
    var hdr := NewHeader(cfg, name);
    ReadBytesEqual(mem, a, hdr[..cfg.headerSize]);
    ReadBytesPrefix(mem, a, HeaderReadSize, cfg.headerSize);
    NewHeaderLayout(cfg, name);
    assert hdr == hdr[..HeaderReadSize] + hdr[HeaderReadSize..];
  }

  /** The VTOC lies below the file area: every entry's eight bytes end at or before the floor. */
  lemma {:induction false} TocBelowFiles(cfg: Config, i: nat)
    requires cfg.Valid() && i <= cfg.maxFiles
    ensures cfg.TocAddr(i) + 8 <= cfg.base + FileFloor
    ensures i < cfg.maxFiles ==> cfg.TocAddr(i) + 16 <= cfg.base + FileFloor
  {
  }

  /** A VTOC entry whose words hold an offset and a size below 2^31 reads back as them,
      also after writes that leave its eight bytes alone. */
  lemma {:induction false} EntryReads(m1: map<int, uint16>, m2: map<int, uint16>, cfg: Config, slot: nat,
                                      offset: int, size: int, lo: int, hi: int)
    requires 0 <= offset < 0x8000_0000 && 0 <= size < 0x8000_0000
    requires Read32(m1, cfg.TocAddr(slot)) == offset && Read32(m1, cfg.TocAddr(slot) + 4) == size
    requires ChangedOnlyIn(m1, m2, lo, hi) && cfg.TocAddr(slot) + 8 <= lo
    ensures EntryAddr(m2, cfg, slot) == offset && EntrySize(m2, cfg, slot) == size
  {
    var t := cfg.TocAddr(slot);
    assert Read16(m2, t) == Read16(m1, t) && Read16(m2, t + 2) == Read16(m1, t + 2);
    assert Read16(m2, t + 4) == Read16(m1, t + 4) && Read16(m2, t + 6) == Read16(m1, t + 6);
  }

  /** RCFS_CreateFile programs the VTOC entry, then writes the file from the state the entry
      programs left. */
  lemma {:induction false} CreateFileSteps(cfg: Config, p: Primitives, h: Hw, slot: nat, offset: int,
                        data: Option<seq<uint8>>, length: int, name: seq<uint8>)
    requires cfg.Valid() && 0 < length <= MaxFlashFileSize && FileFloor <= offset <= FileCeiling - length
    requires data.Some? ==> length <= |data.value|
    ensures var c := CreateFileSpec(cfg, p, h, slot, offset, data, length, name);
      var e := EntryWriteSpec(cfg, p, h, slot, offset, length + cfg.headerSize);
      var w := FileWriteSpec(cfg, p, e.hw, cfg.base + offset, NewHeader(cfg, name),
                             if data.Some? then InRam(data.value) else Null, length);
      && c.hw == w.hw && c.ret == RcfsSuccess && c.slot == slot && c.offset == offset
      && c.tocOk == e.ok && c.ok == (e.ok && w.ok)
  {
  }

  /** A new file in `slot` at `offset`: what changes. */
  lemma {:induction false} CreateFileFrame(cfg: Config, p: Primitives, sr: nat -> bv32, h: Hw, slot: nat, offset: int,
                        data: Option<seq<uint8>>, length: int, name: seq<uint8>)
    requires Implements(p, sr) && cfg.Valid() && 0 < length <= MaxFlashFileSize
    requires FileFloor <= offset <= FileCeiling - length && slot < cfg.maxFiles
    requires data.Some? ==> length <= |data.value|
    ensures var a := CreateFileSpec(cfg, p, h, slot, offset, data, length, name);
      var t := cfg.TocAddr(slot);
      var f := cfg.base + offset;
      && a.ret == RcfsSuccess && a.slot == slot && a.offset == offset
      && (forall x :: (x < t || t + 8 <= x) && (x < f || f + cfg.headerSize + length + 1 <= x) ==>
                      Read16(a.hw.mem, x) == Read16(h.mem, x))
  {
    var size := length + cfg.headerSize;
    var e := EntryWriteSpec(cfg, p, h, slot, offset, size);
    EntryWriteFrame(cfg, p, sr, h, slot, offset, size);
    var ref := if data.Some? then InRam(data.value) else Null;
    FileWriteFrame(cfg, p, sr, e.hw, cfg.base + offset, NewHeader(cfg, name), ref, length);
  }

  /** A new file in `slot` at `offset` whose VTOC programs completed: the entry reads
      (offset, length + header size). */
  lemma {:induction false} CreateFileEntry(cfg: Config, p: Primitives, sr: nat -> bv32, h: Hw, slot: nat, offset: int,
                        data: Option<seq<uint8>>, length: int, name: seq<uint8>)
    requires Implements(p, sr) && cfg.Valid() && 0 < length <= MaxFlashFileSize
    requires FileFloor <= offset <= FileCeiling - length && slot < cfg.maxFiles
    requires data.Some? ==> length <= |data.value|
    ensures var a := CreateFileSpec(cfg, p, h, slot, offset, data, length, name);
      a.tocOk ==> EntryAddr(a.hw.mem, cfg, slot) == offset && EntrySize(a.hw.mem, cfg, slot) == length + cfg.headerSize
  {
    var size := length + cfg.headerSize;
    var e := EntryWriteSpec(cfg, p, h, slot, offset, size);
    CreateFileSteps(cfg, p, h, slot, offset, data, length, name);
    EntryWriteValues(cfg, p, sr, h, slot, offset, size);
    var ref := if data.Some? then InRam(data.value) else Null;
    var w := FileWriteSpec(cfg, p, e.hw, cfg.base + offset, NewHeader(cfg, name), ref, length);
    FileWriteFrame(cfg, p, sr, e.hw, cfg.base + offset, NewHeader(cfg, name), ref, length);
    TocBelowFiles(cfg, slot);
    if e.ok {
      EntryReads(e.hw.mem, w.hw.mem, cfg, slot, offset, size, cfg.base + offset, cfg.base + offset + cfg.headerSize + length + 1);
    }
  }

  /** A file address in the file area of a valid configuration is even when its offset is. */
  lemma {:induction false} FileAddrEven(cfg: Config, offset: int)
    requires cfg.Valid() && offset % 2 == 0
    ensures (cfg.base + offset) % 2 == 0
  {
  }

  /** A new file is stored only when it was given data. */
  lemma {:induction false} CreateFileNeedsData(cfg: Config, p: Primitives, h: Hw, slot: nat, offset: int,
                                               data: Option<seq<uint8>>, length: int, name: seq<uint8>)
    requires cfg.Valid() && 0 < length <= MaxFlashFileSize && FileFloor <= offset <= FileCeiling - length
    requires data.Some? ==> length <= |data.value|
    ensures CreateFileSpec(cfg, p, h, slot, offset, data, length, name).ok ==> data.Some?
  {
  }

  /** A new file given data whose programs all completed: its header reads back. */
  lemma {:induction false} CreateFileHeader(cfg: Config, p: Primitives, sr: nat -> bv32, h: Hw, slot: nat, offset: int,
                                            data: Option<seq<uint8>>, length: int, name: seq<uint8>, c: Added)
    requires Implements(p, sr) && cfg.Valid() && 0 < length <= MaxFlashFileSize
    requires FileFloor <= offset <= FileCeiling - length && offset % 2 == 0
    requires data.Some? && length <= |data.value|
    requires c == CreateFileSpec(cfg, p, h, slot, offset, data, length, name)
    ensures c.ok ==> c.tocOk && BytesAt(c.hw.mem, cfg.base + c.offset, NewHeader(cfg, name)[..cfg.headerSize])
  {
    var e := EntryWriteSpec(cfg, p, h, slot, offset, length + cfg.headerSize);
    FileAddrEven(cfg, offset);
    FileWriteHeader(cfg, p, sr, e.hw, cfg.base + offset, NewHeader(cfg, name), InRam(data.value), length);
  }

  /** A new file given data whose programs all completed: the data reads back after the header. */
  lemma {:induction false} CreateFileData(cfg: Config, p: Primitives, sr: nat -> bv32, h: Hw, slot: nat, offset: int,
                                          data: Option<seq<uint8>>, length: int, name: seq<uint8>, c: Added)
    requires Implements(p, sr) && cfg.Valid() && 0 < length <= MaxFlashFileSize
    requires FileFloor <= offset <= FileCeiling - length && offset % 2 == 0
    requires data.Some? && length <= |data.value|
    requires c == CreateFileSpec(cfg, p, h, slot, offset, data, length, name)
    ensures c.ok ==> BytesAt(c.hw.mem, cfg.base + c.offset + cfg.headerSize, data.value[..length])
  {
    var e := EntryWriteSpec(cfg, p, h, slot, offset, length + cfg.headerSize);
    FileAddrEven(cfg, offset);
    FileWriteData(cfg, p, sr, e.hw, cfg.base + offset, NewHeader(cfg, name), InRam(data.value), length);
  }

  /** RCFS_AddFile succeeds exactly when the length is in range, the table has a sentinel and
      the file fits below the ceiling, whatever the program statuses; on failure nothing is
      programmed. */
  lemma {:induction false} AddFileOutcome(cfg: Config, p: Primitives, h: Hw, data: Option<seq<uint8>>, length: int, name: seq<uint8>)
    requires cfg.Valid()
    requires data.Some? && 0 < length <= MaxFlashFileSize ==> length <= |data.value|
    ensures var a := AddFileSpec(cfg, p, h, data, length, name);
      var s := SentinelSlot(h.mem, cfg);
      && (a.ret == RcfsSuccess || a.ret == RcfsError)
      && (a.ret == RcfsSuccess <==> 0 < length <= MaxFlashFileSize && s >= 0
                                    && NewFileOffset(h.mem, cfg, s) + length <= FileCeiling)
      && (a.ret == RcfsError ==> a.hw == h)
      && (a.ret == RcfsSuccess ==> a.slot == s && a.offset == NewFileOffset(h.mem, cfg, s))
  {
  }

  /** A successful RCFS_AddFile is RCFS_CreateFile at the sentinel's slot and the offset
      allocated after the last file, with every argument in range. */
  lemma {:induction false} AddFileCreates(cfg: Config, p: Primitives, h: Hw, data: Option<seq<uint8>>, length: int, name: seq<uint8>)
    requires cfg.Valid()
    requires data.Some? && 0 < length <= MaxFlashFileSize ==> length <= |data.value|
    ensures var a := AddFileSpec(cfg, p, h, data, length, name);
      var s := SentinelSlot(h.mem, cfg);
      a.ret == RcfsSuccess ==>
        && 0 <= s < cfg.maxFiles && 0 < length <= MaxFlashFileSize
        && var o := NewFileOffset(h.mem, cfg, s);
        && FileFloor <= o <= FileCeiling - length && o % 2 == 0
        && (data.Some? ==> length <= |data.value|)
        && a == CreateFileSpec(cfg, p, h, s, o, data, length, name)
  {
  }

  /** On success RCFS_AddFile changes at most the sentinel's VTOC entry and the new file's
      bytes; every other entry up to the end of the table is left as it was; and the entry
      reads (offset, length + header size) once both its words are programmed. */
  lemma {:induction false} AddFileWrites(cfg: Config, p: Primitives, sr: nat -> bv32, h: Hw, data: Option<seq<uint8>>,
                      length: int, name: seq<uint8>)
    requires Implements(p, sr) && cfg.Valid()
    requires data.Some? && 0 < length <= MaxFlashFileSize ==> length <= |data.value|
    ensures var a := AddFileSpec(cfg, p, h, data, length, name);
      a.ret == RcfsSuccess ==>
        && 0 <= a.slot < cfg.maxFiles
        && (forall x :: (x < cfg.TocAddr(a.slot) || cfg.TocAddr(a.slot) + 8 <= x)
                        && (x < cfg.base + a.offset || cfg.base + a.offset + cfg.headerSize + length + 1 <= x) ==>
                        Read16(a.hw.mem, x) == Read16(h.mem, x))
        && (forall i :: 0 <= i <= cfg.maxFiles && i != a.slot ==>
              EntryAddr(a.hw.mem, cfg, i) == EntryAddr(h.mem, cfg, i) && EntrySize(a.hw.mem, cfg, i) == EntrySize(h.mem, cfg, i))
        && (a.tocOk ==> EntryAddr(a.hw.mem, cfg, a.slot) == a.offset
                        && EntrySize(a.hw.mem, cfg, a.slot) == length + cfg.headerSize)
  {
    var a := AddFileSpec(cfg, p, h, data, length, name);
    AddFileCreates(cfg, p, h, data, length, name);
    if a.ret == RcfsSuccess {
      var s := SentinelSlot(h.mem, cfg);
      var o := NewFileOffset(h.mem, cfg, s);
      CreateFileFrame(cfg, p, sr, h, s, o, data, length, name);
      CreateFileEntry(cfg, p, sr, h, s, o, data, length, name);
      EntriesKept(h.mem, a.hw.mem, cfg, s, cfg.base + o);
    }
  }

  /** Once every program of a successful RCFS_AddFile completed, the new file's header reads
      back from its address. */
  lemma {:induction false} AddFileHeader(cfg: Config, p: Primitives, sr: nat -> bv32, h: Hw, data: Option<seq<uint8>>,
                                         length: int, name: seq<uint8>)
    requires Implements(p, sr) && cfg.Valid()
    requires data.Some? && 0 < length <= MaxFlashFileSize ==> length <= |data.value|
    ensures var a := AddFileSpec(cfg, p, h, data, length, name);
      a.ret == RcfsSuccess && a.ok ==>
        a.tocOk && BytesAt(a.hw.mem, cfg.base + a.offset, NewHeader(cfg, name)[..cfg.headerSize])
  {
    var a := AddFileSpec(cfg, p, h, data, length, name);
    AddFileCreates(cfg, p, h, data, length, name);
    if a.ret == RcfsSuccess {
      var s := SentinelSlot(h.mem, cfg);
      CreateFileNeedsData(cfg, p, h, s, NewFileOffset(h.mem, cfg, s), data, length, name);
      if data.Some? {
        CreateFileHeader(cfg, p, sr, h, s, NewFileOffset(h.mem, cfg, s), data, length, name, a);
      }
    }
  }

  /** Once every program of a successful RCFS_AddFile completed, its data reads back after
      the header. */
  lemma {:induction false} AddFileData(cfg: Config, p: Primitives, sr: nat -> bv32, h: Hw, data: Option<seq<uint8>>,
                                       length: int, name: seq<uint8>)
    requires Implements(p, sr) && cfg.Valid()
    requires data.Some? && 0 < length <= MaxFlashFileSize ==> length <= |data.value|
    ensures var a := AddFileSpec(cfg, p, h, data, length, name);
      a.ret == RcfsSuccess && a.ok ==>
        data.Some? && length <= |data.value|
        && BytesAt(a.hw.mem, cfg.base + a.offset + cfg.headerSize, data.value[..length])
  {
    var a := AddFileSpec(cfg, p, h, data, length, name);
    AddFileCreates(cfg, p, h, data, length, name);
    if a.ret == RcfsSuccess {
      var s := SentinelSlot(h.mem, cfg);
      CreateFileNeedsData(cfg, p, h, s, NewFileOffset(h.mem, cfg, s), data, length, name);
      if data.Some? {
        CreateFileData(cfg, p, sr, h, s, NewFileOffset(h.mem, cfg, s), data, length, name, a);
      }
    }
  }

  /** The entries other than the one in `s`, up to the end of the table, are the same in two
      flash states that agree below the file area's address `f` except on the entry of `s`. */
  lemma {:induction false} EntriesKept(m1: map<int, uint16>, m2: map<int, uint16>, cfg: Config, s: nat, f: int)
    requires cfg.Valid() && s < cfg.maxFiles && cfg.base + FileFloor <= f
    requires forall x :: (x < cfg.TocAddr(s) || cfg.TocAddr(s) + 8 <= x) && x < f ==> Read16(m2, x) == Read16(m1, x)
    ensures forall i :: 0 <= i <= cfg.maxFiles && i != s ==>
              EntryAddr(m2, cfg, i) == EntryAddr(m1, cfg, i) && EntrySize(m2, cfg, i) == EntrySize(m1, cfg, i)
  {
    var t := cfg.TocAddr(s);
    forall i | 0 <= i <= cfg.maxFiles && i != s
      ensures EntryAddr(m2, cfg, i) == EntryAddr(m1, cfg, i)
      ensures EntrySize(m2, cfg, i) == EntrySize(m1, cfg, i)
    {
      TocBelowFiles(cfg, i);
      var u := cfg.TocAddr(i);
      assert u + 8 <= t || t + 8 <= u;
      assert Read32(m2, u) == Read32(m1, u);
      assert Read32(m2, u + 4) == Read32(m1, u + 4);
    }
  }

  // ---------------------------------------------------------------------------
  // The table after RCFS_AddFile
  // ---------------------------------------------------------------------------

  /** The traversal length is n when the first n slots hold files and slot n, if it is in
      the table, is a sentinel. */
  lemma {:induction false} VisitCountIs(mem: map<int, uint16>, cfg: Config, n: nat)
    requires n <= cfg.maxFiles + 1
    requires forall i :: 0 <= i < n ==> !IsSentinel(mem, cfg, i)
    requires n <= cfg.maxFiles ==> IsSentinel(mem, cfg, n)
    ensures VisitCount(mem, cfg) == n
  {
    VisitCountSpec(mem, cfg);
  }

  /** In a well-formed table with room, the sentinel slot is the number of files. */
  lemma {:induction false} WellFormedCount(mem: map<int, uint16>, cfg: Config)
    requires WellFormed(mem, cfg) && SentinelSlot(mem, cfg) >= 0
    ensures VisitCount(mem, cfg) == SentinelSlot(mem, cfg)
  {
  }

  /** A well-formed table with one more entry (o, size) written over its sentinel, at or
      after the end of every file, and no other entry changed, is well formed. */
  lemma {:induction false} WellFormedAppend(m1: map<int, uint16>, m2: map<int, uint16>, cfg: Config, s: nat, o: int, size: int)
    requires WellFormed(m1, cfg) && VisitCount(m1, cfg) == s && s < cfg.maxFiles
    requires forall i :: 0 <= i <= cfg.maxFiles && i != s ==>
               EntryAddr(m2, cfg, i) == EntryAddr(m1, cfg, i) && EntrySize(m2, cfg, i) == EntrySize(m1, cfg, i)
    requires EntryAddr(m2, cfg, s) == o && EntrySize(m2, cfg, s) == size
    requires FileFloor <= o && cfg.headerSize <= size
    requires forall i :: 0 <= i < s ==> EntryAddr(m1, cfg, i) + EntrySize(m1, cfg, i) <= o
    ensures WellFormed(m2, cfg) && VisitCount(m2, cfg) == s + 1
  {
    VisitCountSpec(m1, cfg);
    assert IsSentinel(m1, cfg, s + 1);
    VisitCountIs(m2, cfg, s + 1);
    forall i | 0 <= i < s + 1
      ensures FileFloor <= EntryAddr(m2, cfg, i) && cfg.headerSize <= EntrySize(m2, cfg, i)
    {
      if i < s {
        assert FileFloor <= EntryAddr(m1, cfg, i) && cfg.headerSize <= EntrySize(m1, cfg, i);
      }
    }
    forall i, j | 0 <= i < j < s + 1
      ensures EntryAddr(m2, cfg, i) + EntrySize(m2, cfg, i) <= EntryAddr(m2, cfg, j)
    {
      if j < s {
        assert EntryAddr(m1, cfg, i) + EntrySize(m1, cfg, i) <= EntryAddr(m1, cfg, j);
      }
    }
    forall i | s + 1 <= i <= cfg.maxFiles
      ensures IsSentinel(m2, cfg, i)
    {
      assert IsSentinel(m1, cfg, i);
    }
  }

  /** A file added to a well-formed table with its VTOC entry fully programmed leaves the
      table well formed, with one more file, in the old sentinel's slot. */
  lemma {:induction false} AddFileKeepsWellFormed(cfg: Config, p: Primitives, sr: nat -> bv32, h: Hw, data: Option<seq<uint8>>,
                               length: int, name: seq<uint8>)
    requires Implements(p, sr) && cfg.Valid() && WellFormed(h.mem, cfg)
    requires data.Some? && 0 < length <= MaxFlashFileSize ==> length <= |data.value|
    ensures var a := AddFileSpec(cfg, p, h, data, length, name);
      a.ret == RcfsSuccess && a.tocOk ==>
        && WellFormed(a.hw.mem, cfg)
        && VisitCount(a.hw.mem, cfg) == VisitCount(h.mem, cfg) + 1
        && a.slot == VisitCount(h.mem, cfg)
  {
    var a := AddFileSpec(cfg, p, h, data, length, name);
    if a.ret == RcfsSuccess && a.tocOk {
      AddFileOutcome(cfg, p, h, data, length, name);
      AddFileWrites(cfg, p, sr, h, data, length, name);
      var s := SentinelSlot(h.mem, cfg);
      WellFormedCount(h.mem, cfg);
      NewFileAfterAllFiles(h.mem, cfg);
      WellFormedAppend(h.mem, a.hw.mem, cfg, s, a.offset, length + cfg.headerSize);
    }
  }

  /** The names of the files before slot s are the same in two flash states whose entries
      before s agree and which agree on the half-words from just below the floor up to `o`,
      where every one of those files ends. */
  lemma {:induction false} NamesKept(m1: map<int, uint16>, m2: map<int, uint16>, cfg: Config, s: nat, o: int)
    requires cfg.Valid() && WellFormed(m1, cfg) && VisitCount(m1, cfg) == s
    requires forall i :: 0 <= i < s ==> EntryAddr(m2, cfg, i) == EntryAddr(m1, cfg, i)
    requires forall i :: 0 <= i < s ==> EntryAddr(m1, cfg, i) + EntrySize(m1, cfg, i) <= o
    requires forall x :: cfg.base + FileFloor - 1 <= x < cfg.base + o ==> Read16(m2, x) == Read16(m1, x)
    ensures forall i :: 0 <= i < s ==> FileNameAt(m2, cfg, i) == FileNameAt(m1, cfg, i)
  {
    forall i | 0 <= i < s
      ensures FileNameAt(m2, cfg, i) == FileNameAt(m1, cfg, i)
    {
      var x := cfg.base + EntryAddr(m1, cfg, i);
      assert FileFloor <= EntryAddr(m1, cfg, i) && cfg.headerSize <= EntrySize(m1, cfg, i);
      ReadBytesFrame(m2, m1, x, HeaderReadSize);
    }
  }

  /** Looking a name up in a table that gained one file in slot s: an earlier match wins,
      otherwise the new file is found exactly when its name matches. */
  lemma {:induction false} LookupAfterAppend(m1: map<int, uint16>, m2: map<int, uint16>, cfg: Config,
                                             q: seq<uint8>, s: nat, i: nat)
    requires VisitCount(m1, cfg) == s && VisitCount(m2, cfg) == s + 1 && i <= s
    requires forall j :: 0 <= j < s ==> FileNameAt(m2, cfg, j) == FileNameAt(m1, cfg, j)
    ensures LookupFrom(m2, cfg, q, i)
            == if LookupFrom(m1, cfg, q, i) >= 0 then LookupFrom(m1, cfg, q, i)
               else if FileNameAt(m2, cfg, s) == CStr(q) then s else -1
    decreases s - i
  {
    if i < s {
      LookupAfterAppend(m1, m2, cfg, q, s, i + 1);
    }
  }

  /** The name a file is stored under reads back as the name cut to 15 characters. */
  function KeptName(name: seq<uint8>): (r: seq<uint8>)
    ensures |r| <= NameCopyLimit
  {
    var c := CStr(name);
    if |c| <= NameCopyLimit then c else c[..NameCopyLimit]
  }

  /** A header stored by RCFS_AddFile reads back, through strcmp's eyes, as the kept name. */
  lemma {:induction false} AddedName(cfg: Config, mem: map<int, uint16>, x: int, name: seq<uint8>)
    requires HeaderAt(mem, x) == NewHeader(cfg, name)
    ensures CStr(HeaderAt(mem, x)) == KeptName(name)
  {
    NewHeaderLayout(cfg, name);
    StoredNameReadsBack(cfg, name, HeaderAt(mem, x));
  }

  /** The file in slot s at offset o whose new header was stored reads back as that
      header, under the kept name. */
  lemma {:induction false} NewFileNamed(mem: map<int, uint16>, cfg: Config, s: nat, o: int, name: seq<uint8>)
    requires cfg.Valid() && EntryAddr(mem, cfg, s) == o
    requires BytesAt(mem, cfg.base + o, NewHeader(cfg, name)[..cfg.headerSize])
    ensures HeaderAt(mem, cfg.base + o) == NewHeader(cfg, name)
    ensures FileNameAt(mem, cfg, s) == KeptName(name)
  {
    NewHeaderReadsBack(mem, cfg, cfg.base + o, name);
    AddedName(cfg, mem, cfg.base + o, name);
  }

  /** `m2` is `m1` after a completed RCFS_AddFile put `length` bytes of `data` under
      `name` in the sentinel's slot s at the allocated offset o: the changes are confined
      to that entry and the file's bytes, the other entries are as they were, the entry
      reads (o, length + header size) and the new header and the data read back. */
  ghost predicate Appended(m1: map<int, uint16>, m2: map<int, uint16>, cfg: Config, s: nat, o: int,
                           data: Option<seq<uint8>>, length: int, name: seq<uint8>)
    requires cfg.Valid()
  {
    && s == SentinelSlot(m1, cfg) && o == NewFileOffset(m1, cfg, s)
    && s < cfg.maxFiles && 0 < length
    && (forall x :: (x < cfg.TocAddr(s) || cfg.TocAddr(s) + 8 <= x)
                    && (x < cfg.base + o || cfg.base + o + cfg.headerSize + length + 1 <= x) ==>
                    Read16(m2, x) == Read16(m1, x))
    && (forall i :: 0 <= i <= cfg.maxFiles && i != s ==>
          EntryAddr(m2, cfg, i) == EntryAddr(m1, cfg, i) && EntrySize(m2, cfg, i) == EntrySize(m1, cfg, i))
    && EntryAddr(m2, cfg, s) == o && EntrySize(m2, cfg, s) == length + cfg.headerSize
    && BytesAt(m2, cfg.base + o, NewHeader(cfg, name)[..cfg.headerSize])
    && data.Some? && length <= |data.value|
    && BytesAt(m2, cfg.base + o + cfg.headerSize, data.value[..length])
  }

  /** A completed RCFS_AddFile, stated on the flash alone: the files already there, their
      number and their names, and the new file in the sentinel's slot. */
  lemma {:induction false} AddFileAppended(cfg: Config, p: Primitives, sr: nat -> bv32, h: Hw, data: Option<seq<uint8>>,
                        length: int, name: seq<uint8>)
    requires Implements(p, sr) && cfg.Valid()
    requires data.Some? && 0 < length <= MaxFlashFileSize ==> length <= |data.value|
    ensures var a := AddFileSpec(cfg, p, h, data, length, name);
      a.ret == RcfsSuccess && a.ok ==>
        && 0 <= a.slot
        && Appended(h.mem, a.hw.mem, cfg, a.slot, a.offset, data, length, name)
  {
    AddFileOutcome(cfg, p, h, data, length, name);
    AddFileWrites(cfg, p, sr, h, data, length, name);
    AddFileHeader(cfg, p, sr, h, data, length, name);
    AddFileData(cfg, p, sr, h, data, length, name);
  }

  /** A well-formed table that gained a file stays well formed with one more file; the old
      files keep their names and the new one reads back under the kept name. */
  lemma {:induction false} AppendedTable(m1: map<int, uint16>, m2: map<int, uint16>, cfg: Config, s: nat, o: int, data: Option<seq<uint8>>,
                      length: int, name: seq<uint8>)
    requires cfg.Valid() && WellFormed(m1, cfg) && Appended(m1, m2, cfg, s, o, data, length, name)
    ensures VisitCount(m1, cfg) == s && VisitCount(m2, cfg) == s + 1
    ensures WellFormed(m2, cfg)
    ensures forall i :: 0 <= i < s ==> FileNameAt(m2, cfg, i) == FileNameAt(m1, cfg, i)
    ensures FileNameAt(m2, cfg, s) == KeptName(name)
    ensures HeaderAt(m2, cfg.base + o) == NewHeader(cfg, name)
  {
    WellFormedCount(m1, cfg);
    NewFileAfterAllFiles(m1, cfg);
    WellFormedAppend(m1, m2, cfg, s, o, length + cfg.headerSize);
    TocBelowFiles(cfg, s);
    NamesKept(m1, m2, cfg, s, o);
    NewFileNamed(m2, cfg, s, o, name);
  }

  /** After RCFS_AddFile completed on a well-formed table, the old files keep their slots
      and names and the new one follows them, under the kept name. */
  lemma {:induction false} AddFileAppends(cfg: Config, p: Primitives, sr: nat -> bv32, h: Hw, data: Option<seq<uint8>>,
                       length: int, name: seq<uint8>)
    requires Implements(p, sr) && cfg.Valid() && WellFormed(h.mem, cfg)
    requires data.Some? && 0 < length <= MaxFlashFileSize ==> length <= |data.value|
    ensures var a := AddFileSpec(cfg, p, h, data, length, name);
      a.ret == RcfsSuccess && a.ok ==>
        && 0 <= a.slot
        && VisitCount(h.mem, cfg) == a.slot && VisitCount(a.hw.mem, cfg) == a.slot + 1
        && WellFormed(a.hw.mem, cfg)
        && (forall i :: 0 <= i < a.slot ==> FileNameAt(a.hw.mem, cfg, i) == FileNameAt(h.mem, cfg, i))
        && FileNameAt(a.hw.mem, cfg, a.slot) == KeptName(name)
  {
    var a := AddFileSpec(cfg, p, h, data, length, name);
    if a.ret == RcfsSuccess && a.ok {
      AddFileAppended(cfg, p, sr, h, data, length, name);
      AppendedTable(h.mem, a.hw.mem, cfg, a.slot, a.offset, data, length, name);
    }
  }

  /** A lookup in a well-formed table that gained a file: an earlier match wins, otherwise
      the new file is found exactly when the name matches its kept name. */
  lemma {:induction false} AppendedLookup(m1: map<int, uint16>, m2: map<int, uint16>, cfg: Config, s: nat, o: int, data: Option<seq<uint8>>,
                       length: int, name: seq<uint8>, q: seq<uint8>)
    requires cfg.Valid() && WellFormed(m1, cfg) && Appended(m1, m2, cfg, s, o, data, length, name)
    ensures Lookup(m2, cfg, q) == (if Lookup(m1, cfg, q) >= 0 then Lookup(m1, cfg, q)
                                   else if CStr(q) == KeptName(name) then s else -1)
  {
    AppendedTable(m1, m2, cfg, s, o, data, length, name);
    LookupAfterAppend(m1, m2, cfg, q, s, 0);
  }

  /** Round trip: after a file has been added to a well-formed table and every program
      completed, a lookup of any name finds the same file as before, if there was one, and
      otherwise the new file exactly when the name equals the new file's name cut to 15
      characters. */
  lemma {:induction false} AddFileThenLookup(cfg: Config, p: Primitives, sr: nat -> bv32, h: Hw, data: Option<seq<uint8>>,
                          length: int, name: seq<uint8>, q: seq<uint8>)
    requires Implements(p, sr) && cfg.Valid() && WellFormed(h.mem, cfg)
    requires data.Some? && 0 < length <= MaxFlashFileSize ==> length <= |data.value|
    ensures var a := AddFileSpec(cfg, p, h, data, length, name);
      a.ret == RcfsSuccess && a.ok ==>
        Lookup(a.hw.mem, cfg, q) == (if Lookup(h.mem, cfg, q) >= 0 then Lookup(h.mem, cfg, q)
                                     else if CStr(q) == KeptName(name) then a.slot else -1)
  {
    var a := AddFileSpec(cfg, p, h, data, length, name);
    if a.ret == RcfsSuccess && a.ok {
      AddFileAppended(cfg, p, sr, h, data, length, name);
      AppendedLookup(h.mem, a.hw.mem, cfg, a.slot, a.offset, data, length, name, q);
    }
  }

  /** In a well-formed table that gained a file under a name of at most 15 characters that
      no file had: the addresses stay distinct, and the name finds the new file, whose size
      is the header and the data and whose bytes past the header are the data. */
  lemma {:induction false} AppendedFound(m1: map<int, uint16>, m2: map<int, uint16>, cfg: Config, s: nat, o: int,
                                         data: Option<seq<uint8>>, length: int, name: seq<uint8>)
    requires cfg.Valid() && WellFormed(m1, cfg) && Appended(m1, m2, cfg, s, o, data, length, name)
    requires Lookup(m1, cfg, name) == -1 && |CStr(name)| <= NameCopyLimit
    ensures DistinctAddrs(m2, cfg)
    ensures Lookup(m2, cfg, name) == s
    ensures EntrySize(m2, cfg, s) - cfg.headerSize == length
    ensures data.Some? && length <= |data.value|
    ensures ReadBytes(m2, cfg.base + EntryAddr(m2, cfg, s) + cfg.headerSize, length) == data.value[..length]
  {
    AppendedTable(m1, m2, cfg, s, o, data, length, name);
    WellFormedDistinct(m2, cfg);
    assert CStr(name) == KeptName(name);
    LookupAfterAppend(m1, m2, cfg, name, s, 0);
    AppendedData(m1, m2, cfg, s, o, data, length, name);
  }

  /** The data of a file just added reads back from the address its entry gives, past the header. */
  lemma {:induction false} AppendedData(m1: map<int, uint16>, m2: map<int, uint16>, cfg: Config, s: nat, o: int,
                                        data: Option<seq<uint8>>, length: int, name: seq<uint8>)
    requires cfg.Valid() && Appended(m1, m2, cfg, s, o, data, length, name)
    ensures data.Some? && length <= |data.value|
    ensures ReadBytes(m2, cfg.base + EntryAddr(m2, cfg, s) + cfg.headerSize, length) == data.value[..length]
  {
    ReadBytesEqual(m2, cfg.base + o + cfg.headerSize, data.value[..length]);
  }

  /** What RCFS_GetFile then finds for a name nobody had yet, at most 15 characters long:
      the new file, with the length written (that its bytes are the data is AddFileData,
      with the entry's offset from AddFileWrites). */
  lemma {:induction false} AddFileThenGetFile(cfg: Config, p: Primitives, sr: nat -> bv32, h: Hw, data: Option<seq<uint8>>,
                           length: int, name: seq<uint8>)
    requires Implements(p, sr) && cfg.Valid() && WellFormed(h.mem, cfg)
    requires data.Some? && 0 < length <= MaxFlashFileSize ==> length <= |data.value|
    requires Lookup(h.mem, cfg, name) == -1 && |CStr(name)| <= NameCopyLimit
    ensures var a := AddFileSpec(cfg, p, h, data, length, name);
      a.ret == RcfsSuccess && a.ok ==>
        && data.Some?
        && DistinctAddrs(a.hw.mem, cfg)
        && Lookup(a.hw.mem, cfg, name) == a.slot
        && EntrySize(a.hw.mem, cfg, a.slot) - cfg.headerSize == length
  {
    var a := AddFileSpec(cfg, p, h, data, length, name);
    if a.ret == RcfsSuccess && a.ok {
      AddFileAppended(cfg, p, sr, h, data, length, name);
      AppendedFound(h.mem, a.hw.mem, cfg, a.slot, a.offset, data, length, name);
    }
  }

  /** A well-formed table that gained a file under a name with no NUL and at most 15
      characters: the file is the last one a traversal visits, addresses stay distinct,
      and the name reads back whole, also through a 16-byte strncpy. */
  lemma {:induction false} AppendedWhole(m1: map<int, uint16>, m2: map<int, uint16>, cfg: Config, s: nat, o: int,
                                         data: Option<seq<uint8>>, length: int, name: seq<uint8>)
    requires cfg.Valid() && WellFormed(m1, cfg) && Appended(m1, m2, cfg, s, o, data, length, name)
    requires CStr(name) == name && |name| <= NameCopyLimit
    ensures VisitCount(m1, cfg) == s && VisitCount(m2, cfg) == s + 1
    ensures DistinctAddrs(m2, cfg)
    ensures FileNameAt(m2, cfg, s) == name
    ensures CStr(StrNCpy(HeaderAt(m2, cfg.base + EntryAddr(m2, cfg, s)), NameSize)) == name
  {
    AppendedTable(m1, m2, cfg, s, o, data, length, name);
    WellFormedDistinct(m2, cfg);
    StrNCpyKeepsShort(HeaderAt(m2, cfg.base + EntryAddr(m2, cfg, s)), NameSize);
  }

  /** Below 100000 files a synthesized name has no NUL and fits RCFS_AddFile's
      15-character cut. */
  lemma DefaultNameWhole(s: nat)
    requires s < 100000
    ensures CStr(DefaultName(s)) == DefaultName(s) && |DefaultName(s)| <= NameCopyLimit
  {
    DefaultNameSpec(s);
  }

  /** strncpy into a buffer longer than the string keeps the whole string. */
  lemma StrNCpyKeepsShort(src: seq<uint8>, n: nat)
    requires |CStr(src)| < n
    ensures CStr(StrNCpy(src, n)) == CStr(src)
  {
    var c := CStr(src);
    CStrSpec(src);
    CStrAt(StrNCpy(src, n), |c|);
  }

  /** RCFS_AddFileDefault on a well-formed table, every program completed: the file goes
      after the old ones and becomes the last one a traversal visits (the one
      RCFS_GetLastFilename reads), the table keeps distinct addresses, and that file is
      named "debug<slot>" (AppendedWhole: so is what a 16-byte strncpy copies out). */
  lemma {:induction false} AddFileDefaultNamed(cfg: Config, p: Primitives, sr: nat -> bv32, h: Hw,
                                               data: Option<seq<uint8>>, length: int)
    requires Implements(p, sr) && cfg.Valid() && WellFormed(h.mem, cfg)
    requires data.Some? && 0 < length <= MaxFlashFileSize ==> length <= |data.value|
    ensures var a := AddFileDefaultSpec(cfg, p, h, data, length);
      a.ret == RcfsSuccess && a.ok ==>
        && a.slot == VisitCount(h.mem, cfg) && VisitCount(a.hw.mem, cfg) == a.slot + 1
        && DistinctAddrs(a.hw.mem, cfg)
        && FileNameAt(a.hw.mem, cfg, a.slot) == DefaultName(a.slot)
  {
    var s := SentinelSlot(h.mem, cfg);
    if s >= 0 {
      var nm := DefaultName(s);
      var a := AddFileSpec(cfg, p, h, data, length, nm);
      AddFileAppended(cfg, p, sr, h, data, length, nm);
      if a.ret == RcfsSuccess && a.ok {
        DefaultNameWhole(s);
        AppendedWhole(h.mem, a.hw.mem, cfg, a.slot, a.offset, data, length, nm);
      }
    }
  }

  /** A failed size-word program breaks distinct addresses: when the only file's size word
      was left erased (it reads -1), RCFS_AddFile allocates the next file at that file's
      own offset, so once the entry is programmed two files share an address and
      find-next from the second returns the second again. */
  lemma {:induction false} ErasedSizeSharesOffset(cfg: Config, p: Primitives, sr: nat -> bv32, h: Hw,
                                                  data: Option<seq<uint8>>, length: int, name: seq<uint8>)
    requires Implements(p, sr) && cfg.Valid()
    requires data.Some? && 0 < length <= MaxFlashFileSize ==> length <= |data.value|
    requires !IsSentinel(h.mem, cfg, 0) && IsSentinel(h.mem, cfg, 1)
    requires FileFloor <= EntryAddr(h.mem, cfg, 0) && EntryAddr(h.mem, cfg, 0) % 2 == 0
    requires EntrySize(h.mem, cfg, 0) == -1
    ensures var a := AddFileSpec(cfg, p, h, data, length, name);
      a.ret == RcfsSuccess && a.tocOk ==>
        && a.slot == 1
        && EntryAddr(a.hw.mem, cfg, 1) == EntryAddr(a.hw.mem, cfg, 0)
        && !DistinctAddrs(a.hw.mem, cfg)
        && NextSlot(a.hw.mem, cfg, cfg.base + EntryAddr(a.hw.mem, cfg, 1)) == 1
  {
    var a := AddFileSpec(cfg, p, h, data, length, name);
    AddFileOutcome(cfg, p, h, data, length, name);
    if a.ret == RcfsSuccess && a.tocOk {
      SentinelFromSpec(h.mem, cfg, 0);
      assert SentinelSlot(h.mem, cfg) == 1;
      var a0 := EntryAddr(h.mem, cfg, 0);
      assert ScanTable(h.mem, cfg, 1) == Scan(a0, a0 - 1);
      assert NewFileOffset(h.mem, cfg, 1) == a0;
      AddFileWrites(cfg, p, sr, h, data, length, name);
      var m := a.hw.mem;
      VisitCountSpec(m, cfg);
      assert !IsSentinel(m, cfg, 0) && !IsSentinel(m, cfg, 1);
      assert VisitCount(m, cfg) >= 2;
      DuplicateAddressLoops(m, cfg, 0, 1);
    }
  }
}
