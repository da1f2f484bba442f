/// The ROBOTC file system operations (flash_rcfs.c) over a `FlashController`.
/// Each method walks the table of contents the way the C code does and is
/// proved against the specification functions of `RcfsSpec`.
module Rcfs {
  import opened Stm32Flash
  import opened RcfsSpec

  /** flash_file: the on-flash header fields plus the address, data pointer and length
      kept alongside them in RAM. */
  class FlashFile {
    const name: array<uint8>
    var fileType: uint8
    const time: array<uint8>
    var unknown: uint8
    const pad: array<uint8>
    var addr: int
    var data: DataRef
    var datalength: int

    /** The arrays have their C sizes (and, having different sizes, never alias). */
    predicate Valid()
    {
      name.Length == NameSize && time.Length == 4 && pad.Length == 2
    }

    constructor ()
      ensures Valid() && fresh(name) && fresh(time) && fresh(pad)
    {
      name := new uint8[NameSize](_ => 0);
      time := new uint8[4](_ => 0);
      pad := new uint8[2](_ => 0);
    }

    /** The 24 header bytes as they lie in the structure, name first. */
    function HeaderBytes(): (h: seq<uint8>)
      requires Valid()
      reads this, name, time, pad
      ensures |h| == HeaderStructSize
    {
      name[..] + [fileType] + time[..] + [unknown] + pad[..]
    }
  }

  /** Where each field lies in the header bytes. */
  lemma HeaderBytesLayout(f: FlashFile)
    requires f.Valid()
    ensures var h := f.HeaderBytes();
      && (forall i :: 0 <= i < NameSize ==> h[i] == f.name[i])
      && h[NameSize] == f.fileType && h[HeaderReadSize - 1] == f.unknown
      && (forall i :: 0 <= i < 4 ==> h[NameSize + 1 + i] == f.time[i])
      && h[HeaderReadSize] == f.pad[0] && h[HeaderReadSize + 1] == f.pad[1]
  {
  }

  /** `f` holds the file in `slot`: its address, data pointer, length and header. */
  ghost predicate Describes(f: FlashFile, mem: map<int, uint16>, cfg: Config, slot: nat)
    requires f.Valid()
    reads f, f.name, f.time, f.pad
  {
    && f.addr == cfg.base + EntryAddr(mem, cfg, slot)
    && f.data == InFlash(f.addr + cfg.headerSize)
    && f.datalength == EntrySize(mem, cfg, slot) - cfg.headerSize
    && f.HeaderBytes() == HeaderAt(mem, f.addr)
  }

  /** RCFS_FileInit: an empty header with the default type and creation time. */
  method FileInit(cfg: Config, f: FlashFile)
    requires f.Valid()
    modifies f, f.name, f.time, f.pad
    ensures f.addr == 0 && f.data == Null && f.datalength == 0
    ensures f.name[..] == StoredName([]) && f.fileType == cfg.dataFileType
    ensures f.time[..] == DefaultTime && f.unknown == 0 && f.pad[..] == [0, 0]
  {
    f.addr := 0;
    f.data := Null;
    f.datalength := 0;
    for i := 0 to NameSize
      invariant forall k :: 0 <= k < i ==> f.name[k] == 0
      modifies f.name
    {
      f.name[i] := 0;
    }
    f.fileType := cfg.dataFileType;
    f.time[0], f.time[1], f.time[2], f.time[3] := 0x38, 0x64, 0x09, 0x00;
    f.unknown := 0;
    f.pad[0], f.pad[1] := 0, 0;
    assert f.name[..] == StoredName([]);
    assert f.time[..] == DefaultTime;
    assert f.pad[..] == [0, 0];
  }

  /** strncpy(dst, src, n): the string in `src`, cut or zero-filled to n bytes; the rest
      of `dst` is left alone. */
  method StrNCpyInto(dst: array<uint8>, src: seq<uint8>, n: nat)
    requires n <= dst.Length
    modifies dst
    ensures dst[..n] == StrNCpy(src, n)
    ensures dst[n..] == old(dst[n..])
  {
    var i := 0;
    while i < n && i < |src| && src[i] != 0
      invariant 0 <= i <= n && i <= |src|
      invariant forall k :: 0 <= k < i ==> src[k] != 0 && dst[k] == src[k]
      invariant dst[n..] == old(dst[n..])
    {
      dst[i] := src[i];
      i := i + 1;
    }
    ghost var copied := i;
    CStrSpec(src);
    StrNCpySpec(src, n);
    if i < n {
      CStrAt(src, i);
    } else {
      assert |CStr(src)| >= n by {
        if |CStr(src)| < n {
          assert false;
        }
      }
    }
    while i < n
      invariant copied <= i <= n
      invariant forall k :: 0 <= k < copied ==> dst[k] == src[k]
      invariant forall k :: copied <= k < i ==> dst[k] == 0
      invariant dst[n..] == old(dst[n..])
    {
      dst[i] := 0;
      i := i + 1;
    }
  }

  /** RCFS_Write: programs the header and then the data, half-word by half-word, from
      the file's address up; an odd last byte goes out padded with 0xFF. */
  method Write(flash: FlashController, cfg: Config, f: FlashFile)
    requires flash.Valid()
    requires cfg.Valid() && f.Valid()
    requires !f.data.InFlash?
    requires f.data.InRam? ==> 0 <= f.datalength <= |f.data.bytes|
    modifies flash`mem, flash`polls
    ensures flash.State()
            == FileWriteSpec(cfg, flash.prims, old(flash.State()), f.addr, f.HeaderBytes(), f.data, f.datalength).hw
  {
    if f.addr < cfg.base {
      return;
    }
    if f.data.Null? {
      return;
    }
    WriteImage(flash, cfg, f.addr, f.HeaderBytes(), f.data.bytes, f.datalength);
  }

  /** The two loops of RCFS_Write: the header, then the data from where the header ended. */
  method WriteImage(flash: FlashController, cfg: Config, a: int, hdr: seq<uint8>, bytes: seq<uint8>, len: int)
    requires flash.Valid() && cfg.Valid()
    requires |hdr| == HeaderStructSize && 0 <= len <= |bytes|
    modifies flash`mem, flash`polls
    ensures flash.State() == ProgramHalfWordsSpec(flash.prims, old(flash.State()), a, FileImage(hdr, cfg.headerSize, bytes, len)).hw
  {
    ghost var h0 := flash.State();
    ghost var head, body := PackHalfWords(hdr, cfg.headerSize / 2), DataImage(bytes, len);
    var p := WriteHeader(flash, hdr, cfg.headerSize, a);
    ghost var h1 := flash.State();
    assert h1 == ProgramHalfWordsSpec(flash.prims, h0, a, head).hw;
    assert p == a + 2 * |head|;
    p := WriteData(flash, bytes, len, p);
    assert flash.State() == ProgramHalfWordsSpec(flash.prims, h1, a + 2 * |head|, body).hw;
    ProgramHalfWordsAppend(flash.prims, h0, a, head, body);
    assert FileImage(hdr, cfg.headerSize, bytes, len) == head + body;
  }

  /** The header loop of RCFS_Write: the header's bytes taken two at a time as half-words;
      returns the address after the header. */
  method WriteHeader(flash: FlashController, hdr: seq<uint8>, headerSize: int, a: int) returns (p: int)
    requires flash.Valid()
    requires 0 <= headerSize <= |hdr|
    modifies flash`mem, flash`polls
    ensures p == a + 2 * (headerSize / 2)
    ensures flash.State() == ProgramHalfWordsSpec(flash.prims, old(flash.State()), a, PackHalfWords(hdr, headerSize / 2)).hw
  {
    ghost var h0 := flash.State();
    ghost var img := PackHalfWords(hdr, headerSize / 2);
    p := a;
    var i := 0;
    while i < headerSize / 2
      invariant 0 <= i <= headerSize / 2 && p == a + 2 * i
      invariant flash.State() == ProgramHalfWordsSpec(flash.prims, h0, a, img[..i]).hw
    {
      ProgramHalfWordsSnoc(flash.prims, h0, a, img, i);
      var st := flash.ProgramHalfWord(p, HalfWordOf(hdr[2 * i], hdr[2 * i + 1]));
      p := p + 2;
      i := i + 1;
    }
    assert img[..i] == img;
  }

  /** The data loop of RCFS_Write and its odd-byte tail; returns the address after the data. */
  method WriteData(flash: FlashController, bytes: seq<uint8>, len: int, a: int) returns (p: int)
    requires flash.Valid()
    requires 0 <= len <= |bytes|
    modifies flash`mem, flash`polls
    ensures flash.State() == ProgramHalfWordsSpec(flash.prims, old(flash.State()), a, DataImage(bytes, len)).hw
  {
    ghost var h0 := flash.State();
    ghost var img := DataImage(bytes, len);
    p := a;
    var q := 0;
    var i := 0;
    while i < len / 2
      invariant 0 <= i <= len / 2 && q == 2 * i && p == a + 2 * i
      invariant flash.State() == ProgramHalfWordsSpec(flash.prims, h0, a, img[..i]).hw
    {
      ProgramHalfWordsSnoc(flash.prims, h0, a, img, i);
      var st := flash.ProgramHalfWord(p, HalfWordOf(bytes[q], bytes[q + 1]));
      p := p + 2;
      q := q + 2;
      i := i + 1;
    }
    if len % 2 == 1 {
      ProgramHalfWordsSnoc(flash.prims, h0, a, img, i);
      var st := flash.ProgramHalfWord(p, OddTail(bytes[q]));
      p := p + 2;
      i := i + 1;
    }
    assert img[..i] == img;
  }

  /** RCFS_ReadHeader: name, type, time and flag byte read from flash at the file's
      address; the pad bytes are zeroed. */
  method ReadHeader(mem: map<int, uint16>, f: FlashFile)
    requires f.Valid()
    modifies f`fileType, f`unknown, f.name, f.time, f.pad
    ensures f.HeaderBytes() == HeaderAt(mem, f.addr)
  {
    ReadName(mem, f);
    ReadFields(mem, f);
    HeaderAtFields(mem, f.addr, f.name[..], f.fileType, f.time[..], f.unknown);
  }

  /** The type, time and flag bytes of RCFS_ReadHeader, which follow the name in flash,
      and the zeroed pad. */
  method ReadFields(mem: map<int, uint16>, f: FlashFile)
    requires f.Valid()
    modifies f`fileType, f`unknown, f.time, f.pad
    ensures var q := f.addr + NameSize;
      && f.fileType == Read8(mem, q) && f.unknown == Read8(mem, q + 5)
      && (forall k :: 0 <= k < 4 ==> f.time[k] == Read8(mem, q + 1 + k))
      && f.pad[..] == [0, 0]
  {
    var q := f.addr + NameSize;
    f.fileType := Read8(mem, q);
    f.time[0], f.time[1], f.time[2], f.time[3] := Read8(mem, q + 1), Read8(mem, q + 2), Read8(mem, q + 3), Read8(mem, q + 4);
    f.unknown := Read8(mem, q + 5);
    f.pad[0], f.pad[1] := 0, 0;
  }

  /** The name loop of RCFS_ReadHeader. */
  method ReadName(mem: map<int, uint16>, f: FlashFile)
    requires f.Valid()
    modifies f.name
    ensures forall k :: 0 <= k < NameSize ==> f.name[k] == Read8(mem, f.addr + k)
  {
    var q := f.addr;
    for i := 0 to NameSize
      invariant q == f.addr + i
      invariant forall k :: 0 <= k < i ==> f.name[k] == Read8(mem, f.addr + k)
    {
      f.name[i] := Read8(mem, q);
      q := q + 1;
    }
  }

  /** Loads the VTOC entry `slot` into `f` and reads its header, as the find functions do. */
  method LoadEntry(mem: map<int, uint16>, cfg: Config, f: FlashFile, slot: nat)
    requires f.Valid()
    modifies f, f.name, f.time, f.pad
    ensures Describes(f, mem, cfg, slot)
  {
    f.addr := cfg.base + EntryAddr(mem, cfg, slot);
    f.data := InFlash(f.addr + cfg.headerSize);
    f.datalength := EntrySize(mem, cfg, slot) - cfg.headerSize;
    ReadHeader(mem, f);
  }

  /** RCFS_FindLastSlot: the slot of the sentinel, -1 when every slot holds a file. */
  method FindLastSlot(mem: map<int, uint16>, cfg: Config) returns (slot: int)
    ensures slot == SentinelSlot(mem, cfg)
    ensures -1 <= slot < cfg.maxFiles
    ensures slot >= 0 ==> IsSentinel(mem, cfg, slot)
    ensures forall i :: 0 <= i < (if slot >= 0 then slot else cfg.maxFiles) ==> !IsSentinel(mem, cfg, i)
  {
    var s := 0;
    while s < cfg.maxFiles
      invariant 0 <= s <= cfg.maxFiles
      invariant SentinelFrom(mem, cfg, s) == SentinelSlot(mem, cfg)
    {
      if EntryAddr(mem, cfg, s) == -1 {
        SentinelFromSpec(mem, cfg, 0);
        return s;
      }
      s := s + 1;
    }
    SentinelFromSpec(mem, cfg, 0);
    return RcfsError;
  }

  /** RCFS_FindFirstFile: loads slot 0 unless it is the sentinel. */
  method FindFirstFile(mem: map<int, uint16>, cfg: Config, f: FlashFile?) returns (r: int)
    requires f != null ==> f.Valid()
    modifies if f == null then {} else {f, f.name, f.time, f.pad}
    ensures f == null ==> r == RcfsError
    ensures f != null ==> r == (if VisitCount(mem, cfg) > 0 then 0 else RcfsError)
    ensures f != null && r == 0 ==> Describes(f, mem, cfg, 0)
    ensures f != null && r != 0 ==> unchanged(f, f.name, f.time, f.pad)
  {
    if f == null {
      return RcfsError;
    }
    var a := EntryAddr(mem, cfg, 0);
    if a == -1 {
      return RcfsError;
    }
    LoadEntry(mem, cfg, f, 0);
    return 0;
  }

  /** RCFS_FindNextFile: finds the entry whose address is the file's own and loads the
      entry after it, unless that is the sentinel. */
  method FindNextFile(mem: map<int, uint16>, cfg: Config, f: FlashFile?) returns (r: int)
    requires f != null ==> f.Valid()
    modifies if f == null then {} else {f, f.name, f.time, f.pad}
    ensures f == null ==> r == RcfsError
    ensures f != null ==> r == NextSlot(mem, cfg, old(f.addr))
    ensures f != null && r >= 0 ==> Describes(f, mem, cfg, r)
    ensures f != null && r < 0 ==> unchanged(f, f.name, f.time, f.pad)
  {
    if f == null {
      return RcfsError;
    }
    var slot := 0;
    while slot < cfg.maxFiles
      invariant 0 <= slot <= cfg.maxFiles
      invariant NextSlotFrom(mem, cfg, f.addr, slot) == NextSlot(mem, cfg, f.addr)
    {
      var a := EntryAddr(mem, cfg, slot);
      if a == -1 {
        return RcfsError;
      }
      if cfg.base + a == f.addr {
        slot := slot + 1;
        var next := EntryAddr(mem, cfg, slot);
        if next == -1 {
          return RcfsError;
        }
        LoadEntry(mem, cfg, f, slot);
        return slot;
      }
      slot := slot + 1;
    }
    return RcfsError;
  }

  /** RCFS_AddFile(data, length, name). */
  method AddFile(flash: FlashController, cfg: Config, data: Option<seq<uint8>>, length: int, name: seq<uint8>)
    returns (r: int)
    requires cfg.Valid() && flash.Valid()
    requires data.Some? && 0 < length <= MaxFlashFileSize ==> length <= |data.value|
    modifies flash
    ensures var a := AddFileSpec(cfg, flash.prims, old(flash.State()), data, length, name);
      flash.State() == a.hw && r == a.ret
  {
    if length <= 0 || length > MaxFlashFileSize {
      return RcfsError;
    }
    var maxaddr, nextaddr := 0, 0;
    var slot := 0;
    while slot < cfg.maxFiles
      invariant 0 <= slot <= cfg.maxFiles
      invariant SentinelFrom(flash.mem, cfg, slot) == SentinelSlot(flash.mem, cfg)
      invariant Scan(maxaddr, nextaddr) == ScanTable(flash.mem, cfg, slot)
    {
      var a := EntryAddr(flash.mem, cfg, slot);
      if a == -1 {
        r := PlaceFile(flash, cfg, slot, nextaddr, data, length, name);
        return;
      }
      var size := EntrySize(flash.mem, cfg, slot);
      if a > maxaddr {
        maxaddr := a;
        nextaddr := a + size;
      }
      slot := slot + 1;
    }
    return RcfsError;
  }

  /** The sentinel branch of RCFS_AddFile's loop. */
  method PlaceFile(flash: FlashController, cfg: Config, slot: nat, next: int, data: Option<seq<uint8>>,
                   length: int, name: seq<uint8>) returns (r: int)
    requires cfg.Valid() && flash.Valid() && 0 < length <= MaxFlashFileSize
    requires data.Some? ==> length <= |data.value|
    modifies flash
    ensures var a := PlaceFileSpec(cfg, flash.prims, old(flash.State()), slot, next, data, length, name);
      flash.State() == a.hw && r == a.ret
  {
    var nextaddr := next;
    if nextaddr % 2 == 1 {
      nextaddr := nextaddr + 1;
    }
    if nextaddr < FileFloor {
      nextaddr := FileFloor;
    }
    if nextaddr + length > FileCeiling {
      return RcfsError;
    }
    r := CreateFile(flash, cfg, slot, nextaddr, data, length, name);
  }

  /** The new file's VTOC entry, header and data. */
  method CreateFile(flash: FlashController, cfg: Config, slot: nat, offset: int, data: Option<seq<uint8>>,
                    length: int, name: seq<uint8>) returns (r: int)
    requires cfg.Valid() && flash.Valid() && 0 < length <= MaxFlashFileSize
    requires FileFloor <= offset <= FileCeiling - length
    requires data.Some? ==> length <= |data.value|
    modifies flash
    ensures var a := CreateFileSpec(cfg, flash.prims, old(flash.State()), slot, offset, data, length, name);
      flash.State() == a.hw && r == a.ret
  {
    var f := NewFile(cfg, name, cfg.base + offset, data, length);
    ghost var h0 := flash.State();
    WriteEntry(flash, cfg, slot, offset, length + cfg.headerSize);
    assert flash.State() == EntryWriteSpec(cfg, flash.prims, h0, slot, offset, length + cfg.headerSize).hw;
    assert f.HeaderBytes() == NewHeader(cfg, name);
    Write(flash, cfg, f);
    return RcfsSuccess;
  }

  /** The VTOC entry of a new file: the bank is unlocked, the pending flags cleared, and the
      offset and size words programmed, their statuses unused. */
  method WriteEntry(flash: FlashController, cfg: Config, slot: nat, offset: uint32, size: uint32)
    requires cfg.Valid() && flash.Valid()
    modifies flash
    ensures flash.Valid()
    ensures flash.State() == EntryWriteSpec(cfg, flash.prims, old(flash.State()), slot, offset, size).hw
  {
    flash.UnlockBank1();
    flash.ClearFlag(FlagEop | FlagPgErr | FlagWrpErr);
    var st := flash.ProgramWord(cfg.TocAddr(slot), offset);
    st := flash.ProgramWord(cfg.TocAddr(slot) + 4, size);
  }

  /** RCFS_FileInit, the copy of at most 15 characters of the name, and the address, data
      pointer and length of the new file. */
  method NewFile(cfg: Config, name: seq<uint8>, addr: int, data: Option<seq<uint8>>, length: int) returns (f: FlashFile)
    ensures fresh(f) && fresh(f.name) && fresh(f.time) && fresh(f.pad) && f.Valid()
    ensures f.HeaderBytes() == NewHeader(cfg, name)
    ensures f.addr == addr && f.datalength == length
    ensures f.data == if data.Some? then InRam(data.value) else Null
  {
    f := new FlashFile();
    FileInit(cfg, f);
    ghost var blank := f.name[..];
    assert blank[NameCopyLimit..] == [0];
    StrNCpyInto(f.name, name, NameCopyLimit);
    assert f.name[..] == f.name[..NameCopyLimit] + f.name[NameCopyLimit..];
    assert f.name[..] == StoredName(name);
    assert f.HeaderBytes() == NewHeader(cfg, name);
    f.addr := addr;
    f.data := if data.Some? then InRam(data.value) else Null;
    f.datalength := length;
  }

  /** RCFS_AddFile(data, length): names the file "debug" followed by the sentinel's slot
      number in at least three digits. */
  method AddFileDefault(flash: FlashController, cfg: Config, data: Option<seq<uint8>>, length: int)
    returns (r: int)
    requires cfg.Valid() && flash.Valid()
    requires data.Some? && 0 < length <= MaxFlashFileSize ==> length <= |data.value|
    modifies flash
    ensures var a := AddFileDefaultSpec(cfg, flash.prims, old(flash.State()), data, length);
      flash.State() == a.hw && r == a.ret
  {
    var slot := FindLastSlot(flash.mem, cfg);
    if slot < 0 {
      return RcfsError;
    }
    var name := DefaultName(slot);
    r := AddFile(flash, cfg, data, length, name);
  }

  /** RCFS_GetFile: walks the files in table order and returns the data address and
      length of the first one whose name matches. */
  method GetFile(mem: map<int, uint16>, cfg: Config, name: seq<uint8>) returns (r: int, data: int, length: int)
    requires DistinctAddrs(mem, cfg)
    ensures r == RcfsSuccess || r == RcfsError
    ensures var i := Lookup(mem, cfg, name);
      && (r == RcfsSuccess <==> i >= 0)
      && (i >= 0 ==> data == cfg.base + EntryAddr(mem, cfg, i) + cfg.headerSize
                     && length == EntrySize(mem, cfg, i) - cfg.headerSize)
  {
    var f := new FlashFile();
    var k := FindFirstFile(mem, cfg, f);
    if k >= 0 {
      while true
        invariant 0 <= k < VisitCount(mem, cfg)
        invariant f.Valid() && fresh(f) && fresh(f.name) && fresh(f.time) && fresh(f.pad)
        invariant Describes(f, mem, cfg, k)
        invariant LookupFrom(mem, cfg, name, k) == Lookup(mem, cfg, name)
        decreases VisitCount(mem, cfg) - k
      {
        ghost var cursor := f.addr;
        LookupVisit(mem, cfg, name, k);
        if CStr(name) == CStr(f.HeaderBytes()) {
          return RcfsSuccess, f.addr + cfg.headerSize, f.datalength;
        }
        var next := FindNextFile(mem, cfg, f);
        if next < 0 {
          break;
        }
        assert next == k + 1;
        k := next;
      }
    }
    return RcfsError, 0, 0;
  }

  /** RCFS_GetLastFilename: copies at most `len` (capped at 16) bytes of the name of the
      last file into `name`. */
  method GetLastFilename(mem: map<int, uint16>, cfg: Config, name: array?<uint8>, len: int) returns (r: int)
    requires DistinctAddrs(mem, cfg)
    requires 0 <= len
    requires name != null ==> (if len > NameSize then NameSize else len) <= name.Length
    modifies name
    ensures name == null ==> r == RcfsError
    ensures name != null ==>
      var n := VisitCount(mem, cfg);
      var cap := if len > NameSize then NameSize else len;
      && (r == RcfsSuccess <==> n > 0)
      && (r == RcfsSuccess || r == RcfsError)
      && (n > 0 ==> name[..cap] == StrNCpy(HeaderAt(mem, cfg.base + EntryAddr(mem, cfg, n - 1)), cap)
                    && name[cap..] == old(name[cap..]))
      && (n == 0 ==> unchanged(name))
  {
    if name == null {
      return RcfsError;
    }
    var cap := if len > NameSize then NameSize else len;
    var f := new FlashFile();
    var found := FindLastFile(mem, cfg, f);
    if !found {
      return RcfsError;
    }
    StrNCpyInto(name, f.HeaderBytes(), cap);
    return RcfsSuccess;
  }

  /** The traversal of RCFS_GetLastFilename: find-first, then find-next until it fails,
      which leaves `f` holding the last visitable file. */
  method FindLastFile(mem: map<int, uint16>, cfg: Config, f: FlashFile) returns (found: bool)
    requires DistinctAddrs(mem, cfg) && f.Valid()
    modifies f, f.name, f.time, f.pad
    ensures found <==> VisitCount(mem, cfg) > 0
    ensures found ==> Describes(f, mem, cfg, VisitCount(mem, cfg) - 1)
  {
    var k := FindFirstFile(mem, cfg, f);
    if k < 0 {
      return false;
    }
    while true
      invariant 0 <= k < VisitCount(mem, cfg)
      invariant Describes(f, mem, cfg, k)
      decreases VisitCount(mem, cfg) - k
    {
      NextSlotAdvances(mem, cfg, k);
      var next := FindNextFile(mem, cfg, f);
      if next < 0 {
        break;
      }
      k := next;
    }
    return true;
  }
}
