/// Specification of the ROBOTC file system (flash_rcfs.c): the table of
/// contents (VTOC) as it reads out of flash, the bump allocator, the file
/// header and name rules, and the image RCFS_Write programs.
module RcfsSpec {
  import opened Stm32Flash

  datatype Option<T> = None | Some(value: T)

  /** Where a flash_file's data pointer points: nowhere, at a caller's buffer, or into flash. */
  datatype DataRef = Null | InRam(bytes: seq<uint8>) | InFlash(addr: int)

  const MaxFlashFileSize: int := 8192
  /** Lowest offset the allocator hands out, and the top of the file area (offsets from the base). */
  const FileFloor: int := 0x18000
  const FileCeiling: int := 0x47000
  const RcfsSuccess: int := 0
  const RcfsError: int := -1

  const NameSize: nat := 16
  /** strncpy copies at most this many characters of a new file's name. */
  const NameCopyLimit: nat := 15
  /** RCFS_ReadHeader reads name[16], type, time[4] and the flag byte. */
  const HeaderReadSize: nat := 22
  /** The full header structure: name, type, time, flag byte and two pad bytes. */
  const HeaderStructSize: nat := 24
  /** "debug", the base of synthesized names. */
  const BaseName: seq<uint8> := [0x64, 0x65, 0x62, 0x75, 0x67]
  /** The creation time RCFS_FileInit puts into every new header. */
  const DefaultTime: seq<uint8> := [0x38, 0x64, 0x09, 0x00]

  /** Build-time configuration: kStartOfFileSystem, kMaxNumbofFlashFiles,
      FLASH_FILE_HEADER_SIZE, VTOC_OFFSET and the ftData file-type tag. */
  datatype Config = Config(base: int, maxFiles: nat, headerSize: int, vtocOffset: int, dataFileType: uint8)
  {
    predicate Valid()
    {
      && base >= 0 && base % 2 == 0
      && (headerSize == 22 || headerSize == 24)
      && (vtocOffset == 24 || vtocOffset == 28 || vtocOffset == 160)
      && vtocOffset + 8 * (maxFiles + 1) <= FileFloor
    }

    /** Address of the VTOC entry `slot`: an (offset, size) pair of 32-bit words. */
    function TocAddr(slot: nat): int
    {
      base + vtocOffset + 8 * slot
    }
  }

  // ---------------------------------------------------------------------------
  // The VTOC
  // ---------------------------------------------------------------------------

  /** A 32-bit word read as a C `long`. */
  function ToLong(w: uint32): int
  {
    if w < 0x8000_0000 then w else w - 0x1_0000_0000
  }

  /** The two's-complement reading: a 32-bit signed value, non-negative exactly for
      words below 2^31 (which read as themselves), and -1 exactly for the all-ones word. */
  lemma ToLongSpec(w: uint32)
    ensures var x := ToLong(w);
      && -0x8000_0000 <= x < 0x8000_0000
      && (x >= 0 <==> w < 0x8000_0000)
      && (x >= 0 ==> x == w)
      && (x == -1 <==> w == 0xFFFF_FFFF)
  {
  }

  function EntryAddr(mem: map<int, uint16>, cfg: Config, slot: nat): int
  {
    ToLong(Read32(mem, cfg.TocAddr(slot)))
  }

  function EntrySize(mem: map<int, uint16>, cfg: Config, slot: nat): int
  {
    ToLong(Read32(mem, cfg.TocAddr(slot) + 4))
  }

  /** The end-of-table marker: an address word of all ones. */
  predicate IsSentinel(mem: map<int, uint16>, cfg: Config, slot: nat)
  {
    EntryAddr(mem, cfg, slot) == -1
  }

  /** The first sentinel at or after `slot` within the table, or -1. */
  function SentinelFrom(mem: map<int, uint16>, cfg: Config, slot: nat): (s: int)
    ensures s == -1 || slot <= s < cfg.maxFiles
    decreases cfg.maxFiles - slot
  {
    if slot >= cfg.maxFiles then -1
    else if IsSentinel(mem, cfg, slot) then slot
    else SentinelFrom(mem, cfg, slot + 1)
  }

  /** The scan stops at the first sentinel from `slot` on, and returns -1 only when there
      is none in the table. */
  lemma {:induction false} SentinelFromSpec(mem: map<int, uint16>, cfg: Config, slot: nat)
    ensures var s := SentinelFrom(mem, cfg, slot);
      && (s >= 0 ==> IsSentinel(mem, cfg, s) && forall i :: slot <= i < s ==> !IsSentinel(mem, cfg, i))
      && (s == -1 ==> forall i :: slot <= i < cfg.maxFiles ==> !IsSentinel(mem, cfg, i))
    decreases cfg.maxFiles - slot
  {
    if slot < cfg.maxFiles && !IsSentinel(mem, cfg, slot) {
      SentinelFromSpec(mem, cfg, slot + 1);
    }
  }

  /** The sentinel's slot, i.e. the number of files; -1 when the table is full. */
  function SentinelSlot(mem: map<int, uint16>, cfg: Config): int
  {
    SentinelFrom(mem, cfg, 0)
  }

  /** How many entries a find-first / find-next traversal can visit: up to the sentinel,
      or, in a full table, up to the word pair just past it. */
  function VisitCount(mem: map<int, uint16>, cfg: Config): (n: nat)
    ensures n <= cfg.maxFiles + 1
  {
    var s := SentinelSlot(mem, cfg);
    if s >= 0 then s
    else if IsSentinel(mem, cfg, cfg.maxFiles) then cfg.maxFiles
    else cfg.maxFiles + 1
  }

  lemma VisitCountSpec(mem: map<int, uint16>, cfg: Config)
    ensures var n := VisitCount(mem, cfg);
      && (forall i :: 0 <= i < n ==> !IsSentinel(mem, cfg, i))
      && (n <= cfg.maxFiles ==> IsSentinel(mem, cfg, n))
  {
    SentinelFromSpec(mem, cfg, 0);
  }

  /** Entries a traversal visits have pairwise distinct addresses. */
  ghost predicate DistinctAddrs(mem: map<int, uint16>, cfg: Config)
  {
    forall i, j :: 0 <= i < j < VisitCount(mem, cfg) ==> EntryAddr(mem, cfg, i) != EntryAddr(mem, cfg, j)
  }

  /** A table as the allocator leaves it: files at or above the floor, each at least a
      header long, laid out in slot order without overlap, and every slot after the last
      file up to the end of the table a sentinel. */
  ghost predicate WellFormed(mem: map<int, uint16>, cfg: Config)
  {
    var n := VisitCount(mem, cfg);
    && (forall i :: 0 <= i < n ==> FileFloor <= EntryAddr(mem, cfg, i) && cfg.headerSize <= EntrySize(mem, cfg, i))
    && (forall i, j :: 0 <= i < j < n ==> EntryAddr(mem, cfg, i) + EntrySize(mem, cfg, i) <= EntryAddr(mem, cfg, j))
    && (forall i :: n <= i <= cfg.maxFiles ==> IsSentinel(mem, cfg, i))
  }

  lemma WellFormedDistinct(mem: map<int, uint16>, cfg: Config)
    requires cfg.Valid() && WellFormed(mem, cfg)
    ensures DistinctAddrs(mem, cfg)
  {
  }

  // ---------------------------------------------------------------------------
  // Allocation
  // ---------------------------------------------------------------------------

  /** The (maxaddr, nextaddr) pair of RCFS_AddFile's scan. */
  datatype Scan = Scan(maxAddr: int, nextAddr: int)

  /** The scan after the entries [0, n): an entry whose address exceeds the largest
      seen so far becomes the last file, and the next address is its end. */
  function ScanTable(mem: map<int, uint16>, cfg: Config, n: nat): Scan
  {
    if n == 0 then Scan(0, 0)
    else
      var p := ScanTable(mem, cfg, n - 1);
      var a := EntryAddr(mem, cfg, n - 1);
      if a > p.maxAddr then Scan(a, a + EntrySize(mem, cfg, n - 1)) else p
  }

  /** The scan finds the first entry with the highest positive address and the end of that
      file; with no entry above zero it stays at (0, 0). */
  lemma {:induction false} ScanFindsHighest(mem: map<int, uint16>, cfg: Config, n: nat)
    ensures var r := ScanTable(mem, cfg, n);
      && r.maxAddr >= 0
      && (forall i :: 0 <= i < n ==> EntryAddr(mem, cfg, i) <= r.maxAddr)
      && (r.maxAddr == 0 ==> r.nextAddr == 0)
      && (r.maxAddr > 0 ==> exists j :: 0 <= j < n && EntryAddr(mem, cfg, j) == r.maxAddr
                                      && r.nextAddr == EntryAddr(mem, cfg, j) + EntrySize(mem, cfg, j)
                                      && forall i :: 0 <= i < j ==> EntryAddr(mem, cfg, i) < r.maxAddr)
  {
    if n > 0 {
      ScanFindsHighest(mem, cfg, n - 1);
      var p := ScanTable(mem, cfg, n - 1);
      var a := EntryAddr(mem, cfg, n - 1);
      if a > p.maxAddr {
        assert forall i :: 0 <= i < n - 1 ==> EntryAddr(mem, cfg, i) < a;
      } else if p.maxAddr > 0 {
        var j :| 0 <= j < n - 1 && EntryAddr(mem, cfg, j) == p.maxAddr
                 && p.nextAddr == EntryAddr(mem, cfg, j) + EntrySize(mem, cfg, j)
                 && forall i :: 0 <= i < j ==> EntryAddr(mem, cfg, i) < p.maxAddr;
        assert 0 <= j < n;
      }
    }
  }

  /** Round up to an even offset, then raise to the floor: the least even offset that is
      at or above both the end of the last file and the floor. */
  function AllocOffset(next: int): (r: int)
    ensures r % 2 == 0 && r >= next && r >= FileFloor
    ensures r == FileFloor || r == next || r == next + 1
  {
    var even := if next % 2 == 1 then next + 1 else next;
    if even < FileFloor then FileFloor else even
  }

  /** Where RCFS_AddFile puts a file when the sentinel is at `slot`. */
  function NewFileOffset(mem: map<int, uint16>, cfg: Config, slot: nat): int
  {
    AllocOffset(ScanTable(mem, cfg, slot).nextAddr)
  }

  /** In a well-formed table the new file starts at or after the end of every file. */
  lemma NewFileAfterAllFiles(mem: map<int, uint16>, cfg: Config)
    requires cfg.Valid() && WellFormed(mem, cfg) && SentinelSlot(mem, cfg) >= 0
    ensures var s := SentinelSlot(mem, cfg);
      forall i :: 0 <= i < s ==> EntryAddr(mem, cfg, i) + EntrySize(mem, cfg, i) <= NewFileOffset(mem, cfg, s)
  {
    var s := SentinelSlot(mem, cfg);
    ScanFindsHighest(mem, cfg, s);
    var r := ScanTable(mem, cfg, s);
    if s > 0 {
      assert EntryAddr(mem, cfg, 0) >= FileFloor;
      var j :| 0 <= j < s && EntryAddr(mem, cfg, j) == r.maxAddr
               && r.nextAddr == EntryAddr(mem, cfg, j) + EntrySize(mem, cfg, j)
               && forall i :: 0 <= i < j ==> EntryAddr(mem, cfg, i) < r.maxAddr;
      forall i | 0 <= i < s
        ensures EntryAddr(mem, cfg, i) + EntrySize(mem, cfg, i) <= r.nextAddr
      {
        if i > j {
          assert false;
        } else if i < j {
          assert EntryAddr(mem, cfg, i) + EntrySize(mem, cfg, i) <= EntryAddr(mem, cfg, j);
        }
      }
    }
  }

  // ---------------------------------------------------------------------------
  // Names and headers
  // ---------------------------------------------------------------------------

  /** The C string held in `s`: the bytes before the first NUL (all of `s` if none). */
  function CStr(s: seq<uint8>): (r: seq<uint8>)
    ensures |r| <= |s|
  {
    if s == [] || s[0] == 0 then [] else [s[0]] + CStr(s[1..])
  }

  /** The string is a prefix of `s` free of NULs, stopped by a NUL or the end of `s`. */
  lemma {:induction false} CStrSpec(s: seq<uint8>)
    ensures var r := CStr(s);
      && r == s[..|r|]
      && (forall i :: 0 <= i < |r| ==> r[i] != 0)
      && (|r| < |s| ==> s[|r|] == 0)
  {
    if s != [] && s[0] != 0 {
      CStrSpec(s[1..]);
    }
  }

  /** A string that ends at the first NUL at index k. */
  lemma {:induction false} CStrAt(s: seq<uint8>, k: nat)
    requires k <= |s|
    requires forall i :: 0 <= i < k ==> s[i] != 0
    requires k < |s| ==> s[k] == 0
    ensures CStr(s) == s[..k]
    decreases k
  {
    if k > 0 {
      CStrAt(s[1..], k - 1);
      assert s[..k] == [s[0]] + s[1..][..k - 1];
    }
  }

  /** strncpy(dst, src, n): the string in `src`, cut to n bytes and zero-filled to n. */
  function StrNCpy(src: seq<uint8>, n: nat): (r: seq<uint8>)
    ensures |r| == n
  {
    var c := CStr(src);
    if |c| >= n then c[..n] else c + seq(n - |c|, _ => 0)
  }

  /** Each of the n bytes is the string's byte, or NUL past its end. */
  lemma StrNCpySpec(src: seq<uint8>, n: nat)
    ensures forall i :: 0 <= i < n ==> StrNCpy(src, n)[i] == if i < |CStr(src)| then src[i] else 0
  {
  }

  /** The name field of a new file: at most 15 characters of the name, zero-filled, so
      the last byte is always NUL. */
  function StoredName(name: seq<uint8>): (r: seq<uint8>)
    ensures |r| == NameSize && r[NameSize - 1] == 0
  {
    StrNCpy(name, NameCopyLimit) + [0]
  }

  lemma StoredNameSpec(name: seq<uint8>)
    ensures forall i :: 0 <= i < NameCopyLimit ==>
      StoredName(name)[i] == if i < |CStr(name)| then name[i] else 0
  {
    StrNCpySpec(name, NameCopyLimit);
  }

  /** The header RCFS_FileInit and the name copy build for a new file. */
  function NewHeader(cfg: Config, name: seq<uint8>): (h: seq<uint8>)
    ensures |h| == HeaderStructSize
  {
    StoredName(name) + [cfg.dataFileType] + DefaultTime + [0] + [0, 0]
  }

  /** Where the name, type, time and zeroed bytes lie in a new header. */
  lemma NewHeaderLayout(cfg: Config, name: seq<uint8>)
    ensures var h := NewHeader(cfg, name);
      && h[..NameSize] == StoredName(name)
      && h[NameSize] == cfg.dataFileType && h[NameSize + 1..NameSize + 5] == DefaultTime
      && h[NameSize + 5] == 0 && h[HeaderReadSize..] == [0, 0]
  {
  }

  /** The bytes of flash from `a` up are the bytes of `b`. */
  ghost predicate BytesAt(mem: map<int, uint16>, a: int, b: seq<uint8>)
  {
    forall k :: 0 <= k < |b| ==> Read8(mem, a + k) == b[k]
  }

  /** The n bytes of flash from `a` up. */
  function ReadBytes(mem: map<int, uint16>, a: int, n: nat): (r: seq<uint8>)
    ensures |r| == n
  {
    if n == 0 then [] else ReadBytes(mem, a, n - 1) + [Read8(mem, a + n - 1)]
  }

  lemma {:induction false} ReadBytesAt(mem: map<int, uint16>, a: int, n: nat)
    ensures forall i :: 0 <= i < n ==> ReadBytes(mem, a, n)[i] == Read8(mem, a + i)
  {
    if n > 0 {
      ReadBytesAt(mem, a, n - 1);
    }
  }

  /** The header RCFS_ReadHeader fills from flash at `a`: 22 bytes read, pad bytes zeroed. */
  function HeaderAt(mem: map<int, uint16>, a: int): (h: seq<uint8>)
    ensures |h| == HeaderStructSize && h[HeaderReadSize] == 0 && h[HeaderReadSize + 1] == 0
  {
    ReadBytes(mem, a, HeaderReadSize) + [0, 0]
  }

  /** The first 22 header bytes are the bytes of flash at `a`. */
  lemma HeaderAtBytes(mem: map<int, uint16>, a: int)
    ensures forall i :: 0 <= i < HeaderReadSize ==> HeaderAt(mem, a)[i] == Read8(mem, a + i)
  {
    ReadBytesAt(mem, a, HeaderReadSize);
  }

  /** The header read field by field: the 16 name bytes, the type byte, the 4 time bytes
      and the flag byte, then the two zeroed pad bytes. */
  lemma HeaderAtFields(mem: map<int, uint16>, a: int, name: seq<uint8>, fileType: uint8, time: seq<uint8>, unknown: uint8)
    requires |name| == NameSize && |time| == 4
    requires forall k :: 0 <= k < NameSize ==> name[k] == Read8(mem, a + k)
    requires fileType == Read8(mem, a + NameSize) && unknown == Read8(mem, a + NameSize + 5)
    requires forall k :: 0 <= k < 4 ==> time[k] == Read8(mem, a + NameSize + 1 + k)
    ensures name + [fileType] + time + [unknown] + [0, 0] == HeaderAt(mem, a)
  {
    var h := HeaderAt(mem, a);
    var hb := name + [fileType] + time + [unknown] + [0, 0];
    HeaderAtBytes(mem, a);
    assert forall i :: 0 <= i < HeaderStructSize ==> hb[i] == h[i];
  }

  /** The name strcmp sees for the file in `slot`: the header bytes up to the first NUL;
      the zeroed pad byte always stops it. */
  function FileNameAt(mem: map<int, uint16>, cfg: Config, slot: nat): seq<uint8>
  {
    CStr(HeaderAt(mem, cfg.base + EntryAddr(mem, cfg, slot)))
  }

  /** The string a stored name reads back as: the name cut to 15 characters. */
  lemma StoredNameReadsBack(cfg: Config, name: seq<uint8>, rest: seq<uint8>)
    requires NewHeader(cfg, name)[..HeaderReadSize] + [0, 0] == rest
    ensures |CStr(name)| <= NameCopyLimit ==> CStr(rest) == CStr(name)
    ensures |CStr(name)| > NameCopyLimit ==> CStr(rest) == CStr(name)[..NameCopyLimit]
  {
    var h := NewHeader(cfg, name);
    var c := CStr(name);
    CStrSpec(name);
    StoredNameSpec(name);
    assert rest[..NameSize] == StoredName(name);
    if |c| <= NameCopyLimit {
      CStrAt(rest, |c|);
      assert rest[..|c|] == c;
    } else {
      CStrAt(rest, NameCopyLimit);
      assert rest[..NameCopyLimit] == c[..NameCopyLimit];
    }
  }

  /** The ASCII character of the decimal digit k. */
  function DigitChar(k: nat): (c: uint8)
    requires k < 10
    ensures c == 0x30 + k
  {
    0x30 + k
  }

  /** The decimal digits of n, as sprintf's %d writes them. */
  function Digits(n: nat): (d: seq<uint8>)
    ensures 1 <= |d|
    ensures forall i :: 0 <= i < |d| ==> 0x30 <= d[i] <= 0x39
    decreases n
  {
    if n < 10 then [DigitChar(n)] else Digits(n / 10) + [DigitChar(n % 10)]
  }

  /** The number a string of decimal digits denotes. */
  function DecimalValue(d: seq<uint8>): int
    decreases |d|
  {
    if d == [] then 0 else DecimalValue(d[..|d| - 1]) * 10 + (d[|d| - 1] as int - 0x30)
  }

  lemma {:induction false} DigitsRoundTrip(n: nat)
    ensures DecimalValue(Digits(n)) == n
    ensures n < 10 ==> |Digits(n)| == 1
    ensures n < 100 ==> |Digits(n)| <= 2
    ensures n < 1000 ==> |Digits(n)| <= 3
    ensures n < 10000 ==> |Digits(n)| <= 4
    ensures n < 100000 ==> |Digits(n)| <= 5
    decreases n
  {
    if n >= 10 {
      DigitsRoundTrip(n / 10);
      var d := Digits(n);
      assert d[..|d| - 1] == Digits(n / 10);
    }
  }

  lemma {:induction false} LeadingZeros(z: nat, d: seq<uint8>)
    ensures DecimalValue(seq(z, _ => 0x30) + d) == DecimalValue(d)
    decreases |d| + z
  {
    var zs: seq<uint8> := seq(z, _ => 0x30);
    if d == [] {
      assert zs + d == zs;
      if z > 0 {
        assert zs[..z - 1] == seq(z - 1, _ => 0x30);
        LeadingZeros(z - 1, []);
        assert seq(z - 1, _ => 0x30) + [] == zs[..z - 1];
      }
    } else {
      assert (zs + d)[..|zs + d| - 1] == zs + d[..|d| - 1];
      LeadingZeros(z, d[..|d| - 1]);
    }
  }

  /** sprintf's %03d. */
  function ZeroPad3(n: nat): seq<uint8>
  {
    var d := Digits(n);
    if |d| < 3 then seq(3 - |d|, _ => 0x30) + d else d
  }

  /** %03d writes at least three decimal digits that denote n. */
  lemma ZeroPad3Spec(n: nat)
    ensures var z := ZeroPad3(n);
      && DecimalValue(z) == n
      && (forall i :: 0 <= i < |z| ==> 0x30 <= z[i] <= 0x39)
      && (n < 1000 ==> |z| == 3)
      && (n < 100000 ==> |z| <= 5)
  {
    var d := Digits(n);
    DigitsRoundTrip(n);
    if |d| < 3 {
      LeadingZeros(3 - |d|, d);
      var z := ZeroPad3(n);
      assert forall i :: 0 <= i < |z| ==> z[i] == if i < 3 - |d| then 0x30 else d[i - (3 - |d|)];
    }
  }

  /** The synthesized name "debug%03d" of the file in `slot`. */
  function DefaultName(slot: nat): seq<uint8>
  {
    BaseName + ZeroPad3(slot)
  }

  /** A synthesized name is "debug" and at least three digits denoting the slot; it has no
      NUL, and for slots below 100000 it fits the 15 characters strncpy keeps. */
  lemma DefaultNameSpec(slot: nat)
    ensures var nm := DefaultName(slot);
      && nm[..5] == BaseName
      && DecimalValue(nm[5..]) == slot
      && CStr(nm) == nm
      && (slot < 1000 ==> |nm| == 8)
      && (slot < 100000 ==> |nm| <= NameCopyLimit)
  {
    var nm := DefaultName(slot);
    var z := ZeroPad3(slot);
    ZeroPad3Spec(slot);
    assert nm[..5] == BaseName && nm[5..] == z;
    assert forall i :: 0 <= i < |nm| ==> nm[i] != 0 by {
      forall i | 0 <= i < |nm|
        ensures nm[i] != 0
      {
        if i >= 5 {
          assert nm[i] == z[i - 5];
        }
      }
    }
    CStrAt(nm, |nm|);
  }

  // ---------------------------------------------------------------------------
  // The image RCFS_Write programs
  // ---------------------------------------------------------------------------

  /** Two bytes as the little-endian half-word an `unsigned short *` reads. */
  function HalfWordOf(lo: uint8, hi: uint8): uint16
  {
    lo + 0x100 * hi
  }

  /** The half-word programmed for an odd trailing byte: the byte, padded with 0xFF. */
  function OddTail(b: uint8): uint16
  {
    b + 0xFF00
  }

  lemma HalfWordBytes(lo: uint8, hi: uint8)
    ensures LowByte(HalfWordOf(lo, hi)) == lo && HighByte(HalfWordOf(lo, hi)) == hi
    ensures LowByte(OddTail(lo)) == lo
  {
  }

  function PackHalfWords(b: seq<uint8>, n: nat): (r: seq<uint16>)
    requires 2 * n <= |b|
    ensures |r| == n
  {
    seq(n, i requires 0 <= i < n => HalfWordOf(b[2 * i], b[2 * i + 1]))
  }

  /** Half-word i pairs bytes 2i and 2i+1, low byte first. */
  lemma PackHalfWordsAt(b: seq<uint8>, n: nat)
    requires 2 * n <= |b|
    ensures forall i :: 0 <= i < n ==> PackHalfWords(b, n)[i] == HalfWordOf(b[2 * i], b[2 * i + 1])
  {
  }

  /** Byte i of a run of little-endian half-words. */
  function ImageByte(img: seq<uint16>, i: nat): uint8
    requires i / 2 < |img|
  {
    if i % 2 == 0 then LowByte(img[i / 2]) else HighByte(img[i / 2])
  }

  /** The data half-words: len/2 packed pairs and, for an odd length, the last byte | 0xFF00. */
  function DataImage(data: seq<uint8>, len: nat): (r: seq<uint16>)
    requires len <= |data|
    ensures |r| == (len + 1) / 2
  {
    PackHalfWords(data, len / 2) + (if len % 2 == 1 then [OddTail(data[len - 1])] else [])
  }

  /** Every data byte can be read back from the data half-words, which take up
      2 * ceil(len / 2) bytes. */
  lemma DataImageBytes(data: seq<uint8>, len: nat)
    requires len <= |data|
    ensures |DataImage(data, len)| == (len + 1) / 2
    ensures forall j :: 0 <= j < len ==> ImageByte(DataImage(data, len), j) == data[j]
  {
    var img := DataImage(data, len);
    PackHalfWordsAt(data, len / 2);
    forall j | 0 <= j < len
      ensures ImageByte(img, j) == data[j]
    {
      if j / 2 < len / 2 {
        HalfWordBytes(data[2 * (j / 2)], data[2 * (j / 2) + 1]);
      } else {
        HalfWordBytes(data[len - 1], 0);
      }
    }
  }

  /** Header half-words followed by the data half-words. */
  function FileImage(hdr: seq<uint8>, headerSize: int, data: seq<uint8>, len: nat): (r: seq<uint16>)
    requires 0 <= headerSize <= |hdr| && len <= |data|
    ensures |r| == headerSize / 2 + (len + 1) / 2
  {
    PackHalfWords(hdr, headerSize / 2) + DataImage(data, len)
  }

  /** The half-words of the image: header pairs, data pairs, then the odd tail. */
  lemma FileImageAt(hdr: seq<uint8>, headerSize: int, data: seq<uint8>, len: nat)
    requires 0 <= headerSize <= |hdr| && len <= |data|
    ensures var img := FileImage(hdr, headerSize, data, len);
      && (forall k :: 0 <= k < headerSize / 2 ==> img[k] == HalfWordOf(hdr[2 * k], hdr[2 * k + 1]))
      && (forall k :: 0 <= k < len / 2 ==> img[headerSize / 2 + k] == HalfWordOf(data[2 * k], data[2 * k + 1]))
      && (len % 2 == 1 ==> img[headerSize / 2 + len / 2] == OddTail(data[len - 1]))
  {
    PackHalfWordsAt(hdr, headerSize / 2);
    PackHalfWordsAt(data, len / 2);
  }

  /** Byte k of packed pairs is byte k of the source. */
  lemma PackedByte(b: seq<uint8>, n: nat, k: nat)
    requires 2 * n <= |b| && k < 2 * n
    ensures ImageByte(PackHalfWords(b, n), k) == b[k]
  {
    var q := k / 2;
    PackHalfWordsAt(b, n);
    HalfWordBytes(b[2 * q], b[2 * q + 1]);
    assert k == 2 * q || k == 2 * q + 1;
  }

  /** Bytes within a run of half-words are unaffected by what follows it ... */
  lemma ImageBytePrefix(p: seq<uint16>, d: seq<uint16>, k: nat)
    requires k / 2 < |p|
    ensures ImageByte(p + d, k) == ImageByte(p, k)
  {
    assert (p + d)[k / 2] == p[k / 2];
  }

  /** ... and bytes past it are the bytes of the run that follows. */
  lemma ImageByteShift(p: seq<uint16>, d: seq<uint16>, h: nat, j: nat)
    requires h == 2 * |p| && j / 2 < |d|
    ensures (h + j) / 2 < |p + d|
    ensures ImageByte(p + d, h + j) == ImageByte(d, j)
  {
    assert (h + j) / 2 == |p| + j / 2;
    assert (h + j) % 2 == j % 2;
  }

  lemma FileImageBytes(hdr: seq<uint8>, headerSize: int, data: seq<uint8>, len: nat)
    requires 0 <= headerSize <= |hdr| && headerSize % 2 == 0 && len <= |data|
    ensures var img := FileImage(hdr, headerSize, data, len);
      && (forall k :: 0 <= k < headerSize ==> ImageByte(img, k) == hdr[k])
      && (forall j :: 0 <= j < len ==> ImageByte(img, headerSize + j) == data[j])
  {
    var img := FileImage(hdr, headerSize, data, len);
    var p := PackHalfWords(hdr, headerSize / 2);
    var d := DataImage(data, len);
    assert img == p + d;
    forall k | 0 <= k < headerSize
      ensures ImageByte(img, k) == hdr[k]
    {
      ImageBytePrefix(p, d, k);
      PackedByte(hdr, headerSize / 2, k);
    }
    assert 2 * |p| == headerSize;
    DataImageBytes(data, len);
    forall j | 0 <= j < len
      ensures ImageByte(img, headerSize + j) == data[j]
    {
      assert j / 2 < |d|;
      ImageByteShift(p, d, headerSize, j);
    }
  }

  // ---------------------------------------------------------------------------
  // Programming a run of half-words
  // ---------------------------------------------------------------------------

  datatype Programmed = Programmed(hw: Hw, ok: bool)

  /** ws programmed with `p` one half-word at a time from `a` upwards, carrying on after a
      failed program; `ok` says every program reported complete. */
  function ProgramHalfWordsSpec(p: Primitives, h: Hw, a: int, ws: seq<uint16>): Programmed
    decreases |ws|
  {
    if ws == [] then Programmed(h, true)
    else
      var r := ProgramHalfWordsSpec(p, h, a, ws[..|ws| - 1]);
      var o := p.halfWord(r.hw, a + 2 * (|ws| - 1), ws[|ws| - 1]);
      Programmed(o.hw, r.ok && o.status == Complete)
  }

  /** Programming one more half-word of a run. */
  lemma ProgramHalfWordsSnoc(p: Primitives, h: Hw, a: int, ws: seq<uint16>, i: nat)
    requires i < |ws|
    ensures ProgramHalfWordsSpec(p, h, a, ws[..i + 1]).hw
            == p.halfWord(ProgramHalfWordsSpec(p, h, a, ws[..i]).hw, a + 2 * i, ws[i]).hw
  {
    assert ws[..i + 1][..i] == ws[..i];
  }

  /** A run split in two: the second part is programmed from where the first stopped. */
  lemma {:induction false} ProgramHalfWordsAppend(p: Primitives, h: Hw, a: int, xs: seq<uint16>, ys: seq<uint16>)
    ensures var first := ProgramHalfWordsSpec(p, h, a, xs);
      var second := ProgramHalfWordsSpec(p, first.hw, a + 2 * |xs|, ys);
      ProgramHalfWordsSpec(p, h, a, xs + ys) == Programmed(second.hw, first.ok && second.ok)
    decreases |ys|
  {
    if ys != [] {
      var n := |ys| - 1;
      assert (xs + ys)[..|xs + ys| - 1] == xs + ys[..n];
      ProgramHalfWordsAppend(p, h, a, xs, ys[..n]);
    } else {
      assert xs + ys == xs;
    }
  }

  /** On an STM32 a run of half-word programs touches only its own region; every
      half-word in it ends up either unchanged or holding its new value, and all of them
      hold their new values when every program completed. */
  lemma {:induction false} ProgramHalfWordsEffect(p: Primitives, sr: nat -> bv32, h: Hw, a: int, ws: seq<uint16>)
    requires Implements(p, sr)
    ensures var m := ProgramHalfWordsSpec(p, h, a, ws);
      && (forall x :: x < a || a + 2 * |ws| <= x ==> Read16(m.hw.mem, x) == Read16(h.mem, x))
      && (forall i :: 0 <= i < |ws| ==> Read16(m.hw.mem, a + 2 * i) in {Read16(h.mem, a + 2 * i), ws[i]})
      && (m.ok ==> forall i :: 0 <= i < |ws| ==> Read16(m.hw.mem, a + 2 * i) == ws[i])
    decreases |ws|
  {
    if ws != [] {
      var n := |ws| - 1;
      var r := ProgramHalfWordsSpec(p, h, a, ws[..n]);
      ProgramHalfWordsEffect(p, sr, h, a, ws[..n]);
      ProgramHalfWordEffect(sr, r.hw, a + 2 * n, ws[n]);
      var m := ProgramHalfWordsSpec(p, h, a, ws);
      forall i | 0 <= i < |ws|
        ensures Read16(m.hw.mem, a + 2 * i) in {Read16(h.mem, a + 2 * i), ws[i]}
        ensures m.ok ==> Read16(m.hw.mem, a + 2 * i) == ws[i]
      {
        if i < n {
          assert ws[..n][i] == ws[i];
        }
      }
    }
  }

  // ---------------------------------------------------------------------------
  // Operations
  // ---------------------------------------------------------------------------

  /** RCFS_Write: nothing below the base address and nothing without data; otherwise the
      header and data half-words from the file's address up. */
  function FileWriteSpec(cfg: Config, p: Primitives, h: Hw, addr: int, hdr: seq<uint8>, data: DataRef, len: int): Programmed
    requires cfg.Valid() && |hdr| == HeaderStructSize && !data.InFlash?
    requires data.InRam? ==> 0 <= len <= |data.bytes|
  {
    if addr < cfg.base || data.Null? then Programmed(h, false)
    else ProgramHalfWordsSpec(p, h, addr, FileImage(hdr, cfg.headerSize, data.bytes, len))
  }

  /** What RCFS_AddFile leaves behind: the hardware state and return code, plus, for the
      proofs, the slot and offset used and whether the VTOC and the file programs completed. */
  datatype Added = Added(hw: Hw, ret: int, slot: int, offset: int, tocOk: bool, ok: bool)

  function AddFileSpec(cfg: Config, p: Primitives, h: Hw, data: Option<seq<uint8>>, length: int, name: seq<uint8>): Added
    requires cfg.Valid()
    requires data.Some? && 0 < length <= MaxFlashFileSize ==> length <= |data.value|
  {
    if length <= 0 || length > MaxFlashFileSize then Added(h, RcfsError, -1, 0, false, false)
    else
      var slot := SentinelSlot(h.mem, cfg);
      if slot < 0 then Added(h, RcfsError, -1, 0, false, false)
      else PlaceFileSpec(cfg, p, h, slot, ScanTable(h.mem, cfg, slot).nextAddr, data, length, name)
  }

  /** RCFS_AddFile once the sentinel is found in `slot` and the scan has ended at `next`:
      the file goes at the allocated offset if it fits below the ceiling. */
  function PlaceFileSpec(cfg: Config, p: Primitives, h: Hw, slot: nat, next: int, data: Option<seq<uint8>>,
                         length: int, name: seq<uint8>): Added
    requires cfg.Valid() && 0 < length <= MaxFlashFileSize
    requires data.Some? ==> length <= |data.value|
  {
    var offset := AllocOffset(next);
    if offset + length > FileCeiling then Added(h, RcfsError, slot, offset, false, false)
    else CreateFileSpec(cfg, p, h, slot, offset, data, length, name)
  }

  /** A new file at `offset`: its VTOC entry is programmed, then its header and data. */
  function CreateFileSpec(cfg: Config, p: Primitives, h: Hw, slot: nat, offset: int, data: Option<seq<uint8>>,
                          length: int, name: seq<uint8>): Added
    requires cfg.Valid() && 0 < length <= MaxFlashFileSize && FileFloor <= offset <= FileCeiling - length
    requires data.Some? ==> length <= |data.value|
  {
    var e := EntryWriteSpec(cfg, p, h, slot, offset, length + cfg.headerSize);
    var ref := if data.Some? then InRam(data.value) else Null;
    var w := FileWriteSpec(cfg, p, e.hw, cfg.base + offset, NewHeader(cfg, name), ref, length);
    Added(w.hw, RcfsSuccess, slot, offset, e.ok, e.ok && w.ok)
  }

  /** The two words of a VTOC entry programmed in turn: the file's offset, then its size;
      `ok` when both programs complete. */
  function EntryWriteSpec(cfg: Config, p: Primitives, h: Hw, slot: nat, offset: uint32, size: uint32): Programmed
    requires cfg.Valid()
  {
    var o1 := p.word(h, cfg.TocAddr(slot), offset);
    var o2 := p.word(o1.hw, cfg.TocAddr(slot) + 4, size);
    Programmed(o2.hw, o1.status == Complete && o2.status == Complete)
  }

  /** RCFS_AddFile(data, length): the name is synthesized from the sentinel's slot. */
  function AddFileDefaultSpec(cfg: Config, p: Primitives, h: Hw, data: Option<seq<uint8>>, length: int): Added
    requires cfg.Valid()
    requires data.Some? && 0 < length <= MaxFlashFileSize ==> length <= |data.value|
  {
    var slot := SentinelSlot(h.mem, cfg);
    if slot < 0 then Added(h, RcfsError, -1, 0, false, false)
    else AddFileSpec(cfg, p, h, data, length, DefaultName(slot))
  }

  /** The slot RCFS_FindNextFile returns for a cursor at `cursor`, scanning from `slot`. */
  function NextSlotFrom(mem: map<int, uint16>, cfg: Config, cursor: int, slot: nat): int
    decreases cfg.maxFiles - slot
  {
    if slot >= cfg.maxFiles || IsSentinel(mem, cfg, slot) then RcfsError
    else if cfg.base + EntryAddr(mem, cfg, slot) == cursor then
      (if IsSentinel(mem, cfg, slot + 1) then RcfsError else slot + 1)
    else NextSlotFrom(mem, cfg, cursor, slot + 1)
  }

  function NextSlot(mem: map<int, uint16>, cfg: Config, cursor: int): int
  {
    NextSlotFrom(mem, cfg, cursor, 0)
  }

  /** With distinct addresses, find-next from the file in slot k moves to slot k + 1, or
      ends (-1) after the last visitable file. */
  lemma NextSlotAdvances(mem: map<int, uint16>, cfg: Config, k: nat)
    requires DistinctAddrs(mem, cfg) && k < VisitCount(mem, cfg)
    ensures NextSlot(mem, cfg, cfg.base + EntryAddr(mem, cfg, k))
            == if k + 1 < VisitCount(mem, cfg) then k + 1 else RcfsError
  {
    var cursor := cfg.base + EntryAddr(mem, cfg, k);
    VisitCountSpec(mem, cfg);
    NextSlotFromSkips(mem, cfg, k, 0);
  }

  lemma {:induction false} NextSlotFromSkips(mem: map<int, uint16>, cfg: Config, k: nat, slot: nat)
    requires DistinctAddrs(mem, cfg) && k < VisitCount(mem, cfg) && slot <= k
    ensures NextSlotFrom(mem, cfg, cfg.base + EntryAddr(mem, cfg, k), slot)
            == if k + 1 < VisitCount(mem, cfg) then k + 1 else RcfsError
    decreases k - slot
  {
    VisitCountSpec(mem, cfg);
    var cursor := cfg.base + EntryAddr(mem, cfg, k);
    if slot < k && slot < cfg.maxFiles {
      assert EntryAddr(mem, cfg, slot) != EntryAddr(mem, cfg, k);
      NextSlotFromSkips(mem, cfg, k, slot + 1);
    } else if slot < k {
      assert false;
    }
  }

  /** A duplicated address sends the traversal back: when the files in slots i < j share
      an address and no earlier file has it, find-next from slot j's file returns slot
      i + 1 (<= j): the step goes back instead of on to slot j + 1. */
  lemma DuplicateAddressLoops(mem: map<int, uint16>, cfg: Config, i: nat, j: nat)
    requires i < j < cfg.maxFiles
    requires forall k :: 0 <= k <= j ==> !IsSentinel(mem, cfg, k)
    requires EntryAddr(mem, cfg, i) == EntryAddr(mem, cfg, j)
    requires forall k :: 0 <= k < i ==> EntryAddr(mem, cfg, k) != EntryAddr(mem, cfg, i)
    ensures NextSlot(mem, cfg, cfg.base + EntryAddr(mem, cfg, j)) == i + 1 <= j
  {
    NextSlotFromFirst(mem, cfg, cfg.base + EntryAddr(mem, cfg, j), i, j, 0);
  }

  /** Find-next scanning from `slot` stops at the first file whose address is the cursor. */
  lemma {:induction false} NextSlotFromFirst(mem: map<int, uint16>, cfg: Config, cursor: int,
                                            i: nat, j: nat, slot: nat)
    requires slot <= i < j < cfg.maxFiles
    requires forall k :: 0 <= k <= j ==> !IsSentinel(mem, cfg, k)
    requires cfg.base + EntryAddr(mem, cfg, i) == cursor
    requires forall k :: slot <= k < i ==> cfg.base + EntryAddr(mem, cfg, k) != cursor
    ensures NextSlotFrom(mem, cfg, cursor, slot) == i + 1
    decreases i - slot
  {
    assert !IsSentinel(mem, cfg, slot) && !IsSentinel(mem, cfg, i + 1);
    if slot < i {
      NextSlotFromFirst(mem, cfg, cursor, i, j, slot + 1);
    }
  }

  /** The slot RCFS_GetFile's traversal stops at for `name`: the first visitable file,
      in table order, whose stored name equals it; -1 when there is none. */
  function LookupFrom(mem: map<int, uint16>, cfg: Config, name: seq<uint8>, slot: nat): (r: int)
    ensures r == -1 || slot <= r < VisitCount(mem, cfg)
    decreases VisitCount(mem, cfg) - slot
  {
    if slot >= VisitCount(mem, cfg) then -1
    else if FileNameAt(mem, cfg, slot) == CStr(name) then slot
    else LookupFrom(mem, cfg, name, slot + 1)
  }

  /** One step of the lookup: the file in `slot` is either the one named or skipped. */
  lemma LookupFromStep(mem: map<int, uint16>, cfg: Config, name: seq<uint8>, slot: nat)
    requires slot < VisitCount(mem, cfg)
    ensures LookupFrom(mem, cfg, name, slot)
            == if FileNameAt(mem, cfg, slot) == CStr(name) then slot else LookupFrom(mem, cfg, name, slot + 1)
  {
  }

  /** One step of the name search: the header at the visited slot decides the lookup,
      or the search moves to the slot the cursor advances to. */
  lemma LookupVisit(mem: map<int, uint16>, cfg: Config, name: seq<uint8>, slot: nat)
    requires DistinctAddrs(mem, cfg) && slot < VisitCount(mem, cfg)
    ensures var cursor := cfg.base + EntryAddr(mem, cfg, slot);
      && (CStr(name) == CStr(HeaderAt(mem, cursor)) ==> LookupFrom(mem, cfg, name, slot) == slot)
      && (CStr(name) != CStr(HeaderAt(mem, cursor)) ==> LookupFrom(mem, cfg, name, slot) == LookupFrom(mem, cfg, name, slot + 1))
      && NextSlot(mem, cfg, cursor) == (if slot + 1 < VisitCount(mem, cfg) then slot + 1 else RcfsError)
      && (slot + 1 >= VisitCount(mem, cfg) ==> LookupFrom(mem, cfg, name, slot + 1) == -1)
  {
    LookupFromStep(mem, cfg, name, slot);
    NextSlotAdvances(mem, cfg, slot);
  }

  function Lookup(mem: map<int, uint16>, cfg: Config, name: seq<uint8>): int
  {
    LookupFrom(mem, cfg, name, 0)
  }

  /** The lookup finds the first visitable file from `slot` on whose name matches, and
      returns -1 exactly when none of them does. */
  lemma {:induction false} LookupFromSpec(mem: map<int, uint16>, cfg: Config, name: seq<uint8>, slot: nat)
    ensures var r := LookupFrom(mem, cfg, name, slot);
      && (r >= 0 ==> FileNameAt(mem, cfg, r) == CStr(name)
                     && forall i :: slot <= i < r ==> FileNameAt(mem, cfg, i) != CStr(name))
      && (r == -1 ==> forall i :: slot <= i < VisitCount(mem, cfg) ==> FileNameAt(mem, cfg, i) != CStr(name))
    decreases VisitCount(mem, cfg) - slot
  {
    if slot < VisitCount(mem, cfg) && FileNameAt(mem, cfg, slot) != CStr(name) {
      LookupFromSpec(mem, cfg, name, slot + 1);
    }
  }
}
