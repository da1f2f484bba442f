# rcfs flash storage, modelled in Dafny

This project models the storage layers of jpearman's rcfs library for the VEX Cortex
(an STM32F103) and proves properties of them. There are three layers, and all three
work on one abstract flash array.

* **The flash-programming primitive** (`stm32_flash.c`), module `Stm32Flash`.
  - The flash is a map from byte addresses to 16-bit half-words. An address that is not
    in the map reads as erased (`0xFFFF`). Erasing a page (2048 bytes) resets every
    half-word in it.
  - The status register is an oracle: `sr(n)` is what the n-th read of `FLASH->SR`
    returns. The hardware state `Hw(mem, polls)` counts the reads made so far.
  - `FLASH_GetBank1Status`, `FLASH_WaitForLastOperation`, `FLASH_ErasePage`,
    `FLASH_ProgramHalfWord` and `FLASH_ProgramWord` are methods of the class
    `FlashController`. Each is proved equal to a pure function over `Hw`, and the
    properties are proved about those functions.
  - The file-system layers are specified over a `Primitives` value, which holds the
    three flash-changing operations. `Implements(p, sr)` ties such a value to the
    specification functions.
* **The ROBOTC file system** (`flash_rcfs.c`): modules `RcfsSpec` (functions),
  `Rcfs` (the C functions, as methods) and `RcfsProps` (lemmas).
  - The VTOC is a table of (offset, size) pairs of 32-bit `long`s, ended by a `-1`
    sentinel.
  - The allocator is a bump allocator. The new file goes after the entry with the
    highest offset, rounded up to even and raised to at least `0x18000`. It must end at
    or below `0x47000`; the header is not counted in that check.
  - The writer programs the header and then the data, one half-word at a time. An odd
    trailing byte is padded with `0xFF`.
  - Traversal is cursor-style (find-first / find-next). `RCFS_GetFile` looks a file up
    by name, and `RCFS_GetLastFilename` reports the name of the last file.
  - Unnamed files get the synthesized name `debug%03d`.
  - The build-time constants are fields of the parameter `Config`:
    - `kStartOfFileSystem`;
    - `kMaxNumbofFlashFiles`;
    - `FLASH_FILE_HEADER_SIZE` (22 or 24);
    - `VTOC_OFFSET` (24, 28 or 160);
    - the `ftData` tag.
* **The user parameter store** (`flash_user.c`): modules `FlashUserSpec`,
  `FlashUserProps` and `FlashUser`.
  - One page holds a 64-word index and 56 slots of eight words.
  - Each write programs the next slot, then marks that slot's index word with 0.
  - When the slots run out, the page is erased and writing restarts at slot 0.
  - The static state of the C file is the class `UserStore`: the `params` buffer, the
    per-run write counter (limit 32) and the one-shot erase flag.

The main results:

* `FLASH_WaitForLastOperation` times out exactly when the first `Timeout` readings
  are all busy. Otherwise it returns the first reading that is not busy.
* A word program is not atomic. It leaves nothing, the low half alone, or both
  halves written.
* `RCFS_AddFile` succeeds exactly when the length is in range, the table has a sentinel
  and the file fits below the ceiling, whatever the program statuses are. On success it
  changes only the sentinel's VTOC entry and the new file's bytes.
* An added file keeps a well-formed table well formed, with one more file. The old
  files keep their slots and names.
* A subsequent `RCFS_GetFile` for the new name (at most 15 characters, not used
  before) finds the new file, with its length. The bytes at the returned address are
  the data given.
* `RCFS_AddFile(data, length)` puts its file after the old ones under the name
  `debug<slot>`, and that file is the last one `RCFS_GetLastFilename` visits.
* Distinct VTOC addresses depend on every entry program completing. If a size word is
  left erased, it reads -1 and the next file gets the same offset. Find-next from the
  later file then jumps back to an earlier slot, so the traversal cycles.
* In the user store, once the page has been erased, the index markers stay a
  contiguous prefix. A successful `FlashUserWrite` is read back word for word by the
  next `FlashUserRead`.

## Model

| member | source | states |
|---|---|---|
| Stm32Flash.StatusCode | stm32_flash.c:139-145 | the FLASH_Status enumerators take the values 1 to 5; BUSY is 1 and COMPLETE is 4 |
| Stm32Flash.UserErrorCodesDistinct | stm32_flash.c:148-152 | the user error codes -1, -2, -3, -4 are four distinct values, none of them a FLASH_Status value |
| Stm32Flash.DecodeStatus | stm32_flash.c:165-197 | decoding one status reading never yields TIMEOUT |
| Stm32Flash.DecodeStatusFlags | stm32_flash.c:173-194 | the decode priority, each direction: BUSY iff BSY is set; ERROR_PG iff BSY is clear and PGERR is set; ERROR_WRP iff only WRPRTERR of the three is set; COMPLETE iff none of the three is set |
| Stm32Flash.DecodeIgnoresOtherFlags | stm32_flash.c:173-194 | only the BSY, PGERR and WRPRTERR bits decide the status; EOP and the other bits change nothing |
| Stm32Flash.ErasePageMem | stm32_flash.c:250-252 | after an erase, every half-word of the erased page reads 0xFFFF and every other half-word reads as before |
| Stm32Flash.HalvesJoin | stm32_flash.c:309-320 | the low half and the high half that FLASH_ProgramWord stores join back into the word |
| Stm32Flash.PollTimesOutIffAllBusy | stm32_flash.c:217-229 | the wait loop ends in TIMEOUT exactly when the readings it is given the counter for are all busy |
| Stm32Flash.PollReturnsFirstReady | stm32_flash.c:217-229 | when a reading that is not busy comes before the counter runs out, the loop returns that reading, having made exactly the reads up to it |
| Stm32Flash.PollAllBusy | stm32_flash.c:217-229 | when every reading is busy, the loop makes Timeout + 1 reads and returns TIMEOUT |
| Stm32Flash.WaitTimeout | stm32_flash.c:212-230 | FLASH_WaitForLastOperation(t) returns TIMEOUT iff its first t readings are all busy (t = 0 included); it then has read t + 1 times, and the last reading is ignored even when it is not busy |
| Stm32Flash.WaitReady | stm32_flash.c:212-230 | otherwise it returns the first reading that is not busy, after exactly the reads up to it |
| Stm32Flash.PollNeverBusy | stm32_flash.c:217-229 | the wait loop never returns BUSY, and it makes at most as many reads as the counter allows |
| Stm32Flash.WaitNeverBusy | stm32_flash.c:212-230 | the wait never returns BUSY and reads the status register between 1 and t + 1 times |
| Stm32Flash.EraseEffect | stm32_flash.c:239-263 | an erase whose first wait is not COMPLETE returns that status and leaves the flash alone; otherwise it erases exactly the page; it never returns BUSY; a COMPLETE erase leaves the page erased |
| Stm32Flash.ProgramHalfWordEffect | stm32_flash.c:349-375 | a half-word program whose first wait is not COMPLETE returns that wait's status and writes nothing; otherwise it changes at most the one half-word, it stores the value whenever it returns COMPLETE, and it never returns BUSY |
| Stm32Flash.ProgramWordEffect | stm32_flash.c:294-339 | a word program is not atomic: the flash afterwards holds nothing new, the low half, or both halves; the high half is written only after the first half's wait completed; nothing is written unless the first wait completed; a COMPLETE program reads back as the word |
| Stm32Flash.WordWrite | stm32_flash.c:294-339 | through primitives that implement the controller, a word program changes only the word's two half-words, and a COMPLETE one reads back as the word |
| Stm32Flash.EraseWrite | stm32_flash.c:239-263 | through primitives that implement the controller, an erase leaves the flash alone or erases the page, and a COMPLETE erase has erased it |
| Stm32Flash.FlashController.GetBank1Status | stm32_flash.c:165-197 | reads the status register once and returns the decoded reading |
| Stm32Flash.FlashController.WaitForLastOperation | stm32_flash.c:212-230 | the countdown loop returns the status and makes the reads that the wait function prescribes |
| Stm32Flash.FlashController.ErasePage | stm32_flash.c:239-263 | the flash, the reads made and the status are those of the erase specification |
| Stm32Flash.FlashController.ClearFlag | stm32_flash.c:277-283 | clearing flags changes no flash and makes no status read |
| Stm32Flash.FlashController.UnlockBank1 | stm32_flash.c:389-396 | after the key writes the controller is unlocked |
| Stm32Flash.FlashController.ProgramWord | stm32_flash.c:294-339 | the flash, the reads made and the status are those of the word-program specification |
| Stm32Flash.FlashController.ProgramHalfWord | stm32_flash.c:349-375 | the flash, the reads made and the status are those of the half-word specification |
| RcfsSpec.ToLongSpec | flash_rcfs.c:302-305 | a VTOC word read as a `long` is a 32-bit signed value, non-negative exactly for words below 2^31, and -1 exactly for the all-ones (erased) word |
| RcfsSpec.SentinelFrom | flash_rcfs.c:299-316 | the sentinel search returns -1 or a slot within the table |
| RcfsSpec.SentinelFromSpec | flash_rcfs.c:299-316 | the search returns the first sentinel from its start, and returns -1 only when no slot in the table holds one |
| RcfsSpec.VisitCount | flash_rcfs.c:369-407 | a traversal visits at most kMaxNumbofFlashFiles + 1 entries |
| RcfsSpec.VisitCountSpec | flash_rcfs.c:339-392 | every entry a traversal visits holds a file, and the entry just after them, if it is in the table, is the sentinel |
| RcfsSpec.WellFormedDistinct | flash_rcfs.c:441-503 | in a table as the allocator lays it out, the visited files have pairwise distinct addresses |
| RcfsSpec.ScanFindsHighest | flash_rcfs.c:436-505 | the scan ends with the first entry of the highest positive offset and the end of that file, or with (0, 0) when no offset is positive |
| RcfsSpec.AllocOffset | flash_rcfs.c:444-452 | the allocated offset is even, at least the end of the last file and at least 0x18000, and it is 0x18000, that end, or that end plus one |
| RcfsSpec.NewFileAfterAllFiles | flash_rcfs.c:441-503 | in a well-formed table, the new file starts at or after the end of every file already there |
| RcfsSpec.CStr | flash_rcfs.c:564 | the C string in a buffer is no longer than the buffer |
| RcfsSpec.CStrSpec | flash_rcfs.c:564 | the string strcmp compares is a NUL-free prefix of the buffer, stopped by a NUL or by the end of the buffer |
| RcfsSpec.CStrAt | flash_rcfs.c:564 | a buffer with no NUL before index k and a NUL at k (or ending at k) holds the string of its first k bytes |
| RcfsSpec.StrNCpy | flash_rcfs.c:463-602 | strncpy writes exactly n bytes |
| RcfsSpec.StrNCpySpec | flash_rcfs.c:463-602 | each of the n bytes is the source string's byte, or NUL past its end |
| RcfsSpec.StoredName | flash_rcfs.c:149-463 | the stored name field is 16 bytes and its last byte is always NUL |
| RcfsSpec.StoredNameSpec | flash_rcfs.c:149-463 | the first 15 bytes of the name field are the name's characters, zero-filled past the end of the name |
| RcfsSpec.NewHeader | flash_rcfs.c:52-161 | a new header is the 24-byte structure |
| RcfsSpec.NewHeaderLayout | flash_rcfs.c:139-463 | a new header holds the stored name, then the ftData type, the fixed creation time 38 64 09 00, a zero flag byte and two zero pad bytes |
| RcfsSpec.ReadBytes | flash_rcfs.c:233-246 | reading n bytes yields n bytes |
| RcfsSpec.ReadBytesAt | flash_rcfs.c:233-246 | byte i of a read is the flash byte at the start address plus i |
| RcfsSpec.HeaderAt | flash_rcfs.c:228-249 | a header read from flash is 24 bytes, and its two pad bytes are zero |
| RcfsSpec.HeaderAtBytes | flash_rcfs.c:236-246 | its first 22 bytes are the flash bytes from the file's address |
| RcfsSpec.HeaderAtFields | flash_rcfs.c:236-248 | filling the name, type, time and flag fields byte by byte from flash and zeroing the pad gives that header |
| RcfsSpec.StoredNameReadsBack | flash_rcfs.c:463-564 | a stored name reads back, up to its first NUL, as the name if it has at most 15 characters, and as its first 15 characters otherwise |
| RcfsSpec.Digits | flash_rcfs.c:532 | %d writes at least one character, and every character is a decimal digit |
| RcfsSpec.DigitsRoundTrip | flash_rcfs.c:532 | the digits %d writes denote the number, and there are as many of them as the number's magnitude requires |
| RcfsSpec.LeadingZeros | flash_rcfs.c:532 | leading '0' characters do not change the number that digits denote |
| RcfsSpec.ZeroPad3Spec | flash_rcfs.c:532 | %03d writes at least three decimal digits that denote the number; exactly three below 1000 |
| RcfsSpec.DefaultNameSpec | flash_rcfs.c:519-535 | a synthesized name is "debug" followed by digits that denote the slot; it has no NUL; it is 8 characters for slots below 1000 and fits the 15 kept characters below 100000 |
| RcfsSpec.HalfWordBytes | flash_rcfs.c:196-217 | the half-word made from two bytes yields them back as its low and high byte; the padded odd tail's low byte is the tail byte |
| RcfsSpec.PackHalfWords | flash_rcfs.c:193-206 | n bytes pairs give n half-words |
| RcfsSpec.DataImage | flash_rcfs.c:199-219 | the data of len bytes takes ceil(len/2) half-words |
| RcfsSpec.DataImageBytes | flash_rcfs.c:199-219 | every data byte can be read back from the data half-words, the odd trailing byte included |
| RcfsSpec.FileImage | flash_rcfs.c:193-219 | the image is FLASH_FILE_HEADER_SIZE/2 header half-words and ceil(len/2) data half-words |
| RcfsSpec.FileImageAt | flash_rcfs.c:193-219 | the image's half-words are the header pairs, then the data pairs, then for an odd length the last byte padded with 0xFF00 |
| RcfsSpec.FileImageBytes | flash_rcfs.c:193-219 | byte k of the image is header byte k, and byte headerSize + j is data byte j |
| RcfsSpec.ProgramHalfWordsSnoc | flash_rcfs.c:193-219 | programming one more half-word extends the run from the state the run left |
| RcfsSpec.ProgramHalfWordsAppend | flash_rcfs.c:193-219 | a run split in two is programmed as its first part followed by its second part, and succeeds when both parts do |
| RcfsSpec.ProgramHalfWordsEffect | flash_rcfs.c:193-219 | a run of half-word programs changes only its own region; each half-word in it is unchanged or holds its new value, and all hold their new values when every program completed |
| RcfsSpec.NextSlotAdvances | flash_rcfs.c:358-408 | with distinct file addresses, find-next from the file in slot k returns k + 1, or -1 after the last file a traversal visits |
| RcfsSpec.NextSlotFromSkips | flash_rcfs.c:369-403 | the find-next scan passes over every entry before the cursor's own |
| RcfsSpec.DuplicateAddressLoops | flash_rcfs.c:369-403 | when the files in slots i < j share an address that no earlier file has, find-next from slot j's file goes back to slot i + 1 (at most j), so one find-next step from slot j goes back to an earlier slot |
| RcfsSpec.LookupFrom | flash_rcfs.c:559-575 | the name search returns -1 or one of the visited slots |
| RcfsSpec.LookupVisit | flash_rcfs.c:562-571 | at a visited slot, the header under the cursor decides the match, and find-next moves the cursor to the next slot or ends the traversal after the last one |
| RcfsSpec.LookupFromSpec | flash_rcfs.c:549-576 | the lookup finds the first visited file in table order whose name matches, and returns -1 exactly when none does |
| Rcfs.HeaderBytesLayout | flash_rcfs.c:52-60 | the header bytes of a flash_file are its name, type, time, flag and pad fields, in structure order |
| Rcfs.FileInit | flash_rcfs.c:138-161 | after initialization: address 0, no data, length 0, the name field all NUL, the ftData type, the fixed time, a zero flag and zero pad |
| Rcfs.StrNCpyInto | flash_rcfs.c:463-602 | the copy writes exactly the first n bytes of the destination, as strncpy prescribes, and leaves the rest alone |
| Rcfs.Write | flash_rcfs.c:172-220 | RCFS_Write leaves the flash its specification prescribes: nothing for an address below the base or no data, otherwise the header and data image from the file's address |
| Rcfs.WriteImage | flash_rcfs.c:187-219 | the header loop and then the data loop program the file image from the address |
| Rcfs.WriteHeader | flash_rcfs.c:192-197 | the header loop programs the header pairs and leaves the pointer just after them |
| Rcfs.WriteData | flash_rcfs.c:199-219 | the data loop and the odd-byte step program the data image |
| Rcfs.ReadHeader | flash_rcfs.c:227-249 | the flash_file's header fields become the header read from its address |
| Rcfs.ReadFields | flash_rcfs.c:240-248 | the type, time and flag are the flash bytes after the name, and the pad bytes are zeroed |
| Rcfs.ReadName | flash_rcfs.c:236-238 | the name field is the 16 flash bytes at the file's address |
| Rcfs.LoadEntry | flash_rcfs.c:342-399 | the flash_file describes the VTOC entry: address base + offset, data just past the header, length size - header size, and the header read from flash |
| Rcfs.FindLastSlot | flash_rcfs.c:291-317 | returns the first sentinel's slot, every slot before it holding a file, or -1 when no slot of the table holds a sentinel |
| Rcfs.FindFirstFile | flash_rcfs.c:323-351 | -1 for a null cursor or an empty table; otherwise 0, with the cursor describing slot 0; a failed call leaves the cursor alone |
| Rcfs.FindNextFile | flash_rcfs.c:357-408 | -1 for a null cursor; otherwise the slot after the entry at the cursor's address, or -1 at the sentinel or when no entry has that address; on success the cursor describes the new slot, and on failure it is left alone |
| Rcfs.AddFile | flash_rcfs.c:417-509 | the flash and the return code are those RCFS_AddFile's specification prescribes |
| Rcfs.PlaceFile | flash_rcfs.c:441-489 | once the sentinel is found: the file is placed at the allocated offset, or the call fails with the flash untouched when it does not fit below 0x47000 |
| Rcfs.CreateFile | flash_rcfs.c:459-488 | the VTOC entry is programmed, then the file, and the call returns success |
| Rcfs.WriteEntry | flash_rcfs.c:480-482 | the entry's offset word and then its size word are programmed |
| Rcfs.NewFile | flash_rcfs.c:459-468 | the new flash_file holds the new header for the name, the file's address and length, and the caller's data |
| Rcfs.AddFileDefault | flash_rcfs.c:519-536 | the two-argument RCFS_AddFile fails with the flash untouched when the table is full, and otherwise adds the file under the name synthesized from the sentinel's slot |
| Rcfs.GetFile | flash_rcfs.c:549-576 | returns success exactly when some visited file's name matches; the data address and length returned are those of the first such file: past its header, and its size less the header |
| Rcfs.GetLastFilename | flash_rcfs.c:585-608 | -1 for a null buffer; otherwise success exactly when the table has a file, copying at most 16 bytes of the last visited file's header as strncpy does and leaving the rest of the buffer alone; an empty table leaves the buffer unchanged |
| Rcfs.FindLastFile | flash_rcfs.c:597-601 | the traversal ends on the last visited file, and finds one exactly when the table is not empty |
| RcfsProps.ReadBytesPrefix | flash_rcfs.c:233-246 | the first m of n bytes read are the m bytes read |
| RcfsProps.ReadBytesFrame | flash_rcfs.c:233-246 | bytes read depend only on the half-words that hold them |
| RcfsProps.ReadProgrammed | flash_rcfs.c:193-246 | half-words stored from an even address read back byte by byte, low byte first |
| RcfsProps.ReadBytesEqual | flash_rcfs.c:233-246 | bytes that are in flash read back as themselves |
| RcfsProps.EntryWriteFrame | flash_rcfs.c:480-482 | programming a VTOC entry changes only its eight bytes |
| RcfsProps.EntryWriteValues | flash_rcfs.c:480-482 | when both word programs complete, the entry reads back as (offset, size) |
| RcfsProps.EntryWriteEffect | flash_rcfs.c:480-482 | both of the above together |
| RcfsProps.ImageHeaderReadsBack | flash_rcfs.c:192-246 | a stored file image's header bytes read back from the file's address |
| RcfsProps.ImageDataReadsBack | flash_rcfs.c:199-219 | a stored file image's data bytes read back after the header, the odd trailing byte included |
| RcfsProps.FileWriteFrame | flash_rcfs.c:172-220 | RCFS_Write changes only the header and the 2 * ceil(len/2) data bytes from the file's address |
| RcfsProps.FileWriteStored | flash_rcfs.c:172-220 | when every program completed, the file was given data, and the flash holds the whole image from the file's address |
| RcfsProps.FileWriteHeader | flash_rcfs.c:192-197 | when every program completed, the header reads back from the file's address |
| RcfsProps.FileWriteData | flash_rcfs.c:199-219 | when every program completed, the data reads back after the header |
| RcfsProps.NewHeaderReadsBack | flash_rcfs.c:139-249 | a stored new header is the header RCFS_ReadHeader then reads, whichever of the two header sizes is configured |
| RcfsProps.EntryReads | flash_rcfs.c:480-482 | an entry holding an offset and a size below 2^31 reads back as them, also after writes elsewhere |
| RcfsProps.CreateFileFrame | flash_rcfs.c:480-485 | creating a file changes only its VTOC entry and its own bytes |
| RcfsProps.CreateFileEntry | flash_rcfs.c:480-482 | once the entry programs complete, the entry reads back as (offset, length + header size) |
| RcfsProps.CreateFileNeedsData | flash_rcfs.c:184-467 | a new file is written only when it was given data |
| RcfsProps.CreateFileHeader | flash_rcfs.c:459-485 | when every program completed, the new header reads back at the file's address |
| RcfsProps.CreateFileData | flash_rcfs.c:467-485 | when every program completed, the data reads back after the header |
| RcfsProps.AddFileOutcome | flash_rcfs.c:431-508 | RCFS_AddFile returns success iff the length is in 1..8192, the table has a sentinel and the allocated offset plus the length is at most 0x47000, whatever the program statuses; on failure nothing is programmed; on success it uses the sentinel's slot and the allocated offset |
| RcfsProps.AddFileCreates | flash_rcfs.c:436-488 | a successful RCFS_AddFile creates the file in the sentinel's slot at an even offset between the floor and the ceiling |
| RcfsProps.AddFileWrites | flash_rcfs.c:480-485 | a successful RCFS_AddFile changes only the sentinel's entry and the new file's bytes; every other entry is kept; once its entry programs complete, the entry reads back as (offset, length + header size) |
| RcfsProps.AddFileHeader | flash_rcfs.c:459-488 | once every program completed, the new file's header reads back from its address |
| RcfsProps.AddFileData | flash_rcfs.c:459-488 | once every program completed, the file was given data, and the data reads back after the header |
| RcfsProps.EntriesKept | flash_rcfs.c:480-485 | writes that leave an entry's bytes alone leave the entry's offset and size alone |
| RcfsProps.VisitCountIs | flash_rcfs.c:339-392 | n files followed by the sentinel (or by the end of the table) are visited n at a time |
| RcfsProps.WellFormedCount | flash_rcfs.c:299-316 | in a well-formed table with a sentinel, the sentinel's slot is the number of files |
| RcfsProps.WellFormedAppend | flash_rcfs.c:441-482 | an entry written over the sentinel, at or after the end of every file, keeps the table well formed, with one more file |
| RcfsProps.AddFileKeepsWellFormed | flash_rcfs.c:436-503 | a successful RCFS_AddFile whose entry programs completed keeps a well-formed table well formed, adding one file in the old sentinel's slot |
| RcfsProps.NamesKept | flash_rcfs.c:484-485 | writes past the end of the existing files leave their names alone |
| RcfsProps.LookupAfterAppend | flash_rcfs.c:559-575 | after a file is added, a lookup finds an earlier match if there is one, and otherwise the new file exactly when its name matches |
| RcfsProps.KeptName | flash_rcfs.c:463 | a kept name has at most 15 characters |
| RcfsProps.AddedName | flash_rcfs.c:463-564 | a stored new header reads back, up to its first NUL, as the kept name |
| RcfsProps.NewFileNamed | flash_rcfs.c:459-485 | a new file whose header bytes are in flash reads back with the new header, under the kept name |
| RcfsProps.AddFileAppended | flash_rcfs.c:417-509 | a completed, successful RCFS_AddFile leaves the flash holding one more file at the old sentinel's slot, with its entry, header and data in place |
| RcfsProps.AppendedTable | flash_rcfs.c:436-505 | such a flash, from a well-formed table, is well formed, with one more file; the old files keep their names, and the new one has the kept name |
| RcfsProps.AddFileAppends | flash_rcfs.c:417-509 | after a completed RCFS_AddFile on a well-formed table, the old files keep their slots and names, the table stays well formed, and the new file follows them under the kept name |
| RcfsProps.AppendedLookup | flash_rcfs.c:559-575 | a lookup after the append finds an earlier match if there is one, and otherwise the new file exactly when the name matches its kept name |
| RcfsProps.AddFileThenLookup | flash_rcfs.c:417-576 | the same, stated on RCFS_AddFile's own outcome |
| RcfsProps.AppendedFound | flash_rcfs.c:549-576 | a name not present before, of at most 15 characters, is found in the new slot, with the file's length, and the bytes past that file's header are the data |
| RcfsProps.AppendedData | flash_rcfs.c:567-568 | the bytes at the data address the new entry gives are the data given |
| RcfsProps.AddFileThenGetFile | flash_rcfs.c:417-576 | round trip: after a completed RCFS_AddFile under a new name of at most 15 characters, the addresses are distinct (so RCFS_GetFile terminates), the lookup finds the new slot, and the length is the length given |
| RcfsProps.AppendedWhole | flash_rcfs.c:582-608 | in a well-formed table that gained a file under a name with no NUL and at most 15 characters, the file is the last one a traversal visits, addresses stay distinct, and the name reads back whole, also through RCFS_GetLastFilename's 16-byte strncpy |
| RcfsProps.AddFileDefaultNamed | flash_rcfs.c:519-536 | after a completed RCFS_AddFile(data, length) on a well-formed table, the new file takes the slot after the old files, it is the last file a traversal visits (the one RCFS_GetLastFilename reports), addresses stay distinct, and its name is "debug" followed by its slot number |
| RcfsProps.ErasedSizeSharesOffset | flash_rcfs.c:436-503 | when the only file's size word was left erased (it reads -1), RCFS_AddFile allocates the next file at that file's own offset; once that entry is programmed, the two files share an address and find-next from the second returns the second again |
| FlashUserSpec.FirstFree | flash_user.c:123-132 | the scan stops between its start and the end of the index |
| FlashUserSpec.FirstFreeSpec | flash_user.c:123-132 | every index word the scan passes is in use, and it stops at a free word or at the end of the index |
| FlashUserSpec.UserOffsetSpec | flash_user.c:106-135 | the offset is in -1..63; every index word up to it is in use, and the word after it is free unless the offset is the last word |
| FlashUserSpec.UserOffsetIs | flash_user.c:110-135 | conversely, n words in use followed by a free one (or by the end) give the offset n - 1 |
| FlashUserSpec.FirstFreeSame | flash_user.c:123-132 | the scan depends only on which index words are in use |
| FlashUserSpec.SameIndexKeeps | flash_user.c:110-135 | so the offset and the contiguous-prefix shape depend only on those words |
| FlashUserSpec.InUserPage | flash_user.c:52-222 | every address of the user page lies in the page that the erase at FLASH_USER_PAGE_ADDR erases |
| FlashUserSpec.ErasedPageEmpty | flash_user.c:114-222 | after the page is erased no index word is in use, the offset is -1 and the store is valid |
| FlashUserSpec.SlotWords | flash_user.c:163-170 | a slot holds eight words |
| FlashUserSpec.ReadSpec | flash_user.c:142-174 | a read yields eight words; the offset is -1 exactly when the address is 0, and then every word is 0xFFFFFFFF |
| FlashUserSpec.WriteSpec | flash_user.c:183-264 | a write that passes the limit check returns 1, -1 or -3 |
| FlashUserSpec.WriteSlotSpec | flash_user.c:232-263 | a slot write reports the slot's offset and address |
| FlashUserProps.ProgramWordsFrame | flash_user.c:239-251 | the data loop changes nothing outside the slot |
| FlashUserProps.ProgramWordsStored | flash_user.c:239-251 | when every data program completed, the slot holds the words |
| FlashUserProps.ProgramWordsStops | flash_user.c:245-250 | once a data program fails, the later words are not programmed |
| FlashUserProps.ProgramWordsStopsHere | flash_user.c:245-250 | the loop ends at the first program that is not COMPLETE, with the result false |
| FlashUserProps.MarkerWrite | flash_user.c:254-261 | the marker write changes only its index word; either nothing changes or the low half reads 0; a COMPLETE marker reads 0 in both halves |
| FlashUserProps.DataAfterIndex | flash_user.c:233-251 | the data writes leave every index word alone |
| FlashUserProps.WriteSlotIndex | flash_user.c:254-261 | after a slot write the index still forms a contiguous prefix; the offset is the new slot if its marker took, else the old offset; a COMPLETE marker makes it the new slot |
| FlashUserProps.WriteSlotData | flash_user.c:239-263 | a slot write returning 1 leaves the slot holding the data |
| FlashUserProps.WriteKeepsStore | flash_user.c:209-263 | every write, failed or not, keeps the index a contiguous prefix with an offset that names a slot or is -1 |
| FlashUserProps.WriteThenRead | flash_user.c:142-264 | round trip: after a write that returns 1, the next read returns the data written, with the write's offset (a slot 0..55) and address |
| FlashUserProps.WriteEraseFailure | flash_user.c:215-226 | when the slots run out and the erase fails, the write returns -3, programs nothing, and leaves the caller's address |
| FlashUserProps.WriteMarksFailedSlot | flash_user.c:245-261 | after a failed data write whose marker took, the write returns -1, yet the next read reports the failed slot |
| FlashUserProps.InitThenRead | flash_user.c:142-299 | after a COMPLETE initial erase the store is valid, and a read reports offset -1, address 0 and erased words |
| FlashUser.OffsetGet | flash_user.c:110-135 | the index scan returns the offset: one less than the number of leading index words in use |
| FlashUser.ProgramWords | flash_user.c:238-251 | the data loop programs the words in order and stops at the first failure, as the specification prescribes |
| FlashUser.UserStore.Read | flash_user.c:142-174 | FlashUserRead fills params with the read specification's words, offset and address, and returns params |
| FlashUser.UserStore.Write | flash_user.c:182-264 | at 32 writes it returns -2 and changes nothing; otherwise it counts the write, and the flash, the return code and the caller's offset and address are those of the write specification |
| FlashUser.UserStore.Init | flash_user.c:271-299 | a second call returns -4 and changes nothing; the first sets the flag and erases the page, returning 1 when the erase completes and -3 otherwise |

## Left out

- Programming is a plain store of the value. Real flash can only clear bits, and it
  refuses to program a half-word that is not erased, keeping the old value. In the
  model, once the first wait completes, `ProgramHalfWordSpec` and `ProgramWordSpec`
  store the new value whatever status the final wait reports. A program that ends with
  ERROR_PG therefore still reads back as the new value here, where the STM32 would keep
  the old one.
- Stm32Flash.ErasePageSpec, Stm32Flash.EraseEffect, Stm32Flash.FlashController.ErasePage,
  FlashUser.UserStore.Init: the same holds for erasing. Once the first wait completes,
  the model erases the page whatever the second wait reports. An erase that ends with ERROR_WRP (a write-protected page)
  therefore reads back as erased here, where the STM32 would erase nothing. The lemmas
  built on erasing (`Stm32Flash.EraseWrite`, `FlashUserProps.WriteEraseFailure`) only
  rely on "unchanged or erased", and on "erased" when the erase returns COMPLETE.
- The register block, the unlock keys and the CR bit sets and resets are not modelled;
  the status register is an oracle sequence. `FLASH_ClearFlag` changes nothing the
  model observes, and `FLASH_UnlockBank1` sets an `unlocked` flag that nothing checks.
- The `writeDebugStreamLine` on `FLASH_ProgramWord`'s error path, `abortTimeslice()`
  in `RCFS_Write`, and the debug dumps `RCFS_DebugFile`, `RCFS_ReadVTOC` and
  `FlashUserDebug` are output and scheduling only.
- The ROBOTC version `#if` selection is not modelled: the header size, the VTOC offset
  and the other build-time constants are fields of `Config`.
- Addresses are unbounded integers. 32-bit address wrap-around is not modelled.
- Rcfs.GetFile: the null `data` and `length` pointer checks are not modelled. The
  method returns the data address and length instead of writing through pointers.
- Rcfs.GetFile, Rcfs.GetLastFilename, Rcfs.FindLastFile: these require the visited
  VTOC addresses to be distinct. With a duplicate address, find-next from the later
  file jumps back to the slot after the earlier one (`RcfsSpec.DuplicateAddressLoops`).
  The traversal then cycles: `RCFS_GetLastFilename` does not end, and `RCFS_GetFile`
  ends only if the name it looks for is in one of the slots 0..j it visits before the
  first jump back. A table that `RCFS_AddFile`
  builds has distinct addresses when every entry program completed
  (`RcfsSpec.WellFormedDistinct`, `RcfsProps.AddFileThenGetFile`). If a size-word
  program fails, the size reads -1 and the next file is placed at the same offset, so
  the addresses are no longer distinct (`RcfsProps.ErasedSizeSharesOffset`).
- Rcfs.GetLastFilename: a negative `len` is excluded. strncpy would take it as a huge
  size_t.
- Rcfs.AddFile: the data is a value (`Option` of bytes, `None` for NULL), so aliasing
  between the caller's buffer and the flash is not modelled.
- RcfsProps.AddFileThenGetFile: the data of the found file is stated through
  `RcfsProps.AddFileData` (the bytes at the new offset) and `RcfsProps.AddFileWrites`
  (the entry gives that offset), and at table level through `RcfsProps.AppendedFound`,
  rather than in the lemma itself.
- FlashUser: the `data` field of `flash_user` is modelled as eight 32-bit words rather
  than 32 bytes, because every access in `flash_user.c` goes through `uint32_t`
  pointers.
- FlashUser.UserStore.Write: the 16-bit write counter is a `nat`. It cannot wrap,
  because it stops at 32.
- FlashUser.UserStore.Read, FlashUser.OffsetGet: these read the flash contents given
  as a parameter, since reading makes no status-register access.
