/// What FlashUserWrite and FlashUserInit guarantee about the parameter page: the index
/// stays a run of used words followed by free ones, a write that returns 1 is what the
/// next FlashUserRead returns, and an index word is programmed even after a failed data
/// word.
module FlashUserProps {
  import opened Stm32Flash
  import opened FlashUserSpec

  // ---------------------------------------------------------------------------
  // Programming the data words
  // ---------------------------------------------------------------------------

  /** Programming words from `a` changes no half-word outside [a, a + 4 |ws|). */
  lemma {:induction false} ProgramWordsFrame(p: Primitives, sr: nat -> bv32, h: Hw, a: int, ws: seq<uint32>)
    requires Implements(p, sr)
    ensures var r := ProgramWordsSpec(p, h, a, ws);
      forall x :: x < a || a + 4 * |ws| <= x ==> Read16(r.hw.mem, x) == Read16(h.mem, x)
    decreases |ws|
  {
    if |ws| > 0 {
      var n := |ws| - 1;
      ProgramWordsFrame(p, sr, h, a, ws[..n]);
      var r := ProgramWordsSpec(p, h, a, ws[..n]);
      if r.ok {
        WordWrite(p, sr, r.hw, a + 4 * n, ws[n]);
      }
    }
  }

  /** When every program completed, each word reads back from its own address. */
  lemma {:induction false} ProgramWordsStored(p: Primitives, sr: nat -> bv32, h: Hw, a: int, ws: seq<uint32>)
    requires Implements(p, sr)
    ensures var r := ProgramWordsSpec(p, h, a, ws);
      r.ok ==> forall k :: 0 <= k < |ws| ==> Read32(r.hw.mem, a + 4 * k) == ws[k]
    decreases |ws|
  {
    if |ws| > 0 {
      var n := |ws| - 1;
      ProgramWordsStored(p, sr, h, a, ws[..n]);
      var r := ProgramWordsSpec(p, h, a, ws[..n]);
      if r.ok {
        WordWrite(p, sr, r.hw, a + 4 * n, ws[n]);
        var o := p.word(r.hw, a + 4 * n, ws[n]);
        forall k | 0 <= k < n
          ensures Read32(o.hw.mem, a + 4 * k) == ws[k]
        {
          assert ws[..n][k] == ws[k];
          assert Read16(o.hw.mem, a + 4 * k) == Read16(r.hw.mem, a + 4 * k);
          assert Read16(o.hw.mem, a + 4 * k + 2) == Read16(r.hw.mem, a + 4 * k + 2);
        }
      }
    }
  }

  /** Once a program has failed, the words after it are not programmed. */
  lemma {:induction false} ProgramWordsStops(p: Primitives, h: Hw, a: int, ws: seq<uint32>, j: nat)
    requires j <= |ws| && !ProgramWordsSpec(p, h, a, ws[..j]).ok
    ensures ProgramWordsSpec(p, h, a, ws) == ProgramWordsSpec(p, h, a, ws[..j])
    decreases |ws| - j
  {
    if j == |ws| {
      assert ws[..j] == ws;
    } else {
      var front := ws[..|ws| - 1];
      assert front[..j] == ws[..j];
      ProgramWordsStops(p, h, a, front, j);
    }
  }

  /** The run of programs ends at the first word whose program does not complete. */
  lemma ProgramWordsStopsHere(p: Primitives, h: Hw, a: int, ws: seq<uint32>, i: nat)
    requires i < |ws| && ProgramWordsSpec(p, h, a, ws[..i]).ok
    requires p.word(ProgramWordsSpec(p, h, a, ws[..i]).hw, a + 4 * i, ws[i]).status != Complete
    ensures ProgramWordsSpec(p, h, a, ws)
            == Programmed(p.word(ProgramWordsSpec(p, h, a, ws[..i]).hw, a + 4 * i, ws[i]).hw, false)
  {
    assert ws[..i + 1][..i] == ws[..i];
    ProgramWordsStops(p, h, a, ws, i + 1);
  }

  // ---------------------------------------------------------------------------
  // The index word
  // ---------------------------------------------------------------------------

  /** Programming the index word with 0 changes only its two half-words. It either
      leaves the flash as it was or makes the low half 0, and a complete program makes
      both halves 0. */
  lemma MarkerWrite(p: Primitives, sr: nat -> bv32, h: Hw, a: int)
    requires Implements(p, sr)
    ensures var m := p.word(h, a, 0);
      && (forall x :: x != a && x != a + 2 ==> Read16(m.hw.mem, x) == Read16(h.mem, x))
      && (m.hw.mem == h.mem || Read16(m.hw.mem, a) == 0)
      && (m.status == Complete ==> Read16(m.hw.mem, a) == 0 && Read16(m.hw.mem, a + 2) == 0)
  {
    assert p.word(h, a, 0) == ProgramWordSpec(sr, h, a, 0);
    ProgramWordEffect(sr, h, a, 0);
  }

  /** The data words of a slot lie after the index. */
  lemma DataAfterIndex(p: Primitives, sr: nat -> bv32, h: Hw, o: int, data: seq<uint32>)
    requires Implements(p, sr) && 0 <= o
    ensures SameIndex(h.mem, ProgramWordsSpec(p, h, SlotAddr(o), data).hw.mem)
  {
    ProgramWordsFrame(p, sr, h, SlotAddr(o), data);
  }

  /** The index after the data words of slot `o` and its index word are programmed, from
      a well-formed index whose next free word is `o`. The index stays well formed. It
      ends at `o` when the index word was programmed at all, and always when its program
      completed. Otherwise it ends where it did. */
  lemma WriteSlotIndex(p: Primitives, sr: nat -> bv32, h: Hw, o: int, data: seq<uint32>)
    requires Implements(p, sr) && IndexWellFormed(h.mem)
    requires o == UserOffset(h.mem) + 1 && 0 <= o < SlotCount
    ensures var d := ProgramWordsSpec(p, h, SlotAddr(o), data);
      var m := p.word(d.hw, IndexAddr(o), 0);
      && IndexWellFormed(m.hw.mem)
      && UserOffset(m.hw.mem) == (if IndexUsed(m.hw.mem, o) then o else o - 1)
      && (m.status == Complete ==> UserOffset(m.hw.mem) == o)
  {
    var d := ProgramWordsSpec(p, h, SlotAddr(o), data);
    var m := p.word(d.hw, IndexAddr(o), 0);
    DataAfterIndex(p, sr, h, o, data);
    SameIndexKeeps(h.mem, d.hw.mem);
    UserOffsetSpec(d.hw.mem);
    MarkerWrite(p, sr, d.hw, IndexAddr(o));
    forall j | 0 <= j < IndexSize && j != o
      ensures IndexUsed(m.hw.mem, j) == IndexUsed(d.hw.mem, j)
    {
    }
    if IndexUsed(m.hw.mem, o) {
      UserOffsetIs(m.hw.mem, o + 1);
    } else {
      UserOffsetIs(m.hw.mem, o);
    }
  }

  /** The slot's words after its data and index word were programmed, when all of them
      completed. */
  lemma WriteSlotData(p: Primitives, sr: nat -> bv32, h: Hw, o: int, data: seq<uint32>)
    requires Implements(p, sr) && 0 <= o < SlotCount && |data| == UserSize
    ensures var w := WriteSlotSpec(p, h, o, data);
      w.ret == 1 ==> SlotWords(w.hw.mem, o) == data
  {
    var d := ProgramWordsSpec(p, h, SlotAddr(o), data);
    var m := p.word(d.hw, IndexAddr(o), 0);
    if d.ok {
      ProgramWordsStored(p, sr, h, SlotAddr(o), data);
      MarkerWrite(p, sr, d.hw, IndexAddr(o));
      forall k | 0 <= k < UserSize
        ensures SlotWords(m.hw.mem, o)[k] == data[k]
      {
        assert Read16(m.hw.mem, SlotAddr(o) + 4 * k) == Read16(d.hw.mem, SlotAddr(o) + 4 * k);
        assert Read16(m.hw.mem, SlotAddr(o) + 4 * k + 2) == Read16(d.hw.mem, SlotAddr(o) + 4 * k + 2);
      }
    }
  }

  // ---------------------------------------------------------------------------
  // FlashUserWrite
  // ---------------------------------------------------------------------------

  /** Every outcome of a write, failed ones included, keeps the store valid. */
  lemma WriteKeepsStore(p: Primitives, sr: nat -> bv32, h: Hw, data: seq<uint32>, addr: int)
    requires Implements(p, sr) && StoreValid(h.mem)
    ensures StoreValid(WriteSpec(p, h, data, addr).hw.mem)
  {
    var o := UserOffset(h.mem) + 1;
    if o >= SlotCount {
      var e := p.erase(h, UserPageAddr);
      EraseWrite(p, sr, h, UserPageAddr);
      ErasedPageEmpty(h.mem);
      if e.status == Complete {
        WriteSlotIndex(p, sr, e.hw, 0, data);
      }
    } else {
      WriteSlotIndex(p, sr, h, o, data);
    }
  }

  /** A write that returns 1 is what the next read returns: its data, its slot and the
      slot's address. */
  lemma WriteThenRead(p: Primitives, sr: nat -> bv32, h: Hw, data: seq<uint32>, addr: int)
    requires Implements(p, sr) && IndexWellFormed(h.mem) && |data| == UserSize
    ensures var w := WriteSpec(p, h, data, addr);
      w.ret == 1 ==> 0 <= w.offset < SlotCount && ReadSpec(w.hw.mem) == UserRead(data, w.offset, w.addr)
  {
    var o := UserOffset(h.mem) + 1;
    var w := WriteSpec(p, h, data, addr);
    if o >= SlotCount {
      var e := p.erase(h, UserPageAddr);
      if e.status == Complete {
        EraseWrite(p, sr, h, UserPageAddr);
        ErasedPageEmpty(h.mem);
        WriteSlotIndex(p, sr, e.hw, 0, data);
        WriteSlotData(p, sr, e.hw, 0, data);
      }
    } else {
      UserOffsetSpec(h.mem);
      WriteSlotIndex(p, sr, h, o, data);
      WriteSlotData(p, sr, h, o, data);
    }
  }

  /** When the page is full and its erase fails, the write returns -3 without programming
      anything: the flash is as it was, or the page is erased. */
  lemma WriteEraseFailure(p: Primitives, sr: nat -> bv32, h: Hw, data: seq<uint32>, addr: int)
    requires Implements(p, sr)
    requires UserOffset(h.mem) + 1 >= SlotCount && p.erase(h, UserPageAddr).status != Complete
    ensures var w := WriteSpec(p, h, data, addr);
      && w.ret == FlashErrorErase && w.addr == addr
      && (w.hw.mem == h.mem || w.hw.mem == ErasePageMem(h.mem, UserPageAddr))
  {
    EraseWrite(p, sr, h, UserPageAddr);
  }

  /** The index word is programmed after a failed data word. When its program completes,
      the write returns -1, yet the next read returns the partly written slot. */
  lemma WriteMarksFailedSlot(p: Primitives, sr: nat -> bv32, h: Hw, o: int, data: seq<uint32>)
    requires Implements(p, sr) && IndexWellFormed(h.mem)
    requires o == UserOffset(h.mem) + 1 && 0 <= o < SlotCount
    ensures var d := ProgramWordsSpec(p, h, SlotAddr(o), data);
      var w := WriteSlotSpec(p, h, o, data);
      !d.ok && p.word(d.hw, IndexAddr(o), 0).status == Complete ==>
        w.ret == FlashErrorWrite && ReadSpec(w.hw.mem).offset == o && ReadSpec(w.hw.mem).addr == SlotAddr(o)
  {
    WriteSlotIndex(p, sr, h, o, data);
  }

  // ---------------------------------------------------------------------------
  // FlashUserInit
  // ---------------------------------------------------------------------------

  /** After a complete erase of the page, the store is valid and a read finds no
      parameters: erased words and address 0. */
  lemma InitThenRead(p: Primitives, sr: nat -> bv32, h: Hw)
    requires Implements(p, sr)
    ensures var e := p.erase(h, UserPageAddr);
      e.status == Complete ==>
        && StoreValid(e.hw.mem)
        && ReadSpec(e.hw.mem).offset == -1 && ReadSpec(e.hw.mem).addr == 0
        && (forall k :: 0 <= k < UserSize ==> ReadSpec(e.hw.mem).data[k] == ErasedWord)
  {
    EraseWrite(p, sr, h, UserPageAddr);
    ErasedPageEmpty(h.mem);
  }
}
