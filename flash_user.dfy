/// The user parameter functions of flash_user.c over a `FlashController`. The static
/// variables of the C file (the `params` buffer, the write counter and the erase flag)
/// are the fields of `UserStore`. Each method is proved against `FlashUserSpec`.
module FlashUser {
  import opened Stm32Flash
  import opened FlashUserSpec
  import opened FlashUserProps

  /** flash_user: the parameter words, and the offset and address of their slot. */
  class UserParams {
    const data: array<uint32>
    var offset: int
    var addr: int

    predicate Valid()
    {
      data.Length == UserSize
    }

    constructor ()
      ensures Valid() && fresh(data) && offset == 0 && addr == 0
    {
      data := new uint32[UserSize](_ => 0);
      offset := 0;
      addr := 0;
    }
  }

  /** FlashUserOffsetGet: counts the leading index words that are not erased, reading
      each as two half-words, and stops at the first erased one. */
  method OffsetGet(mem: map<int, uint16>) returns (offset: int)
    ensures offset == UserOffset(mem)
  {
    var p := UserPageAddr;
    offset := -1;
    var i := 0;
    while i < IndexSize
      invariant 0 <= i <= IndexSize && p == IndexAddr(i) && offset == i - 1
      invariant FirstFree(mem, i) == FirstFree(mem, 0)
    {
      var su := Read16(mem, p);
      p := p + 2;
      var sl := Read16(mem, p);
      p := p + 2;
      if su != ErasedHalfWord || sl != ErasedHalfWord {
        offset := offset + 1;
      } else {
        break;
      }
      i := i + 1;
    }
  }

  /** The data loop of FlashUserWrite: the words are programmed in order from `a`, and
      the first program that does not complete ends the loop with `ok` false. */
  method ProgramWords(flash: FlashController, data: array<uint32>, a: int) returns (ok: bool)
    requires flash.Valid()
    modifies flash`mem, flash`polls
    ensures Programmed(flash.State(), ok) == ProgramWordsSpec(flash.prims, old(flash.State()), a, data[..])
  {
    ghost var h0 := flash.State();
    ghost var ws := data[..];
    var p := a;
    ok := true;
    var i := 0;
    while i < data.Length
      invariant 0 <= i <= data.Length && p == a + 4 * i
      invariant ProgramWordsSpec(flash.prims, h0, a, ws[..i]) == Programmed(flash.State(), true)
    {
      assert ws[..i + 1][..i] == ws[..i];
      var st := flash.ProgramWord(p, data[i]);
      p := p + 4;
      if st != Complete {
        ok := false;
        ProgramWordsStopsHere(flash.prims, h0, a, ws, i);
        return;
      }
      i := i + 1;
    }
    assert ws[..i] == ws;
  }

  /** The static state of flash_user.c: the `params` buffer FlashUserRead fills, the
      number of writes this run, and whether FlashUserInit has erased the page. */
  class UserStore {
    const params: UserParams
    var writeCount: nat
    var eraseDone: bool

    /** At most 32 writes have reached the flash in this run. */
    ghost predicate Valid()
      reads this
    {
      params.Valid() && writeCount <= MaxWrite
    }

    /** The state at the start of a run. */
    constructor ()
      ensures Valid() && fresh(params) && fresh(params.data)
      ensures writeCount == 0 && !eraseDone
    {
      params := new UserParams();
      writeCount := 0;
      eraseDone := false;
    }

    /** FlashUserRead: fills `params` from the slot at the current offset, or with erased
        words and address 0 when there is none, and returns it. */
    method Read(mem: map<int, uint16>) returns (r: UserParams)
      requires Valid()
      modifies params, params.data
      ensures Valid() && r == params
      ensures var s := ReadSpec(mem);
        params.data[..] == s.data && params.offset == s.offset && params.addr == s.addr
    {
      params.offset := OffsetGet(mem);
      if params.offset == -1 {
        for i := 0 to UserSize
          invariant forall k :: 0 <= k < i ==> params.data[k] == ErasedWord
          modifies params.data
        {
          params.data[i] := ErasedWord;
        }
        params.addr := 0;
        assert params.data[..] == seq(UserSize, _ => ErasedWord);
      } else {
        var p := SlotAddr(params.offset);
        params.addr := p;
        for i := 0 to UserSize
          invariant p == SlotAddr(params.offset) + 4 * i
          invariant forall k :: 0 <= k < i ==> params.data[k] == Read32(mem, SlotAddr(params.offset) + 4 * k)
          modifies params.data
        {
          params.data[i] := Read32(mem, p);
          p := p + 4;
        }
        assert params.data[..] == SlotWords(mem, params.offset);
      }
      return params;
    }

    /** FlashUserWrite: after 32 writes in a run it returns -2 and touches nothing.
        Otherwise it counts the write and performs `WriteSpec`, leaving the slot's offset
        and address in `u`. */
    method Write(flash: FlashController, u: UserParams) returns (r: int)
      requires Valid() && flash.Valid() && u.Valid()
      modifies this`writeCount, flash, u`offset, u`addr
      ensures Valid()
      ensures old(writeCount) >= MaxWrite ==>
        && r == FlashErrorWriteLimit && writeCount == old(writeCount)
        && flash.State() == old(flash.State()) && u.offset == old(u.offset) && u.addr == old(u.addr)
      ensures old(writeCount) < MaxWrite ==>
        && writeCount == old(writeCount) + 1
        && var w := WriteSpec(flash.prims, old(flash.State()), u.data[..], old(u.addr));
           flash.State() == w.hw && r == w.ret && u.offset == w.offset && u.addr == w.addr
    {
      var ret := 1;
      if writeCount >= MaxWrite {
        return FlashErrorWriteLimit;
      }
      writeCount := writeCount + 1;
      flash.UnlockBank1();
      flash.ClearFlag(FlagEop | FlagPgErr | FlagWrpErr);
      u.offset := OffsetGet(flash.mem);
      u.offset := u.offset + 1;
      if u.offset >= SlotCount {
        var st := flash.ErasePage(UserPageAddr);
        if st != Complete {
          return FlashErrorErase;
        }
        u.offset := 0;
      }
      var p := SlotAddr(u.offset);
      u.addr := p;
      var ok := ProgramWords(flash, u.data, p);
      if !ok {
        ret := FlashErrorWrite;
      }
      p := IndexAddr(u.offset);
      var st := flash.ProgramWord(p, 0);
      if st != Complete {
        ret := FlashErrorWrite;
      }
      return ret;
    }

    /** FlashUserInit: the first call of a run sets the flag, then erases the page and
        returns 1, or -3 when the erase fails. Every later call returns -4 and erases
        nothing. */
    method Init(flash: FlashController) returns (r: int)
      requires flash.Valid()
      modifies this`eraseDone, flash
      ensures eraseDone
      ensures old(eraseDone) ==> r == FlashErrorEraseLimit && flash.State() == old(flash.State())
      ensures !old(eraseDone) ==>
        var e := flash.prims.erase(old(flash.State()), UserPageAddr);
        flash.State() == e.hw && r == (if e.status == Complete then 1 else FlashErrorErase)
    {
      if !eraseDone {
        eraseDone := true;
        flash.UnlockBank1();
        var st := flash.ErasePage(UserPageAddr);
        if st != Complete {
          return FlashErrorErase;
        }
      } else {
        return FlashErrorEraseLimit;
      }
      return 1;
    }
  }
}
