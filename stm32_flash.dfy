/// Model of the STM32 flash-programming primitive (stm32_flash.c).
///
/// The flash array is a map from absolute byte addresses to 16-bit half-words;
/// an address that is not in the map reads as erased (0xFFFF). The status
/// register is an oracle: `sr(n)` is the value the n-th read of FLASH->SR
/// returns, and `polls` counts how many reads have been made. Every primitive
/// has a pure specification over `Hw(mem, polls)`; the methods of
/// `FlashController` are proved equal to those specifications.
module Stm32Flash {

  /** FLASH_Status; the C enumeration starts at 1. */
  datatype FlashStatus = Busy | ErrorPg | ErrorWrp | Complete | Timeout

  /** The integer value of each FLASH_Status enumerator. */
  function StatusCode(s: FlashStatus): (c: int)
    ensures 1 <= c <= 5
    ensures s == Busy <==> c == 1
    ensures s == Complete <==> c == 4
  {
    match s
    case Busy => 1
    case ErrorPg => 2
    case ErrorWrp => 3
    case Complete => 4
    case Timeout => 5
  }

  /** Error codes of the user-level functions; they are not FLASH_Status values. */
  const FlashErrorWrite: int := -1
  const FlashErrorWriteLimit: int := -2
  const FlashErrorErase: int := -3
  const FlashErrorEraseLimit: int := -4

  lemma UserErrorCodesDistinct(s: FlashStatus)
    ensures StatusCode(s) !in {FlashErrorWrite, FlashErrorWriteLimit, FlashErrorErase, FlashErrorEraseLimit}
    ensures |{FlashErrorWrite, FlashErrorWriteLimit, FlashErrorErase, FlashErrorEraseLimit}| == 4
  {
  }

  /** Status register flags. */
  const FlagBsy: bv32 := 0x01
  const FlagPgErr: bv32 := 0x04
  const FlagWrpErr: bv32 := 0x10
  const FlagEop: bv32 := 0x20

  /** Timeouts, in polls of the status register. */
  const EraseTimeout: nat := 0x000B0000
  const ProgramTimeout: nat := 0x00002000

  /** FLASH_GetBank1Status applied to one reading of the status register:
      busy wins over a program error, which wins over a write-protect error. */
  function DecodeStatus(sr: bv32): (s: FlashStatus)
    ensures s != Timeout
  {
    if sr & FlagBsy == FlagBsy then Busy
    else if sr & FlagPgErr != 0 then ErrorPg
    else if sr & FlagWrpErr != 0 then ErrorWrp
    else Complete
  }

  /** Which flags each decoded status stands for. */
  lemma DecodeStatusFlags(sr: bv32)
    ensures var s := DecodeStatus(sr);
      && (s == Busy <==> sr & FlagBsy != 0)
      && (s == ErrorPg <==> sr & FlagBsy == 0 && sr & FlagPgErr != 0)
      && (s == ErrorWrp <==> sr & FlagBsy == 0 && sr & FlagPgErr == 0 && sr & FlagWrpErr != 0)
      && (s == Complete <==> sr & (FlagBsy | FlagPgErr | FlagWrpErr) == 0)
  {
  }

  /** Only the busy, program-error and write-protect bits are looked at. */
  lemma DecodeIgnoresOtherFlags(sr: bv32)
    ensures DecodeStatus(sr) == DecodeStatus(sr & (FlagBsy | FlagPgErr | FlagWrpErr))
    ensures DecodeStatus(sr | FlagEop) == DecodeStatus(sr)
  {
  }

  // ---------------------------------------------------------------------------
  // The flash array
  // ---------------------------------------------------------------------------

  /** C's fixed-width unsigned integers, as bounded integers. */
  type uint8 = x: int | 0 <= x < 0x100
  type uint16 = x: int | 0 <= x < 0x1_0000
  type uint32 = x: int | 0 <= x < 0x1_0000_0000

  const ErasedHalfWord: uint16 := 0xFFFF
  const PageSize: int := 2048

  function Read16(mem: map<int, uint16>, a: int): uint16
  {
    if a in mem then mem[a] else ErasedHalfWord
  }

  /** A 32-bit little-endian read: low half at `a`, high half at `a + 2`. */
  function Read32(mem: map<int, uint16>, a: int): uint32
  {
    Read16(mem, a) + 0x1_0000 * Read16(mem, a + 2)
  }

  function LowByte(h: uint16): uint8 { h % 0x100 }
  function HighByte(h: uint16): uint8 { h / 0x100 }

  /** A byte read; the byte at an even address is the low byte of its half-word. */
  function Read8(mem: map<int, uint16>, a: int): uint8
  {
    if a % 2 == 0 then LowByte(Read16(mem, a)) else HighByte(Read16(mem, a - 1))
  }

  function PageOf(a: int): int { a - a % PageSize }

  /** The flash array after the page holding `page` has been erased. */
  function ErasePageMem(mem: map<int, uint16>, page: int): (r: map<int, uint16>)
    ensures forall a :: Read16(r, a) == if PageOf(a) == PageOf(page) then ErasedHalfWord else Read16(mem, a)
  {
    map a | a in mem && PageOf(a) != PageOf(page) :: mem[a]
  }

  function LowHalf(w: uint32): uint16 { w % 0x1_0000 }
  function HighHalf(w: uint32): uint16 { w / 0x1_0000 }

  lemma HalvesJoin(w: uint32)
    ensures LowHalf(w) + 0x1_0000 * HighHalf(w) == w
  {
  }

  // ---------------------------------------------------------------------------
  // Specification of the primitives
  // ---------------------------------------------------------------------------

  /** The observable hardware state: the flash array and the number of status reads so far. */
  datatype Hw = Hw(mem: map<int, uint16>, polls: nat)

  datatype Waited = Waited(status: FlashStatus, polls: nat)

  datatype Outcome = Outcome(hw: Hw, status: FlashStatus)

  predicate BusyAt(sr: nat -> bv32, n: nat)
  {
    DecodeStatus(sr(n)) == Busy
  }

  /** The wait loop of FLASH_WaitForLastOperation with `t` left on the counter, the last
      decoded status `s`, and `k` the index of the next status reading. */
  function Poll(sr: nat -> bv32, k: nat, t: nat, s: FlashStatus): Waited
    decreases t
  {
    if s == Busy && t != 0 then Poll(sr, k + 1, t - 1, DecodeStatus(sr(k)))
    else Waited(if t == 0 then Timeout else s, k)
  }

  /** FLASH_WaitForLastOperation(t) started when `k` status reads have been made. */
  function Wait(sr: nat -> bv32, k: nat, t: nat): Waited
  {
    Poll(sr, k + 1, t, DecodeStatus(sr(k)))
  }

  lemma {:induction false} PollTimesOutIffAllBusy(sr: nat -> bv32, m: nat, t: nat)
    ensures Poll(sr, m + 1, t, DecodeStatus(sr(m))).status == Timeout
            <==> forall n :: m <= n < m + t ==> BusyAt(sr, n)
    decreases t
  {
    if t != 0 && BusyAt(sr, m) {
      PollTimesOutIffAllBusy(sr, m + 1, t - 1);
      if forall n :: m + 1 <= n < m + t ==> BusyAt(sr, n) {
        assert forall n :: m <= n < m + t ==> BusyAt(sr, n);
      }
    }
  }

  lemma {:induction false} PollReturnsFirstReady(sr: nat -> bv32, m: nat, t: nat, j: nat)
    requires j < t
    requires forall n :: m <= n < m + j ==> BusyAt(sr, n)
    requires !BusyAt(sr, m + j)
    ensures Poll(sr, m + 1, t, DecodeStatus(sr(m))) == Waited(DecodeStatus(sr(m + j)), m + j + 1)
    decreases j
  {
    if j != 0 {
      assert BusyAt(sr, m);
      PollReturnsFirstReady(sr, m + 1, t - 1, j - 1);
    }
  }

  lemma {:induction false} PollAllBusy(sr: nat -> bv32, m: nat, t: nat)
    requires forall n :: m <= n < m + t ==> BusyAt(sr, n)
    ensures Poll(sr, m + 1, t, DecodeStatus(sr(m))) == Waited(Timeout, m + t + 1)
    decreases t
  {
    if t != 0 {
      assert BusyAt(sr, m);
      PollAllBusy(sr, m + 1, t - 1);
    }
  }

  /** The wait times out exactly when the first `t` readings all say busy; it then has
      made `t + 1` reads, the last of which is ignored even when it is not busy. */
  lemma WaitTimeout(sr: nat -> bv32, k: nat, t: nat)
    ensures Wait(sr, k, t).status == Timeout <==> forall n :: k <= n < k + t ==> BusyAt(sr, n)
    ensures Wait(sr, k, t).status == Timeout ==> Wait(sr, k, t).polls == k + t + 1
  {
    PollTimesOutIffAllBusy(sr, k, t);
    if forall n :: k <= n < k + t ==> BusyAt(sr, n) {
      PollAllBusy(sr, k, t);
    }
  }

  /** Otherwise the wait returns the first reading that is not busy. */
  lemma WaitReady(sr: nat -> bv32, k: nat, t: nat, j: nat)
    requires j < t
    requires forall n :: k <= n < k + j ==> BusyAt(sr, n)
    requires !BusyAt(sr, k + j)
    ensures Wait(sr, k, t) == Waited(DecodeStatus(sr(k + j)), k + j + 1)
    ensures Wait(sr, k, t).status != Timeout
  {
    PollReturnsFirstReady(sr, k, t, j);
  }

  lemma {:induction false} PollNeverBusy(sr: nat -> bv32, k: nat, t: nat, s: FlashStatus)
    requires s != Timeout
    ensures Poll(sr, k, t, s).status != Busy
    ensures k <= Poll(sr, k, t, s).polls <= k + t
    decreases t
  {
    if s == Busy && t != 0 {
      PollNeverBusy(sr, k + 1, t - 1, DecodeStatus(sr(k)));
    }
  }

  /** The wait never reports busy and reads the status register between 1 and t + 1 times. */
  lemma WaitNeverBusy(sr: nat -> bv32, k: nat, t: nat)
    ensures Wait(sr, k, t).status != Busy
    ensures k + 1 <= Wait(sr, k, t).polls <= k + t + 1
  {
    PollNeverBusy(sr, k + 1, t, DecodeStatus(sr(k)));
  }

  /** FLASH_ErasePage: the erase is started only when the first wait completes. */
  function ErasePageSpec(sr: nat -> bv32, h: Hw, page: int): Outcome
  {
    var w1 := Wait(sr, h.polls, EraseTimeout);
    if w1.status == Complete then
      var w2 := Wait(sr, w1.polls, EraseTimeout);
      Outcome(Hw(ErasePageMem(h.mem, page), w2.polls), w2.status)
    else
      Outcome(Hw(h.mem, w1.polls), w1.status)
  }

  /** FLASH_ProgramHalfWord. */
  function ProgramHalfWordSpec(sr: nat -> bv32, h: Hw, a: int, v: uint16): Outcome
  {
    var w1 := Wait(sr, h.polls, ProgramTimeout);
    if w1.status == Complete then
      var w2 := Wait(sr, w1.polls, ProgramTimeout);
      Outcome(Hw(h.mem[a := v], w2.polls), w2.status)
    else
      Outcome(Hw(h.mem, w1.polls), w1.status)
  }

  /** FLASH_ProgramWord: two half-word programs, low half first. */
  function ProgramWordSpec(sr: nat -> bv32, h: Hw, a: int, w: uint32): Outcome
  {
    var w1 := Wait(sr, h.polls, ProgramTimeout);
    if w1.status == Complete then
      var w2 := Wait(sr, w1.polls, ProgramTimeout);
      if w2.status == Complete then
        var w3 := Wait(sr, w2.polls, ProgramTimeout);
        Outcome(Hw(h.mem[a := LowHalf(w)][a + 2 := HighHalf(w)], w3.polls), w3.status)
      else
        Outcome(Hw(h.mem[a := LowHalf(w)], w2.polls), w2.status)
    else
      Outcome(Hw(h.mem, w1.polls), w1.status)
  }

  /** An erase either leaves the flash alone (the controller was not ready) or erases
      exactly the page; it never reports busy. */
  lemma EraseEffect(sr: nat -> bv32, h: Hw, page: int)
    ensures var o := ErasePageSpec(sr, h, page);
      && o.status != Busy
      && (Wait(sr, h.polls, EraseTimeout).status != Complete ==>
            o.hw.mem == h.mem && o.status == Wait(sr, h.polls, EraseTimeout).status)
      && (Wait(sr, h.polls, EraseTimeout).status == Complete ==> o.hw.mem == ErasePageMem(h.mem, page))
      && (o.status == Complete ==> forall a :: PageOf(a) == PageOf(page) ==> Read16(o.hw.mem, a) == ErasedHalfWord)
  {
    WaitNeverBusy(sr, h.polls, EraseTimeout);
    var w1 := Wait(sr, h.polls, EraseTimeout);
    if w1.status == Complete {
      WaitNeverBusy(sr, w1.polls, EraseTimeout);
    }
  }

  /** A half-word program whose first wait is not COMPLETE returns that status and writes
      nothing; otherwise it changes at most the one half-word, and a complete one stores it. */
  lemma ProgramHalfWordEffect(sr: nat -> bv32, h: Hw, a: int, v: uint16)
    ensures var o := ProgramHalfWordSpec(sr, h, a, v);
      && o.status != Busy
      && (Wait(sr, h.polls, ProgramTimeout).status != Complete ==>
            o.hw.mem == h.mem && o.status == Wait(sr, h.polls, ProgramTimeout).status)
      && (o.hw.mem == h.mem || o.hw.mem == h.mem[a := v])
      && (o.status == Complete ==> o.hw.mem == h.mem[a := v])
  {
    WaitNeverBusy(sr, h.polls, ProgramTimeout);
    var w1 := Wait(sr, h.polls, ProgramTimeout);
    if w1.status == Complete {
      WaitNeverBusy(sr, w1.polls, ProgramTimeout);
    }
  }

  /** A word program is not atomic: it leaves nothing, the low half only, or both halves
      written; the high half is written only after the first half completed, and a
      complete word program reads back as the word. */
  lemma ProgramWordEffect(sr: nat -> bv32, h: Hw, a: int, w: uint32)
    ensures var o := ProgramWordSpec(sr, h, a, w);
      && o.status != Busy
      && (|| o.hw.mem == h.mem
          || o.hw.mem == h.mem[a := LowHalf(w)]
          || o.hw.mem == h.mem[a := LowHalf(w)][a + 2 := HighHalf(w)])
      && (o.hw.mem != h.mem ==> Wait(sr, h.polls, ProgramTimeout).status == Complete)
      && (o.status == Complete ==> o.hw.mem == h.mem[a := LowHalf(w)][a + 2 := HighHalf(w)])
      && (o.status == Complete ==> Read32(o.hw.mem, a) == w)
  {
    var w1 := Wait(sr, h.polls, ProgramTimeout);
    WaitNeverBusy(sr, h.polls, ProgramTimeout);
    if w1.status == Complete {
      var w2 := Wait(sr, w1.polls, ProgramTimeout);
      WaitNeverBusy(sr, w1.polls, ProgramTimeout);
      if w2.status == Complete {
        WaitNeverBusy(sr, w2.polls, ProgramTimeout);
        HalvesJoin(w);
      }
    }
  }

  // ---------------------------------------------------------------------------
  // The primitives as values
  // ---------------------------------------------------------------------------

  /** The three primitives that change the flash, as functions of the hardware state.
      The file system layers are specified over such a value; `Implements` ties it to
      the specifications above. */
  datatype Primitives = Primitives(
    erase: (Hw, int) -> Outcome,
    halfWord: (Hw, int, uint16) -> Outcome,
    word: (Hw, int, uint32) -> Outcome)

  /** `p` behaves as the controller whose status register reads sr(0), sr(1), ... in turn.
      (The triggers let a proof use this only once it mentions the specification.) */
  ghost predicate Implements(p: Primitives, sr: nat -> bv32)
  {
    && (forall h, page {:trigger ErasePageSpec(sr, h, page)} :: p.erase(h, page) == ErasePageSpec(sr, h, page))
    && (forall h, a, v {:trigger ProgramHalfWordSpec(sr, h, a, v)} :: p.halfWord(h, a, v) == ProgramHalfWordSpec(sr, h, a, v))
    && (forall h, a, w {:trigger ProgramWordSpec(sr, h, a, w)} :: p.word(h, a, w) == ProgramWordSpec(sr, h, a, w))
  }

  /** Through `p`, a word program changes at most the two half-words of the word, and a
      complete one reads back as the word. */
  lemma WordWrite(p: Primitives, sr: nat -> bv32, h: Hw, a: int, w: uint32)
    requires Implements(p, sr)
    ensures var o := p.word(h, a, w);
      && (forall x :: x != a && x != a + 2 ==> Read16(o.hw.mem, x) == Read16(h.mem, x))
      && (o.status == Complete ==> Read32(o.hw.mem, a) == w)
  {
    assert p.word(h, a, w) == ProgramWordSpec(sr, h, a, w);
    ProgramWordEffect(sr, h, a, w);
  }

  /** Through `p`, an erase leaves the flash alone or erases the page, and a complete one
      has erased it. */
  lemma EraseWrite(p: Primitives, sr: nat -> bv32, h: Hw, page: int)
    requires Implements(p, sr)
    ensures var o := p.erase(h, page);
      && (o.hw.mem == h.mem || o.hw.mem == ErasePageMem(h.mem, page))
      && (o.status == Complete ==> o.hw.mem == ErasePageMem(h.mem, page))
  {
    assert p.erase(h, page) == ErasePageSpec(sr, h, page);
    EraseEffect(sr, h, page);
  }

  // ---------------------------------------------------------------------------
  // The flash controller
  // ---------------------------------------------------------------------------

  class FlashController {
    var mem: map<int, uint16>
    const sr: nat -> bv32
    var polls: nat
    var unlocked: bool
    const prims: Primitives

    /** The primitives the methods below carry out. */
    ghost predicate Valid()
    {
      Implements(prims, sr)
    }

    constructor (contents: map<int, uint16>, readings: nat -> bv32)
      ensures mem == contents && sr == readings && polls == 0 && !unlocked
      ensures Valid()
    {
      mem := contents;
      sr := readings;
      polls := 0;
      unlocked := false;
      prims := Primitives(
        (h: Hw, page: int) => ErasePageSpec(readings, h, page),
        (h: Hw, a: int, v: uint16) => ProgramHalfWordSpec(readings, h, a, v),
        (h: Hw, a: int, w: uint32) => ProgramWordSpec(readings, h, a, w));
    }

    function State(): Hw
      reads this
    {
      Hw(mem, polls)
    }

    /** FLASH_GetBank1Status: reads the status register once and decodes it. */
    method GetBank1Status() returns (status: FlashStatus)
      modifies this`polls
      ensures polls == old(polls) + 1
      ensures status == DecodeStatus(sr(old(polls)))
    {
      status := DecodeStatus(sr(polls));
      polls := polls + 1;
    }

    /** FLASH_WaitForLastOperation. */
    method WaitForLastOperation(timeout: nat) returns (status: FlashStatus)
      modifies this`polls
      ensures Waited(status, polls) == Wait(sr, old(polls), timeout)
    {
      var t := timeout;
      status := GetBank1Status();
      while status == Busy && t != 0
        invariant Poll(sr, polls, t, status) == Wait(sr, old(polls), timeout)
        decreases t
      {
        status := GetBank1Status();
        t := t - 1;
      }
      if t == 0 {
        status := Timeout;
      }
    }

    /** FLASH_ErasePage. */
    method ErasePage(page: int) returns (status: FlashStatus)
      requires Valid()
      modifies this`mem, this`polls
      ensures Outcome(State(), status) == prims.erase(old(State()), page)
    {
      status := WaitForLastOperation(EraseTimeout);
      if status == Complete {
        mem := ErasePageMem(mem, page);
        status := WaitForLastOperation(EraseTimeout);
      }
      assert Outcome(State(), status) == ErasePageSpec(sr, old(State()), page);
    }

    /** FLASH_ClearFlag, deliberately a no-op: the status register is an oracle here,
        so clearing flags changes nothing the model observes. */
    method ClearFlag(flags: bv32)
      ensures State() == old(State())
    {
    }

    /** FLASH_UnlockBank1: writes the two keys; the controller is then unlocked. */
    method UnlockBank1()
      modifies this`unlocked
      ensures unlocked
    {
      unlocked := true;
    }

    /** FLASH_ProgramWord. */
    method ProgramWord(a: int, w: uint32) returns (status: FlashStatus)
      requires Valid()
      modifies this`mem, this`polls
      ensures Outcome(State(), status) == prims.word(old(State()), a, w)
    {
      status := WaitForLastOperation(ProgramTimeout);
      if status == Complete {
        mem := mem[a := LowHalf(w)];
        status := WaitForLastOperation(ProgramTimeout);
        if status == Complete {
          mem := mem[a + 2 := HighHalf(w)];
          status := WaitForLastOperation(ProgramTimeout);
        }
      }
      assert Outcome(State(), status) == ProgramWordSpec(sr, old(State()), a, w);
    }

    /** FLASH_ProgramHalfWord. */
    method ProgramHalfWord(a: int, v: uint16) returns (status: FlashStatus)
      requires Valid()
      modifies this`mem, this`polls
      ensures Outcome(State(), status) == prims.halfWord(old(State()), a, v)
    {
      status := WaitForLastOperation(ProgramTimeout);
      if status == Complete {
        mem := mem[a := v];
        status := WaitForLastOperation(ProgramTimeout);
      }
      assert Outcome(State(), status) == ProgramHalfWordSpec(sr, old(State()), a, v);
    }
  }
}
