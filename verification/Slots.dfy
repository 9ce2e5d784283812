/**
 * One slot of the shared record slab. Slots lie inline in a shared array, so a slot is a value: what the
 * program does to a slot in place is a new value stored back at its index.
 */
module Slots {
  import opened Words

  /** `ptr` is the address of the caller's variable, not the handle; 0 marks an empty slot. */
  datatype GMem = GMem(ptr: Word, bytes: Word, next: int) {
    predicate Empty() {
      ptr == 0
    }

    predicate IsTail() {
      ptr != 0 && next == -1
    }

    function SetNext(idx: int): GMem {
      this.(next := idx)
    }

    function SetRes(newPtr: Word, newBytes: Word): GMem {
      this.(ptr := newPtr, bytes := newBytes)
    }

    /** Empties the slot but leaves its byte count behind. */
    function ShallowDelete(): GMem {
      this.(ptr := 0, next := -1)
    }
  }

  const INITIAL_SLOT := GMem(0, 0, -1)
}
