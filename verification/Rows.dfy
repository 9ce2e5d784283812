/** One row of the shared process table. */
module Rows {
  import opened Words

  /** A process: its pid and the time it started. */
  datatype Key = Key(pid: Pid, t: Word)

  datatype Status = NonExist | Deleted | Exist

  datatype RNode = RNode(key: Key, entry: int, stat: Status) {
    predicate SameKey(k: Key) {
      key == k
    }

    function SetRecEntry(idx: int): RNode {
      this.(entry := idx)
    }

    function ShallowDelete(): RNode {
      this.(stat := Deleted)
    }
  }

  const INITIAL_ROW := RNode(Key(-1, 0), -1, NonExist)
}
