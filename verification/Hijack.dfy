/** The intercepted driver calls, each run without interruption. */
module Hijack {
  import opened Words
  import opened Rows
  import opened Store
  import opened Refinement
  import opened Usage
  import opened Handles
  import opened Admission
  import opened Resource

  /** `Crashed` is a null pointer dereferenced while recording. */
  datatype CUresult = Success | OutOfMemory | DriverError | Crashed

  /** What the driver would answer: a failure, or a handle. */
  datatype Reply = Failed | Given(handle: Word)

  /** A slot is free, and the process has recorded no handle twice and this one not at all. */
  ghost predicate NewHandle(st: Store, host: Host, k: Key, h: Word) {
    FirstEmpty(st.s) != -1 && UniqueHandles(host, Recs(st, k)) && PosOf(st, host, k, h) == -1
  }

  /** The allocators share this body; `a` is the caller's variable and `bytes` the request. */
  method CuMemAlloc(rnm: RNM, host: Host, a: Word, bytes: Word, limit: Word, live: set<Key>, reply: Reply)
    returns (ret: CUresult, host': Host)
    requires rnm.Valid()
    requires reply.Given? ==> a != 0
    modifies rnm.rnodes, rnm.gmems
    ensures ret.OutOfMemory? <==> !Admits(Used(old(rnm.View()), live) % U64, bytes, limit)
    ensures ret.DriverError? <==> Admits(Used(old(rnm.View()), live) % U64, bytes, limit) && reply.Failed?
    ensures ret.Crashed? <==> Admits(Used(old(rnm.View()), live) % U64, bytes, limit) && reply.Given?
                              && !Room(old(rnm.rnodes[..]), rnm.key)
    ensures !ret.Success? ==> rnm.View() == old(rnm.View())
    ensures host' == if ret.Success? || ret.Crashed? then host[a := reply.handle] else host
    ensures ret.Success? ==> rnm.View() == Add(old(rnm.View()), host', rnm.key, a, bytes)
    ensures ret.Success? ==> (rnm.Valid() <==> FreshOrLast(old(Recs(rnm.View(), rnm.key)), host', a))
    ensures ret.Success? && NewHandle(old(rnm.View()), host', rnm.key, reply.handle) ==>
              HandleMap(host', Recs(rnm.View(), rnm.key)) ==
              HandleMap(host', old(Recs(rnm.View(), rnm.key)))[reply.handle := bytes as nat]
  {
    ghost var st := rnm.View();
    host' := host;
    var used := rnm.GmemUsed(live);
    if (used + bytes) % U64 > limit {
      return OutOfMemory, host;
    }
    match reply {
      case Failed => ret := DriverError;
      case Given(h) =>
        host' := host[a := h];
        var faulted := rnm.AddGmem(host', a, bytes);
        ret := if faulted then Crashed else Success;
        if !faulted && NewHandle(st, host', rnm.key, h) {
          AddRefinesHandles(st, host', rnm.key, a, bytes);
        }
    }
  }

  method CuMemGetInfo(rnm: RNM, limit: Word, live: set<Key>) returns (free: Word, total: Word)
    requires rnm.Valid()
    ensures total == limit
    ensures var used := Used(rnm.View(), live) % U64;
            used <= limit ==> forall request: Word ::
                (Admits(used, request, limit) <==> request <= free) <==> used + request < U64
    ensures Used(rnm.View(), live) % U64 > limit ==> free == 0
  {
    var used := rnm.GmemUsed(live);
    total := limit;
    free := if used > total then 0 else total - used;
    forall request: Word | used <= limit
      ensures (Admits(used, request, limit) <==> request <= free) <==> used + request < U64
    {
      FreeReportedExact(used, request, limit);
    }
  }

  /** The record goes first, whatever the driver then answers. */
  method CuMemFree(rnm: RNM, host: Host, h: Word, ok: bool) returns (ret: CUresult)
    requires rnm.Valid()
    modifies rnm.rnodes, rnm.gmems
    ensures rnm.Valid() && rnm.View() == Remove(old(rnm.View()), host, rnm.key, h)
    ensures ret.Success? <==> ok
    ensures UniqueHandles(host, old(Recs(rnm.View(), rnm.key))) ==>
              HandleMap(host, Recs(rnm.View(), rnm.key)) == HandleMap(host, old(Recs(rnm.View(), rnm.key))) - {h}
  {
    ghost var st := rnm.View();
    if UniqueHandles(host, Recs(st, rnm.key)) {
      RemoveRefinesHandles(st, host, rnm.key, h);
    }
    rnm.RemoveGmem(host, h);
    ret := if ok then Success else DriverError;
  }
}
