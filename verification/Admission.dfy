/** The 64-bit comparisons that admit a request and report free memory. */
module Admission {
  import opened Words

  /** The admission test: the sum is taken modulo 2^64. */
  predicate Admits(used: Word, request: Word, limit: Word) {
    (used + request) % U64 <= limit
  }

  function FreeReported(used: Word, limit: Word): Word {
    if used > limit then 0 else limit - used
  }

  /** Usage fits a word, and its sum with the request does not wrap to within the limit. */
  predicate Honest(used: nat, request: Word, limit: Word) {
    used < U64 && (used + request < U64 || used + request - U64 > limit)
  }

  /** The 64-bit test agrees with exact arithmetic exactly when the sum does not wrap to within the limit. */
  lemma AdmitsExact(used: Word, request: Word, limit: Word)
    ensures (Admits(used, request, limit) <==> used + request <= limit) <==> Honest(used, request, limit)
  {
  }

  lemma HonestIsExact(used: nat, request: Word, limit: Word)
    requires Honest(used, request, limit)
    ensures used % U64 == used
    ensures Admits(used % U64, request, limit) <==> used + request <= limit
  {
    AdmitsExact(used, request, limit);
  }

  /** A request is admitted exactly when it fits the reported free memory, exactly when the sum does not wrap. */
  lemma FreeReportedExact(used: Word, request: Word, limit: Word)
    requires used <= limit
    ensures (Admits(used, request, limit) <==> request <= FreeReported(used, limit)) <==> used + request < U64
  {
  }

  /** Past the limit nothing is admitted, not even the zero bytes that are reported free. */
  lemma OverLimitAdmitsNothing(used: Word, request: Word, limit: Word)
    requires used > limit && used + request < U64
    ensures !Admits(used, request, limit) && FreeReported(used, limit) == 0
  {
  }

  /**
   * An admission test on any reading keeps every request whose sum does not wrap within the limit exactly when
   * the reading is at least what the process has recorded itself.
   */
  lemma ReadingExact(recorded: nat, reading: Word, limit: Word)
    requires recorded <= limit
    ensures (forall request: Word {:trigger Admits(reading, request, limit)} ::
               reading + request < U64 && Admits(reading, request, limit) ==> recorded + request <= limit)
            <==> recorded <= reading
  {
    if recorded > reading {
      assert Admits(reading, limit - reading, limit);
    }
  }

  /** Wrapping sums included, it does so exactly when nothing is recorded and no wrapped sum can pass the limit. */
  lemma AnyRequestExact(recorded: nat, reading: Word, limit: Word)
    requires recorded <= limit
    ensures (forall request: Word {:trigger Admits(reading, request, limit)} ::
               Admits(reading, request, limit) ==> recorded + request <= limit)
            <==> recorded == 0 && (reading == 0 || limit == U64 - 1)
  {
    if reading == 0 {
      assert Admits(reading, limit, limit);
    } else if reading <= limit + 1 {
      assert (reading + (U64 - 1)) % U64 == reading - 1 by { ModIs(reading + (U64 - 1), U64, 1, reading - 1); }
      assert Admits(reading, U64 - 1, limit);
    } else {
      assert (U64 + limit) % U64 == limit by { ModIs(U64 + limit, U64, 1, limit); }
      assert Admits(reading, U64 - reading + limit, limit);
    }
  }
}
