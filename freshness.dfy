/**
 * The freshness verdict for a stored response. The cache computes the age
 * in (fractional) seconds, `(now - timestamp) / 1000`, and compares it with
 * `max-age` and `max-age + stale-while-revalidate`.
 */
module Freshness {

  datatype Verdict = Fresh | Stale | Expired

  /** Position of a verdict along the life of an entry. */
  function Rank(v: Verdict): nat {
    match v
    case Fresh => 0
    case Stale => 1
    case Expired => 2
  }

  /** The age in seconds, as the division of the millisecond difference by 1000. */
  function Age(writtenAt: int, now: int): real {
    (now - writtenAt) as real / 1000.0
  }

  /**
   * Expired once the age exceeds `maxAge + swr`; otherwise Stale once it
   * exceeds `maxAge`; otherwise Fresh. In whole milliseconds: with
   * `d = now - writtenAt`, Expired iff `d > 1000 * (maxAge + swr)`, Stale iff
   * `1000 * maxAge < d <= 1000 * (maxAge + swr)`, Fresh iff `d <= 1000 * maxAge`.
   */
  function Classify(maxAge: nat, swr: nat, writtenAt: int, now: int): (v: Verdict)
    ensures v == Expired <==> now - writtenAt > 1000 * (maxAge + swr)
    ensures v == Stale <==> 1000 * maxAge < now - writtenAt <= 1000 * (maxAge + swr)
    ensures v == Fresh <==> now - writtenAt <= 1000 * maxAge
  {
    var age := Age(writtenAt, now);
    if age > (maxAge + swr) as real then Expired
    else if age > maxAge as real then Stale
    else Fresh
  }

  /** As the clock advances an entry only moves Fresh, then Stale, then Expired. */
  lemma VerdictMonotone(maxAge: nat, swr: nat, writtenAt: int, now: int, later: int)
    requires now <= later
    ensures Rank(Classify(maxAge, swr, writtenAt, now)) <= Rank(Classify(maxAge, swr, writtenAt, later))
  {
  }

  /** Without a stale-while-revalidate window an entry is never Stale. */
  lemma NoStaleWithoutSwr(maxAge: nat, writtenAt: int, now: int)
    ensures Classify(maxAge, 0, writtenAt, now) != Stale
    ensures Classify(maxAge, 0, writtenAt, now) == Expired <==> now - writtenAt > 1000 * maxAge
  {
  }

  /** An entry read at the instant it was written is Fresh, whatever its directives. */
  lemma FreshWhenJustWritten(maxAge: nat, swr: nat, now: int)
    ensures Classify(maxAge, swr, now, now) == Fresh
  {
  }
}
