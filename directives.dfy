/**
 * Reading `max-age` (section 5.2.2.1 of RFC 9111) and
 * `stale-while-revalidate` (section 3 of RFC 5861) out of a stored
 * `cache-control` value. The cache does not use the RFC grammar: it takes
 * the leftmost match of the regular expression `<name>=(\d+)` anywhere in the
 * value, parses the digit run as a decimal number, and uses 0 when there is
 * no match.
 */
module Directives {
  import opened Wrappers
  import opened Http

  const MaxAgeName: string := "max-age="
  const SwrName: string := "stale-while-revalidate="

  predicate IsDigit(c: char) {
    '0' <= c <= '9'
  }

  /** The regular expression `<name>\d` matches at position `i` of `s`. */
  predicate MatchesAt(s: string, name: string, i: int) {
    0 <= i && i + |name| < |s| && s[i..i + |name|] == name && IsDigit(s[i + |name|])
  }

  /** `i` is the leftmost position where the pattern matches. */
  predicate Leftmost(s: string, name: string, i: int) {
    MatchesAt(s, name, i) && forall j | 0 <= j < i :: !MatchesAt(s, name, j)
  }

  /** The regular-expression search: the first match at or after `from`. */
  function FirstMatch(s: string, name: string, from: nat): (r: Option<nat>)
    decreases |s| - from
    ensures r.Some? ==> from <= r.value && MatchesAt(s, name, r.value)
    ensures r.Some? ==> forall j | from <= j < r.value :: !MatchesAt(s, name, j)
    ensures r.None? ==> forall j | from <= j :: !MatchesAt(s, name, j)
  {
    if from + |name| >= |s| then None
    else if MatchesAt(s, name, from) then Some(from)
    else FirstMatch(s, name, from + 1)
  }

  /** The greedy `\d+`: the longest run of digits at the start of `s`. */
  function DigitRun(s: string): (r: string)
    ensures r <= s
    ensures forall k | 0 <= k < |r| :: IsDigit(r[k])
    ensures |r| < |s| ==> !IsDigit(s[|r|])
  {
    if s != [] && IsDigit(s[0]) then [s[0]] + DigitRun(s[1..]) else []
  }

  function DigitValue(c: char): nat {
    if IsDigit(c) then c as int - '0' as int else 0
  }

  /** `parseInt(ds, 10)` of a digit string. */
  function DecimalValue(ds: string): nat {
    if ds == [] then 0
    else 10 * DecimalValue(ds[..|ds| - 1]) + DigitValue(ds[|ds| - 1])
  }

  /** The number captured by a match at position `i`. */
  function ValueAt(s: string, name: string, i: nat): nat
    requires i + |name| <= |s|
  {
    DecimalValue(DigitRun(s[i + |name|..]))
  }

  /** The directive's value: the number after its leftmost match, or 0. */
  function Directive(s: string, name: string): (n: nat)
    ensures (forall i | 0 <= i <= |s| :: !MatchesAt(s, name, i)) ==> n == 0
    ensures forall i | Leftmost(s, name, i) :: n == ValueAt(s, name, i)
  {
    match FirstMatch(s, name, 0)
    case None => 0
    case Some(i) => ValueAt(s, name, i)
  }

  /** The stored `cache-control` value, or "" when there is none. */
  function CacheControl(hs: Headers): (r: string)
    ensures Get(hs, "cache-control").None? ==> r == ""
    ensures Get(hs, "cache-control").Some? ==> r == Get(hs, "cache-control").value
  {
    Get(hs, "cache-control").GetOr("")
  }

  /** `max-age`: the number after the leftmost `max-age=<digit>` in `cache-control`, or 0. */
  function MaxAge(hs: Headers): (n: nat)
    ensures (forall i | 0 <= i <= |CacheControl(hs)| :: !MatchesAt(CacheControl(hs), MaxAgeName, i)) ==> n == 0
    ensures forall i | Leftmost(CacheControl(hs), MaxAgeName, i) :: n == ValueAt(CacheControl(hs), MaxAgeName, i)
  {
    Directive(CacheControl(hs), MaxAgeName)
  }

  /** `stale-while-revalidate`: read the same way as `max-age`. */
  function StaleWhileRevalidate(hs: Headers): (n: nat)
    ensures (forall i | 0 <= i <= |CacheControl(hs)| :: !MatchesAt(CacheControl(hs), SwrName, i)) ==> n == 0
    ensures forall i | Leftmost(CacheControl(hs), SwrName, i) :: n == ValueAt(CacheControl(hs), SwrName, i)
  {
    Directive(CacheControl(hs), SwrName)
  }

  /** Without a `cache-control` header both directives read as 0. */
  lemma MissingHeaderGivesZero(hs: Headers)
    requires Get(hs, "cache-control").None?
    ensures MaxAge(hs) == 0 && StaleWhileRevalidate(hs) == 0
  {
  }

  /** No match can start before `k` when the name's first letter does not occur there. */
  lemma NoMatchBefore(s: string, name: string, k: nat)
    requires name != [] && k <= |s| && name[0] !in s[..k]
    ensures forall j | 0 <= j < k :: !MatchesAt(s, name, j)
  {
    forall j | 0 <= j < k ensures !MatchesAt(s, name, j) {
      if j + |name| < |s| {
        assert s[j..j + |name|][0] == s[..k][j];
      }
    }
  }

  /** A digit string followed by a non-digit (or nothing) is the whole digit run. */
  lemma {:induction false} DigitRunOf(ds: string, rest: string)
    requires forall k | 0 <= k < |ds| :: IsDigit(ds[k])
    requires rest == [] || !IsDigit(rest[0])
    ensures DigitRun(ds + rest) == ds
  {
    if ds != [] {
      assert (ds + rest)[1..] == ds[1..] + rest;
      DigitRunOf(ds[1..], rest);
    }
  }

  /**
   * When `name` first occurs at `i`, is followed by the digits up to `j` and
   * its first letter does not occur before `i`, the directive is the value
   * of those digits.
   */
  lemma DirectiveAt(s: string, name: string, i: nat, j: nat)
    requires name != [] && i + |name| < j <= |s|
    requires s[i..i + |name|] == name && name[0] !in s[..i]
    requires forall k | i + |name| <= k < j :: IsDigit(s[k])
    requires j == |s| || !IsDigit(s[j])
    ensures Directive(s, name) == DecimalValue(s[i + |name|..j])
  {
    var ds, rest := s[i + |name|..j], s[j..];
    assert Leftmost(s, name, i) by {
      assert s[i + |name|] == ds[0];
      NoMatchBefore(s, name, i);
    }
    assert DigitRun(s[i + |name|..]) == ds by {
      assert s[i + |name|..] == ds + rest;
      DigitRunOf(ds, rest);
    }
    assert Directive(s, name) == ValueAt(s, name, i);
    ValueOfRun(s, name, i, ds);
  }

  lemma ValueOfRun(s: string, name: string, i: nat, ds: string)
    requires i + |name| <= |s| && DigitRun(s[i + |name|..]) == ds
    ensures ValueAt(s, name, i) == DecimalValue(ds)
  {
  }

  /** A directive written with a single digit `d` reads as that digit's value. */
  lemma DirectiveDigit(s: string, name: string, i: nat, d: char)
    requires name != [] && i + |name| < |s|
    requires s[i..i + |name|] == name && name[0] !in s[..i]
    requires IsDigit(d) && s[i + |name|] == d
    requires i + |name| + 1 == |s| || !IsDigit(s[i + |name| + 1])
    ensures Directive(s, name) == DigitValue(d)
  {
    var j := i + |name| + 1;
    DirectiveAt(s, name, i, j);
    assert s[i + |name|..j] == [d] && [d][..0] == [];
  }

  /** The header `max-age=100` used by the round-trip scenario. */
  lemma MaxAgeHundred(hs: Headers)
    requires CacheControl(hs) == "max-age=100"
    ensures MaxAge(hs) == 100 && StaleWhileRevalidate(hs) == 0
  {
    HundredParts(CacheControl(hs));
    HundredDirectives(CacheControl(hs));
  }

  lemma HundredParts(s: string)
    requires s == "max-age=100"
    ensures |s| == 11 && s[..8] == MaxAgeName && s[8..11] == ['1', '0', '0'] && 's' !in s
  {
    assert s == MaxAgeName + "100";
  }

  lemma HundredDirectives(s: string)
    requires |s| == 11 && s[..8] == MaxAgeName && s[8..11] == ['1', '0', '0'] && 's' !in s
    ensures Directive(s, MaxAgeName) == 100 && Directive(s, SwrName) == 0
  {
    assert s[0..8] == s[..8] && s[..0] == [];
    assert forall k | 8 <= k < 11 :: s[k] == s[8..11][k - 8];
    DirectiveAt(s, MaxAgeName, 0, 11);
    assert DecimalValue(s[8..11]) == 100 by {
      var ds := s[8..11];
      assert ds[..2][..1] == ['1'] && DecimalValue(ds[..2][..1]) == 1;
      assert DecimalValue(ds[..2]) == 10;
    }
    NoMatchBefore(s, SwrName, |s|);
  }

  /** The header `max-age=1, stale-while-revalidate=1`. */
  lemma MaxAgeOneSwrOne(hs: Headers)
    requires CacheControl(hs) == "max-age=1, stale-while-revalidate=1"
    ensures MaxAge(hs) == 1 && StaleWhileRevalidate(hs) == 1
  {
    OneOneParts(CacheControl(hs));
    OneOneDirectives(CacheControl(hs));
  }

  lemma MaxAgeOneHead(head: string)
    requires head == "max-age=1, "
    ensures |head| == 11 && head[..8] == MaxAgeName && head[8] == '1' && head[9] == ',' && 's' !in head
  {
    assert head == MaxAgeName + "1, ";
  }

  lemma SwrOneTail(tail: string)
    requires tail == "stale-while-revalidate=1"
    ensures |tail| == 24 && tail[..23] == SwrName && tail[23] == '1'
  {
    assert tail == SwrName + "1";
  }

  lemma OneOneParts(s: string)
    requires s == "max-age=1, stale-while-revalidate=1"
    ensures |s| == 35 && s[..8] == MaxAgeName && s[8] == '1' && s[9] == ','
    ensures s[11..34] == SwrName && s[34] == '1' && 's' !in s[..11]
  {
    var head, tail := "max-age=1, ", "stale-while-revalidate=1";
    assert s == head + tail;
    MaxAgeOneHead(head);
    SwrOneTail(tail);
    assert s[..11] == head;
    assert s[..8] == head[..8];
    assert s[11..34] == tail[..23];
  }

  lemma OneOneDirectives(s: string)
    requires |s| == 35 && s[..8] == MaxAgeName && s[8] == '1' && s[9] == ','
    requires s[11..34] == SwrName && s[34] == '1' && 's' !in s[..11]
    ensures Directive(s, MaxAgeName) == 1 && Directive(s, SwrName) == 1
  {
    assert s[0..8] == s[..8] && s[..0] == [];
    DirectiveDigit(s, MaxAgeName, 0, '1');
    DirectiveDigit(s, SwrName, 11, '1');
  }

  /** Only the leftmost `max-age` counts: `max-age=5, max-age=7` reads as 5. */
  lemma LeftmostWins(hs: Headers)
    requires CacheControl(hs) == "max-age=5, max-age=7"
    ensures MaxAge(hs) == 5
  {
    var s := CacheControl(hs);
    assert s[0..8] == MaxAgeName && s[8] == '5' && s[9] == ',' && s[..0] == [] by {
      assert s == MaxAgeName + "5, " + MaxAgeName + "7";
    }
    DirectiveDigit(s, MaxAgeName, 0, '5');
  }
}
