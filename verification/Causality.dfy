/** The causality check over all pairs of measurements, and what it means. */
module Causality {
  import opened Wrappers
  import opened Primitives
  import opened Crypto
  import opened Sequences
  import MerkleSpec

  function Lower(m: Measurement): int { m.Midpoint() - m.Radius() }

  function Upper(m: Measurement): int { m.Midpoint() + m.Radius() }

  /** The arithmetic of the check stays within 64 bits. */
  predicate Bounded(ms: seq<Measurement>) {
    forall k :: 0 <= k < |ms| ==> 0 <= Lower(ms[k]) && Upper(ms[k]) <= 0xffff_ffff_ffff_ffff
  }

  datatype CausalityViolation = CausalityViolation(first: Measurement, second: Measurement, lower: u64, upper: u64)

  /** Measurement i was received before j, but its time is certainly later. */
  ghost predicate Conflict(ms: seq<Measurement>, i: int, j: int) {
    0 <= i < j < |ms| && Lower(ms[i]) > Upper(ms[j])
  }

  /** There are moments, one in each interval, that never go back. */
  ghost predicate Consistent(ms: seq<Measurement>) {
    exists times: seq<int> :: Witness(ms, times)
  }

  /** A time no further from MIDP than RADI, in either direction. */
  predicate WithinRadius(m: Measurement, time: int) {
    m.response.srep.midp - m.response.srep.radi <= time <= m.response.srep.midp + m.response.srep.radi
  }

  ghost predicate Witness(ms: seq<Measurement>, times: seq<int>) {
    && |times| == |ms|
    && (forall k :: 0 <= k < |ms| ==> WithinRadius(ms[k], times[k]))
    && (forall i, j :: 0 <= i < j < |ms| ==> times[i] <= times[j])
  }

  /** Dictionary order, each pair once. */
  ghost predicate Lexicographic(pairs: seq<(int, int)>) {
    forall a, b :: 0 <= a < b < |pairs| ==>
      pairs[a].0 < pairs[b].0 || (pairs[a].0 == pairs[b].0 && pairs[a].1 < pairs[b].1)
  }

  /** The latest lower bound among the first k + 1 measurements. */
  function Latest(ms: seq<Measurement>, k: nat): int
    requires k < |ms|
  {
    if k == 0 then Lower(ms[0])
    else if Lower(ms[k]) > Latest(ms, k - 1) then Lower(ms[k])
    else Latest(ms, k - 1)
  }

  lemma {:induction false} LatestIsReached(ms: seq<Measurement>, k: nat) returns (i: nat)
    requires k < |ms|
    ensures i <= k && Latest(ms, k) == Lower(ms[i])
    ensures forall j :: 0 <= j <= k ==> Lower(ms[j]) <= Latest(ms, k)
  {
    if k == 0 {
      i := 0;
    } else {
      i := LatestIsReached(ms, k - 1);
      if Lower(ms[k]) > Latest(ms, k - 1) {
        i := k;
      }
    }
  }

  lemma {:induction false} LatestGrows(ms: seq<Measurement>, i: nat, j: nat)
    requires i <= j < |ms|
    ensures Latest(ms, i) <= Latest(ms, j)
    decreases j
  {
    if i < j {
      LatestGrows(ms, i, j - 1);
    }
  }

  /**
    The meaning of the check (section 8.2 of draft-ietf-ntp-roughtime-14): no pair conflicts exactly
    when there is a non-decreasing sequence of times with one in every interval.
  */
  lemma NoConflictMeansConsistent(ms: seq<Measurement>)
    ensures (forall i, j :: !Conflict(ms, i, j)) <==> Consistent(ms)
  {
    if forall i, j :: !Conflict(ms, i, j) {
      var times := seq(|ms|, k requires 0 <= k < |ms| => Latest(ms, k));
      forall k | 0 <= k < |ms|
        ensures WithinRadius(ms[k], times[k])
      {
        var i := LatestIsReached(ms, k);
        assert !Conflict(ms, i, k);
      }
      forall i, j | 0 <= i < j < |ms|
        ensures times[i] <= times[j]
      {
        LatestGrows(ms, i, j);
      }
      assert Witness(ms, times);
    }
    if times: seq<int> :| Witness(ms, times) {
      forall i, j
        ensures !Conflict(ms, i, j)
      {
        if 0 <= i < j < |ms| {
          assert times[i] <= times[j];
        }
      }
    }
  }

  /** The violation reported for a pair. */
  function Reported(ms: seq<Measurement>, pair: (int, int)): CausalityViolation
    requires Bounded(ms) && 0 <= pair.0 < |ms| && 0 <= pair.1 < |ms|
  {
    var first, second := ms[pair.0], ms[pair.1];
    assert Lower(first) == first.response.srep.midp - first.response.srep.radi;
    assert Upper(second) == second.response.srep.midp + second.response.srep.radi;
    CausalityViolation(first, second, first.response.srep.midp - first.response.srep.radi, second.response.srep.midp + second.response.srep.radi)
  }

  /** The constructor panics unless the bounds conflict. */
  method NewViolation(first: Measurement, second: Measurement) returns (v: CausalityViolation)
    requires 0 <= Lower(first) && Upper(second) <= 0xffff_ffff_ffff_ffff && Lower(first) > Upper(second)
    ensures v.first == first && v.second == second
    ensures v.lower == first.response.srep.midp - first.response.srep.radi && v.upper == second.response.srep.midp + second.response.srep.radi
  {
    var lower: u64 := first.Midpoint() - first.Radius();
    var upper: u64 := second.Midpoint() + second.Radius();
    assert lower > upper;
    v := CausalityViolation(first, second, lower, upper);
  }

  /** The pairs are exactly the conflicts among those before (i, j) in dictionary order. */
  ghost predicate ListedBefore(ms: seq<Measurement>, pairs: seq<(int, int)>, i: int, j: int) {
    && Lexicographic(pairs)
    && (forall k :: 0 <= k < |pairs| ==> Precedes(pairs[k], i, j) && Conflict(ms, pairs[k].0, pairs[k].1))
    && (forall a, b :: Conflict(ms, a, b) && Precedes((a, b), i, j) ==> (a, b) in pairs)
  }

  predicate Precedes(pair: (int, int), i: int, j: int) {
    pair.0 < i || (pair.0 == i && pair.1 < j)
  }

  lemma ListConflict(ms: seq<Measurement>, pairs: seq<(int, int)>, i: int, j: int)
    requires ListedBefore(ms, pairs, i, j) && Conflict(ms, i, j)
    ensures ListedBefore(ms, pairs + [(i, j)], i, j + 1)
  {
    var longer := pairs + [(i, j)];
    assert longer[|pairs|] == (i, j);
    forall a, b | Conflict(ms, a, b) && Precedes((a, b), i, j + 1)
      ensures (a, b) in longer
    {
      assert (a, b) == (i, j) || Precedes((a, b), i, j);
    }
  }

  lemma SkipHarmless(ms: seq<Measurement>, pairs: seq<(int, int)>, i: int, j: int)
    requires ListedBefore(ms, pairs, i, j) && !Conflict(ms, i, j)
    ensures ListedBefore(ms, pairs, i, j + 1)
  {
    forall a, b | Conflict(ms, a, b) && Precedes((a, b), i, j + 1)
      ensures (a, b) in pairs
    {
      assert Precedes((a, b), i, j);
    }
  }

  /** A row of pairs ends where no later partner exists; the next row has none before i + 1. */
  lemma NextRow(ms: seq<Measurement>, pairs: seq<(int, int)>, i: int)
    requires ListedBefore(ms, pairs, i, |ms|)
    ensures ListedBefore(ms, pairs, i + 1, i + 2)
  {
  }

  lemma ListedAll(ms: seq<Measurement>, pairs: seq<(int, int)>)
    requires ListedBefore(ms, pairs, |ms|, |ms| + 1)
    ensures forall i, j :: Conflict(ms, i, j) ==> (i, j) in pairs
    ensures pairs == [] <==> Consistent(ms)
  {
    NoConflictMeansConsistent(ms);
    forall i, j | Conflict(ms, i, j)
      ensures (i, j) in pairs
    {
      assert Precedes((i, j), |ms|, |ms| + 1);
    }
    if pairs != [] {
      assert Conflict(ms, pairs[0].0, pairs[0].1);
    }
  }

  /** Reports every conflicting pair, in dictionary order, and nothing else. */
  method ValidateCausality(ms: seq<Measurement>) returns (violations: seq<CausalityViolation>, ghost pairs: seq<(int, int)>)
    requires Bounded(ms)
    ensures |violations| == |pairs| && Lexicographic(pairs)
    ensures forall k :: 0 <= k < |pairs| ==> Conflict(ms, pairs[k].0, pairs[k].1) && violations[k] == Reported(ms, pairs[k])
    ensures forall i, j :: Conflict(ms, i, j) ==> (i, j) in pairs
    ensures violations == [] <==> Consistent(ms)
  {
    violations, pairs := [], [];
    if |ms| < 2 {
      ListedAll(ms, pairs);
      return;
    }
    for i := 0 to |ms|
      invariant Reports(ms, pairs, violations) && ListedBefore(ms, pairs, i, i + 1)
    {
      violations, pairs := CheckRow(ms, i, violations, pairs);
      NextRow(ms, pairs, i);
    }
    ListedAll(ms, pairs);
  }

  ghost predicate Reports(ms: seq<Measurement>, pairs: seq<(int, int)>, violations: seq<CausalityViolation>)
    requires Bounded(ms)
  {
    && |violations| == |pairs|
    && forall k :: 0 <= k < |pairs| ==> Conflict(ms, pairs[k].0, pairs[k].1) && violations[k] == Reported(ms, pairs[k])
  }

  /** The inner loop: measurement i against all later ones. */
  method CheckRow(ms: seq<Measurement>, i: nat, before: seq<CausalityViolation>, ghost listed: seq<(int, int)>)
    returns (violations: seq<CausalityViolation>, ghost pairs: seq<(int, int)>)
    requires Bounded(ms) && i < |ms|
    requires Reports(ms, listed, before) && ListedBefore(ms, listed, i, i + 1)
    ensures Reports(ms, pairs, violations) && ListedBefore(ms, pairs, i, |ms|)
  {
    violations, pairs := before, listed;
    for j := i + 1 to |ms|
      invariant Reports(ms, pairs, violations) && ListedBefore(ms, pairs, i, j)
    {
      var lower: u64 := ms[i].Midpoint() - ms[i].Radius();
      var upper: u64 := ms[j].Midpoint() + ms[j].Radius();
      if lower > upper {
        var violation := NewViolation(ms[i], ms[j]);
        ListConflict(ms, pairs, i, j);
        ReportConflict(ms, pairs, violations, i, j);
        violations := violations + [violation];
        pairs := pairs + [(i, j)];
      } else {
        SkipHarmless(ms, pairs, i, j);
      }
    }
  }

  lemma ReportConflict(ms: seq<Measurement>, pairs: seq<(int, int)>, violations: seq<CausalityViolation>, i: int, j: int)
    requires Bounded(ms) && Reports(ms, pairs, violations) && Conflict(ms, i, j)
    ensures Reports(ms, pairs + [(i, j)], violations + [Reported(ms, (i, j))])
  {
  }

  /** Every interval measured by one client lies above every interval measured by another. */
  ghost predicate AlwaysAbove(ms: seq<Measurement>, late: KeyedClient, early: KeyedClient) {
    forall k, l {:trigger ms[k], ms[l]} ::
      0 <= k < |ms| && 0 <= l < |ms| && ms[k].client == late && ms[l].client == early ==> Lower(ms[k]) > Upper(ms[l])
  }

  lemma SecondRound(n: nat, a: nat, b: nat, rounds: nat)
    requires a < n && b < n && rounds >= 2
    ensures a % n == a && (n + b) % n == b && n + b < rounds * n
  {
    MerkleSpec.Quotient(a, n, 0, a);
    MerkleSpec.Quotient(n + b, n, 1, b);
    MulMonotone(2, rounds, n);
  }

  /** Measurement k was made by client k mod n. */
  ghost predicate InTurn(clients: seq<KeyedClient>, ms: seq<Measurement>)
    requires clients != []
  {
    forall k :: 0 <= k < |ms| ==> ms[k].client == clients[k % |clients|]
  }

  lemma {:induction false} RunsAreInTurn(suite: Suite, clients: seq<KeyedClient>, ms: seq<Measurement>)
    requires clients != [] && ChainedInRounds(LinkedWith(suite), clients, ms)
    ensures InTurn(clients, ms)
  {
    forall k | 0 <= k < |ms|
      ensures ms[k].client == clients[k % |clients|]
    {
      LinkAt(suite, clients, ms, k);
    }
  }

  /** Each client has its place in the first round and in the second. */
  lemma {:induction false} TurnsTwice(clients: seq<KeyedClient>, rounds: nat, ms: seq<Measurement>, a: nat, b: nat)
    requires a < |clients| && b < |clients| && rounds >= 2 && |ms| == rounds * |clients| && InTurn(clients, ms)
    ensures |clients| + b < |ms| && ms[a].client == clients[a] && ms[|clients| + b].client == clients[b]
  {
    SecondRound(|clients|, a, b, rounds);
  }

  lemma {:induction false} AboveConflicts(ms: seq<Measurement>, late: KeyedClient, early: KeyedClient, i: nat, j: nat)
    requires AlwaysAbove(ms, late, early) && i < j < |ms| && ms[i].client == late && ms[j].client == early
    ensures Conflict(ms, i, j) && !Consistent(ms)
  {
    assert Conflict(ms, i, j);
    NoConflictMeansConsistent(ms);
  }

  /**
    Two rounds detect two servers whose intervals are disjoint, whichever comes first in the list:
    in every successful run the first round's measurement of the one conflicts with the second
    round's of the other.
  */
  lemma {:induction false} TwoRoundsDetect(suite: Suite, clients: seq<KeyedClient>, rounds: nat, turns: seq<Turn>, ms: seq<Measurement>, a: nat, b: nat)
    requires rounds >= 2 && a < |clients| && b < |clients| && |turns| == |Rounds(clients, rounds)|
    requires RunAll(AskWith(suite), Rounds(clients, rounds), None, turns) == Ok(ms)
    requires AlwaysAbove(ms, clients[a], clients[b])
    ensures Conflict(ms, a, |clients| + b) && !Consistent(ms)
  {
    RunIsChained(suite, clients, rounds, turns, ms);
    RunsAreInTurn(suite, clients, ms);
    TurnsTwice(clients, rounds, ms, a, b);
    AboveConflicts(ms, clients[a], clients[b], a, |clients| + b);
  }

  /** So the check of such a run reports violations. */
  method CheckRun(ghost suite: Suite, ghost clients: seq<KeyedClient>, ghost rounds: nat, ghost turns: seq<Turn>, ms: seq<Measurement>)
    returns (violations: seq<CausalityViolation>)
    requires Bounded(ms) && rounds >= 2 && clients != [] && |turns| == |Rounds(clients, rounds)|
    requires RunAll(AskWith(suite), Rounds(clients, rounds), None, turns) == Ok(ms)
    ensures (exists a, b :: 0 <= a < |clients| && 0 <= b < |clients| && AlwaysAbove(ms, clients[a], clients[b])) ==> violations != []
    ensures violations == [] <==> Consistent(ms)
  {
    ghost var pairs;
    violations, pairs := ValidateCausality(ms);
    forall a, b | 0 <= a < |clients| && 0 <= b < |clients| && AlwaysAbove(ms, clients[a], clients[b])
      ensures violations != []
    {
      TwoRoundsDetect(suite, clients, rounds, turns, ms, a, b);
    }
  }

  /** One round is not enough: a late server asked last is not caught by one pass over the servers. */
  lemma OneRoundCanMiss(early: Measurement, late: Measurement)
    requires Lower(late) > Upper(early)
    ensures Consistent([early, late])
  {
    assert forall i, j :: !Conflict([early, late], i, j);
    NoConflictMeansConsistent([early, late]);
  }
}
