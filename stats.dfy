/**
 The cumulative per-domain counters of main.py (`domain_stats`) and the
 availability percentage computed from them.
 */
module Stats {
  import opened Probe

  /** One domain's entry of `domain_stats` (main.py:47-49): UP, DOWN and TOTAL counts. */
  datatype Counters = Counters(up: nat, down: nat, total: nat)

  /** `domain_stats[d]` of the defaultdict: a domain not yet stored reads as all zeros. */
  function Get(stats: map<string, Counters>, d: string): Counters
  {
    if d in stats then stats[d] else Counters(0, 0, 0)
  }

  /**
   main.py:87-89 for one endpoint whose domain is `d`: one more probe in the
   bucket of `result` and in TOTAL, and nothing else changes.
   */
  function Record(stats: map<string, Counters>, d: string, result: ResponseCode): (stats': map<string, Counters>)
    ensures stats'.Keys == stats.Keys + {d}
    ensures Get(stats', d).total == Get(stats, d).total + 1
    ensures Get(stats', d).up == Get(stats, d).up + (if result == UP then 1 else 0)
    ensures Get(stats', d).down == Get(stats, d).down + (if result == DOWN then 1 else 0)
    ensures forall e :: e != d ==> Get(stats', e) == Get(stats, e)
  {
    var c := Get(stats, d);
    stats[d := if result == UP then Counters(c.up + 1, c.down, c.total + 1)
               else Counters(c.up, c.down + 1, c.total + 1)]
  }

  /**
   main.py:85-89: one iteration's results, aligned with the endpoints whose
   domains are `keys`, recorded in endpoint order.
   */
  function Tally(stats: map<string, Counters>, keys: seq<string>, results: seq<ResponseCode>): map<string, Counters>
    requires |keys| == |results|
    decreases |keys|
  {
    if |keys| == 0 then stats
    else
      var n := |keys| - 1;
      Record(Tally(stats, keys[..n], results[..n]), keys[n], results[n])
  }

  /** How many endpoints of domain `d` returned `result`. */
  function Count(d: string, keys: seq<string>, results: seq<ResponseCode>, result: ResponseCode): nat
    requires |keys| == |results|
    decreases |keys|
  {
    if |keys| == 0 then 0
    else
      var n := |keys| - 1;
      Count(d, keys[..n], results[..n], result) + (if keys[n] == d && results[n] == result then 1 else 0)
  }

  /** How many endpoints have domain `d` (duplicate URLs counted separately). */
  function Occurrences(d: string, keys: seq<string>): nat
    decreases |keys|
  {
    if |keys| == 0 then 0
    else
      var n := |keys| - 1;
      Occurrences(d, keys[..n]) + (if keys[n] == d then 1 else 0)
  }

  /** Every endpoint of a domain is either UP or DOWN. */
  lemma {:induction false} CountsPartition(d: string, keys: seq<string>, results: seq<ResponseCode>)
    requires |keys| == |results|
    ensures Count(d, keys, results, UP) + Count(d, keys, results, DOWN) == Occurrences(d, keys)
    decreases |keys|
  {
    if |keys| > 0 {
      var n := |keys| - 1;
      CountsPartition(d, keys[..n], results[..n]);
    }
  }

  /** A domain occurs in the list exactly when it is counted at least once. */
  lemma {:induction false} OccurrencesPositive(d: string, keys: seq<string>)
    ensures Occurrences(d, keys) > 0 <==> d in keys
    decreases |keys|
  {
    if |keys| > 0 {
      var n := |keys| - 1;
      OccurrencesPositive(d, keys[..n]);
      assert keys == keys[..n] + [keys[n]];
    }
  }

  /** A result no endpoint of `d` returned is counted zero times. */
  lemma {:induction false} CountAbsent(d: string, keys: seq<string>, results: seq<ResponseCode>, result: ResponseCode)
    requires |keys| == |results|
    requires forall j :: 0 <= j < |keys| && keys[j] == d ==> results[j] != result
    ensures Count(d, keys, results, result) == 0
    decreases |keys|
  {
    if |keys| > 0 {
      var n := |keys| - 1;
      CountAbsent(d, keys[..n], results[..n], result);
    }
  }

  /**
   After an iteration each domain's counters have grown by exactly the
   number of its endpoints that were UP, DOWN, and in all.
   */
  lemma {:induction false} TallyCounts(stats: map<string, Counters>, keys: seq<string>, results: seq<ResponseCode>, d: string)
    requires |keys| == |results|
    ensures Get(Tally(stats, keys, results), d) == Counters(
      Get(stats, d).up + Count(d, keys, results, UP),
      Get(stats, d).down + Count(d, keys, results, DOWN),
      Get(stats, d).total + Occurrences(d, keys))
    decreases |keys|
  {
    if |keys| > 0 {
      var n := |keys| - 1;
      TallyCounts(stats, keys[..n], results[..n], d);
    }
  }

  /** The domains stored after an iteration: those stored before and those of the endpoints. */
  lemma {:induction false} TallyKeys(stats: map<string, Counters>, keys: seq<string>, results: seq<ResponseCode>)
    requires |keys| == |results|
    ensures forall d :: d in Tally(stats, keys, results) <==> d in stats || d in keys
    decreases |keys|
  {
    if |keys| > 0 {
      var n := |keys| - 1;
      TallyKeys(stats, keys[..n], results[..n]);
      assert keys == keys[..n] + [keys[n]];
    }
  }

  /** Counters never decrease from one iteration to the next. */
  lemma TallyGrows(stats: map<string, Counters>, keys: seq<string>, results: seq<ResponseCode>, d: string)
    requires |keys| == |results|
    ensures Get(stats, d).up <= Get(Tally(stats, keys, results), d).up
    ensures Get(stats, d).down <= Get(Tally(stats, keys, results), d).down
    ensures Get(stats, d).total < Get(Tally(stats, keys, results), d).total <==> d in keys
  {
    TallyCounts(stats, keys, results, d);
    OccurrencesPositive(d, keys);
  }

  /** UP + DOWN == TOTAL for every stored domain. */
  ghost predicate Balanced(stats: map<string, Counters>)
  {
    forall d :: d in stats ==> stats[d].up + stats[d].down == stats[d].total
  }

  /** An iteration keeps UP + DOWN == TOTAL. */
  lemma TallyBalanced(stats: map<string, Counters>, keys: seq<string>, results: seq<ResponseCode>)
    requires |keys| == |results| && Balanced(stats)
    ensures Balanced(Tally(stats, keys, results))
  {
    TallyKeys(stats, keys, results);
    forall d | d in Tally(stats, keys, results)
      ensures Get(Tally(stats, keys, results), d).up + Get(Tally(stats, keys, results), d).down
           == Get(Tally(stats, keys, results), d).total
    {
      TallyCounts(stats, keys, results, d);
      CountsPartition(d, keys, results);
    }
  }

  /** Every iteration of `history` has one result per endpoint. */
  ghost predicate Aligned(keys: seq<string>, history: seq<seq<ResponseCode>>)
  {
    forall k :: 0 <= k < |history| ==> |history[k]| == |keys|
  }

  /** `domain_stats` after the iterations of `history`, starting from the empty defaultdict. */
  function Replay(keys: seq<string>, history: seq<seq<ResponseCode>>): map<string, Counters>
    requires Aligned(keys, history)
    decreases |history|
  {
    if |history| == 0 then map[]
    else
      var n := |history| - 1;
      Tally(Replay(keys, history[..n]), keys, history[n])
  }

  /** How many probes of domain `d` over all of `history` returned `result`. */
  function CountAll(d: string, keys: seq<string>, history: seq<seq<ResponseCode>>, result: ResponseCode): nat
    requires Aligned(keys, history)
    decreases |history|
  {
    if |history| == 0 then 0
    else
      var n := |history| - 1;
      CountAll(d, keys, history[..n], result) + Count(d, keys, history[n], result)
  }

  /**
   After k iterations, a domain's TOTAL is k times its number of endpoints,
   and its UP and DOWN are the UP and DOWN results over all iterations.
   */
  lemma {:induction false} ReplayCounts(keys: seq<string>, history: seq<seq<ResponseCode>>, d: string)
    requires Aligned(keys, history)
    ensures Get(Replay(keys, history), d) == Counters(
      CountAll(d, keys, history, UP),
      CountAll(d, keys, history, DOWN),
      |history| * Occurrences(d, keys))
    decreases |history|
  {
    if |history| > 0 {
      var n := |history| - 1;
      var before := Replay(keys, history[..n]);
      ReplayCounts(keys, history[..n], d);
      TallyCounts(before, keys, history[n], d);
      assert Get(before, d).total == n * Occurrences(d, keys);
      SuccMul(n, Occurrences(d, keys));
    }
  }

  lemma SuccMul(n: nat, m: nat)
    ensures (n + 1) * m == n * m + m
  {
  }

  /** The stored domains are the endpoints' domains once an iteration has run, and none before. */
  lemma {:induction false} ReplayKeys(keys: seq<string>, history: seq<seq<ResponseCode>>)
    requires Aligned(keys, history)
    ensures forall d :: d in Replay(keys, history) <==> |history| > 0 && d in keys
    decreases |history|
  {
    if |history| > 0 {
      var n := |history| - 1;
      ReplayKeys(keys, history[..n]);
      TallyKeys(Replay(keys, history[..n]), keys, history[n]);
    }
  }

  /** UP + DOWN == TOTAL holds after every number of iterations. */
  lemma {:induction false} ReplayBalanced(keys: seq<string>, history: seq<seq<ResponseCode>>)
    requires Aligned(keys, history)
    ensures Balanced(Replay(keys, history))
    decreases |history|
  {
    if |history| > 0 {
      var n := |history| - 1;
      ReplayBalanced(keys, history[..n]);
      TallyBalanced(Replay(keys, history[..n]), keys, history[n]);
    }
  }

  /** A result that no probe of `d` ever returned is counted zero times over the history. */
  lemma {:induction false} CountAllAbsent(d: string, keys: seq<string>, history: seq<seq<ResponseCode>>, result: ResponseCode)
    requires Aligned(keys, history)
    requires forall k, j :: 0 <= k < |history| && 0 <= j < |keys| && keys[j] == d ==> history[k][j] != result
    ensures CountAll(d, keys, history, result) == 0
    decreases |history|
  {
    if |history| > 0 {
      var n := |history| - 1;
      CountAllAbsent(d, keys, history[..n], result);
      CountAbsent(d, keys, history[n], result);
    }
  }

  /**
   Python's `round(q / n)` for n > 0: `r` is the integer nearest to q / n,
   and of two equally near integers the even one. With e = q - r * n, the
   distance |q / n - r| is |e| / n.
   */
  ghost predicate RoundsTo(q: int, n: int, r: int)
    requires n > 0
  {
    var e := q - r * n;
    (-n < 2 * e < n) || ((2 * e == n || 2 * e == -n) && r % 2 == 0)
  }

  /** Round-half-to-even division of a natural number by a positive one. */
  function RoundHalfEven(q: nat, n: nat): (r: nat)
    requires n > 0
    ensures RoundsTo(q, n, r)
  {
    var floor := q / n;
    var rem := q % n;
    assert q - floor * n == rem;
    assert q - (floor + 1) * n == rem - n;
    if 2 * rem < n then floor
    else if 2 * rem > n then floor + 1
    else if floor % 2 == 0 then floor
    else floor + 1
  }

  /** A multiple of a positive n that lies within [-n, n] is -n, 0 or n. */
  lemma SmallMultiple(k: int, n: int)
    requires n > 0 && -n <= k * n <= n
    ensures -1 <= k <= 1
  {
    MulFar(k, n);
  }

  lemma MulFar(k: int, n: nat)
    ensures k >= 2 ==> k * n >= 2 * n
    ensures k <= -2 ==> k * n <= -2 * n
  {
    if k >= 2 {
      MulGrows(k - 2, n);
    } else if k <= -2 {
      MulGrows(-k - 2, n);
    }
  }

  lemma {:induction false} MulGrows(a: nat, n: nat)
    ensures a * n >= 0
  {
    if a > 0 {
      MulGrows(a - 1, n);
      assert a * n == (a - 1) * n + n;
    }
  }

  /** Only one integer is the rounded quotient. */
  lemma RoundsToUnique(q: int, n: int, r1: int, r2: int)
    requires n > 0 && RoundsTo(q, n, r1) && RoundsTo(q, n, r2)
    ensures r1 == r2
  {
    var e1, e2 := q - r1 * n, q - r2 * n;
    assert e1 - e2 == (r2 - r1) * n;
    SmallMultiple(r2 - r1, n);
  }

  /** main.py:93: `round(100 * UP / TOTAL)`, the availability percentage of one domain. */
  function Availability(c: Counters): nat
    requires c.total > 0
  {
    RoundHalfEven(100 * c.up, c.total)
  }

  /** Ties go to the even neighbour: 12.5% shows as 12 and 37.5% as 38. */
  lemma RoundingTies()
    ensures Availability(Counters(1, 7, 8)) == 12
    ensures Availability(Counters(3, 5, 8)) == 38
  {
  }

  /** A rounded quotient of q <= bound * n is at most bound. */
  lemma RoundsToAtMost(q: int, n: int, r: int, bound: int)
    requires n > 0 && RoundsTo(q, n, r) && q <= bound * n
    ensures r <= bound
  {
    if r > bound {
      assert q - r * n <= (bound - r) * n;
      SmallMultiple(bound - r, n);
      assert false;
    }
  }

  /**
   Availability is a percentage between 0 and 100: 100 when every probe was
   UP and 0 when none was.
   */
  lemma AvailabilityBounds(c: Counters)
    requires c.total > 0 && c.up <= c.total
    ensures Availability(c) <= 100
    ensures c.up == c.total ==> Availability(c) == 100
    ensures c.up == 0 ==> Availability(c) == 0
  {
    var r := Availability(c);
    var n := c.total;
    var q := 100 * c.up;
    RoundsToAtMost(q, n, r, 100);
    if c.up == c.total {
      assert RoundsTo(q, n, 100);
      RoundsToUnique(q, n, r, 100);
    }
    if c.up == 0 {
      assert RoundsTo(q, n, 0);
      RoundsToUnique(q, n, r, 0);
    }
  }

  /**
   A domain whose every probe in every iteration so far was UP shows 100,
   and one whose every probe was DOWN shows 0.
   */
  lemma AvailabilityExtremes(keys: seq<string>, history: seq<seq<ResponseCode>>, d: string)
    requires Aligned(keys, history) && |history| > 0 && d in keys
    ensures Get(Replay(keys, history), d).total > 0
    ensures (forall k, j :: 0 <= k < |history| && 0 <= j < |keys| && keys[j] == d ==> history[k][j] == UP)
            ==> Availability(Get(Replay(keys, history), d)) == 100
    ensures (forall k, j :: 0 <= k < |history| && 0 <= j < |keys| && keys[j] == d ==> history[k][j] == DOWN)
            ==> Availability(Get(Replay(keys, history), d)) == 0
  {
    ReplayCounts(keys, history, d);
    ReplayKeys(keys, history);
    ReplayBalanced(keys, history);
    OccurrencesPositive(d, keys);
    var c := Get(Replay(keys, history), d);
    assert c.total == |history| * Occurrences(d, keys);
    MulPositive(|history|, Occurrences(d, keys));
    if forall k, j :: 0 <= k < |history| && 0 <= j < |keys| && keys[j] == d ==> history[k][j] == UP {
      CountAllAbsent(d, keys, history, DOWN);
      AvailabilityBounds(c);
    }
    if forall k, j :: 0 <= k < |history| && 0 <= j < |keys| && keys[j] == d ==> history[k][j] == DOWN {
      CountAllAbsent(d, keys, history, UP);
      AvailabilityBounds(c);
    }
  }

  lemma MulPositive(a: nat, b: nat)
    requires a > 0 && b > 0
    ensures a * b > 0
  {
  }
}
