/**
 The state of main.py's `monitor_endpoints` and one pass of its loop: the
 probe results are stored in endpoint order, counted into the cumulative
 per-domain counters, and every domain's availability is recomputed.
 */
module Monitoring {
  import opened Wrappers
  import opened Probe
  import opened Stats
  import Domains
  import Report

  /** `urls_to_domains[endpoint["url"]]` for every configuration entry, in order. */
  function DomainKeys(urls: seq<string>, urlsToDomains: map<string, string>): (keys: seq<string>)
    requires forall i :: 0 <= i < |urls| ==> urls[i] in urlsToDomains
    ensures |keys| == |urls|
    ensures forall i :: 0 <= i < |urls| ==> keys[i] == urlsToDomains[urls[i]]
  {
    seq(|urls|, i requires 0 <= i < |urls| => urlsToDomains[urls[i]])
  }

  /** The endpoints' domains are exactly the sorted domains of the extraction. */
  lemma KeysAreDomains(urls: seq<string>, urlsToDomains: map<string, string>, domains: seq<string>)
    requires Domains.IsExtraction(urls, urlsToDomains, domains)
    ensures forall i :: 0 <= i < |urls| ==> urls[i] in urlsToDomains
    ensures forall d :: d in DomainKeys(urls, urlsToDomains) <==> d in domains
  {
    assert forall i :: 0 <= i < |urls| ==> urls[i] in urls;
    var keys := DomainKeys(urls, urlsToDomains);
    forall d | d in domains ensures d in keys {
      var u :| u in urlsToDomains && urlsToDomains[u] == d;
      var i :| 0 <= i < |urls| && urls[i] == u;
      assert keys[i] == d;
    }
    forall d | d in keys ensures d in domains {
      var i :| 0 <= i < |keys| && keys[i] == d;
      assert urlsToDomains[urls[i]] in urlsToDomains.Values;
    }
  }

  /**
   main.py:78-82 with main.py:35-42: the result of every endpoint, in
   endpoint order; endpoint i is UP exactly when its probe got a 2xx status.
   */
  function Classified(outcomes: seq<Outcome>): (results: seq<ResponseCode>)
    ensures |results| == |outcomes|
    ensures forall i :: 0 <= i < |outcomes| ==>
              (results[i] == UP <==> outcomes[i].Status? && 200 <= outcomes[i].code < 300)
    ensures forall i :: 0 <= i < |outcomes| ==>
              (results[i] == DOWN <==> !outcomes[i].Status? || outcomes[i].code < 200 || 300 <= outcomes[i].code)
  {
    seq(|outcomes|, i requires 0 <= i < |outcomes| => Classify(outcomes[i]))
  }

  /**
   The invariant of the monitoring state, for endpoints whose domains are
   `keys`: the sorted domains are the endpoints' domains, the counters are
   those of the iterations so far, and each domain's availability is that of
   its counters (`None` before the first iteration).
   */
  ghost predicate Consistent(keys: seq<string>, sortedDomains: seq<string>, history: seq<seq<ResponseCode>>,
                             iteration: nat, domainStats: map<string, Counters>, availabilities: map<string, Option<nat>>)
  {
    && (forall d :: d in keys <==> d in sortedDomains)
    && Aligned(keys, history)
    && iteration == |history|
    && domainStats == Replay(keys, history)
    && (forall d :: d in availabilities <==> d in sortedDomains)
    && (iteration == 0 ==> forall d :: d in availabilities ==> availabilities[d] == None)
    && (iteration > 0 ==> forall d :: d in availabilities ==>
          Get(domainStats, d).total > 0 && availabilities[d] == Some(Availability(Get(domainStats, d))))
  }

  /** main.py:58: every domain, with no availability yet. */
  function Unset(domains: seq<string>): (availabilities: map<string, Option<nat>>)
    ensures forall d :: d in availabilities <==> d in domains
    ensures forall d :: d in availabilities ==> availabilities[d] == None
  {
    map d | d in domains :: None
  }

  lemma InitConsistent(keys: seq<string>, sortedDomains: seq<string>)
    requires forall d :: d in keys <==> d in sortedDomains
    ensures Consistent(keys, sortedDomains, [], 0, map[], Unset(sortedDomains))
  {
  }

  /**
   Counting one more iteration's results stores exactly the sorted domains,
   each with a positive TOTAL.
   */
  lemma StepCounters(keys: seq<string>, sortedDomains: seq<string>, history: seq<seq<ResponseCode>>, iteration: nat,
                     before: map<string, Counters>, availabilities: map<string, Option<nat>>,
                     results: seq<ResponseCode>, after: map<string, Counters>)
    requires Consistent(keys, sortedDomains, history, iteration, before, availabilities)
    requires |results| == |keys| && after == Tally(before, keys, results)
    ensures forall d :: d in after <==> d in sortedDomains
    ensures forall d :: d in after ==> after[d].total > 0
  {
    StepTotals(keys, history, results);
  }

  /** Storing the availabilities of the counters after one more iteration restores the invariant. */
  lemma StepConsistent(keys: seq<string>, sortedDomains: seq<string>, history: seq<seq<ResponseCode>>, iteration: nat,
                       stats: map<string, Counters>, availabilities: map<string, Option<nat>>,
                       results: seq<ResponseCode>, history': seq<seq<ResponseCode>>, iteration': nat,
                       stats': map<string, Counters>, availabilities': map<string, Option<nat>>)
    requires Consistent(keys, sortedDomains, history, iteration, stats, availabilities)
    requires history' == history + [results] && iteration' == iteration + 1
    requires |results| == |keys| && stats' == Tally(stats, keys, results)
    requires forall d :: d in stats' ==> stats'[d].total > 0
    requires availabilities' == Recomputed(availabilities, stats')
    ensures Consistent(keys, sortedDomains, history', iteration', stats', availabilities')
  {
    StepTotals(keys, history, results);
    assert forall d :: d in stats' <==> d in sortedDomains;
    forall d | d in availabilities'
      ensures Get(stats', d).total > 0 && availabilities'[d] == Some(Availability(Get(stats', d)))
    {
      assert d in stats';
    }
  }

  /**
   main.py:92-94: `availabilities` after every stored domain's availability
   is recomputed from its counters; entries of other domains are kept.
   */
  function Recomputed(availabilities: map<string, Option<nat>>, stats: map<string, Counters>): map<string, Option<nat>>
    requires forall d :: d in stats ==> stats[d].total > 0
  {
    map d | d in availabilities.Keys + stats.Keys :: if d in stats then Some(Availability(stats[d])) else availabilities[d]
  }

  /**
   The recomputed availabilities: every stored domain gets the percentage of
   its counters, between 0 and 100, and every other entry is kept.
   */
  lemma RecomputedEntries(availabilities: map<string, Option<nat>>, stats: map<string, Counters>)
    requires forall d :: d in stats ==> stats[d].total > 0 && stats[d].up <= stats[d].total
    ensures forall d :: d in Recomputed(availabilities, stats) <==> d in availabilities || d in stats
    ensures forall d :: d in stats ==>
              Recomputed(availabilities, stats)[d] == Some(Availability(stats[d])) && Availability(stats[d]) <= 100
    ensures forall d :: d in availabilities && d !in stats ==> Recomputed(availabilities, stats)[d] == availabilities[d]
  {
    forall d | d in stats ensures Availability(stats[d]) <= 100 {
      AvailabilityBounds(stats[d]);
    }
  }

  /**
   After one more iteration every domain of the configuration is stored
   with a positive TOTAL, and no other domain is stored.
   */
  lemma StepTotals(keys: seq<string>, history: seq<seq<ResponseCode>>, results: seq<ResponseCode>)
    requires Aligned(keys, history) && |results| == |keys|
    ensures Aligned(keys, history + [results])
    ensures Replay(keys, history + [results]) == Tally(Replay(keys, history), keys, results)
    ensures forall d :: d in Replay(keys, history + [results]) <==> d in keys
    ensures forall d :: d in Replay(keys, history + [results]) ==> Replay(keys, history + [results])[d].total > 0
  {
    var history' := history + [results];
    assert history'[..|history|] == history;
    ReplayKeys(keys, history');
    forall d | d in Replay(keys, history') ensures Replay(keys, history')[d].total > 0 {
      ReplayCounts(keys, history', d);
      OccurrencesPositive(d, keys);
      MulPositive(|history'|, Occurrences(d, keys));
    }
  }

  /**
   The counters of a consistent state: UP + DOWN == TOTAL for every stored
   domain, and after k iterations a domain's TOTAL is k times the number of
   configuration entries of that domain.
   */
  lemma CountersAfter(keys: seq<string>, sortedDomains: seq<string>, history: seq<seq<ResponseCode>>,
                      iteration: nat, domainStats: map<string, Counters>, availabilities: map<string, Option<nat>>)
    requires Consistent(keys, sortedDomains, history, iteration, domainStats, availabilities)
    ensures forall d :: d in domainStats ==> domainStats[d].up + domainStats[d].down == domainStats[d].total
    ensures forall d :: Get(domainStats, d).total == iteration * Occurrences(d, keys)
  {
    ReplayBalanced(keys, history);
    forall d ensures Get(domainStats, d).total == iteration * Occurrences(d, keys) {
      ReplayCounts(keys, history, d);
    }
  }

  /**
   Once an iteration has run, every sorted domain has an availability, that
   of its counters, and it lies between 0 and 100.
   */
  lemma ReportReady(keys: seq<string>, sortedDomains: seq<string>, history: seq<seq<ResponseCode>>,
                    iteration: nat, domainStats: map<string, Counters>, availabilities: map<string, Option<nat>>)
    requires Consistent(keys, sortedDomains, history, iteration, domainStats, availabilities) && iteration > 0
    ensures forall i :: 0 <= i < |sortedDomains| ==>
              && sortedDomains[i] in availabilities
              && Get(domainStats, sortedDomains[i]).total > 0
              && availabilities[sortedDomains[i]] == Some(Availability(Get(domainStats, sortedDomains[i])))
              && Availability(Get(domainStats, sortedDomains[i])) <= 100
  {
    ReplayBalanced(keys, history);
    forall i | 0 <= i < |sortedDomains|
      ensures Get(domainStats, sortedDomains[i]).total > 0
      ensures Availability(Get(domainStats, sortedDomains[i])) <= 100
    {
      var d := sortedDomains[i];
      assert d in availabilities;
      AvailabilityBounds(Get(domainStats, d));
    }
  }

  /**
   main.py:52-58: the extraction of the configuration's domains, the length
   of the longest one and the availabilities before any iteration.
   */
  method Setup(config: seq<string>)
    returns (urlsToDomains: map<string, string>, sortedDomains: seq<string>, longest: nat,
             availabilities: map<string, Option<nat>>, ghost keys: seq<string>)
    requires config != []
    ensures Domains.IsExtraction(config, urlsToDomains, sortedDomains)
    ensures forall i :: 0 <= i < |config| ==> config[i] in urlsToDomains
    ensures keys == DomainKeys(config, urlsToDomains)
    ensures Report.Longest(sortedDomains) == Some(longest)
    ensures Consistent(keys, sortedDomains, [], 0, map[], availabilities)
  {
    urlsToDomains, sortedDomains := Domains.ExtractDomains(config);
    InitFacts(config, urlsToDomains, sortedDomains);
    keys := DomainKeys(config, urlsToDomains);
    longest := Report.Longest(sortedDomains).value;
    availabilities := Unset(sortedDomains);
  }

  lemma InitFacts(config: seq<string>, urlsToDomains: map<string, string>, sortedDomains: seq<string>)
    requires config != [] && Domains.IsExtraction(config, urlsToDomains, sortedDomains)
    ensures forall i :: 0 <= i < |config| ==> config[i] in urlsToDomains
    ensures sortedDomains != []
    ensures Consistent(DomainKeys(config, urlsToDomains), sortedDomains, [], 0, map[], Unset(sortedDomains))
  {
    KeysAreDomains(config, urlsToDomains, sortedDomains);
    assert DomainKeys(config, urlsToDomains)[0] in sortedDomains;
    InitConsistent(DomainKeys(config, urlsToDomains), sortedDomains);
  }

  /** Once an iteration has run, every line of the table has its bar in the same column. */
  lemma TableReady(keys: seq<string>, sortedDomains: seq<string>, history: seq<seq<ResponseCode>>, iteration: nat,
                   domainStats: map<string, Counters>, availabilities: map<string, Option<nat>>, longest: nat)
    requires Consistent(keys, sortedDomains, history, iteration, domainStats, availabilities) && iteration > 0
    requires Report.Longest(sortedDomains) == Some(longest)
    ensures forall i :: 0 <= i < |sortedDomains| ==> sortedDomains[i] in availabilities
    ensures var lines := Report.Table(longest, availabilities, sortedDomains);
            forall k :: 0 <= k < |lines| ==>
              |lines[k]| == Report.Width(longest) + 15 && lines[k][Report.Width(longest) + 1] == '|'
  {
    ReportReady(keys, sortedDomains, history, iteration, domainStats, availabilities);
    Report.LongestIsMax(sortedDomains);
    Report.TableAligned(longest, availabilities, sortedDomains);
  }

  /** The report fields of the sorted domains, once each holds its counters' availability. */
  lemma CsvFields(fields: seq<string>, sortedDomains: seq<string>,
                  domainStats: map<string, Counters>, availabilities: map<string, Option<nat>>)
    requires |fields| == |sortedDomains| + 2
    requires forall i :: 0 <= i < |sortedDomains| ==>
               && sortedDomains[i] in availabilities
               && Get(domainStats, sortedDomains[i]).total > 0
               && availabilities[sortedDomains[i]] == Some(Availability(Get(domainStats, sortedDomains[i])))
    requires forall k :: 2 <= k < |fields| ==>
               && Report.CsvHeader(sortedDomains)[k] in availabilities
               && fields[k] == Report.Percent(availabilities[Report.CsvHeader(sortedDomains)[k]])
    ensures forall i :: 0 <= i < |sortedDomains| ==>
              fields[i + 2] == Report.Percent(Some(Availability(Get(domainStats, sortedDomains[i]))))
    ensures forall i :: 0 <= i < |sortedDomains| ==>
              Report.ReadPercent(fields[i + 2]) == Some(Availability(Get(domainStats, sortedDomains[i])))
  {
    forall i | 0 <= i < |sortedDomains|
      ensures fields[i + 2] == Report.Percent(Some(Availability(Get(domainStats, sortedDomains[i]))))
      ensures Report.ReadPercent(fields[i + 2]) == Some(Availability(Get(domainStats, sortedDomains[i])))
    {
      var d := sortedDomains[i];
      assert Report.CsvHeader(sortedDomains)[i + 2] == d;
      Report.PercentRoundTrip(availabilities[d]);
    }
  }

  /**
   What the monitoring state fixes once and for all: every endpoint has a
   domain, `keys` lists them in endpoint order, there is one result slot per
   endpoint and `longest` is the length of the longest domain.
   */
  ghost predicate Wired(urls: seq<string>, urlsToDomains: map<string, string>, keys: seq<string>,
                        slots: nat, sortedDomains: seq<string>, longest: nat)
  {
    && (forall i :: 0 <= i < |urls| ==> urls[i] in urlsToDomains)
    && keys == DomainKeys(urls, urlsToDomains)
    && slots == |urls|
    && Report.Longest(sortedDomains) == Some(longest)
  }

  class Monitor {
    /** The `url` of every configuration entry, in order (main.py:46, 52). */
    const urls: seq<string>
    /** The result of `extract_domains` (main.py:56). */
    const urlsToDomains: map<string, string>
    const sortedDomains: seq<string>
    /** `size_longest_domain` (main.py:57). */
    const longest: nat
    /** `response_codes` (main.py:53): one slot per configuration entry, `None` until filled. */
    const responseCodes: array<Option<ResponseCode>>
    /** `domain_stats` (main.py:47-49). */
    var domainStats: map<string, Counters>
    /** `availabilities` (main.py:58): one entry per domain, `None` before the first iteration. */
    var availabilities: map<string, Option<nat>>
    var iteration: nat
    /** The domain of every configuration entry, in order. */
    ghost const keys: seq<string>
    /** The results of every iteration so far, in order. */
    ghost var history: seq<seq<ResponseCode>>

    ghost predicate Valid()
      reads this
    {
      && Wired(urls, urlsToDomains, keys, responseCodes.Length, sortedDomains, longest)
      && Consistent(keys, sortedDomains, history, iteration, domainStats, availabilities)
    }

    /**
     main.py:46-59: the state before the first iteration. An empty
     configuration makes `max` raise at main.py:57.
     */
    constructor (config: seq<string>)
      requires config != []
      ensures Valid() && fresh(responseCodes)
      ensures urls == config && iteration == 0 && history == [] && domainStats == map[]
      ensures forall i :: 0 <= i < responseCodes.Length ==> responseCodes[i] == None
      ensures Domains.IsExtraction(config, urlsToDomains, sortedDomains)
    {
      var m, ds, size, none, ks := Setup(config);
      urls, urlsToDomains, sortedDomains, longest := config, m, ds, size;
      responseCodes := new Option<ResponseCode>[|config|](_ => None);
      keys := ks;
      domainStats, availabilities, iteration := map[], none, 0;
      history := [];
    }

    /**
     main.py:76-82: the result of endpoint i is stored in slot i, whatever
     order the probes finish in.
     */
    method Collect(outcomes: seq<Outcome>)
      requires |outcomes| == responseCodes.Length
      modifies responseCodes
      ensures forall i :: 0 <= i < responseCodes.Length ==> responseCodes[i] == Some(Classify(outcomes[i]))
    {
      var i := 0;
      while i < |outcomes|
        invariant 0 <= i <= |outcomes|
        invariant forall j :: 0 <= j < i ==> responseCodes[j] == Some(Classify(outcomes[j]))
      {
        responseCodes[i] := Some(Classify(outcomes[i]));
        i := i + 1;
      }
    }

    /** main.py:85-89: count every endpoint's result into its domain's counters. */
    method CountResults(ghost results: seq<ResponseCode>)
      requires forall i :: 0 <= i < |urls| ==> urls[i] in urlsToDomains
      requires responseCodes.Length == |urls| == |results|
      requires forall i :: 0 <= i < |urls| ==> responseCodes[i] == Some(results[i])
      modifies this`domainStats
      ensures domainStats == Tally(old(domainStats), DomainKeys(urls, urlsToDomains), results)
    {
      ghost var keys := DomainKeys(urls, urlsToDomains);
      var i := 0;
      while i < |urls|
        invariant 0 <= i <= |urls|
        invariant domainStats == Tally(old(domainStats), keys[..i], results[..i])
      {
        var result := responseCodes[i].value;
        var domain := urlsToDomains[urls[i]];
        var stats := Get(domainStats, domain);
        stats := if result == UP then stats.(up := stats.up + 1) else stats.(down := stats.down + 1);
        stats := stats.(total := stats.total + 1);
        domainStats := domainStats[domain := stats];
        assert keys[..i + 1][..i] == keys[..i] && results[..i + 1][..i] == results[..i];
        i := i + 1;
      }
      assert keys[..i] == keys && results[..i] == results;
    }

    /** main.py:92-94: recompute the availability of every stored domain. */
    method ComputeAvailabilities()
      requires forall d :: d in domainStats ==> domainStats[d].total > 0
      modifies this`availabilities
      ensures availabilities == Recomputed(old(availabilities), domainStats)
    {
      var pending := domainStats.Keys;
      while pending != {}
        invariant pending <= domainStats.Keys
        invariant forall d :: d in availabilities <==> d in old(availabilities) || d in domainStats.Keys - pending
        invariant forall d :: d in domainStats.Keys - pending ==> availabilities[d] == Some(Availability(domainStats[d]))
        invariant forall d :: d in old(availabilities) && d !in domainStats.Keys - pending ==> availabilities[d] == old(availabilities)[d]
        decreases pending
      {
        var domain :| domain in pending;
        availabilities := availabilities[domain := Some(Availability(domainStats[domain]))];
        pending := pending - {domain};
      }
      assert availabilities == Recomputed(old(availabilities), domainStats);
    }

    /**
     One pass of the loop of main.py:69-94: probe every endpoint, count the
     results, recompute the availabilities. The counters are those of all
     iterations so far, and every domain's availability is that of its counters.
     */
    method Iterate(outcomes: seq<Outcome>)
      requires Valid() && |outcomes| == |urls|
      modifies this`domainStats, this`availabilities, this`iteration, this`history, responseCodes
      ensures Valid()
      ensures iteration == old(iteration) + 1
      ensures history == old(history) + [Classified(outcomes)]
      ensures domainStats == Tally(old(domainStats), keys, Classified(outcomes))
      ensures forall d :: d in domainStats <==> d in sortedDomains
      ensures forall i :: 0 <= i < responseCodes.Length ==> responseCodes[i] == Some(Classify(outcomes[i]))
    {
      ghost var stats, before, results := domainStats, availabilities, Classified(outcomes);
      ghost var history0, iteration0 := history, iteration;
      Collect(outcomes);
      CountResults(results);
      StepCounters(keys, sortedDomains, history, iteration, stats, before, results, domainStats);
      ComputeAvailabilities();
      iteration := iteration + 1;
      history := history + [results];
      StepConsistent(keys, sortedDomains, history0, iteration0, stats, before, results,
                     history, iteration, domainStats, availabilities);
      assert Wired(urls, urlsToDomains, keys, responseCodes.Length, sortedDomains, longest);
    }

    /**
     main.py:103, 128-150: the table of an iteration, its first column as
     wide as the longest domain (and `Domain`), every line with its bar in
     that column.
     */
    method Table() returns (lines: seq<string>)
      requires Valid() && iteration > 0
      ensures lines == Report.Table(longest, availabilities, sortedDomains)
      ensures forall k :: 0 <= k < |lines| ==>
                |lines[k]| == Report.Width(longest) + 15 && lines[k][Report.Width(longest) + 1] == '|'
    {
      TableReady(keys, sortedDomains, history, iteration, domainStats, availabilities, longest);
      lines := Report.Table(longest, availabilities, sortedDomains);
    }

    /**
     main.py:105, 163-169: the report row of an iteration: the iteration, the
     time and, under each domain's column, the availability of that domain's
     counters.
     */
    method CsvRow(time: string) returns (fields: seq<string>)
      requires Valid() && iteration > 0
      ensures |fields| == |sortedDomains| + 2 && fields[0] == Report.NatToString(iteration) && fields[1] == time
      ensures forall i :: 0 <= i < |sortedDomains| ==>
                fields[i + 2] == Report.Percent(Some(Availability(Get(domainStats, sortedDomains[i]))))
      ensures forall i :: 0 <= i < |sortedDomains| ==>
                Report.ReadPercent(fields[i + 2]) == Some(Availability(Get(domainStats, sortedDomains[i])))
    {
      ReportReady(keys, sortedDomains, history, iteration, domainStats, availabilities);
      fields := Report.CsvRow(iteration, time, availabilities, sortedDomains);
      CsvFields(fields, sortedDomains, domainStats, availabilities);
    }
  }
}
