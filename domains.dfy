/**
 Domain extraction of main.py (`extract_domains`): every configured URL is
 reduced to the last two dot-separated labels of its hostname, and the
 distinct domains are sorted.
 */
module Domains {
  import opened PyStr

  /** `url.split("//")[-1]`: the text after the last "//" cut (left-most, non-overlapping cuts). */
  function AfterScheme(url: string): string
  {
    Last(Split(url, "//"))
  }

  /**
   What is left after the scheme is the end of the URL and holds no "//";
   it is the whole URL or a "//" comes right before it.
   */
  lemma AfterSchemeShape(url: string)
    ensures IsSuffix(AfterScheme(url), url) && !Occurs("//", AfterScheme(url))
    ensures AfterScheme(url) == url || IsSuffix("//" + AfterScheme(url), url)
  {
    SplitLast(url, "//");
    SplitPiecesFree(url, "//");
  }

  /** With no "//" in the URL there is no scheme to drop: all of it is kept. */
  lemma AfterSchemeWhole(url: string)
    requires !Occurs("//", url)
    ensures AfterScheme(url) == url
  {
    SplitAbsent(url, "//");
  }

  /**
   The first cut is the left-most "//": when `p` followed by one "/" holds
   no "//", dropping `p + "//"` leaves the same text after the scheme.
   With `AfterSchemeWhole` this determines `AfterScheme` on every URL.
   */
  lemma AfterSchemeCut(p: string, t: string)
    requires !Occurs("//", p + "/")
    ensures AfterScheme(p + "//" + t) == AfterScheme(t)
  {
    assert "//"[..1] == "/";
    SplitAfterPiece(p, "//", t);
  }

  /** A run of three slashes is cut at its first two: "a///b" keeps "/b". */
  lemma AfterSchemeTripleSlash()
    ensures AfterScheme("a///b") == "/b"
  {
    assert "a///b" == "a" + "//" + "/b";
    assert "a" + "/" == "a/";
    PairAbsent('/', "a/");
    AfterSchemeCut("a", "/b");
    assert "/b"[..2] == "/b" && "/b"[1..] == "b";
    AfterSchemeWhole("/b");
  }

  /** A "//" in the path cuts again: "http://a.com//x" keeps "x". */
  lemma AfterSchemeSecondCut()
    ensures AfterScheme("http://a.com//x") == "x"
  {
    assert "http://a.com//x" == "http:" + "//" + "a.com//x";
    assert "http:" + "/" == "http:/";
    PairAbsent('/', "http:/");
    AfterSchemeCut("http:", "a.com//x");
    AfterSchemeOneCut();
  }

  /** The step of `AfterSchemeSecondCut` after its first cut. */
  lemma AfterSchemeOneCut()
    ensures AfterScheme("a.com//x") == "x"
  {
    assert "a.com//x" == "a.com" + "//" + "x";
    assert "a.com" + "/" == "a.com/";
    PairAbsent('/', "a.com/");
    AfterSchemeCut("a.com", "x");
    AfterSchemeWhole("x");
  }

  /** `s.split(c)[0]`: the text before the first `c`, or all of `s` when there is none. */
  function CutAtFirst(s: string, c: char): string
  {
    Split(s, [c])[0]
  }

  /** The cut is the beginning of `s`, holds no `c`, and is all of `s` or followed by `c`. */
  lemma CutAtFirstShape(s: string, c: char)
    ensures IsPrefix(CutAtFirst(s, c), s) && c !in CutAtFirst(s, c)
    ensures CutAtFirst(s, c) == s || s[|CutAtFirst(s, c)|] == c
  {
    SplitFirst(s, [c]);
    SplitPiecesFree(s, [c]);
    OccursChar(c, Split(s, [c])[0]);
  }

  /** The hostname of main.py:115: after the scheme, before the first "/", before the first ":". */
  function Hostname(url: string): string
  {
    CutAtFirst(CutAtFirst(AfterScheme(url), '/'), ':')
  }

  /**
   A hostname holds neither "/" nor ":", it is the beginning of the text
   after the scheme, and it ends there or at the first "/" or ":".
   */
  lemma HostnameShape(url: string)
    ensures '/' !in Hostname(url) && ':' !in Hostname(url)
    ensures IsPrefix(Hostname(url), AfterScheme(url))
    ensures Hostname(url) == AfterScheme(url)
         || (|Hostname(url)| < |AfterScheme(url)|
             && (AfterScheme(url)[|Hostname(url)|] == '/' || AfterScheme(url)[|Hostname(url)|] == ':'))
  {
    var rest := AfterScheme(url);
    var path := CutAtFirst(rest, '/');
    CutAtFirstShape(rest, '/');
    CutAtFirstShape(path, ':');
    var host := Hostname(url);
    assert rest[..|host|] == path[..|host|];
    if host != rest {
      if host == path {
        assert path != rest;
        assert rest[|host|] == '/';
      } else {
        assert rest[|host|] == path[|host|] == ':';
      }
    }
  }

  /** Python's `labels[-2:]`. */
  function LastTwo(labels: seq<string>): seq<string>
  {
    if |labels| <= 2 then labels else labels[|labels| - 2..]
  }

  /** The kept labels are the last two, or all of them when there are fewer. */
  lemma LastTwoShape(labels: seq<string>)
    ensures |LastTwo(labels)| == if |labels| < 2 then |labels| else 2
    ensures LastTwo(labels) == labels[|labels| - |LastTwo(labels)|..]
  {
  }

  /**
   The domain of main.py:117: the hostname's last two labels (fewer when it
   has fewer), joined by ".".
   */
  function DomainOf(url: string): string
  {
    Join(LastTwo(Split(Hostname(url), ".")), ".")
  }

  /**
   The domain is made of the last two labels of the hostname (or of all of
   them when there are fewer), so it has at most one dot; it is a suffix of
   the hostname and has neither "/" nor ":".
   */
  lemma DomainOfShape(url: string)
    ensures Split(DomainOf(url), ".") == LastTwo(Split(Hostname(url), "."))
    ensures IsSuffix(DomainOf(url), Hostname(url))
    ensures multiset(DomainOf(url))['.'] <= 1
    ensures '.' in Hostname(url) <==> '.' in DomainOf(url)
    ensures '.' !in Hostname(url) ==> DomainOf(url) == Hostname(url)
    ensures '/' !in DomainOf(url) && ':' !in DomainOf(url)
  {
    var host := Hostname(url);
    var kept := LastTwo(Split(host, "."));
    HostnameShape(url);
    DomainShape(host, Split(host, "."), kept);
    SuffixAbsent(Join(kept, "."), host, '/');
    SuffixAbsent(Join(kept, "."), host, ':');
  }

  /** No label of a hostname contains a dot. */
  lemma LabelsDotFree(host: string)
    ensures forall k :: 0 <= k < |Split(host, ".")| ==> '.' !in Split(host, ".")[k]
  {
    var labels := Split(host, ".");
    SplitPiecesFree(host, ".");
    forall k | 0 <= k < |labels| ensures '.' !in labels[k] {
      OccursChar('.', labels[k]);
    }
  }

  lemma DomainShape(host: string, labels: seq<string>, kept: seq<string>)
    requires labels == Split(host, ".") && kept == LastTwo(labels)
    ensures Split(Join(kept, "."), ".") == kept
    ensures IsSuffix(Join(kept, "."), host)
    ensures multiset(Join(kept, "."))['.'] <= 1
    ensures '.' in host <==> '.' in Join(kept, ".")
    ensures '.' !in host ==> Join(kept, ".") == host
  {
    LastTwoShape(labels);
    LabelsDotFree(host);
    JoinSplit(host, ".");
    SplitJoin(kept, '.');
    JoinTailSuffix(labels, ".", |labels| - |kept|);
    var domain := Join(kept, ".");
    if |labels| == 1 {
      assert domain == labels[0] == host;
    } else {
      assert domain == kept[0] + "." + kept[1];
      assert multiset(domain)['.'] == 1;
      SuffixMember(domain, host, '.');
    }
  }

  /** Extracting the domain of a domain gives it back: the domain is a canonical key. */
  lemma DomainOfDomain(url: string)
    ensures DomainOf(DomainOf(url)) == DomainOf(url)
  {
    var d := DomainOf(url);
    DomainOfShape(url);
    if Occurs("//", d) {
      OccursHead("//", d);
    }
    SplitAbsent(d, "//");
    assert AfterScheme(d) == d;
    OccursChar('/', d);
    SplitAbsent(d, "/");
    assert CutAtFirst(d, '/') == d;
    OccursChar(':', d);
    SplitAbsent(d, ":");
    assert Hostname(d) == d;
    DomainOfShape(url);
    JoinSplit(d, ".");
  }

  /** Python's `<` on `str`: lexicographic order by code point. */
  predicate Less(a: string, b: string)
    decreases |a|
  {
    if |a| == 0 then |b| > 0
    else if |b| == 0 then false
    else if a[0] != b[0] then a[0] < b[0]
    else Less(a[1..], b[1..])
  }

  lemma {:induction false} LessIrreflexive(a: string)
    ensures !Less(a, a)
    decreases |a|
  {
    if |a| > 0 {
      LessIrreflexive(a[1..]);
    }
  }

  lemma {:induction false} LessTransitive(a: string, b: string, c: string)
    requires Less(a, b) && Less(b, c)
    ensures Less(a, c)
    decreases |a|
  {
    if |a| > 0 && a[0] == b[0] && b[0] == c[0] {
      LessTransitive(a[1..], b[1..], c[1..]);
    }
  }

  lemma {:induction false} LessTotal(a: string, b: string)
    requires a != b
    ensures Less(a, b) || Less(b, a)
    decreases |a|
  {
    if |a| > 0 && |b| > 0 && a[0] == b[0] {
      assert a == [a[0]] + a[1..] && b == [b[0]] + b[1..];
      LessTotal(a[1..], b[1..]);
    }
  }

  /** Ascending with no two equal elements. */
  predicate StrictlyAscending(s: seq<string>)
  {
    forall i, j :: 0 <= i < j < |s| ==> Less(s[i], s[j])
  }

  /** Strictly ascending sequences have no duplicates. */
  lemma AscendingDistinct(s: seq<string>)
    requires StrictlyAscending(s)
    ensures forall i, j :: 0 <= i < |s| && 0 <= j < |s| && i != j ==> s[i] != s[j]
  {
    forall i, j | 0 <= i < |s| && 0 <= j < |s| && i != j ensures s[i] != s[j] {
      if i < j { LessIrreflexive(s[i]); } else { LessIrreflexive(s[j]); }
    }
  }

  /** Sequences with the same members are both empty or both non-empty. */
  lemma SameMembersEmpty(a: seq<string>, b: seq<string>)
    requires forall x :: x in a <==> x in b
    ensures |a| == 0 <==> |b| == 0
  {
    if |a| > 0 {
      assert a[0] in b;
    }
    if |b| > 0 {
      assert b[0] in a;
    }
  }

  /** A set has exactly one strictly ascending listing: `sorted` is determined by its input. */
  lemma {:induction false} AscendingUnique(a: seq<string>, b: seq<string>)
    requires StrictlyAscending(a) && StrictlyAscending(b)
    requires forall x :: x in a <==> x in b
    ensures a == b
    decreases |a|
  {
    SameMembersEmpty(a, b);
    if |a| > 0 {
      if a[0] != b[0] {
        assert a[0] in a && b[0] in b;
        var i :| 0 <= i < |b| && b[i] == a[0];
        var j :| 0 <= j < |a| && a[j] == b[0];
        LessIrreflexive(a[0]);
        LessIrreflexive(b[0]);
        assert i > 0 && j > 0;
        assert Less(b[0], a[0]) && Less(a[0], b[0]);
        LessTransitive(a[0], b[0], a[0]);
        assert false;
      }
      forall x ensures x in a[1..] <==> x in b[1..] {
        AscendingDistinct(a);
        AscendingDistinct(b);
        if x in a[1..] {
          var i :| 1 <= i < |a| && a[i] == x;
          assert x in b && x != b[0];
        }
        if x in b[1..] {
          var i :| 1 <= i < |b| && b[i] == x;
          assert x in a && x != a[0];
        }
      }
      AscendingUnique(a[1..], b[1..]);
      assert a == [a[0]] + a[1..] && b == [b[0]] + b[1..];
    }
  }

  /** The least element of a non-empty set of strings. */
  method Least(s: set<string>) returns (m: string)
    requires s != {}
    ensures m in s
    ensures forall x :: x in s && x != m ==> Less(m, x)
  {
    m :| m in s;
    var rest := s - {m};
    while rest != {}
      invariant rest <= s && m in s && m !in rest
      invariant forall x :: x in s - rest && x != m ==> Less(m, x)
      decreases rest
    {
      var y :| y in rest;
      if Less(y, m) {
        forall x | x in s - rest && x != y ensures Less(y, x) {
          if x != m { LessTransitive(y, m, x); }
        }
        m := y;
      } else {
        LessTotal(y, m);
      }
      rest := rest - {y};
    }
  }

  /** Python's `sorted(domains_set)`: the members of the set, strictly ascending. */
  method SortedList(s: set<string>) returns (sorted: seq<string>)
    ensures StrictlyAscending(sorted)
    ensures forall x :: x in sorted <==> x in s
  {
    sorted := [];
    var rest := s;
    while rest != {}
      invariant rest <= s
      invariant forall x :: x in s <==> x in sorted || x in rest
      invariant forall x :: x in sorted ==> x !in rest
      invariant StrictlyAscending(sorted)
      invariant forall i, x :: 0 <= i < |sorted| && x in rest ==> Less(sorted[i], x)
      decreases rest
    {
      var m := Least(rest);
      sorted := sorted + [m];
      rest := rest - {m};
    }
  }

  /**
   What `extract_domains` returns for the URLs of a configuration: every URL
   maps to its domain, and the domain list is the set of mapped values, sorted.
   */
  ghost predicate IsExtraction(urls: seq<string>, urlsToDomains: map<string, string>, domains: seq<string>)
  {
    && (forall u :: u in urlsToDomains <==> u in urls)
    && (forall u :: u in urlsToDomains ==> urlsToDomains[u] == DomainOf(u))
    && StrictlyAscending(domains)
    && (forall d :: d in domains <==> d in urlsToDomains.Values)
  }

  /** main.py:108-125: build the URL-to-domain map and the sorted list of distinct domains. */
  method ExtractDomains(urls: seq<string>) returns (urlsToDomains: map<string, string>, domains: seq<string>)
    ensures IsExtraction(urls, urlsToDomains, domains)
    ensures forall i :: 0 <= i < |urls| ==> urlsToDomains[urls[i]] in domains
  {
    var domainsSet;
    urlsToDomains, domainsSet := MapDomains(urls);
    domains := SortedList(domainsSet);
    forall j | 0 <= j < |urls| ensures urlsToDomains[urls[j]] in domains {
      assert urls[j] in urlsToDomains;
      assert urlsToDomains[urls[j]] in urlsToDomains.Values;
    }
  }

  /** The loop of main.py:112-121: map every URL to its domain and collect the domains. */
  method MapDomains(urls: seq<string>) returns (urlsToDomains: map<string, string>, domainsSet: set<string>)
    ensures forall u :: u in urlsToDomains <==> u in urls
    ensures forall u :: u in urlsToDomains ==> urlsToDomains[u] == DomainOf(u)
    ensures domainsSet == urlsToDomains.Values
  {
    domainsSet := {};
    urlsToDomains := map[];
    var i := 0;
    while i < |urls|
      invariant 0 <= i <= |urls|
      invariant forall j :: 0 <= j < i ==> urls[j] in urlsToDomains
      invariant forall u :: u in urlsToDomains ==> u in urls[..i] && urlsToDomains[u] == DomainOf(u)
      invariant forall u :: u in urlsToDomains ==> urlsToDomains[u] in domainsSet
      invariant forall d :: d in domainsSet ==> exists u :: u in urlsToDomains && urlsToDomains[u] == d
    {
      var rawUrl := urls[i];
      var domain := DomainOf(rawUrl);
      urlsToDomains := urlsToDomains[rawUrl := domain];
      domainsSet := domainsSet + {domain};
      i := i + 1;
    }
    assert urls[..i] == urls;
  }

  /** The values of a map from every URL to its domain are the URLs' domains. */
  lemma MappedValues(urls: seq<string>, m: map<string, string>)
    requires forall u :: u in m <==> u in urls
    requires forall u :: u in m ==> m[u] == DomainOf(u)
    ensures forall d :: d in m.Values <==> exists u :: u in urls && DomainOf(u) == d
  {
    forall d | d in m.Values ensures exists u :: u in urls && DomainOf(u) == d {
      var u :| u in m && m[u] == d;
    }
    forall d | exists u :: u in urls && DomainOf(u) == d ensures d in m.Values {
      var u :| u in urls && DomainOf(u) == d;
      assert m[u] == d;
    }
  }

  /** Running the extraction twice on the same configuration gives identical results. */
  lemma ExtractionUnique(urls: seq<string>, m1: map<string, string>, d1: seq<string>,
                         m2: map<string, string>, d2: seq<string>)
    requires IsExtraction(urls, m1, d1) && IsExtraction(urls, m2, d2)
    ensures m1 == m2 && d1 == d2
  {
    assert m1 == m2 by {
      assert forall u :: u in m1 <==> u in m2;
      assert forall u :: u in m1 ==> m1[u] == m2[u];
    }
    assert forall x :: x in d1 <==> x in d2 by {
      assert m1.Values == m2.Values;
    }
    AscendingUnique(d1, d2);
  }
}
