/**
 The text main.py shows after every iteration: the availability table of
 `print_table` (lines 128-150) and the fields of the report row of
 `write_line_csv_file` (lines 163-169). Printing and file writing are not
 modelled; the lines and fields are.
 */
module Report {
  import opened Wrappers

  /** Python's `c * n` for a one-character string: empty when `n` is not positive. */
  function Repeat(c: char, n: int): (s: string)
    ensures |s| == if n > 0 then n else 0
    ensures forall i :: 0 <= i < |s| ==> s[i] == c
    decreases n
  {
    if n <= 0 then [] else [c] + Repeat(c, n - 1)
  }

  function Digit(d: nat): char
    requires d < 10
  {
    ('0' as int + d) as char
  }

  predicate IsDigit(c: char)
  {
    '0' <= c <= '9'
  }

  function DigitValue(c: char): nat
    requires IsDigit(c)
  {
    c as int - '0' as int
  }

  /** Python's `str(n)` for a natural number: its decimal digits, without leading zeros. */
  function NatToString(n: nat): (s: string)
    ensures 1 <= |s|
    ensures forall i :: 0 <= i < |s| ==> IsDigit(s[i])
    ensures |s| > 1 ==> s[0] != '0'
    decreases n
  {
    if n < 10 then [Digit(n)] else NatToString(n / 10) + [Digit(n % 10)]
  }

  /** The number a string of decimal digits denotes. */
  function DecimalValue(s: string): nat
    requires forall i :: 0 <= i < |s| ==> IsDigit(s[i])
    decreases |s|
  {
    if s == [] then 0 else DecimalValue(s[..|s| - 1]) * 10 + DigitValue(s[|s| - 1])
  }

  /** Reading the digits `str(n)` back gives `n`. */
  lemma {:induction false} DecimalRoundTrip(n: nat)
    ensures DecimalValue(NatToString(n)) == n
    decreases n
  {
    if n >= 10 {
      DecimalRoundTrip(n / 10);
      var s := NatToString(n);
      assert s[..|s| - 1] == NatToString(n / 10);
    }
  }

  /** An availability, 0 to 100, takes one to three characters. */
  lemma ShortNumber(n: nat)
    requires n <= 100
    ensures 1 <= |NatToString(n)| <= 3
    ensures |NatToString(n)| == 3 <==> n == 100
  {
    if n >= 10 {
      assert |NatToString(n / 10)| == if n / 10 < 10 then 1 else 2;
    }
  }

  /** Python's `str(availability)`: `None` before the first iteration, otherwise the number. */
  function Show(availability: Option<nat>): string
  {
    match availability
    case None => "None"
    case Some(v) => NatToString(v)
  }

  /**
   main.py:57: the length of the longest domain; `None` where Python's
   `max` raises on an empty list (an empty configuration).
   */
  function Longest(domains: seq<string>): Option<nat>
    decreases |domains|
  {
    if domains == [] then None
    else
      match Longest(domains[1..])
      case None => Some(|domains[0]|)
      case Some(m) => Some(if |domains[0]| >= m then |domains[0]| else m)
  }

  /** `Longest` is the length of some domain and no domain is longer; it is missing only for no domains. */
  lemma {:induction false} LongestIsMax(domains: seq<string>)
    ensures Longest(domains).None? <==> domains == []
    ensures Longest(domains).Some? ==> forall i :: 0 <= i < |domains| ==> |domains[i]| <= Longest(domains).value
    ensures Longest(domains).Some? ==> exists i :: 0 <= i < |domains| && |domains[i]| == Longest(domains).value
    decreases |domains|
  {
    if domains != [] {
      var tail := domains[1..];
      LongestIsMax(tail);
      assert forall i :: 1 <= i < |domains| ==> domains[i] == tail[i - 1];
      if Longest(tail).Some? && |domains[0]| < Longest(tail).value {
        var i :| 0 <= i < |tail| && |tail[i]| == Longest(tail).value;
        assert |domains[i + 1]| == Longest(domains).value;
      }
    }
  }

  /** main.py:135-136: the header, `Domain` padded to the longest domain. */
  function Header(size: nat): string
  {
    "Domain" + Repeat(' ', if size - 6 > 0 then size - 6 else 0) + " | Availability"
  }

  /** main.py:139: the line under the header. */
  function Divider(size: nat): string
  {
    Repeat('-', size) + "-|-------------"
  }

  /** main.py:144: the domain cell, `domain` padded with spaces to `size`. */
  function Cell(size: nat, domain: string): string
  {
    domain + Repeat(' ', size - |domain|)
  }

  /** main.py:142-147: the row of one domain, its availability right-aligned in three characters. */
  function Row(size: nat, domain: string, availability: Option<nat>): string
  {
    var shown := Show(availability);
    Cell(size, domain) + " |         " + Repeat(' ', 3 - |shown|) + shown + "%"
  }

  /** Every domain cell is as wide as the longest domain and starts with the domain. */
  lemma CellShape(size: nat, domain: string)
    requires |domain| <= size
    ensures |Cell(size, domain)| == size
    ensures Cell(size, domain)[..|domain|] == domain
    ensures forall i :: |domain| <= i < size ==> Cell(size, domain)[i] == ' '
  {
  }

  /** The header's bar follows `Domain` or the longest domain, whichever is longer. */
  lemma HeaderShape(size: nat)
    ensures var width := if size > 6 then size else 6;
            |Header(size)| == width + 15 && Header(size)[width + 1] == '|'
  {
  }

  /** The divider's bar follows the longest domain. */
  lemma DividerShape(size: nat)
    ensures |Divider(size)| == size + 15 && Divider(size)[size + 1] == '|'
  {
  }

  /**
   A row with an availability from 0 to 100 is as long as the divider, has
   its bar in the same column, starts with the domain padded with spaces,
   and ends with the availability right-aligned in three characters and `%`;
   every other character is a space.
   */
  lemma RowShape(size: nat, domain: string, v: nat)
    requires |domain| <= size && v <= 100
    ensures var row := Row(size, domain, Some(v));
            && |row| == size + 15
            && row[size + 1] == '|'
            && row[..|domain|] == domain
            && (forall i :: |domain| <= i <= size ==> row[i] == ' ')
            && (forall i :: size + 2 <= i < size + 14 - |NatToString(v)| ==> row[i] == ' ')
            && row[size + 14 - |NatToString(v)|..size + 14] == NatToString(v)
            && row[size + 14] == '%'
  {
    CellShape(size, domain);
    ShortNumber(v);
    var shown := NatToString(v);
    var cell := Cell(size, domain);
    var tail := " |         " + Repeat(' ', 3 - |shown|) + shown + "%";
    BarShape(shown);
    assert Row(size, domain, Some(v)) == cell + tail by {
      assert Show(Some(v)) == shown;
    }
    Juxtaposed(cell, tail, |shown|, domain);
  }

  /** Where the parts of a cell followed by a 15-character tail land. */
  lemma Juxtaposed(cell: string, tail: string, k: nat, domain: string)
    requires |domain| <= |cell| && cell[..|domain|] == domain
    requires |tail| == 15 && 1 <= k <= 3
    ensures var row := cell + tail;
            && |row| == |cell| + 15
            && row[|cell| + 1] == tail[1] && row[|cell| + 14] == tail[14]
            && row[..|domain|] == domain
            && (forall i :: |domain| <= i < |cell| ==> row[i] == cell[i])
            && (forall i :: |cell| <= i < |cell| + 15 ==> row[i] == tail[i - |cell|])
            && row[|cell| + 14 - k..|cell| + 14] == tail[14 - k..14]
  {
    var row := cell + tail;
    assert row[..|domain|] == cell[..|domain|];
    assert row[|cell| + 14 - k..|cell| + 14] == tail[14 - k..14];
  }

  /** What follows a row's cell: the bar, then the availability right-aligned and `%`, with spaces between. */
  lemma BarShape(shown: string)
    requires 1 <= |shown| <= 3
    ensures var tail := " |         " + Repeat(' ', 3 - |shown|) + shown + "%";
            && |tail| == 15 && tail[0] == ' ' && tail[1] == '|' && tail[14] == '%'
            && (forall i :: 2 <= i < 14 - |shown| ==> tail[i] == ' ')
            && tail[14 - |shown|..14] == shown
  {
    var tail := " |         " + Repeat(' ', 3 - |shown|) + shown + "%";
    assert tail[14 - |shown|..14] == shown;
  }

  /**
   With a longest domain shorter than `Domain` (six characters), the
   header's bar is not in the column of the divider's and the rows' bars.
   */
  lemma HeaderMisaligned(size: nat)
    requires size < 6
    ensures Divider(size)[size + 1] == '|'
    ensures Header(size)[size + 1] != '|'
  {
    DividerShape(size);
    assert Header(size)[..6] == "Domain";
  }

  /** A one-domain configuration `https://t.co`: the bar of the rows is at column 5, the header's at 7. */
  lemma ShortDomainExample()
    ensures Row(4, "t.co", Some(100))[5] == '|'
    ensures Header(4)[5] != '|' && Header(4)[7] == '|'
  {
    RowShape(4, "t.co", 100);
    HeaderShape(4);
    HeaderMisaligned(4);
  }

  /** The width of the first column once it is as wide as `Domain` too. */
  function Width(size: nat): nat
  {
    if size > 6 then size else 6
  }

  /**
   The table of main.py:135-147 with the first column padded to
   `Width(size)` in every line, so that the header, the divider and the
   rows line up for short domains as well; for a longest domain of at least
   six characters it is the table main.py prints.
   */
  function Table(size: nat, availabilities: map<string, Option<nat>>, domains: seq<string>): seq<string>
    requires forall i :: 0 <= i < |domains| ==> domains[i] in availabilities
  {
    [Header(size), Divider(Width(size))]
      + seq(|domains|, i requires 0 <= i < |domains| => Row(Width(size), domains[i], availabilities[domains[i]]))
  }

  /**
   The table has a line per domain after the header and the divider; for a
   longest domain of at least six characters it is the table of main.py:135-147.
   */
  lemma TableAsWritten(size: nat, availabilities: map<string, Option<nat>>, domains: seq<string>)
    requires forall i :: 0 <= i < |domains| ==> domains[i] in availabilities
    ensures var lines := Table(size, availabilities, domains);
            && |lines| == |domains| + 2
            && (size >= 6 ==> lines[0] == Header(size) && lines[1] == Divider(size))
            && (size >= 6 ==> forall i :: 0 <= i < |domains| ==> lines[i + 2] == Row(size, domains[i], availabilities[domains[i]]))
  {
  }

  /**
   Every line of the table is equally long and has its bar in the same
   column; row i starts with the i-th domain and ends with its availability.
   */
  lemma TableAligned(size: nat, availabilities: map<string, Option<nat>>, domains: seq<string>)
    requires forall i :: 0 <= i < |domains| ==> |domains[i]| <= size
    requires forall i :: 0 <= i < |domains| ==>
               domains[i] in availabilities && availabilities[domains[i]].Some? && availabilities[domains[i]].value <= 100
    ensures var lines := Table(size, availabilities, domains);
            forall k :: 0 <= k < |lines| ==> |lines[k]| == Width(size) + 15 && lines[k][Width(size) + 1] == '|'
    ensures var lines := Table(size, availabilities, domains);
            forall i :: 0 <= i < |domains| ==>
              lines[i + 2][..|domains[i]|] == domains[i] && lines[i + 2][Width(size) + 14] == '%'
  {
    var lines := Table(size, availabilities, domains);
    forall k | 0 <= k < |lines| ensures |lines[k]| == Width(size) + 15 && lines[k][Width(size) + 1] == '|' {
      TableLine(size, availabilities, domains, k);
    }
    forall i | 0 <= i < |domains|
      ensures lines[i + 2][..|domains[i]|] == domains[i] && lines[i + 2][Width(size) + 14] == '%'
    {
      TableLine(size, availabilities, domains, i + 2);
    }
  }

  /** `TableAligned` for line k of the table. */
  lemma TableLine(size: nat, availabilities: map<string, Option<nat>>, domains: seq<string>, k: nat)
    requires forall i :: 0 <= i < |domains| ==> |domains[i]| <= size
    requires forall i :: 0 <= i < |domains| ==>
               domains[i] in availabilities && availabilities[domains[i]].Some? && availabilities[domains[i]].value <= 100
    requires k < |domains| + 2
    ensures var line := Table(size, availabilities, domains)[k];
            && |line| == Width(size) + 15 && line[Width(size) + 1] == '|'
            && (k >= 2 ==> line[..|domains[k - 2]|] == domains[k - 2] && line[Width(size) + 14] == '%')
  {
    if k == 0 {
      HeaderShape(size);
    } else if k == 1 {
      DividerShape(Width(size));
    } else {
      var domain := domains[k - 2];
      var v := availabilities[domain].value;
      assert Table(size, availabilities, domains)[k] == Row(Width(size), domain, Some(v)) by {
        assert availabilities[domain] == Some(v);
      }
      RowShape(Width(size), domain, v);
    }
  }

  /** main.py:159: the header row of the report file. */
  function CsvHeader(domains: seq<string>): seq<string>
  {
    ["item", "time"] + domains
  }

  /** main.py:166: the field of one domain, `'{}%'.format(availability)`. */
  function Percent(availability: Option<nat>): string
  {
    Show(availability) + "%"
  }

  /** Reads a percentage field back: digits followed by `%`. */
  function ReadPercent(field: string): Option<nat>
  {
    if |field| >= 2 && field[|field| - 1] == '%' && forall i :: 0 <= i < |field| - 1 ==> IsDigit(field[i])
    then Some(DecimalValue(field[..|field| - 1]))
    else None
  }

  /** A percentage field holds exactly its availability; the field of a missing one is not a number. */
  lemma PercentRoundTrip(availability: Option<nat>)
    ensures ReadPercent(Percent(availability)) == availability
  {
    match availability
    case None =>
      assert !IsDigit(Percent(None)[0]);
    case Some(v) =>
      var field := Percent(availability);
      assert field[..|field| - 1] == NatToString(v);
      DecimalRoundTrip(v);
  }

  /**
   main.py:163-166: the fields of the report row of one iteration. There is
   one field under every column of the header row: the iteration, the time,
   and each domain's percentage under that domain.
   */
  method CsvRow(iteration: nat, time: string, availabilities: map<string, Option<nat>>, domains: seq<string>)
    returns (line: seq<string>)
    requires forall i :: 0 <= i < |domains| ==> domains[i] in availabilities
    ensures |line| == |CsvHeader(domains)|
    ensures line[0] == NatToString(iteration) && line[1] == time
    ensures forall k :: 2 <= k < |line| ==> CsvHeader(domains)[k] in availabilities
    ensures forall k :: 2 <= k < |line| ==> line[k] == Percent(availabilities[CsvHeader(domains)[k]])
    ensures forall k :: 2 <= k < |line| ==> ReadPercent(line[k]) == availabilities[CsvHeader(domains)[k]]
  {
    line := [NatToString(iteration), time];
    for i := 0 to |domains|
      invariant |line| == i + 2
      invariant line[0] == NatToString(iteration) && line[1] == time
      invariant forall j :: 0 <= j < i ==> line[j + 2] == Percent(availabilities[domains[j]])
    {
      line := line + [Percent(availabilities[domains[i]])];
    }
    forall k | 2 <= k < |line|
      ensures CsvHeader(domains)[k] in availabilities
      ensures line[k] == Percent(availabilities[CsvHeader(domains)[k]])
      ensures ReadPercent(line[k]) == availabilities[CsvHeader(domains)[k]]
    {
      assert CsvHeader(domains)[k] == domains[k - 2];
      assert line[k] == line[(k - 2) + 2];
      PercentRoundTrip(availabilities[domains[k - 2]]);
    }
  }
}
