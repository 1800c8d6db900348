/** The small pure helpers of the build step: the temporal train/validation/
    test split by time step, edge times taken from source nodes, the class
    relabelling that matches the Planetoid benchmark, and the extraction of
    a publication year from a metadata date string. */
module Temporal {
  import opened Outcomes
  import opened Positions

  // ---------------------------------------------------------------------
  // The temporal split
  // ---------------------------------------------------------------------

  /** The first validation time step and the last one. */
  const ValFirst: int := 37
  const ValLast: int := 40

  /** `train_mask`: time steps before 37. */
  function TrainMask(time: seq<int>): (r: seq<bool>)
    ensures |r| == |time|
    ensures forall k :: 0 <= k < |r| ==> (r[k] <==> time[k] < 37)
  {
    seq(|time|, k requires 0 <= k < |time| => time[k] < ValFirst)
  }

  /** `val_mask`: time steps 37 to 40, both included. */
  function ValMask(time: seq<int>): (r: seq<bool>)
    ensures |r| == |time|
    ensures forall k :: 0 <= k < |r| ==> (r[k] <==> 37 <= time[k] <= 40)
  {
    seq(|time|, k requires 0 <= k < |time| => ValFirst <= time[k] <= ValLast)
  }

  /** `test_mask`: time steps after 40. */
  function TestMask(time: seq<int>): (r: seq<bool>)
    ensures |r| == |time|
    ensures forall k :: 0 <= k < |r| ==> (r[k] <==> time[k] > 40)
  {
    seq(|time|, k requires 0 <= k < |time| => time[k] > ValLast)
  }

  /** Every item falls in exactly one of the three sets. */
  lemma MasksPartition(time: seq<int>, k: nat)
    requires k < |time|
    ensures TrainMask(time)[k] || ValMask(time)[k] || TestMask(time)[k]
    ensures !(TrainMask(time)[k] && ValMask(time)[k])
    ensures !(TrainMask(time)[k] && TestMask(time)[k])
    ensures !(ValMask(time)[k] && TestMask(time)[k])
  {
  }

  /** So the three set sizes add up to the number of items. */
  lemma {:induction false} SplitSizes(time: seq<int>)
    ensures Count(TrainMask(time)) + Count(ValMask(time)) + Count(TestMask(time)) == |time|
  {
    if |time| > 0 {
      var n := |time| - 1;
      SplitSizes(time[..n]);
      assert TrainMask(time) == TrainMask(time[..n]) + [time[n] < ValFirst];
      assert ValMask(time) == ValMask(time[..n]) + [ValFirst <= time[n] <= ValLast];
      assert TestMask(time) == TestMask(time[..n]) + [time[n] > ValLast];
      CountSnoc(TrainMask(time[..n]), time[n] < ValFirst);
      CountSnoc(ValMask(time[..n]), ValFirst <= time[n] <= ValLast);
      CountSnoc(TestMask(time[..n]), time[n] > ValLast);
    }
  }

  // ---------------------------------------------------------------------
  // Edge times
  // ---------------------------------------------------------------------

  /** `{(u, v): times[u] for u, v in G.edges}`: each directed edge takes the
      time of its source node. */
  function EdgeTimes<N(==), T>(edges: set<(N, N)>, nodeTime: map<N, T>): (r: map<(N, N), T>)
    requires forall e :: e in edges ==> e.0 in nodeTime
    ensures r.Keys == edges
    ensures forall e :: e in r ==> r[e] == nodeTime[e.0]
  {
    map e | e in edges :: nodeTime[e.0]
  }

  /** Edges leaving the same node share its time, and every edge time is
      the time of some node. */
  lemma EdgeTimesFromSources<N, T>(edges: set<(N, N)>, nodeTime: map<N, T>)
    requires forall e :: e in edges ==> e.0 in nodeTime
    ensures forall e1, e2 :: e1 in edges && e2 in edges && e1.0 == e2.0 ==>
      EdgeTimes(edges, nodeTime)[e1] == EdgeTimes(edges, nodeTime)[e2]
    ensures EdgeTimes(edges, nodeTime).Values <= nodeTime.Values
  {
    var r := EdgeTimes(edges, nodeTime);
    forall t | t in r.Values ensures t in nodeTime.Values {
      var e :| e in r && r[e] == t;
      assert nodeTime[e.0] == t;
    }
  }

  // ---------------------------------------------------------------------
  // Class relabelling
  // ---------------------------------------------------------------------

  /** `{3: 1, 1: 0, 2: 2}.get(y)`: the original labels 1, 2, 3 become the
      benchmark's 0, 2, 1; any other label has no entry. */
  function RelabelClass(y: int): (r: Option<int>)
    ensures r.Some? <==> 1 <= y <= 3
    ensures r.Some? ==> 0 <= r.value <= 2
  {
    if y == 3 then Some(1)
    else if y == 1 then Some(0)
    else if y == 2 then Some(2)
    else None
  }

  /** The relabelling is a bijection from {1, 2, 3} onto {0, 1, 2}. */
  lemma RelabelBijective()
    ensures forall y1, y2 :: RelabelClass(y1).Some? && RelabelClass(y1) == RelabelClass(y2) ==> y1 == y2
    ensures forall c :: 0 <= c <= 2 ==> exists y :: 1 <= y <= 3 && RelabelClass(y) == Some(c)
  {
    assert RelabelClass(1) == Some(0) && RelabelClass(3) == Some(1) && RelabelClass(2) == Some(2);
  }

  // ---------------------------------------------------------------------
  // Year extraction
  // ---------------------------------------------------------------------

  /** The characters Python's `str.split()` treats as whitespace. */
  predicate IsSpace(c: char) {
    var n := c as int;
    || n == 0x20 || 0x09 <= n <= 0x0D || 0x1C <= n <= 0x1F
    || n == 0x85 || n == 0xA0 || n == 0x1680 || 0x2000 <= n <= 0x200A
    || n == 0x2028 || n == 0x2029 || n == 0x202F || n == 0x205F || n == 0x3000
  }

  predicate NotSpace(c: char) {
    !IsSpace(c)
  }

  predicate IsColon(c: char) {
    c == ':'
  }

  /** The length of the longest prefix of `s` with no character that `stop`
      accepts. */
  function PrefixUntil(s: string, stop: char -> bool): (k: nat)
    ensures k <= |s|
    ensures forall i :: 0 <= i < k ==> !stop(s[i])
    ensures k < |s| ==> stop(s[k])
  {
    if |s| == 0 || stop(s[0]) then 0 else 1 + PrefixUntil(s[1..], stop)
  }

  /** A prefix free of `stop` followed by an end or a `stop` character is
      exactly what `PrefixUntil` measures. */
  lemma {:induction false} PrefixUntilSplit(a: string, b: string, stop: char -> bool)
    requires forall i :: 0 <= i < |a| ==> !stop(a[i])
    requires b == [] || stop(b[0])
    ensures PrefixUntil(a + b, stop) == |a|
  {
    if |a| > 0 {
      assert (a + b)[1..] == a[1..] + b;
      PrefixUntilSplit(a[1..], b, stop);
    } else {
      assert a + b == b;
    }
  }

  /** The outcome of reading a year from a metadata entry's date. */
  datatype YearOf =
    | NoDate          // the entry has no date, or an empty one: the year is None
    | Year(year: string)
    | BlankDate       // a date of whitespace only: `split()` is empty and `[0]` raises IndexError

  /** `v["date"].split()[0].split(":")[0] if v.get("date", None) else None`:
      the first whitespace-separated word of the date, cut at its first
      colon. */
  function ExtractYear(date: Option<string>): (r: YearOf)
    ensures r == NoDate <==> date == None || date == Some("")
    ensures r == BlankDate <==> date.Some? && date.value != "" && forall i :: 0 <= i < |date.value| ==> IsSpace(date.value[i])
    ensures r.Year? ==> forall i :: 0 <= i < |r.year| ==> !IsSpace(r.year[i]) && r.year[i] != ':'
  {
    match date
    case None => NoDate
    case Some(d) =>
      if d == "" then NoDate
      else
        var start := PrefixUntil(d, NotSpace);
        if start == |d| then BlankDate
        else
          var rest := d[start..];
          var word := rest[..PrefixUntil(rest, IsSpace)];
          assert forall i :: 0 <= i < |word| ==> word[i] == rest[i];
          Year(word[..PrefixUntil(word, IsColon)])
  }

  /** A date made of leading whitespace, a year with neither whitespace nor
      colon, then an end, a whitespace or a colon, gives back that year. The
      year may be empty when a colon follows the whitespace directly: a
      first word that starts with a colon gives the empty year. */
  lemma YearOfDate(pad: string, year: string, rest: string)
    requires forall i :: 0 <= i < |pad| ==> IsSpace(pad[i])
    requires forall i :: 0 <= i < |year| ==> !IsSpace(year[i]) && year[i] != ':'
    requires year != [] || (rest != [] && rest[0] == ':')
    requires rest == [] || IsSpace(rest[0]) || rest[0] == ':'
    ensures ExtractYear(Some(pad + year + rest)) == Year(year)
  {
    var d := pad + year + rest;
    PrefixUntilSplit(pad, year + rest, NotSpace);
    assert pad + (year + rest) == d;
    assert d[|pad|..] == year + rest;
    FirstWordYear(year, rest);
  }

  /** The first word of `year + rest`, cut at its first colon, is `year`. */
  lemma FirstWordYear(year: string, rest: string)
    requires forall i :: 0 <= i < |year| ==> !IsSpace(year[i]) && year[i] != ':'
    requires rest == [] || IsSpace(rest[0]) || rest[0] == ':'
    ensures var after := year + rest;
      var word := after[..PrefixUntil(after, IsSpace)];
      word[..PrefixUntil(word, IsColon)] == year
  {
    var after := year + rest;
    if rest != [] && rest[0] == ':' {
      var cut := PrefixUntil(after, IsSpace);
      assert cut >= |year| by {
        PrefixUntilFree(after, IsSpace, |year|);
      }
      var word := after[..cut];
      assert word == year + word[|year|..];
      PrefixUntilSplit(year, word[|year|..], IsColon);
    } else {
      PrefixUntilSplit(year, rest, IsSpace);
      assert after[..|year|] == year;
      PrefixUntilSplit(year, [], IsColon);
      assert year + [] == year;
    }
  }

  /** `PrefixUntil` reaches past any prefix free of `stop`. */
  lemma {:induction false} PrefixUntilFree(s: string, stop: char -> bool, k: nat)
    requires k <= |s|
    requires forall i :: 0 <= i < k ==> !stop(s[i])
    ensures PrefixUntil(s, stop) >= k
  {
    if k > 0 {
      PrefixUntilFree(s[1..], stop, k - 1);
    }
  }
}
