/**
 * The benchmark comparator: it loads two BenchmarkDotNet result
 * documents into maps keyed by benchmark name, joins them on the key,
 * classifies each key against a fixed five-percent threshold and lays
 * out a Markdown report, one table row per key in ascending key order.
 */
module CompareBenchmarks {
  import opened Wrappers
  import opened Strings

  // ---------------------------------------------------------------------
  // Results documents

  /** The `Statistics` object of an entry; `Mean` is in nanoseconds. */
  datatype Statistics = Statistics(mean: Option<real>)

  /** One element of the document's `Benchmarks` list. */
  datatype Entry = Entry(displayInfo: Option<string>, fullName: Option<string>, statistics: Option<Statistics>)

  /**
   * A results document as the loader sees it: it could not be opened or
   * parsed, or it parsed and may or may not hold a `Benchmarks` list.
   */
  datatype Document = Unreadable | Parsed(benchmarks: Option<seq<Entry>>)

  /** The key of an entry: `DisplayInfo`, else `FullName`, else "Unknown". */
  function Key(e: Entry): string
  {
    match e.displayInfo
    case Some(d) => d
    case None =>
      match e.fullName
      case Some(f) => f
      case None => "Unknown"
  }

  /** The dictionary built by assigning `benchmarks[Key(b)] = b` for each entry in turn. */
  function BenchmarkMap(entries: seq<Entry>): map<string, Entry>
  {
    if entries == [] then map[]
    else
      var e := entries[|entries| - 1];
      BenchmarkMap(entries[..|entries| - 1])[Key(e) := e]
  }

  /** What `load_benchmarks` returns for a document. */
  function Loaded(doc: Document): map<string, Entry>
  {
    match doc
    case Unreadable => map[]
    case Parsed(None) => map[]
    case Parsed(Some(entries)) => BenchmarkMap(entries)
  }

  /** No entry after position `j` has the same key as the entry at `j`. */
  predicate LastOfItsKey(entries: seq<Entry>, j: int)
    requires 0 <= j < |entries|
  {
    forall i :: j < i < |entries| ==> Key(entries[i]) != Key(entries[j])
  }

  /** The map has one key per distinct key among the entries. */
  lemma {:induction false} BenchmarkMapKeys(entries: seq<Entry>)
    ensures BenchmarkMap(entries).Keys == set e | e in entries :: Key(e)
    decreases |entries|
  {
    if entries != [] {
      var init := entries[..|entries| - 1];
      BenchmarkMapKeys(init);
      assert entries == init + [entries[|entries| - 1]];
    }
  }

  /** When a key repeats, the entry that comes last is the one kept. */
  lemma {:induction false} BenchmarkMapLastWins(entries: seq<Entry>, j: int)
    requires 0 <= j < |entries| && LastOfItsKey(entries, j)
    ensures Key(entries[j]) in BenchmarkMap(entries)
    ensures BenchmarkMap(entries)[Key(entries[j])] == entries[j]
    decreases |entries|
  {
    if j < |entries| - 1 {
      var init := entries[..|entries| - 1];
      assert LastOfItsKey(init, j) by {
        forall i | j < i < |init| ensures Key(init[i]) != Key(init[j]) {
          assert init[i] == entries[i];
        }
      }
      BenchmarkMapLastWins(init, j);
      assert init[j] == entries[j];
    }
  }

  /**
   * What loading yields: an unreadable document, or one without a
   * `Benchmarks` list, gives the empty map; otherwise there is one key
   * per distinct entry key, and each key holds the last entry with it.
   */
  lemma LoadedSpec(doc: Document)
    ensures (doc.Unreadable? || doc.benchmarks.None?) ==> Loaded(doc) == map[]
    ensures doc.Parsed? && doc.benchmarks.Some? ==>
              var entries := doc.benchmarks.value;
              Loaded(doc).Keys == (set e | e in entries :: Key(e)) &&
              forall j :: 0 <= j < |entries| && LastOfItsKey(entries, j) ==>
                Loaded(doc)[Key(entries[j])] == entries[j]
  {
    if doc.Parsed? && doc.benchmarks.Some? {
      var entries := doc.benchmarks.value;
      BenchmarkMapKeys(entries);
      forall j | 0 <= j < |entries| && LastOfItsKey(entries, j)
        ensures Loaded(doc)[Key(entries[j])] == entries[j]
      {
        BenchmarkMapLastWins(entries, j);
      }
    }
  }

  /**
   * `load_benchmarks`: the loop stores each entry under its key, in
   * document order, so the map has one key per distinct entry key and
   * each key holds the last entry with that key; a document that cannot
   * be read, or has no `Benchmarks` list, gives the empty map.
   */
  method LoadBenchmarks(doc: Document) returns (m: map<string, Entry>)
    ensures m == Loaded(doc)
    ensures (doc.Unreadable? || doc.benchmarks.None?) ==> m == map[]
    ensures doc.Parsed? && doc.benchmarks.Some? ==>
              var entries := doc.benchmarks.value;
              m.Keys == (set e | e in entries :: Key(e)) &&
              forall j :: 0 <= j < |entries| && LastOfItsKey(entries, j) ==> m[Key(entries[j])] == entries[j]
  {
    m := map[];
    if doc.Parsed? && doc.benchmarks.Some? {
      var entries := doc.benchmarks.value;
      for i := 0 to |entries|
        invariant m == BenchmarkMap(entries[..i])
      {
        var b := entries[i];
        var key := if b.displayInfo.Some? then b.displayInfo.value
                   else if b.fullName.Some? then b.fullName.value
                   else "Unknown";
        m := m[key := b];
        assert entries[..i + 1][..i] == entries[..i];
      }
      assert entries[..|entries|] == entries;
    }
    LoadedSpec(doc);
  }

  // ---------------------------------------------------------------------
  // Times

  /** The units `format_time` chooses between, printed as "ns", "us", "ms" and "s". */
  datatype Unit = Ns | Us | Ms | S

  /** A time as `format_time` shows it: a scaled number and a unit. */
  datatype Time = Time(value: real, unit: Unit)

  /** The number of nanoseconds a shown time stands for. */
  function Nanoseconds(t: Time): real
  {
    match t.unit
    case Ns => t.value
    case Us => t.value * 1000.0
    case Ms => t.value * 1000000.0
    case S => t.value * 1000000000.0
  }

  /**
   * `format_time`: the time shown stands for exactly the input; the value is below 1000 in every unit but seconds and at
   * least 1 in every unit but nanoseconds.
   */
  function FormatTime(ns: real): (t: Time)
    ensures Nanoseconds(t) == ns
    ensures t.unit != S ==> t.value < 1000.0
    ensures t.unit != Ns ==> 1.0 <= t.value
  {
    if ns < 1000.0 then Time(ns, Ns)
    else if ns < 1000000.0 then Time(ns / 1000.0, Us)
    else if ns < 1000000000.0 then Time(ns / 1000000.0, Ms)
    else Time(ns / 1000000000.0, S)
  }

  /** The three properties of `FormatTime` single out its result: no other reading of the input has them. */
  lemma FormatTimeUnique(ns: real, t: Time)
    requires Nanoseconds(t) == ns
    requires t.unit != S ==> t.value < 1000.0
    requires t.unit != Ns ==> 1.0 <= t.value
    ensures t == FormatTime(ns)
  {
    match t.unit
    case Ns =>
    case Us =>
      assert 1000.0 <= ns < 1000000.0;
    case Ms =>
      assert 1000000.0 <= ns < 1000000000.0;
    case S =>
      assert 1000000000.0 <= ns;
  }

  function UnitRank(u: Unit): nat
  {
    match u
    case Ns => 0
    case Us => 1
    case Ms => 2
    case S => 3
  }

  /** A longer time never gets a smaller unit. */
  lemma FormatTimeMonotone(a: real, b: real)
    requires a <= b
    ensures UnitRank(FormatTime(a).unit) <= UnitRank(FormatTime(b).unit)
  {
  }

  /** The boundaries: 999 ns, 1000 ns, 1,000,000 ns and 1,000,000,000 ns. */
  lemma FormatTimeExamples()
    ensures FormatTime(999.0) == Time(999.0, Ns)
    ensures FormatTime(1000.0) == Time(1.0, Us)
    ensures FormatTime(1000000.0) == Time(1.0, Ms)
    ensures FormatTime(1000000000.0) == Time(1.0, S)
  {
  }

  // ---------------------------------------------------------------------
  // Names

  /** `shorten_name`: the last dot-separated piece when there are more than two pieces. */
  function ShortenName(name: string): string
  {
    var parts := Split(name, '.');
    if |parts| > 2 then parts[|parts| - 1] else name
  }

  /**
   * What `shorten_name` returns, in terms of dots: with two or more dots
   * in the name, the text after the last dot; otherwise the name itself.
   * Either way the result is a suffix of the name, never longer.
   */
  lemma ShortenNameSpec(name: string)
    ensures var r := ShortenName(name);
            && |r| <= |name| && r == name[|name| - |r|..]
            && (multiset(name)['.'] >= 2 ==> '.' !in r && |r| < |name| && name[|name| - |r| - 1] == '.')
            && (multiset(name)['.'] < 2 ==> r == name)
  {
    SplitCount(name, '.');
    LastPieceIsSuffix(name, '.');
  }

  /**
   * The example in the comment above `shorten_name`, written as
   * `a.b.c` split at its last two dots, comes out as its last segment
   * `c` alone, not as the two-segment `b.c` the comment shows.
   */
  lemma ShortenNameCommentExample(a: string, b: string, c: string)
    requires a == "Variable.Core.Tests.Benchmarks" && b == "CoreMathBenchmarks" && c == "IsPowerOfTwo(n: 10)"
    ensures ShortenName(a + "." + b + "." + c) == c
    ensures ShortenName(a + "." + b + "." + c) != b + "." + c
  {
    assert '.' !in c;
    ShortenLastTwoDots(a + "." + b + "." + c, a, b, c);
  }

  /** A name with at least two dots keeps only what follows the last one. */
  lemma ShortenLastTwoDots(name: string, a: string, b: string, c: string)
    requires name == a + "." + b + "." + c && '.' !in c
    ensures ShortenName(name) == c
  {
    assert name == (a + "." + b) + ['.'] + c;
    SplitAppend(a + "." + b, c, '.');
    SplitCount(name, '.');
    assert multiset(name)['.'] >= 2 by {
      assert name == a + ['.'] + b + ['.'] + c;
      assert multiset(name) == multiset(a) + multiset{'.'} + multiset(b) + multiset{'.'} + multiset(c);
    }
    ShortenNameSpec(name);
  }

  /** `os.path.basename`: what follows the last '/'. */
  function Basename(path: string): string
  {
    var parts := Split(path, '/');
    parts[|parts| - 1]
  }

  /** The base name is the suffix of the path after its last '/', the whole path when it has none. */
  lemma BasenameSpec(path: string)
    ensures var r := Basename(path);
            |r| <= |path| && r == path[|path| - |r|..] && '/' !in r &&
            ('/' in path ==> |r| < |path| && path[|path| - |r| - 1] == '/') &&
            ('/' !in path ==> r == path)
  {
    LastPieceIsSuffix(path, '/');
    if '/' !in path {
      SplitNoSeparator(path, '/');
    } else {
      SplitCount(path, '/');
      assert multiset(path)['/'] > 0;
    }
  }

  // ---------------------------------------------------------------------
  // Classification

  /** The status column; `NoStatus` is the empty cell. */
  datatype Status = Slower | Faster | Same | Removed | New | NoStatus

  /** Python truthiness of a mean: present and nonzero. */
  predicate Truthy(mean: Option<real>)
  {
    mean.Some? && mean.value != 0.0
  }

  /** The fixed threshold, in percent. */
  const Threshold: real := 5.0

  /** The status for a relative change in percent: beyond +5 slower, beyond -5 faster, else the same. */
  function StatusFor(percent: real): Status
  {
    if percent > Threshold then Slower
    else if percent < -Threshold then Faster
    else Same
  }

  /** The diff cell and the status for a pair of means. */
  function Classify(oldMean: Option<real>, newMean: Option<real>): (Option<real>, Status)
  {
    if Truthy(oldMean) && Truthy(newMean) then
      var percent := (newMean.value - oldMean.value) / oldMean.value * 100.0;
      (Some(percent), StatusFor(percent))
    else if Truthy(oldMean) then (None, Removed)
    else if Truthy(newMean) then (None, New)
    else (None, NoStatus)
  }

  /**
   * With a positive baseline, the status compares the new mean with the
   * baseline scaled by 1.05 and by 0.95, so exactly five percent either
   * way is still the same.
   */
  lemma ClassifyByRatio(o: real, n: real)
    requires o > 0.0 && n != 0.0
    ensures Classify(Some(o), Some(n)).1 == Slower <==> n * 100.0 > o * 105.0
    ensures Classify(Some(o), Some(n)).1 == Faster <==> n * 100.0 < o * 95.0
    ensures Classify(Some(o), Some(n)).1 == Same <==> o * 95.0 <= n * 100.0 <= o * 105.0
  {
    var q := (n - o) / o;
    assert Classify(Some(o), Some(n)).1 == StatusFor(q * 100.0);
    assert q * o == n - o;
    assert q * 100.0 > 5.0 <==> n * 100.0 > o * 105.0 by {
      MultiplyByPositive(0.05, q, o);
    }
    assert q * 100.0 < -5.0 <==> n * 100.0 < o * 95.0 by {
      MultiplyByPositive(q, -0.05, o);
    }
  }

  /** Multiplying by a positive number keeps the order. */
  lemma MultiplyByPositive(x: real, y: real, o: real)
    requires o > 0.0
    ensures x < y <==> x * o < y * o
  {
    if x < y {
      assert (y - x) * o > 0.0;
    } else {
      assert (x - y) * o >= 0.0;
    }
  }

  /** Change of exactly plus or minus five percent is the same; a little more is not. */
  lemma ClassifyBoundaries()
    ensures Classify(Some(100.0), Some(105.0)) == (Some(5.0), Same)
    ensures Classify(Some(100.0), Some(95.0)) == (Some(-5.0), Same)
    ensures Classify(Some(100.0), Some(105.01)).1 == Slower
    ensures Classify(Some(100.0), Some(94.99)).1 == Faster
    ensures Classify(Some(100.0), Some(120.0)) == (Some(20.0), Slower)
    ensures Classify(Some(50.0), Some(40.0)) == (Some(-20.0), Faster)
    ensures Classify(None, Some(10.0)) == (None, New)
  {
  }

  /**
   * A mean of zero counts as no mean: a zero baseline against a nonzero
   * new mean is reported as new, with no percentage, and a nonzero
   * baseline against a zero new mean as removed.
   */
  lemma ZeroMeanIsAbsent(m: real)
    requires m != 0.0
    ensures Classify(Some(0.0), Some(m)) == Classify(None, Some(m)) == (None, New)
    ensures Classify(Some(m), Some(0.0)) == Classify(Some(m), None) == (None, Removed)
    ensures Classify(Some(0.0), Some(0.0)) == (None, NoStatus)
  {
  }

  /**
   * A percentage appears exactly when both means are truthy; otherwise
   * the status says which side is truthy, if any.
   */
  lemma ClassifyCases(o: Option<real>, n: Option<real>)
    ensures Classify(o, n).0.Some? <==> Truthy(o) && Truthy(n)
    ensures Classify(o, n).1 == Removed <==> Truthy(o) && !Truthy(n)
    ensures Classify(o, n).1 == New <==> !Truthy(o) && Truthy(n)
    ensures Classify(o, n).1 == NoStatus <==> !Truthy(o) && !Truthy(n)
  {
  }

  /** Swapping the two sides turns removed into new and new into removed. */
  lemma ClassifySwap(o: Option<real>, n: Option<real>)
    ensures Classify(o, n).1 == Removed <==> Classify(n, o).1 == New
    ensures Classify(o, n).1 == NoStatus <==> Classify(n, o).1 == NoStatus
  {
  }

  // ---------------------------------------------------------------------
  // The report

  /** A time cell: "-" when there is no mean, else the formatted mean. */
  datatype Cell = Dash | Shown(time: Time)

  /** One table row: display name, old time, new time, diff, status. */
  datatype Row = Row(name: string, oldTime: Cell, newTime: Cell, diff: Option<real>, status: Status)

  /** The lines of the report. */
  datatype Line = Title(file: string) | Empty | ColumnHeader | Rule | Data(row: Row)

  /** The four lines before the table rows. */
  function Header(newFile: string): seq<Line>
  {
    [Title(Basename(newFile)), Empty, ColumnHeader, Rule]
  }

  /** An entry whose `Statistics` is present also has a `Mean` (`compare` raises `KeyError` otherwise). */
  predicate HasMeanIfStatistics(e: Entry)
  {
    e.statistics.Some? ==> e.statistics.value.mean.Some?
  }

  predicate WellFormedMap(m: map<string, Entry>)
  {
    forall k :: k in m ==> HasMeanIfStatistics(m[k])
  }

  /** `b['Statistics']['Mean'] if b and 'Statistics' in b else None`. */
  function MeanOf(b: Option<Entry>): Option<real>
    requires b.Some? ==> HasMeanIfStatistics(b.value)
  {
    if b.Some? && b.value.statistics.Some? then b.value.statistics.value.mean else None
  }

  function Get(m: map<string, Entry>, key: string): Option<Entry>
  {
    if key in m then Some(m[key]) else None
  }

  function CellFor(mean: Option<real>): Cell
  {
    if mean.Some? then Shown(FormatTime(mean.value)) else Dash
  }

  /** The row the loop in `compare` writes for one key. */
  function RowFor(key: string, oldData: map<string, Entry>, newData: map<string, Entry>): Row
    requires WellFormedMap(oldData) && WellFormedMap(newData)
  {
    var oldMean := MeanOf(Get(oldData, key));
    var newMean := MeanOf(Get(newData, key));
    var c := Classify(oldMean, newMean);
    Row(ShortenName(key), CellFor(oldMean), CellFor(newMean), c.0, c.1)
  }

  /**
   * A side's time is "-" exactly when the key is missing on that side
   * or its entry has no `Statistics`; a key missing on one side can only
   * be new or removed (or blank, when the other side's mean is zero or
   * missing), never carry a percentage.
   */
  lemma RowForMissing(key: string, oldData: map<string, Entry>, newData: map<string, Entry>)
    requires WellFormedMap(oldData) && WellFormedMap(newData)
    ensures var r := RowFor(key, oldData, newData);
            && (r.oldTime == Dash <==> key !in oldData || oldData[key].statistics.None?)
            && (r.newTime == Dash <==> key !in newData || newData[key].statistics.None?)
            && (key !in oldData ==> r.diff == None && r.status in {New, NoStatus})
            && (key !in newData ==> r.diff == None && r.status in {Removed, NoStatus})
  {
  }

  /**
   * The body of the loop in `compare` for one key: both means are looked
   * up, the times formatted, and the diff and status computed by
   * `compare`'s chain of branches (lines 74-92).
   */
  method CompareRow(key: string, oldData: map<string, Entry>, newData: map<string, Entry>) returns (row: Row)
    requires WellFormedMap(oldData) && WellFormedMap(newData)
    ensures row == RowFor(key, oldData, newData)
  {
    var oldB := Get(oldData, key);
    var newB := Get(newData, key);
    var displayName := ShortenName(key);
    var oldMean := MeanOf(oldB);
    var newMean := MeanOf(newB);
    var oldStr := if oldMean.Some? then Shown(FormatTime(oldMean.value)) else Dash;
    var newStr := if newMean.Some? then Shown(FormatTime(newMean.value)) else Dash;
    var diff: Option<real> := None;
    var status := NoStatus;
    if Truthy(oldMean) && Truthy(newMean) {
      if oldMean.value == 0.0 {
        // The `old_mean == 0` branch: a truthy mean is never zero.
        assert false;
      } else {
        var diffNs := newMean.value - oldMean.value;
        var diffPercent := diffNs / oldMean.value * 100.0;
        diff := Some(diffPercent);
        if diffPercent > 5.0 {
          status := Slower;
        } else if diffPercent < -5.0 {
          status := Faster;
        } else {
          status := Same;
        }
      }
    } else if Truthy(oldMean) && !Truthy(newMean) {
      status := Removed;
    } else if !Truthy(oldMean) && Truthy(newMean) {
      status := New;
    }
    row := Row(displayName, oldStr, newStr, diff, status);
  }

  /** The table rows for the keys, in the order given: the i-th row is for the i-th key. */
  function Rows(keys: seq<string>, oldData: map<string, Entry>, newData: map<string, Entry>): (rows: seq<Line>)
    requires WellFormedMap(oldData) && WellFormedMap(newData)
  {
    seq(|keys|, i requires 0 <= i < |keys| => Data(RowFor(keys[i], oldData, newData)))
  }

  /** Adding a key adds its row at the end. */
  lemma RowsSnoc(keys: seq<string>, i: int, oldData: map<string, Entry>, newData: map<string, Entry>)
    requires WellFormedMap(oldData) && WellFormedMap(newData)
    requires 0 <= i < |keys|
    ensures Rows(keys[..i + 1], oldData, newData) == Rows(keys[..i], oldData, newData) + [Data(RowFor(keys[i], oldData, newData))]
  {
    var a := Rows(keys[..i + 1], oldData, newData);
    var b := Rows(keys[..i], oldData, newData) + [Data(RowFor(keys[i], oldData, newData))];
    assert |a| == |b|;
    forall j | 0 <= j <= i ensures a[j] == b[j] {
      assert keys[..i + 1][j] == keys[j];
    }
  }

  /**
   * The part of `compare` after the emptiness test: the four header
   * lines, one row per key of either map in ascending key order, and a
   * closing empty line.
   */
  method ReportLines(oldData: map<string, Entry>, newData: map<string, Entry>, newFile: string)
    returns (lines: seq<Line>, sortedKeys: seq<string>)
    requires WellFormedMap(oldData) && WellFormedMap(newData)
    ensures StrictlySorted(sortedKeys)
    ensures forall k :: k in sortedKeys <==> k in oldData || k in newData
    ensures |sortedKeys| == |oldData.Keys + newData.Keys|
    ensures lines == Header(newFile) + Rows(sortedKeys, oldData, newData) + [Empty]
  {
    lines := [Title(Basename(newFile)), Empty, ColumnHeader, Rule];
    sortedKeys := SortedKeys(oldData.Keys + newData.Keys);
    for i := 0 to |sortedKeys|
      invariant lines == Header(newFile) + Rows(sortedKeys[..i], oldData, newData)
    {
      var row := CompareRow(sortedKeys[i], oldData, newData);
      RowsSnoc(sortedKeys, i, oldData, newData);
      lines := lines + [Data(row)];
    }
    assert sortedKeys[..|sortedKeys|] == sortedKeys;
    lines := lines + [Empty];
  }

  /**
   * `compare`: when both documents load empty there is no report.
   * Otherwise the report is the four header lines, then the rows for
   * the keys of either map, each key once and in ascending order, then
   * an empty line.
   */
  method Compare(oldDoc: Document, newDoc: Document, newFile: string)
    returns (report: Option<seq<Line>>, sortedKeys: seq<string>)
    requires WellFormedMap(Loaded(oldDoc)) && WellFormedMap(Loaded(newDoc))
    ensures report.None? <==> Loaded(oldDoc) == map[] && Loaded(newDoc) == map[]
    ensures report.Some? ==>
              && StrictlySorted(sortedKeys)
              && (forall k :: k in sortedKeys <==> k in Loaded(oldDoc) || k in Loaded(newDoc))
              && report.value == Header(newFile) + Rows(sortedKeys, Loaded(oldDoc), Loaded(newDoc)) + [Empty]
  {
    var oldData := LoadBenchmarks(oldDoc);
    var newData := LoadBenchmarks(newDoc);
    if oldData == map[] && newData == map[] {
      return None, [];
    }
    var lines;
    lines, sortedKeys := ReportLines(oldData, newData, newFile);
    report := Some(lines);
  }

  /** The report's shape does not depend on how the keys were listed: the order is the only ascending one. */
  lemma ReportOrderDetermined(oldData: map<string, Entry>, newData: map<string, Entry>, ks1: seq<string>, ks2: seq<string>)
    requires StrictlySorted(ks1) && StrictlySorted(ks2)
    requires forall k :: k in ks1 <==> k in oldData || k in newData
    requires forall k :: k in ks2 <==> k in oldData || k in newData
    ensures ks1 == ks2
  {
    SortedUnique(ks1, ks2);
  }
}
