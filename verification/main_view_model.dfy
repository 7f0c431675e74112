/** The window's view model: the per-category summary line, the order the
    results are shown in, the analyze step that fills the results, the export
    step that renders them, and the change-detecting property setter. */
module MainViewModel {
  import opened Wrappers
  import opened Text
  import opened Clock
  import opened Models
  import opened DuplicateDetector
  import opened DirectoryWalker
  import FileAnalyzer
  import Csv

  // ---------------------------------------------------------------------------
  // BuildSummary
  // ---------------------------------------------------------------------------

  /** How many entries carry category `c`. */
  function CountOf(es: seq<Entry>, c: Category): (n: nat)
    ensures n <= |es|
    ensures n == 0 <==> forall i :: 0 <= i < |es| ==> es[i].category != c
    ensures n == |es| <==> forall i :: 0 <= i < |es| ==> es[i].category == c
    decreases |es|
  {
    if |es| == 0 then 0
    else
      assert forall i :: 1 <= i < |es| ==> es[1..][i - 1] == es[i];
      (if es[0].category == c then 1 else 0) + CountOf(es[1..], c)
  }

  datatype Summary = Summary(safe: nat, careful: nat, protect: nat)

  /** The three counts `BuildSummary` interpolates. */
  function BuildSummary(es: seq<Entry>): (s: Summary)
    ensures s.safe + s.careful + s.protect == |es|
    ensures s.safe == CountOf(es, LikelySafe) && s.careful == CountOf(es, BeCareful)
    ensures s.protect == CountOf(es, DoNotDelete)
  {
    CountsAddUp(es);
    Summary(CountOf(es, LikelySafe), CountOf(es, BeCareful), CountOf(es, DoNotDelete))
  }

  /** Every entry is counted in exactly one of the three categories. */
  lemma {:induction false} CountsAddUp(es: seq<Entry>)
    ensures CountOf(es, LikelySafe) + CountOf(es, BeCareful) + CountOf(es, DoNotDelete) == |es|
    decreases |es|
  {
    if |es| > 0 {
      CountsAddUp(es[1..]);
    }
  }

  lemma {:induction false} CountOfAppend(a: seq<Entry>, b: seq<Entry>, c: Category)
    ensures CountOf(a + b, c) == CountOf(a, c) + CountOf(b, c)
    decreases |a|
  {
    if |a| == 0 {
      assert a + b == b;
    } else {
      assert (a + b)[1..] == a[1..] + b;
      CountOfAppend(a[1..], b, c);
    }
  }

  /** Taking the same element off both sides of a multiset equality. */
  lemma RemoveMatching(a: seq<Entry>, b: seq<Entry>, k: nat)
    requires |a| > 0 && k < |b| && b[k] == a[0]
    requires multiset(a) == multiset(b)
    ensures multiset(a[1..]) == multiset(b[..k] + b[k + 1..])
  {
    assert b == b[..k] + [b[k]] + b[k + 1..];
    assert a == [a[0]] + a[1..];
    var ma := multiset(a[1..]);
    var mb := multiset(b[..k] + b[k + 1..]);
    assert multiset(a) == multiset{a[0]} + ma;
    assert multiset(b) == multiset(b[..k]) + multiset{b[k]} + multiset(b[k + 1..]);
    assert mb == multiset(b[..k]) + multiset(b[k + 1..]);
    forall x
      ensures ma[x] == mb[x]
    {
      assert multiset(a)[x] == multiset{a[0]}[x] + ma[x];
      assert multiset(b)[x] == multiset(b[..k])[x] + multiset{b[k]}[x] + multiset(b[k + 1..])[x];
    }
  }

  /** The counts depend only on which entries there are, not on their order. */
  lemma {:induction false} CountOfPermutation(a: seq<Entry>, b: seq<Entry>, c: Category)
    requires multiset(a) == multiset(b)
    ensures CountOf(a, c) == CountOf(b, c)
    decreases |a|
  {
    if |a| > 0 {
      assert a[0] in multiset(b);
      var k :| 0 <= k < |b| && b[k] == a[0];
      var rest := b[..k] + b[k + 1..];
      RemoveMatching(a, b, k);
      CountOfPermutation(a[1..], rest, c);
      CountOfRemove(b, k, c);
    }
  }

  /** Counting with one entry taken out. */
  lemma CountOfRemove(b: seq<Entry>, k: nat, c: Category)
    requires k < |b|
    ensures CountOf(b, c) == CountOf(b[..k] + b[k + 1..], c) + (if b[k].category == c then 1 else 0)
  {
    assert b == (b[..k] + [b[k]]) + b[k + 1..];
    CountOfAppend(b[..k], b[k + 1..], c);
    CountOfAppend(b[..k] + [b[k]], b[k + 1..], c);
    CountOfAppend(b[..k], [b[k]], c);
  }

  const SafePhrase: string := " files likely safe to delete, "
  const CarefulPhrase: string := " need caution, "
  const ProtectPhrase: string := " should be preserved."

  /** The summary line shown under the results. */
  function SummaryText(s: Summary): (t: string)
    ensures ParseSummary(t) == Some(s)
  {
    var tail3 := Decimal(s.protect) + ProtectPhrase;
    var tail2 := Decimal(s.careful) + (CarefulPhrase + tail3);
    ReadCountDigits(s.safe, SafePhrase + tail2);
    ExpectPrefix(SafePhrase, tail2);
    ReadCountDigits(s.careful, CarefulPhrase + tail3);
    ExpectPrefix(CarefulPhrase, tail3);
    ReadCountDigits(s.protect, ProtectPhrase);
    Decimal(s.safe) + (SafePhrase + tail2)
  }

  /** The end of the run of digits starting at `i`. */
  function DigitRun(s: string, i: nat): (n: nat)
    requires i <= |s|
    ensures i <= n <= |s|
    ensures forall j :: i <= j < n ==> IsDigit(s[j])
    ensures n < |s| ==> !IsDigit(s[n])
    decreases |s| - i
  {
    if i == |s| || !IsDigit(s[i]) then i else DigitRun(s, i + 1)
  }

  /** Reads a count off the front of `s`: a non-empty run of digits. */
  function ReadCount(s: string): Option<(nat, string)> {
    var n := DigitRun(s, 0);
    if n == 0 then None
    else
      assert AllDigits(s[..n]) by {
        forall j | 0 <= j < n
          ensures IsDigit(s[..n][j])
        {
        }
      }
      Some((DigitsValue(s[..n]), s[n..]))
  }

  /** Strips the fixed text `p` off the front of `s`. */
  function Expect(s: string, p: string): Option<string> {
    if |p| <= |s| && s[..|p|] == p then Some(s[|p|..]) else None
  }

  /** Reads the three counts back from a summary line. */
  function ParseSummary(t: string): Option<Summary> {
    match ReadCount(t)
    case None => None
    case Some(p1) =>
      match Expect(p1.1, SafePhrase)
      case None => None
      case Some(r1) =>
        match ReadCount(r1)
        case None => None
        case Some(p2) =>
          match Expect(p2.1, CarefulPhrase)
          case None => None
          case Some(r2) =>
            match ReadCount(r2)
            case None => None
            case Some(p3) =>
              if p3.1 == ProtectPhrase then Some(Summary(p1.0, p2.0, p3.0)) else None
  }

  lemma {:induction false} DigitRunOver(d: string, rest: string, i: nat)
    requires AllDigits(d) && i <= |d|
    requires |rest| == 0 || !IsDigit(rest[0])
    ensures DigitRun(d + rest, i) == |d|
    decreases |d| - i
  {
    var s := d + rest;
    if i < |d| {
      assert s[i] == d[i];
      DigitRunOver(d, rest, i + 1);
    } else if i < |s| {
      assert s[i] == rest[0];
    }
  }

  lemma ReadCountDigits(n: nat, rest: string)
    requires |rest| == 0 || !IsDigit(rest[0])
    ensures ReadCount(Decimal(n) + rest) == Some((n, rest))
  {
    var d := Decimal(n);
    assert d == Digits(n);
    DigitRunOver(d, rest, 0);
    assert (d + rest)[..|d|] == d;
    assert (d + rest)[|d|..] == rest;
    DigitsRoundTrip(n);
  }

  lemma ExpectPrefix(p: string, rest: string)
    ensures Expect(p + rest, p) == Some(rest)
  {
    assert (p + rest)[..|p|] == p;
    assert (p + rest)[|p|..] == rest;
  }

  /** The summary line determines the three counts it was built from. */
  lemma SummaryTextInjective(a: Summary, b: Summary)
    requires SummaryText(a) == SummaryText(b)
    ensures a == b
  {
  }

  // ---------------------------------------------------------------------------
  // OrderByDescending(r => r.SizeInBytes)
  // ---------------------------------------------------------------------------

  predicate SortedBySize(s: seq<Entry>) {
    forall i, j :: 0 <= i < j < |s| ==> s[i].sizeInBytes >= s[j].sizeInBytes
  }

  /** The entries of one size, in their order in `s`. */
  function WithSize(s: seq<Entry>, v: int): seq<Entry>
    decreases |s|
  {
    if |s| == 0 then [] else (if s[0].sizeInBytes == v then [s[0]] else []) + WithSize(s[1..], v)
  }

  /** Inserts `e` before the first entry that is no larger, so that it comes
      before every entry of its own size. */
  function Insert(e: Entry, s: seq<Entry>): (r: seq<Entry>)
    ensures multiset(r) == multiset(s) + multiset{e}
    decreases |s|
  {
    if |s| == 0 then [e]
    else if s[0].sizeInBytes <= e.sizeInBytes then [e] + s
    else
      assert s == [s[0]] + s[1..];
      [s[0]] + Insert(e, s[1..])
  }

  /** Inserting into a sorted sequence keeps it sorted. */
  lemma {:induction false} InsertSorted(e: Entry, s: seq<Entry>)
    requires SortedBySize(s)
    ensures SortedBySize(Insert(e, s))
    decreases |s|
  {
    if |s| > 0 && s[0].sizeInBytes > e.sizeInBytes {
      var t := Insert(e, s[1..]);
      InsertSorted(e, s[1..]);
      InsertBounded(e, s[1..], s[0].sizeInBytes);
      ConsSorted(s[0], t);
      assert Insert(e, s) == [s[0]] + t;
    }
  }

  /** No entry larger than `b` appears when none was there to begin with. */
  lemma {:induction false} InsertBounded(e: Entry, s: seq<Entry>, b: int)
    requires e.sizeInBytes <= b
    requires forall i :: 0 <= i < |s| ==> s[i].sizeInBytes <= b
    ensures forall i :: 0 <= i < |Insert(e, s)| ==> Insert(e, s)[i].sizeInBytes <= b
    decreases |s|
  {
    if |s| > 0 && s[0].sizeInBytes > e.sizeInBytes {
      InsertBounded(e, s[1..], b);
      var t := Insert(e, s[1..]);
      assert Insert(e, s) == [s[0]] + t;
      assert forall i :: 1 <= i < |Insert(e, s)| ==> Insert(e, s)[i] == t[i - 1];
    }
  }

  lemma ConsSorted(x: Entry, t: seq<Entry>)
    requires SortedBySize(t)
    requires forall i :: 0 <= i < |t| ==> t[i].sizeInBytes <= x.sizeInBytes
    ensures SortedBySize([x] + t)
  {
    forall i, j | 0 <= i < j < |[x] + t|
      ensures ([x] + t)[i].sizeInBytes >= ([x] + t)[j].sizeInBytes
    {
      assert ([x] + t)[j] == t[j - 1];
      if i > 0 {
        assert ([x] + t)[i] == t[i - 1];
      }
    }
  }

  /** The order the results are shown in: a stable sort by size, largest
      first, built by inserting each entry in front of the sorted rest. */
  function SortBySizeDescending(es: seq<Entry>): (r: seq<Entry>)
    ensures SortedBySize(r)
    ensures multiset(r) == multiset(es)
    ensures |r| == |es|
    decreases |es|
  {
    if |es| == 0 then []
    else
      assert multiset(es) == multiset{es[0]} + multiset(es[1..]) by {
        assert es == [es[0]] + es[1..];
      }
      var r := Insert(es[0], SortBySizeDescending(es[1..]));
      InsertSorted(es[0], SortBySizeDescending(es[1..]));
      assert |r| == |multiset(r)|;
      r
  }

  /** Where the inserted entry lands among the entries of one size: in front
      of all of them. */
  lemma {:induction false} InsertWithSize(e: Entry, s: seq<Entry>, v: int)
    ensures WithSize(Insert(e, s), v) == (if e.sizeInBytes == v then [e] else []) + WithSize(s, v)
    decreases |s|
  {
    if |s| == 0 {
      assert [e][1..] == [];
    } else if s[0].sizeInBytes <= e.sizeInBytes {
      assert ([e] + s)[1..] == s;
    } else {
      InsertWithSize(e, s[1..], v);
      InsertPastLarger(e, s, v);
    }
  }

  /** The step of `InsertWithSize` past an entry larger than `e`: that entry
      cannot have `e`'s size, so the two may trade places among the entries
      of size `v`. */
  lemma InsertPastLarger(e: Entry, s: seq<Entry>, v: int)
    requires |s| > 0 && s[0].sizeInBytes > e.sizeInBytes
    requires WithSize(Insert(e, s[1..]), v) == (if e.sizeInBytes == v then [e] else []) + WithSize(s[1..], v)
    ensures WithSize(Insert(e, s), v) == (if e.sizeInBytes == v then [e] else []) + WithSize(s, v)
  {
    assert Insert(e, s) == [s[0]] + Insert(e, s[1..]);
    assert s == [s[0]] + s[1..];
    TradePlaces(s[0], Insert(e, s[1..]), s[1..], if e.sizeInBytes == v then [e] else [], v);
  }

  /** An entry not of size `v` may move past entries of size `v` without
      changing the entries of size `v`. */
  lemma TradePlaces(x: Entry, t: seq<Entry>, rest: seq<Entry>, head: seq<Entry>, v: int)
    requires WithSize(t, v) == head + WithSize(rest, v)
    requires x.sizeInBytes == v ==> head == []
    ensures WithSize([x] + t, v) == head + WithSize([x] + rest, v)
  {
    WithSizeCons(x, t, v);
    WithSizeCons(x, rest, v);
    if x.sizeInBytes == v {
      assert head + WithSize(rest, v) == WithSize(rest, v);
    } else {
      assert [] + WithSize(t, v) == WithSize(t, v);
      assert [] + WithSize(rest, v) == WithSize(rest, v);
    }
  }

  lemma WithSizeCons(x: Entry, t: seq<Entry>, v: int)
    ensures WithSize([x] + t, v) == (if x.sizeInBytes == v then [x] else []) + WithSize(t, v)
  {
    assert ([x] + t)[1..] == t;
  }

  /** Stability: entries of equal size keep their relative order. */
  lemma {:induction false} SortIsStable(es: seq<Entry>, v: int)
    ensures WithSize(SortBySizeDescending(es), v) == WithSize(es, v)
    decreases |es|
  {
    if |es| > 0 {
      SortIsStable(es[1..], v);
      InsertWithSize(es[0], SortBySizeDescending(es[1..]), v);
    }
  }

  /** Sorting does not change the summary. */
  lemma SortKeepsSummary(es: seq<Entry>)
    ensures BuildSummary(SortBySizeDescending(es)) == BuildSummary(es)
  {
    var r := SortBySizeDescending(es);
    CountOfPermutation(r, es, LikelySafe);
    CountOfPermutation(r, es, BeCareful);
    CountOfPermutation(r, es, DoNotDelete);
  }

  // ---------------------------------------------------------------------------
  // The view model's state and its two steps
  // ---------------------------------------------------------------------------

  const InitialSummary: string := "Select a folder to begin analyzing."
  const FailurePrefix: string := "Failed to analyze folder: "

  datatype ViewModel = ViewModel(
    selectedFolder: string,
    summaryText: string,
    statusMessage: string,
    analyzedFiles: seq<Entry>,
    isAnalyzing: bool)

  function Initial(): (vm: ViewModel)
    ensures vm.analyzedFiles == [] && !HasResults(vm) && !vm.isAnalyzing
    ensures vm.selectedFolder == "" && vm.statusMessage == ""
    ensures vm.summaryText == "Select a folder to begin analyzing."
  {
    ViewModel("", InitialSummary, "", [], false)
  }

  predicate HasResults(vm: ViewModel) {
    |vm.analyzedFiles| > 0
  }

  /** The status line after a successful analysis. */
  function PackedMessage(count: nat, folder: string): string {
    "Packed " + Decimal(count) + " entries from " + folder + "."
  }

  /** `AnalyzeFolderAsync` of the view model, with `message` standing for the
      text of whatever exception the analyzer throws. A blank folder changes
      nothing and starts no analysis; otherwise the folder is recorded, and
      on success the results replace the old ones, largest first, with the
      summary and status describing them; on failure the old results and
      summary stay and the status reports the failure. */
  method AnalyzeFolder(vm: ViewModel, folder: string, root: DirNode, now: Ticks, message: string)
    returns (next: ViewModel)
    ensures IsBlank(folder) ==> next == vm
    ensures !IsBlank(folder) ==> next.selectedFolder == folder && !next.isAnalyzing
    ensures !IsBlank(folder) && Run(DirEvents(root, now), 0, None).Success? ==>
      var results := EnrichDuplicates(Run(DirEvents(root, now), 0, None).value);
      && multiset(next.analyzedFiles) == multiset(results)
      && SortedBySize(next.analyzedFiles)
      && (forall v :: WithSize(next.analyzedFiles, v) == WithSize(results, v))
      && next.summaryText == SummaryText(BuildSummary(results))
      && next.statusMessage == PackedMessage(|results|, folder)
    ensures !IsBlank(folder) && Run(DirEvents(root, now), 0, None).Failure? ==>
      && next.analyzedFiles == vm.analyzedFiles
      && next.summaryText == vm.summaryText
      && next.statusMessage == FailurePrefix + message
  {
    if IsBlank(folder) {
      return vm;
    }
    next := vm.(isAnalyzing := true, statusMessage := "Scanning, please wait...", selectedFolder := folder);
    var results := FileAnalyzer.AnalyzeFolderAsync(folder, root, now, None);
    if results.Failure? {
      next := next.(statusMessage := FailurePrefix + message, isAnalyzing := false);
      return;
    }
    var shown := SortBySizeDescending(results.value);
    forall v
      ensures WithSize(shown, v) == WithSize(results.value, v)
    {
      SortIsStable(results.value, v);
    }
    SortKeepsSummary(results.value);
    next := next.(analyzedFiles := shown, summaryText := SummaryText(BuildSummary(shown)));
    next := next.(statusMessage := PackedMessage(|shown|, folder), isAnalyzing := false);
  }

  /** `ExportReportAsync`: `target` is the file the save dialog returned, if
      any. Without a usable target nothing is written and nothing changes;
      otherwise the report lines are produced from the shown results and the
      status names the target. */
  method ExportReport(vm: ViewModel, target: Option<string>) returns (lines: Option<seq<string>>, next: ViewModel)
    ensures target.None? || IsBlank(target.value) ==> lines.None? && next == vm
    ensures target.Some? && !IsBlank(target.value) ==>
      && lines.Some? && |lines.value| == |vm.analyzedFiles| + 1
      && lines.value[0] == Csv.Header
      && (forall i :: 0 <= i < |vm.analyzedFiles| ==> lines.value[i + 1] == Csv.ReportLine(vm.analyzedFiles[i]))
      && next == vm.(statusMessage := "Report exported to " + target.value + ".")
  {
    if target.None? || IsBlank(target.value) {
      return None, vm;
    }
    Csv.ReportLayout(vm.analyzedFiles);
    lines := Some(Csv.Report(vm.analyzedFiles));
    next := vm.(statusMessage := "Report exported to " + target.value + ".");
  }

  // ---------------------------------------------------------------------------
  // SetProperty
  // ---------------------------------------------------------------------------

  /** The outcome of one assignment through `SetProperty`: the field's new
      value, the return value, and the property-changed notifications raised. */
  datatype Assignment<T> = Assignment(field: T, changed: bool, notified: seq<string>)

  /** Assigns only when the value differs, and raises a notification for a
      change unless the property name is missing. */
  function SetProperty<T(==)>(field: T, value: T, propertyName: Option<string>): (a: Assignment<T>)
    ensures a.field == value
    ensures a.changed <==> field != value
    ensures |a.notified| <= 1
    ensures |a.notified| == 1 <==> a.changed && propertyName.Some?
    ensures |a.notified| == 1 ==> a.notified[0] == propertyName.value
  {
    if field == value then Assignment(field, false, [])
    else Assignment(value, true, match propertyName case Some(n) => [n] case None => [])
  }

  /** Setting the same value twice: the second assignment is a no-op that
      reports no change and raises nothing. */
  lemma SetPropertyTwice<T>(field: T, value: T, name: Option<string>)
    ensures var first := SetProperty(field, value, name);
      var second := SetProperty(first.field, value, name);
      !second.changed && second.notified == [] && second.field == first.field
  {
  }
}
