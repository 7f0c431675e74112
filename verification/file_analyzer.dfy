/** The analyzer's entry points: argument validation, the walk, and the
    duplicate pass over everything the walk collected. */
module FileAnalyzer {
  import opened Wrappers
  import opened Text
  import opened Clock
  import opened Models
  import opened Classifier
  import opened DuplicateDetector
  import opened DirectoryWalker

  /** What `AnalyzeFolderAsync` can throw: the `ArgumentException` for a blank
      root, or an exception the walk does not catch. */
  datatype AnalysisError = ArgumentError | Unhandled(fault: Fault)

  /** An entry as the classifier left it: one of its four reasons with the
      category that goes with it. */
  predicate Classified(e: Entry) {
    e.reason in ReasonCategory && ReasonCategory[e.reason] == e.category
  }

  /** An entry as the analyzer can return it: classified, or downgraded by the
      duplicate pass after being classified. */
  predicate Judged(e: Entry) {
    || Classified(e)
    || (&& e.category == BeCareful
        && |e.reason| >= |DuplicateSentence|
        && e.reason[|e.reason| - |DuplicateSentence|..] == DuplicateSentence)
  }

  predicate EventsClassified(evs: seq<Event>) {
    forall i :: 0 <= i < |evs| && evs[i].Emit? ==> Classified(evs[i].entry)
  }

  lemma EventsClassifiedAppend(a: seq<Event>, b: seq<Event>)
    requires EventsClassified(a) && EventsClassified(b)
    ensures EventsClassified(a + b)
  {
    forall i | 0 <= i < |a + b| && (a + b)[i].Emit?
      ensures Classified((a + b)[i].entry)
    {
      if i >= |a| {
        assert (a + b)[i] == b[i - |a|];
      }
    }
  }

  lemma {:induction false} FileEventsClassified(fs: seq<FileNode>, now: Ticks)
    ensures EventsClassified(FileEvents(fs, now))
    decreases |fs|
  {
    if |fs| > 0 {
      FileEventsClassified(fs[1..], now);
      EventsClassifiedAppend([Poll], FileEvent(fs[0], now));
      EventsClassifiedAppend([Poll] + FileEvent(fs[0], now), FileEvents(fs[1..], now));
    }
  }

  lemma {:induction false} DirEventsClassified(d: DirNode, now: Ticks)
    ensures EventsClassified(DirEvents(d, now))
    decreases d, 1
  {
    if d.subdirsFault.None? {
      if d.filesFault.None? {
        FileEventsClassified(d.files, now);
      }
      StackEventsClassified(d.subdirs, now);
      EventsClassifiedAppend(FilesPart(d, now), StackEvents(d.subdirs, now));
    }
    EventsClassifiedAppend([Poll], DirBody(d, now));
  }

  lemma {:induction false} StackEventsClassified(ds: seq<DirNode>, now: Ticks)
    ensures EventsClassified(StackEvents(ds, now))
    decreases ds, 0
  {
    if |ds| > 0 {
      DirEventsClassified(ds[|ds| - 1], now);
      StackEventsClassified(ds[..|ds| - 1], now);
      EventsClassifiedAppend(DirEvents(ds[|ds| - 1], now), StackEvents(ds[..|ds| - 1], now));
    }
  }

  /** The walk only ever emits classified entries. */
  lemma {:induction false} RunClassified(evs: seq<Event>, k: nat, cancel: Option<nat>)
    requires EventsClassified(evs)
    requires Run(evs, k, cancel).Success?
    ensures forall i :: 0 <= i < |Run(evs, k, cancel).value| ==> Classified(Run(evs, k, cancel).value[i])
    decreases |evs|
  {
    if |evs| > 0 {
      assert EventsClassified(evs[1..]) by {
        forall i | 0 <= i < |evs[1..]| && evs[1..][i].Emit?
          ensures Classified(evs[1..][i].entry)
        {
          assert evs[1..][i] == evs[i + 1];
        }
      }
      match evs[0]
      case Poll =>
        if !Cancelled(cancel, k) {
          RunClassified(evs[1..], k + 1, cancel);
        }
      case Emit(e) =>
        RunClassified(evs[1..], k, cancel);
      case Crash(f) =>
    }
  }

  /** `AnalyzeFolder`: the walk, then the duplicate pass over whatever it
      collected, including a partial list after cancellation. */
  method AnalyzeFolder(root: DirNode, now: Ticks, cancel: Option<nat>) returns (r: Result<seq<Entry>, Fault>)
    ensures r.Failure? <==> Run(DirEvents(root, now), 0, cancel).Failure?
    ensures r.Failure? ==> r.error == Run(DirEvents(root, now), 0, cancel).error
    ensures r.Success? ==> r.value == EnrichDuplicates(Run(DirEvents(root, now), 0, cancel).value)
    ensures r.Success? ==> forall i :: 0 <= i < |r.value| ==> Judged(r.value[i]) && r.value[i].reason != ""
    ensures cancel.None? && Tolerable(root) ==> r == Success(EnrichDuplicates(InspectAll(Collected(root), now)))
  {
    var walked := Walk(root, now, cancel);
    if walked.Failure? {
      return Failure(walked.error);
    }
    var results := walked.value;
    DirEventsClassified(root, now);
    RunClassified(DirEvents(root, now), 0, cancel);
    EnrichedJudged(results);
    r := Success(EnrichDuplicates(results));
  }

  /** The duplicate pass turns classified entries into judged ones. */
  lemma EnrichedJudged(rs: seq<Entry>)
    requires forall i :: 0 <= i < |rs| ==> Classified(rs[i])
    ensures forall i :: 0 <= i < |rs| ==> Judged(EnrichDuplicates(rs)[i]) && EnrichDuplicates(rs)[i].reason != ""
  {
    var enriched := EnrichDuplicates(rs);
    forall i | 0 <= i < |enriched|
      ensures Judged(enriched[i]) && enriched[i].reason != ""
    {
      if !Kept(rs, i) {
        assert enriched[i] == Downgrade(rs[i]);
      }
    }
  }

  /** `AnalyzeFolderAsync`: a blank root is refused before anything is walked;
      an exception the walk does not catch reaches the caller. */
  method AnalyzeFolderAsync(rootFolder: string, root: DirNode, now: Ticks, cancel: Option<nat>)
    returns (r: Result<seq<Entry>, AnalysisError>)
    ensures IsBlank(rootFolder) <==> r == Failure(ArgumentError)
    ensures !IsBlank(rootFolder) && r.Failure? ==>
      Run(DirEvents(root, now), 0, cancel) == Failure(r.error.fault)
    ensures r.Success? ==>
      && Run(DirEvents(root, now), 0, cancel).Success?
      && r.value == EnrichDuplicates(Run(DirEvents(root, now), 0, cancel).value)
    ensures r.Success? ==> forall i :: 0 <= i < |r.value| ==> Judged(r.value[i]) && r.value[i].reason != ""
    ensures !IsBlank(rootFolder) && cancel.None? && Tolerable(root) ==>
      r == Success(EnrichDuplicates(InspectAll(Collected(root), now)))
  {
    if IsBlank(rootFolder) {
      return Failure(ArgumentError);
    }
    var analyzed := AnalyzeFolder(root, now, cancel);
    if analyzed.Failure? {
      return Failure(Unhandled(analyzed.error));
    }
    r := Success(analyzed.value);
  }

  /** With no failures and no cancellation the analyzer returns one entry per
      file of the tree, each with the metadata read from that file. */
  lemma AnalysisCoversEveryFile(root: DirNode, now: Ticks)
    requires NoFaults(root)
    ensures var es := EnrichDuplicates(InspectAll(Collected(root), now));
      && |es| == |AllFiles(root)|
      && forall i :: 0 <= i < |es| ==> SameFacts(es[i], ReadEntry(Collected(root)[i]))
    ensures multiset(Collected(root)) == multiset(AllFiles(root))
  {
    EveryFileOnce(root, now);
    assert |Collected(root)| == |multiset(Collected(root))| == |multiset(AllFiles(root))| == |AllFiles(root)|;
  }
}
