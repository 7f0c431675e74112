/** The traversal of `FileAnalyzer.AnalyzeFolder`: an explicit-stack depth-first
    walk over a directory tree that reads each file's metadata, classifies it,
    and tolerates the failures the source catches.

    The filesystem is a finite tree. A directory may fail to list its
    subdirectories or its files, and a file may fail to give its metadata; each
    failure is an exception kind. The cancellation token is an oracle polled
    at the top of every directory iteration and before every file: poll number
    `k` (counting from 0) reports a request once `k` reaches the requested
    threshold, and from then on, as a token never un-cancels.

    The walk is specified by an event list built recursively from the tree (a
    poll, an emitted entry, or an exception that escapes) and an interpreter of
    that list; the stack loop is proved to produce exactly what the
    interpreter does. */
module DirectoryWalker {
  import opened Wrappers
  import opened Clock
  import opened Models
  import opened Classifier

  /** The exception kinds a filesystem call can throw. `IOError` stands for
      `IOException` and its subclasses (a directory or file that vanished, a
      sharing violation); `Unexpected` for any other kind. */
  datatype Fault = Unauthorized | PathTooLong | IOError | Unexpected

  /** The kinds caught around `Directory.GetDirectories` and `Directory.GetFiles`. */
  predicate CaughtForDirectory(f: Fault) {
    f == Unauthorized || f == PathTooLong
  }

  /** The kinds caught around reading one file's metadata. */
  predicate CaughtForFile(f: Fault) {
    f == Unauthorized || f == PathTooLong || f == IOError
  }

  /** A file as `FileInfo` reports it, or the exception reading it throws. */
  datatype FileNode = FileNode(
    name: string,
    fullPath: string,
    length: Long,
    lastWriteTime: Ticks,
    lastAccessTime: Ticks,
    extension: string,
    readFault: Option<Fault>)

  /** A directory: its subdirectories and files in the order the enumeration
      calls return them, or the exception each call throws. */
  datatype DirNode = DirNode(
    subdirs: seq<DirNode>,
    files: seq<FileNode>,
    subdirsFault: Option<Fault>,
    filesFault: Option<Fault>)

  // ---------------------------------------------------------------------------
  // Metadata capture
  // ---------------------------------------------------------------------------

  /** `DateTime.MinValue` and `DateTime.MaxValue` mean the filesystem keeps no
      access time. */
  predicate HasAccessTime(t: Ticks) {
    t != MinTicks && t != MaxTicks
  }

  /** The entry built from a readable file, before classification. */
  function ReadEntry(f: FileNode): (e: Entry)
    ensures e.fileName == f.name && e.fullPath == f.fullPath && e.extension == f.extension
    ensures e.sizeInBytes == f.length && e.lastModified == f.lastWriteTime
    ensures e.lastAccessed.None? <==> (f.lastAccessTime == MinTicks || f.lastAccessTime == MaxTicks)
    ensures e.lastAccessed.Some? ==> e.lastAccessed.value == f.lastAccessTime
  {
    NewEntry(f.name, f.fullPath, f.length, f.lastWriteTime,
             if HasAccessTime(f.lastAccessTime) then Some(f.lastAccessTime) else None,
             f.extension)
  }

  /** The entry added to the results for a readable file. */
  function Inspect(f: FileNode, now: Ticks): (e: Entry)
    ensures SameFacts(e, ReadEntry(f))
    ensures e.reason in ReasonCategory && ReasonCategory[e.reason] == e.category
  {
    Classify(ReadEntry(f), now)
  }

  /** The entries the file loop adds for `fs`, one file at a time. */
  function InspectAll(fs: seq<FileNode>, now: Ticks): (es: seq<Entry>)
    ensures |es| == |fs|
    ensures forall i :: 0 <= i < |fs| ==> es[i] == Inspect(fs[i], now)
    decreases |fs|
  {
    if |fs| == 0 then []
    else
      var rest := InspectAll(fs[1..], now);
      assert forall i :: 1 <= i < |fs| ==> fs[1..][i - 1] == fs[i];
      [Inspect(fs[0], now)] + rest
  }

  lemma InspectAllAppend(a: seq<FileNode>, b: seq<FileNode>, now: Ticks)
    ensures InspectAll(a + b, now) == InspectAll(a, now) + InspectAll(b, now)
  {
    var joined, parts := InspectAll(a + b, now), InspectAll(a, now) + InspectAll(b, now);
    forall i | 0 <= i < |joined|
      ensures joined[i] == parts[i]
    {
      if i < |a| {
        assert (a + b)[i] == a[i];
      } else {
        assert (a + b)[i] == b[i - |a|];
      }
    }
  }

  // ---------------------------------------------------------------------------
  // Events of the walk
  // ---------------------------------------------------------------------------

  datatype Event = Poll | Emit(entry: Entry) | Crash(fault: Fault)

  /** What reading one file contributes: its entry, nothing (a caught failure),
      or an escaping exception. */
  function FileEvent(f: FileNode, now: Ticks): seq<Event> {
    match f.readFault
    case None => [Emit(Inspect(f, now))]
    case Some(x) => if CaughtForFile(x) then [] else [Crash(x)]
  }

  /** The file loop: a poll before each file. */
  function FileEvents(fs: seq<FileNode>, now: Ticks): seq<Event>
    decreases |fs|
  {
    if |fs| == 0 then [] else [Poll] + FileEvent(fs[0], now) + FileEvents(fs[1..], now)
  }

  /** Listing and reading the files of a directory whose subdirectories were
      listed. */
  function FilesPart(d: DirNode, now: Ticks): seq<Event> {
    match d.filesFault
    case None => FileEvents(d.files, now)
    case Some(x) => if CaughtForDirectory(x) then [] else [Crash(x)]
  }

  /** One iteration of the outer loop on directory `d`, followed by the
      iterations on everything it pushed. A failure to list the subdirectories
      skips the directory before anything is pushed; a failure to list only
      the files comes after the subdirectories were pushed, so they are still
      walked. */
  function DirEvents(d: DirNode, now: Ticks): seq<Event>
    decreases d, 2
  {
    [Poll] + DirBody(d, now)
  }

  /** The iteration on `d` after its poll. */
  function DirBody(d: DirNode, now: Ticks): seq<Event>
    decreases d, 1
  {
    match d.subdirsFault
    case Some(x) => if CaughtForDirectory(x) then [] else [Crash(x)]
    case None => FilesPart(d, now) + StackEvents(d.subdirs, now)
  }

  /** The iterations that empty a stack whose top is its last element. */
  function StackEvents(stack: seq<DirNode>, now: Ticks): seq<Event>
    decreases stack, 0
  {
    if |stack| == 0 then []
    else DirEvents(stack[|stack| - 1], now) + StackEvents(stack[..|stack| - 1], now)
  }

  /** Pushing `b` on top of `a` walks `b` first. */
  lemma {:induction false} StackEventsAppend(a: seq<DirNode>, b: seq<DirNode>, now: Ticks)
    ensures StackEvents(a + b, now) == StackEvents(b, now) + StackEvents(a, now)
    decreases |b|
  {
    if |b| == 0 {
      assert a + b == a;
    } else {
      var s := a + b;
      var top := DirEvents(b[|b| - 1], now);
      assert s[|s| - 1] == b[|b| - 1];
      assert s[..|s| - 1] == a + b[..|b| - 1];
      StackEventsAppend(a, b[..|b| - 1], now);
      assert StackEvents(s, now) == top + (StackEvents(b[..|b| - 1], now) + StackEvents(a, now));
      assert StackEvents(b, now) == top + StackEvents(b[..|b| - 1], now);
      ConcatAssoc(top, StackEvents(b[..|b| - 1], now), StackEvents(a, now));
    }
  }

  // ---------------------------------------------------------------------------
  // Interpreting the events
  // ---------------------------------------------------------------------------

  /** The token's answer to poll number `k`. */
  predicate Cancelled(cancel: Option<nat>, k: nat) {
    cancel.Some? && k >= cancel.value
  }

  /** Prefixing entries emitted earlier to the outcome of the rest of the walk. */
  function PrependAll(es: seq<Entry>, r: Result<seq<Entry>, Fault>): Result<seq<Entry>, Fault> {
    match r
    case Success(xs) => Success(es + xs)
    case Failure(f) => Failure(f)
  }

  lemma PrependAllEmpty(r: Result<seq<Entry>, Fault>)
    ensures PrependAll([], r) == r
  {
    if r.Success? {
      assert [] + r.value == r.value;
    }
  }

  lemma PrependAllEmptyTail(es: seq<Entry>)
    ensures PrependAll(es, Success([])) == Success(es)
  {
    assert es + [] == es;
  }

  lemma PrependAllAssoc(a: seq<Entry>, b: seq<Entry>, r: Result<seq<Entry>, Fault>)
    ensures PrependAll(a, PrependAll(b, r)) == PrependAll(a + b, r)
  {
    if r.Success? {
      assert a + (b + r.value) == (a + b) + r.value;
    }
  }

  /** Runs the events with `k` polls made so far: stop with the entries so far
      at the first poll that reports cancellation; an escaping exception ends
      the walk with that exception. */
  function Run(evs: seq<Event>, k: nat, cancel: Option<nat>): (r: Result<seq<Entry>, Fault>)
    ensures r.Success? ==> |r.value| <= |evs|
    ensures r.Failure? ==> Crash(r.error) in evs
    decreases |evs|
  {
    if |evs| == 0 then Success([])
    else match evs[0]
      case Poll => if Cancelled(cancel, k) then Success([]) else Run(evs[1..], k + 1, cancel)
      case Emit(e) => PrependAll([e], Run(evs[1..], k, cancel))
      case Crash(f) => Failure(f)
  }

  /** The interpreter only reports what the events say: every entry it
      returns was emitted, and without cancellation and without an escaping
      exception it always succeeds. */
  lemma {:induction false} RunReportsEvents(evs: seq<Event>, k: nat, cancel: Option<nat>)
    ensures Run(evs, k, cancel).Success? ==> forall x :: x in Run(evs, k, cancel).value ==> Emit(x) in evs
    ensures cancel.None? && (forall i :: 0 <= i < |evs| ==> !evs[i].Crash?) ==> Run(evs, k, cancel).Success?
    decreases |evs|
  {
    if |evs| > 0 {
      assert forall i :: 1 <= i < |evs| ==> evs[1..][i - 1] == evs[i];
      RunReportsEvents(evs[1..], if evs[0].Poll? then k + 1 else k, cancel);
    }
  }

  /** A non-empty stack starts with the poll of its top directory's iteration. */
  lemma StackEventsStartWithPoll(stack: seq<DirNode>, now: Ticks)
    requires |stack| > 0
    ensures |StackEvents(stack, now)| > 0 && StackEvents(stack, now)[0] == Poll
  {
  }

  /** Once cancelled, a walk that has only iterations left emits nothing more. */
  lemma CancelledStackRunsEmpty(stack: seq<DirNode>, k: nat, cancel: Option<nat>, now: Ticks)
    requires Cancelled(cancel, k)
    ensures Run(StackEvents(stack, now), k, cancel) == Success([])
  {
    if |stack| > 0 {
      StackEventsStartWithPoll(stack, now);
    }
  }

  // ---------------------------------------------------------------------------
  // The stack walk
  // ---------------------------------------------------------------------------

  lemma ConcatAssoc<T>(a: seq<T>, b: seq<T>, c: seq<T>)
    ensures (a + b) + c == a + (b + c)
  {
  }

  lemma ConsAssoc<T>(x: T, b: seq<T>, r: seq<T>)
    ensures ([x] + b) + r == [x] + (b + r)
  {
  }

  /** Popping the top of a non-empty stack. */
  lemma PopStep(stack: seq<DirNode>, now: Ticks)
    requires |stack| > 0
    ensures StackEvents(stack, now)
      == [Poll] + (DirBody(stack[|stack| - 1], now) + StackEvents(stack[..|stack| - 1], now))
  {
    var top := stack[|stack| - 1];
    var b := DirBody(top, now);
    var r := StackEvents(stack[..|stack| - 1], now);
    assert StackEvents(stack, now) == DirEvents(top, now) + r;
    assert DirEvents(top, now) == [Poll] + b;
    ConsAssoc(Poll, b, r);
  }

  /** A directory whose subdirectories are listed pushes them, and then lists
      and reads its files. */
  lemma PushStep(d: DirNode, rest: seq<DirNode>, now: Ticks)
    requires d.subdirsFault.None?
    ensures DirBody(d, now) + StackEvents(rest, now) == FilesPart(d, now) + StackEvents(rest + d.subdirs, now)
    ensures |StackEvents(rest + d.subdirs, now)| <= |DirBody(d, now) + StackEvents(rest, now)|
  {
    StackEventsAppend(rest, d.subdirs, now);
  }

  lemma RunPoll(rest: seq<Event>, k: nat, cancel: Option<nat>)
    ensures Run([Poll] + rest, k, cancel) == if Cancelled(cancel, k) then Success([]) else Run(rest, k + 1, cancel)
  {
    assert ([Poll] + rest)[1..] == rest;
  }

  lemma RunEmit(e: Entry, rest: seq<Event>, k: nat, cancel: Option<nat>)
    ensures Run([Emit(e)] + rest, k, cancel) == PrependAll([e], Run(rest, k, cancel))
  {
    assert ([Emit(e)] + rest)[1..] == rest;
  }

  lemma RunCrash(f: Fault, rest: seq<Event>, k: nat, cancel: Option<nat>)
    ensures Run([Crash(f)] + rest, k, cancel) == Failure(f)
  {
  }

  /** The events from file `i` on, split at that file. */
  lemma FileEventsAt(files: seq<FileNode>, i: nat, now: Ticks, rest: seq<Event>)
    requires i < |files|
    ensures FileEvents(files[i..], now) + rest
      == [Poll] + (FileEvent(files[i], now) + (FileEvents(files[i + 1..], now) + rest))
  {
    var fs := files[i..];
    assert fs[0] == files[i] && fs[1..] == files[i + 1..];
    FileEventsCons(fs, now);
    var a := FileEvent(files[i], now);
    var b := FileEvents(files[i + 1..], now);
    ConcatAssoc([Poll], a + b, rest);
    ConcatAssoc(a, b, rest);
  }

  /** One iteration of the file loop: poll the token, then read the file's
      metadata. `tail` is the events of everything after this file. */
  method ReadOne(f: FileNode, now: Ticks, cancel: Option<nat>, k: nat, ghost tail: seq<Event>)
    returns (out: seq<Entry>, polls: nat, stopped: bool, fault: Option<Fault>)
    ensures stopped ==> fault.None? && Cancelled(cancel, k) && polls == k
    ensures stopped ==> Run([Poll] + (FileEvent(f, now) + tail), k, cancel) == Success([])
    ensures fault.Some? ==> Run([Poll] + (FileEvent(f, now) + tail), k, cancel) == Failure(fault.value)
    ensures !stopped && fault.None? ==>
      polls == k + 1 && Run([Poll] + (FileEvent(f, now) + tail), k, cancel) == PrependAll(out, Run(tail, polls, cancel))
  {
    RunPoll(FileEvent(f, now) + tail, k, cancel);
    if Cancelled(cancel, k) {
      return [], k, true, None;
    }
    polls, stopped := k + 1, false;
    if f.readFault.Some? {
      if !CaughtForFile(f.readFault.value) {
        RunCrash(f.readFault.value, tail, polls, cancel);
        return [], polls, false, f.readFault;
      }
      assert FileEvent(f, now) + tail == tail;
      PrependAllEmpty(Run(tail, polls, cancel));
      return [], polls, false, None;
    }
    RunEmit(Inspect(f, now), tail, polls, cancel);
    out, fault := [Inspect(f, now)], None;
  }

  /** The file loop of one directory (the inner `foreach`), with `rest` the
      events of the iterations still on the stack. It stops early at a poll
      that reports cancellation, or when an uncaught exception escapes. */
  method ReadFiles(files: seq<FileNode>, now: Ticks, cancel: Option<nat>, polls0: nat, ghost rest: seq<Event>)
    returns (emitted: seq<Entry>, polls: nat, stopped: bool, fault: Option<Fault>)
    ensures polls >= polls0
    ensures fault.Some? ==> Run(FileEvents(files, now) + rest, polls0, cancel) == Failure(fault.value)
    ensures fault.None? && stopped ==>
      Cancelled(cancel, polls) && Run(FileEvents(files, now) + rest, polls0, cancel) == Success(emitted)
    ensures fault.None? && !stopped ==>
      Run(FileEvents(files, now) + rest, polls0, cancel) == PrependAll(emitted, Run(rest, polls, cancel))
  {
    ghost var goal := Run(FileEvents(files, now) + rest, polls0, cancel);
    emitted, polls, stopped, fault := [], polls0, false, None;
    var i := 0;
    assert files[i..] == files;
    PrependAllEmpty(goal);
    while i < |files|
      invariant 0 <= i <= |files| && polls >= polls0
      invariant PrependAll(emitted, Run(FileEvents(files[i..], now) + rest, polls, cancel)) == goal
    {
      ghost var tail := FileEvents(files[i + 1..], now) + rest;
      FileEventsAt(files, i, now, rest);
      var out, next, halted, failed := ReadOne(files[i], now, cancel, polls, tail);
      if halted {
        PrependAllEmptyTail(emitted);
        stopped := true;
        return;
      }
      if failed.Some? {
        fault := failed;
        return;
      }
      PrependAllAssoc(emitted, out, Run(tail, next, cancel));
      emitted, polls := emitted + out, next;
      i := i + 1;
    }
    assert FileEvents(files[i..], now) + rest == rest;
  }

  /** The outer loop of `AnalyzeFolder`, up to (not including) the duplicate
      pass. */
  method Walk(root: DirNode, now: Ticks, cancel: Option<nat>) returns (r: Result<seq<Entry>, Fault>)
    ensures r == Run(DirEvents(root, now), 0, cancel)
    ensures cancel.None? && Tolerable(root) ==> r == Success(InspectAll(Collected(root), now))
  {
    ghost var goal := Run(DirEvents(root, now), 0, cancel);
    var results: seq<Entry> := [];
    var folders: seq<DirNode> := [root];
    var polls: nat := 0;
    assert StackEvents(folders, now) == DirEvents(root, now) + StackEvents([], now);
    assert StackEvents(folders, now) == DirEvents(root, now);
    assert PrependAll([], goal) == goal by {
      if goal.Success? {
        assert [] + goal.value == goal.value;
      }
    }
    if cancel.None? && Tolerable(root) {
      WalkOfTolerableTree(root, 0, now);
    }
    while |folders| > 0
      invariant PrependAll(results, Run(StackEvents(folders, now), polls, cancel)) == goal
      decreases |StackEvents(folders, now)|
    {
      var current := folders[|folders| - 1];
      var rest := folders[..|folders| - 1];
      ghost var remaining := DirBody(current, now) + StackEvents(rest, now);
      PopStep(folders, now);
      RunPoll(remaining, polls, cancel);
      if Cancelled(cancel, polls) {
        PrependAllEmptyTail(results);
        break;
      }
      polls := polls + 1;
      folders := rest;
      if current.subdirsFault.Some? {
        if CaughtForDirectory(current.subdirsFault.value) {
          assert remaining == StackEvents(rest, now);
          continue;
        }
        RunCrash(current.subdirsFault.value, StackEvents(rest, now), polls, cancel);
        return Failure(current.subdirsFault.value);
      }
      folders := rest + current.subdirs;
      PushStep(current, rest, now);
      if current.filesFault.Some? {
        if CaughtForDirectory(current.filesFault.value) {
          assert remaining == StackEvents(folders, now);
          continue;
        }
        RunCrash(current.filesFault.value, StackEvents(folders, now), polls, cancel);
        return Failure(current.filesFault.value);
      }
      var emitted, polls', stopped, fault := ReadFiles(current.files, now, cancel, polls, StackEvents(folders, now));
      if fault.Some? {
        return Failure(fault.value);
      }
      if stopped {
        CancelledStackRunsEmpty(folders, polls', cancel, now);
        PrependAllEmptyTail(results + emitted);
      } else {
        PrependAllAssoc(results, emitted, Run(StackEvents(folders, now), polls', cancel));
      }
      results, polls := results + emitted, polls';
    }
    PrependAllEmptyTail(results);
    r := Success(results);
  }

  // ---------------------------------------------------------------------------
  // What a walk without cancellation collects
  // ---------------------------------------------------------------------------

  /** Every failure in the tree is one the walk catches. Below a directory whose
      subdirectories cannot be listed nothing is looked at. */
  predicate Tolerable(d: DirNode)
    decreases d
  {
    match d.subdirsFault
    case Some(x) => CaughtForDirectory(x)
    case None =>
      && (match d.filesFault
          case Some(x) => CaughtForDirectory(x)
          case None => forall i :: 0 <= i < |d.files| && d.files[i].readFault.Some? ==> CaughtForFile(d.files[i].readFault.value))
      && forall i :: 0 <= i < |d.subdirs| ==> Tolerable(d.subdirs[i])
  }

  /** The files whose metadata can be read. */
  function Readable(fs: seq<FileNode>): (r: seq<FileNode>)
    ensures forall i :: 0 <= i < |r| ==> r[i].readFault.None?
    ensures forall f :: multiset(r)[f] == if f.readFault.None? then multiset(fs)[f] else 0
    decreases |fs|
  {
    if |fs| == 0 then []
    else
      assert fs == [fs[0]] + fs[1..];
      (if fs[0].readFault.None? then [fs[0]] else []) + Readable(fs[1..])
  }

  /** The filter keeps order: the readable files of a concatenation are those
      of the first part followed by those of the second. */
  lemma {:induction false} ReadableAppend(a: seq<FileNode>, b: seq<FileNode>)
    ensures Readable(a + b) == Readable(a) + Readable(b)
    decreases |a|
  {
    if |a| == 0 {
      assert a + b == b;
    } else {
      assert (a + b)[1..] == a[1..] + b;
      ReadableAppend(a[1..], b);
    }
  }

  /** The files the walk emits entries for, in the order it emits them. */
  function Collected(d: DirNode): seq<FileNode>
    decreases d, 1
  {
    if d.subdirsFault.Some? then []
    else (if d.filesFault.Some? then [] else Readable(d.files)) + CollectedStack(d.subdirs)
  }

  function CollectedStack(stack: seq<DirNode>): seq<FileNode>
    decreases stack, 0
  {
    if |stack| == 0 then []
    else Collected(stack[|stack| - 1]) + CollectedStack(stack[..|stack| - 1])
  }

  /** Without cancellation the poll count is irrelevant, and running a
      concatenation runs the first part and then the second. */
  lemma {:induction false} RunAppend(a: seq<Event>, b: seq<Event>, k: nat, k': nat)
    ensures Run(a + b, k, None) == match Run(a, k, None)
      case Success(xs) => PrependAll(xs, Run(b, k', None))
      case Failure(f) => Failure(f)
    decreases |a|
  {
    if |a| == 0 {
      assert a + b == b;
      RunIgnoresPolls(b, k, k');
      PrependAllEmpty(Run(b, k', None));
    } else {
      assert (a + b)[1..] == a[1..] + b;
      match a[0]
      case Poll => RunAppend(a[1..], b, k + 1, k');
      case Emit(e) =>
        RunAppend(a[1..], b, k, k');
        if Run(a[1..], k, None).Success? {
          PrependAllAssoc([e], Run(a[1..], k, None).value, Run(b, k', None));
        }
      case Crash(f) =>
    }
  }

  lemma {:induction false} RunIgnoresPolls(evs: seq<Event>, k: nat, k': nat)
    ensures Run(evs, k, None) == Run(evs, k', None)
    decreases |evs|
  {
    if |evs| > 0 {
      RunIgnoresPolls(evs[1..], k + 1, k' + 1);
      RunIgnoresPolls(evs[1..], k, k');
    }
  }

  lemma {:induction false} FileEventsTolerable(fs: seq<FileNode>, k: nat, now: Ticks)
    requires forall i :: 0 <= i < |fs| && fs[i].readFault.Some? ==> CaughtForFile(fs[i].readFault.value)
    ensures Run(FileEvents(fs, now), k, None) == Success(InspectAll(Readable(fs), now))
    decreases |fs|
  {
    if |fs| > 0 {
      var tail := FileEvents(fs[1..], now);
      FileEventsCons(fs, now);
      RunPoll(FileEvent(fs[0], now) + tail, k, None);
      FileEventsTolerable(fs[1..], k + 1, now);
      if fs[0].readFault.None? {
        var x := Inspect(fs[0], now);
        RunEmit(x, tail, k + 1, None);
        InspectAllCons(fs[0], Readable(fs[1..]), now);
      } else {
        assert FileEvent(fs[0], now) + tail == tail;
        assert Readable(fs) == [] + Readable(fs[1..]) == Readable(fs[1..]);
      }
    }
  }

  lemma FileEventsCons(fs: seq<FileNode>, now: Ticks)
    requires |fs| > 0
    ensures FileEvents(fs, now) == [Poll] + (FileEvent(fs[0], now) + FileEvents(fs[1..], now))
  {
    ConsAssoc(Poll, FileEvent(fs[0], now), FileEvents(fs[1..], now));
  }

  lemma InspectAllCons(f: FileNode, fs: seq<FileNode>, now: Ticks)
    ensures InspectAll([f] + fs, now) == [Inspect(f, now)] + InspectAll(fs, now)
  {
  }

  /** A walk without cancellation over a tree whose failures are all caught
      succeeds and emits one entry per collected file, in order. */
  lemma {:induction false} WalkOfTolerableTree(d: DirNode, k: nat, now: Ticks)
    requires Tolerable(d)
    ensures Run(DirEvents(d, now), k, None) == Success(InspectAll(Collected(d), now))
    decreases d, 1
  {
    RunPoll(DirBody(d, now), k, None);
    if d.subdirsFault.None? {
      RunAppend(FilesPart(d, now), StackEvents(d.subdirs, now), k + 1, k + 1);
      WalkOfTolerableStack(d.subdirs, k + 1, now);
      if d.filesFault.None? {
        FileEventsTolerable(d.files, k + 1, now);
      }
      InspectAllAppend(if d.filesFault.Some? then [] else Readable(d.files), CollectedStack(d.subdirs), now);
    }
  }

  lemma {:induction false} WalkOfTolerableStack(stack: seq<DirNode>, k: nat, now: Ticks)
    requires forall i :: 0 <= i < |stack| ==> Tolerable(stack[i])
    ensures Run(StackEvents(stack, now), k, None) == Success(InspectAll(CollectedStack(stack), now))
    decreases stack, 0
  {
    if |stack| > 0 {
      var top := stack[|stack| - 1];
      var rest := stack[..|stack| - 1];
      WalkOfTolerableTree(top, k, now);
      WalkOfTolerableStack(rest, k, now);
      RunAppend(DirEvents(top, now), StackEvents(rest, now), k, k);
      InspectAllAppend(Collected(top), CollectedStack(rest), now);
    }
  }

  // ---------------------------------------------------------------------------
  // Every file once; skip and continue
  // ---------------------------------------------------------------------------

  /** No enumeration or metadata read anywhere in the tree fails. */
  predicate NoFaults(d: DirNode)
    decreases d
  {
    && d.subdirsFault.None?
    && d.filesFault.None?
    && (forall i :: 0 <= i < |d.files| ==> d.files[i].readFault.None?)
    && forall i :: 0 <= i < |d.subdirs| ==> NoFaults(d.subdirs[i])
  }

  /** Every file of the tree, in plain pre-order: a directory's own files, then
      its subdirectories first to last. */
  function AllFiles(d: DirNode): seq<FileNode>
    decreases d, 1
  {
    d.files + AllFilesOf(d.subdirs)
  }

  function AllFilesOf(ds: seq<DirNode>): seq<FileNode>
    decreases ds, 0
  {
    if |ds| == 0 then [] else AllFilesOf(ds[..|ds| - 1]) + AllFiles(ds[|ds| - 1])
  }

  lemma {:induction false} NoFaultsIsTolerable(d: DirNode)
    requires NoFaults(d)
    ensures Tolerable(d)
    decreases d
  {
    forall i | 0 <= i < |d.subdirs|
      ensures Tolerable(d.subdirs[i])
    {
      NoFaultsIsTolerable(d.subdirs[i]);
    }
  }

  lemma {:induction false} ReadableOfReadable(fs: seq<FileNode>)
    requires forall i :: 0 <= i < |fs| ==> fs[i].readFault.None?
    ensures Readable(fs) == fs
    decreases |fs|
  {
    if |fs| > 0 {
      ReadableOfReadable(fs[1..]);
      assert fs == [fs[0]] + fs[1..];
    }
  }

  /** With no failures the walk collects every file of the tree exactly as
      often as it occurs there: the stack order differs from pre-order, the
      multiset does not. */
  lemma {:induction false} CollectsEveryFile(d: DirNode)
    requires NoFaults(d)
    ensures multiset(Collected(d)) == multiset(AllFiles(d))
    decreases d, 1
  {
    ReadableOfReadable(d.files);
    CollectsEveryFileOf(d.subdirs);
  }

  lemma {:induction false} CollectsEveryFileOf(ds: seq<DirNode>)
    requires forall i :: 0 <= i < |ds| ==> NoFaults(ds[i])
    ensures multiset(CollectedStack(ds)) == multiset(AllFilesOf(ds))
    decreases ds, 0
  {
    if |ds| > 0 {
      CollectsEveryFile(ds[|ds| - 1]);
      CollectsEveryFileOf(ds[..|ds| - 1]);
    }
  }

  /** A walk without failures or cancellation succeeds with one entry per file
      of the tree, each file as many times as it occurs. */
  lemma EveryFileOnce(root: DirNode, now: Ticks)
    requires NoFaults(root)
    ensures Run(DirEvents(root, now), 0, None) == Success(InspectAll(Collected(root), now))
    ensures multiset(Collected(root)) == multiset(AllFiles(root))
  {
    NoFaultsIsTolerable(root);
    WalkOfTolerableTree(root, 0, now);
    CollectsEveryFile(root);
  }

  /** When the subdirectories of a directory cannot be listed, nothing below it
      is visited: its iteration is a single poll. */
  lemma SubdirListingFailureLosesSubtree(d: DirNode, now: Ticks)
    requires d.subdirsFault.Some? && CaughtForDirectory(d.subdirsFault.value)
    ensures DirEvents(d, now) == [Poll]
    ensures Collected(d) == []
  {
  }

  /** When only the files cannot be listed, the subdirectories were already
      pushed and are walked as usual. */
  lemma FileListingFailureKeepsSubdirs(d: DirNode, now: Ticks)
    requires d.subdirsFault.None?
    requires d.filesFault.Some? && CaughtForDirectory(d.filesFault.value)
    ensures DirEvents(d, now) == [Poll] + StackEvents(d.subdirs, now)
    ensures Collected(d) == CollectedStack(d.subdirs)
  {
    assert [] + StackEvents(d.subdirs, now) == StackEvents(d.subdirs, now);
    assert [] + CollectedStack(d.subdirs) == CollectedStack(d.subdirs);
  }

  lemma {:induction false} CollectedStackContains(ds: seq<DirNode>, i: nat)
    requires i < |ds|
    ensures multiset(Collected(ds[i])) <= multiset(CollectedStack(ds))
    decreases |ds|
  {
    if i < |ds| - 1 {
      CollectedStackContains(ds[..|ds| - 1], i);
    }
  }

  /** Skip and continue: the files a listed subdirectory collects are all
      collected by its parent, whatever its siblings do. */
  lemma SubdirectoryStillCollected(d: DirNode, i: nat)
    requires d.subdirsFault.None? && i < |d.subdirs|
    ensures multiset(Collected(d.subdirs[i])) <= multiset(Collected(d))
  {
    CollectedStackContains(d.subdirs, i);
  }

  /** The scenario of one unreadable subdirectory among readable ones: the
      walk succeeds, and every file of every other subdirectory gets its
      entry. */
  lemma OneUnreadableSubdirectory(root: DirNode, bad: nat, now: Ticks)
    requires root.subdirsFault.None? && root.filesFault.None?
    requires forall i :: 0 <= i < |root.files| ==> root.files[i].readFault.None?
    requires bad < |root.subdirs| && root.subdirs[bad].subdirsFault == Some(Unauthorized)
    requires forall i :: 0 <= i < |root.subdirs| && i != bad ==> NoFaults(root.subdirs[i])
    ensures Run(DirEvents(root, now), 0, None) == Success(InspectAll(Collected(root), now))
    ensures Collected(root.subdirs[bad]) == []
    ensures forall i :: 0 <= i < |root.subdirs| && i != bad ==>
      multiset(AllFiles(root.subdirs[i])) <= multiset(Collected(root))
  {
    forall i | 0 <= i < |root.subdirs|
      ensures Tolerable(root.subdirs[i])
    {
      if i != bad {
        NoFaultsIsTolerable(root.subdirs[i]);
      }
    }
    WalkOfTolerableTree(root, 0, now);
    forall i | 0 <= i < |root.subdirs| && i != bad
      ensures multiset(AllFiles(root.subdirs[i])) <= multiset(Collected(root))
    {
      CollectsEveryFile(root.subdirs[i]);
      SubdirectoryStillCollected(root, i);
    }
  }

  // ---------------------------------------------------------------------------
  // Cancellation
  // ---------------------------------------------------------------------------

  /** Cancellation cuts the walk short: whenever the uncancelled walk
      succeeds, the cancelled one succeeds too, with a prefix of its entries. */
  lemma {:induction false} CancellationYieldsPrefix(evs: seq<Event>, k: nat, n: nat)
    requires Run(evs, k, None).Success?
    ensures Run(evs, k, Some(n)).Success?
    ensures Run(evs, k, Some(n)).value <= Run(evs, k, None).value
    decreases |evs|
  {
    if |evs| > 0 {
      match evs[0]
      case Poll =>
        if !Cancelled(Some(n), k) {
          RunIgnoresPolls(evs[1..], k + 1, k);
          CancellationYieldsPrefix(evs[1..], k + 1, n);
        }
      case Emit(e) =>
        CancellationYieldsPrefix(evs[1..], k, n);
      case Crash(f) =>
    }
  }

  /** A token cancelled before the walk starts yields no entries. */
  lemma CancelledBeforeStart(root: DirNode, now: Ticks)
    ensures Run(DirEvents(root, now), 0, Some(0)) == Success([])
  {
    RunPoll(DirBody(root, now), 0, Some(0));
  }
}
