/** The first-match-wins rule set that gives a freshly read entry its initial
    category and reason (`FileAnalyzer.Classify`). */
module Classifier {
  import opened Wrappers
  import opened Text
  import opened Clock
  import opened Models

  const OldAccessThreshold: int := Days(365)
  const MediumAccessThreshold: int := Days(180)
  const LargeFileThreshold: int := 100 * 1024 * 1024

  /** The temporary extensions, each written in lower case, so that membership
      of a folded extension is the case-insensitive lookup. */
  const TemporaryExtensions: set<string> := {".tmp", ".log", ".bak", ".old", ".cache"}

  const TemporaryReason: string := "Temporary or cache-style extension."
  const OldReason: string := "Not accessed for over a year."
  const LargeReason: string := "Large file not opened in over six months."
  const RecentReason: string := "Recent activity or insufficient data."

  /** The four reasons the classifier can give, each with the one category it
      comes with. */
  const ReasonCategory: map<string, Category> := map[
    TemporaryReason := LikelySafe,
    OldReason := LikelySafe,
    LargeReason := BeCareful,
    RecentReason := DoNotDelete]

  /** Membership in the temporary set under `StringComparer.OrdinalIgnoreCase`. */
  predicate IsTemporary(extension: string) {
    Fold(extension) in TemporaryExtensions
  }

  /** `LastAccessed ?? LastModified`. */
  function EffectiveAccess(e: Entry): Ticks {
    match e.lastAccessed
    case Some(t) => t
    case None => e.lastModified
  }

  /** `currentTime - lastAccess` as a `TimeSpan` in ticks; negative for a
      timestamp in the future. */
  function Age(e: Entry, now: Ticks): int {
    now - EffectiveAccess(e)
  }

  datatype Judgement = Judgement(category: Category, reason: string)

  /** The ordered rules, on the three quantities they read. */
  function Judge(temporary: bool, age: int, size: int): (j: Judgement)
    ensures j.reason in ReasonCategory && ReasonCategory[j.reason] == j.category
    ensures j.category == LikelySafe <==> temporary || age >= OldAccessThreshold
    ensures j.category == BeCareful <==>
      !temporary && MediumAccessThreshold <= age < OldAccessThreshold && size >= LargeFileThreshold
    ensures temporary ==> j.reason == TemporaryReason
  {
    if temporary then Judgement(LikelySafe, TemporaryReason)
    else if age >= OldAccessThreshold then Judgement(LikelySafe, OldReason)
    else if age >= MediumAccessThreshold && size >= LargeFileThreshold then Judgement(BeCareful, LargeReason)
    else Judgement(DoNotDelete, RecentReason)
  }

  /** Classifies one entry: the init-only fields are kept, and the category and
      reason are set together to one of the four fixed pairs. */
  function Classify(e: Entry, now: Ticks): (r: Entry)
    ensures SameFacts(r, e)
    ensures r.reason in ReasonCategory && ReasonCategory[r.reason] == r.category
    ensures r.reason != ""
  {
    var j := Judge(IsTemporary(e.extension), Age(e, now), e.sizeInBytes);
    Reclassify(e, j.category, j.reason)
  }

  /** Rule 1: a temporary extension, in any letter case, is likely safe
      whatever the age or size. */
  lemma TemporaryExtensionIsSafe(e: Entry, now: Ticks)
    requires IsTemporary(e.extension)
    ensures Classify(e, now).category == LikelySafe
    ensures Classify(e, now).reason == TemporaryReason
  {
  }

  lemma TemporaryExtensionCaseInsensitive()
    ensures IsTemporary(".LOG") && IsTemporary(".Tmp") && IsTemporary(".CACHE")
    ensures !IsTemporary(".logs") && !IsTemporary("log") && !IsTemporary("")
  {
    assert Fold(".LOG") == ".log";
    assert Fold(".Tmp") == ".tmp";
    assert Fold(".CACHE") == ".cache";
    assert Fold(".logs") == ".logs";
    assert Fold("log") == "log";
  }

  /** Rule 2: otherwise, a year without access is likely safe. */
  lemma OldFileIsSafe(e: Entry, now: Ticks)
    requires !IsTemporary(e.extension)
    requires Age(e, now) >= Days(365)
    ensures Classify(e, now).category == LikelySafe
    ensures Classify(e, now).reason == OldReason
  {
  }

  /** Rule 3: otherwise, half a year without access and at least 100 MiB needs
      caution. */
  lemma LargeMediumAgedFileNeedsCaution(e: Entry, now: Ticks)
    requires !IsTemporary(e.extension)
    requires Days(180) <= Age(e, now) < Days(365)
    requires e.sizeInBytes >= 100 * 1024 * 1024
    ensures Classify(e, now).category == BeCareful
    ensures Classify(e, now).reason == LargeReason
  {
  }

  /** The size threshold is inclusive: exactly 100 MiB needs caution, one byte
      less is kept. */
  lemma SizeThresholdBoundary(e: Entry, now: Ticks)
    requires !IsTemporary(e.extension)
    requires Days(180) <= Age(e, now) < Days(365)
    ensures e.sizeInBytes == 104_857_600 ==> Classify(e, now).category == BeCareful
    ensures e.sizeInBytes == 104_857_599 ==> Classify(e, now).category == DoNotDelete
  {
  }

  /** Each category, characterised in both directions by the rules' inputs. */
  lemma CategoryCharacterisation(e: Entry, now: Ticks)
    ensures Classify(e, now).category == LikelySafe <==>
      IsTemporary(e.extension) || Age(e, now) >= OldAccessThreshold
    ensures Classify(e, now).category == BeCareful <==>
      && !IsTemporary(e.extension)
      && MediumAccessThreshold <= Age(e, now) < OldAccessThreshold
      && e.sizeInBytes >= LargeFileThreshold
    ensures Classify(e, now).category == DoNotDelete <==>
      && !IsTemporary(e.extension)
      && Age(e, now) < OldAccessThreshold
      && (Age(e, now) < MediumAccessThreshold || e.sizeInBytes < LargeFileThreshold)
  {
  }

  /** How cautious a category is: 0 for likely safe, 2 for do-not-delete. */
  function Caution(c: Category): nat {
    match c
    case LikelySafe => 0
    case BeCareful => 1
    case DoNotDelete => 2
  }

  /** An older effective access never makes the verdict more cautious. */
  lemma OlderIsNeverMoreCautious(temporary: bool, age1: int, age2: int, size: int)
    requires age1 <= age2
    ensures Caution(Judge(temporary, age2, size).category) <= Caution(Judge(temporary, age1, size).category)
  {
  }

  /** A larger file never gets a more cautious verdict. */
  lemma LargerIsNeverMoreCautious(temporary: bool, age: int, size1: int, size2: int)
    requires size1 <= size2
    ensures Caution(Judge(temporary, age, size2).category) <= Caution(Judge(temporary, age, size1).category)
  {
  }

  /** The verdict depends on the init-only fields only, so classifying again
      changes nothing. */
  lemma ClassifyIdempotent(e: Entry, now: Ticks)
    ensures Classify(Classify(e, now), now) == Classify(e, now)
  {
  }

  lemma ClassifyIgnoresPriorJudgement(a: Entry, b: Entry, now: Ticks)
    requires SameFacts(a, b)
    ensures Classify(a, now) == Classify(b, now)
  {
  }

  /** The concrete scenarios: `a.log` of any age and size is a temporary file;
      `report.csv`, written 400 days ago with no access time, is stale. */
  lemma Scenarios(size: Long, written: Ticks, now: Ticks)
    requires now - written == Days(400)
    ensures Classify(NewEntry("a.log", "C:\\a.log", size, written, None, ".log"), now)
      == Reclassify(NewEntry("a.log", "C:\\a.log", size, written, None, ".log"), LikelySafe, TemporaryReason)
    ensures Classify(NewEntry("report.csv", "C:\\report.csv", size, written, None, ".csv"), now)
      == Reclassify(NewEntry("report.csv", "C:\\report.csv", size, written, None, ".csv"), LikelySafe, OldReason)
  {
    assert Fold(".log") == ".log";
    assert Fold(".csv") == ".csv";
  }
}
