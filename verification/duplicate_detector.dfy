/** The second pass over the complete result list (`FileAnalyzer.EnrichDuplicates`):
    entries are grouped by case-insensitive file name; in every group the most
    recently modified member is kept and every other member is downgraded to
    `BeCareful` with a note appended to its reason.

    `OrderByDescending` is a stable sort, so among members with the same
    modification time the one earlier in the list comes first and is kept. */
module DuplicateDetector {
  import opened Text
  import opened Clock
  import opened Models

  const DuplicateSentence: string := "Older copy of a duplicate file name."

  /** Same group: the file names are equal under `OrdinalIgnoreCase`. */
  predicate SameName(a: Entry, b: Entry) {
    EqualsIgnoreCase(a.fileName, b.fileName)
  }

  /** Entry `i` comes no later than entry `j` in the stable descending order by
      modification time. */
  predicate OrderedBefore(rs: seq<Entry>, i: int, j: int)
    requires 0 <= i < |rs| && 0 <= j < |rs|
  {
    rs[i].lastModified > rs[j].lastModified || (rs[i].lastModified == rs[j].lastModified && i <= j)
  }

  /** Entry `i` is first in its group's stable descending order: the member the
      pass leaves untouched. */
  predicate Kept(rs: seq<Entry>, i: int)
    requires 0 <= i < |rs|
  {
    forall j :: 0 <= j < |rs| && SameName(rs[i], rs[j]) ==> OrderedBefore(rs, i, j)
  }

  /** The change made to every member but the first: the category is forced to
      `BeCareful` and the sentence is appended to the reason, or replaces a
      reason that is empty or white space only. */
  function Downgrade(e: Entry): (r: Entry)
    ensures SameFacts(r, e)
    ensures r.category == BeCareful
    ensures |r.reason| >= |DuplicateSentence| && r.reason[|r.reason| - |DuplicateSentence|..] == DuplicateSentence
    ensures !IsBlank(e.reason) ==> |r.reason| == |e.reason| + 1 + |DuplicateSentence|
    ensures !IsBlank(e.reason) ==> r.reason[..|e.reason|] == e.reason && r.reason[|e.reason|] == ' '
    ensures IsBlank(e.reason) ==> r.reason == DuplicateSentence
  {
    var reason := if IsBlank(e.reason) then DuplicateSentence else e.reason + " " + DuplicateSentence;
    Reclassify(e, BeCareful, reason)
  }

  /** A downgrade always changes the entry: its reason gains text or, if blank,
      is replaced by the sentence. */
  lemma DowngradeChanges(e: Entry)
    ensures Downgrade(e) != e
  {
    if IsBlank(e.reason) {
      assert !IsBlank(DuplicateSentence) by {
        assert !IsWhiteSpace(DuplicateSentence[0]);
      }
    }
  }

  lemma OrderedBeforeTransitive(rs: seq<Entry>, a: int, b: int, c: int)
    requires 0 <= a < |rs| && 0 <= b < |rs| && 0 <= c < |rs|
    requires OrderedBefore(rs, a, b) && OrderedBefore(rs, b, c)
    ensures OrderedBefore(rs, a, c)
  {
  }

  /** Left-to-right search for the first member of `rs[i]`'s group in stable
      descending order; `best` is the best member among `rs[..j]`. */
  function ScanFirst(rs: seq<Entry>, i: nat, j: nat, best: nat): (k: nat)
    requires i < |rs| && best < |rs| && j <= |rs|
    requires SameName(rs[best], rs[i])
    requires forall m :: 0 <= m < j && SameName(rs[m], rs[i]) ==> OrderedBefore(rs, best, m)
    ensures k < |rs| && SameName(rs[k], rs[i])
    ensures forall m :: 0 <= m < |rs| && SameName(rs[m], rs[i]) ==> OrderedBefore(rs, k, m)
    decreases |rs| - j
  {
    if j == |rs| then best
    else if SameName(rs[j], rs[i]) && !OrderedBefore(rs, best, j) then
      assert forall m :: 0 <= m < j + 1 && SameName(rs[m], rs[i]) ==> OrderedBefore(rs, j, m) by {
        forall m | 0 <= m < j + 1 && SameName(rs[m], rs[i])
          ensures OrderedBefore(rs, j, m)
        {
          if m < j {
            OrderedBeforeTransitive(rs, j, best, m);
          }
        }
      }
      ScanFirst(rs, i, j + 1, j)
    else
      ScanFirst(rs, i, j + 1, best)
  }

  /** The kept member of `rs[i]`'s group. */
  function Survivor(rs: seq<Entry>, i: nat): (k: nat)
    requires i < |rs|
    ensures k < |rs| && SameName(rs[k], rs[i]) && Kept(rs, k)
  {
    var k := ScanFirst(rs, i, 0, i);
    assert Kept(rs, k) by {
      forall m | 0 <= m < |rs| && SameName(rs[k], rs[m])
        ensures OrderedBefore(rs, k, m)
      {
      }
    }
    k
  }

  /** At most one member of a group is first in its order. */
  lemma KeptUnique(rs: seq<Entry>, a: nat, b: nat)
    requires a < |rs| && b < |rs|
    requires SameName(rs[a], rs[b])
    requires Kept(rs, a) && Kept(rs, b)
    ensures a == b
  {
    assert OrderedBefore(rs, a, b);
    assert OrderedBefore(rs, b, a);
  }

  lemma SurvivorIsSelfIffKept(rs: seq<Entry>, i: nat)
    requires i < |rs|
    ensures Survivor(rs, i) == i <==> Kept(rs, i)
  {
    if Kept(rs, i) {
      KeptUnique(rs, Survivor(rs, i), i);
    }
  }

  /** The pass at one position: the first member of its group is unchanged
      and every other member is downgraded. */
  function EnrichedAt(rs: seq<Entry>, i: nat): (r: Entry)
    requires i < |rs|
    ensures SameFacts(r, rs[i])
    ensures r == rs[i] <==> Kept(rs, i)
    ensures !Kept(rs, i) ==> r == Downgrade(rs[i])
  {
    SurvivorIsSelfIffKept(rs, i);
    DowngradeChanges(rs[i]);
    if Survivor(rs, i) == i then rs[i] else Downgrade(rs[i])
  }

  /** The pass: every entry keeps its position, and only its category and
      reason can change. Groups of one are the groups the source filters out;
      they are untouched because their only member is first. */
  function EnrichDuplicates(rs: seq<Entry>): (out: seq<Entry>)
    ensures |out| == |rs|
    ensures forall i :: 0 <= i < |rs| ==> SameFacts(out[i], rs[i])
    ensures forall i :: 0 <= i < |rs| ==> (out[i] == rs[i] <==> Kept(rs, i))
    ensures forall i :: 0 <= i < |rs| && !Kept(rs, i) ==> out[i] == Downgrade(rs[i])
  {
    seq(|rs|, i requires 0 <= i < |rs| => EnrichedAt(rs, i))
  }

  /** Every group has exactly one untouched member, and it is a latest-modified
      one; every other member is `BeCareful` with a reason ending in the
      duplicate sentence. */
  lemma ExactlyOneSurvivorPerGroup(rs: seq<Entry>, i: nat)
    requires i < |rs|
    ensures exists k :: 0 <= k < |rs| && SameName(rs[k], rs[i]) && EnrichDuplicates(rs)[k] == rs[k]
    ensures forall a, b ::
      (0 <= a < |rs| && 0 <= b < |rs| && SameName(rs[a], rs[i]) && SameName(rs[b], rs[i])
       && EnrichDuplicates(rs)[a] == rs[a] && EnrichDuplicates(rs)[b] == rs[b]) ==> a == b
    ensures forall k :: 0 <= k < |rs| && SameName(rs[k], rs[i]) && EnrichDuplicates(rs)[k] == rs[k] ==>
      forall j :: 0 <= j < |rs| && SameName(rs[j], rs[i]) ==> rs[j].lastModified <= rs[k].lastModified
    ensures forall k :: 0 <= k < |rs| && SameName(rs[k], rs[i]) && EnrichDuplicates(rs)[k] != rs[k] ==>
      EnrichDuplicates(rs)[k].category == BeCareful
  {
    var out := EnrichDuplicates(rs);
    var k := Survivor(rs, i);
    assert out[k] == rs[k];
    forall a, b | 0 <= a < |rs| && 0 <= b < |rs| && SameName(rs[a], rs[i]) && SameName(rs[b], rs[i])
      && out[a] == rs[a] && out[b] == rs[b]
      ensures a == b
    {
      KeptUnique(rs, a, b);
    }
  }

  /** A file whose name no other entry shares is left exactly as it was. */
  lemma UniqueNameUntouched(rs: seq<Entry>, i: nat)
    requires i < |rs|
    requires forall j :: 0 <= j < |rs| && j != i ==> !SameName(rs[j], rs[i])
    ensures EnrichDuplicates(rs)[i] == rs[i]
  {
    assert Kept(rs, i);
  }

  /** Only members of a group of two or more are ever changed. */
  lemma ChangedOnlyInSharedGroups(rs: seq<Entry>, i: nat)
    requires i < |rs|
    requires EnrichDuplicates(rs)[i] != rs[i]
    ensures exists j :: 0 <= j < |rs| && j != i && SameName(rs[j], rs[i])
  {
    if forall j :: 0 <= j < |rs| && j != i ==> !SameName(rs[j], rs[i]) {
      UniqueNameUntouched(rs, i);
    }
  }

  /** Whether an entry is first in its group depends only on the names and
      modification times of the list. */
  lemma KeptDependsOnKeys(a: seq<Entry>, b: seq<Entry>, i: nat)
    requires |a| == |b| && i < |a|
    requires forall j :: 0 <= j < |a| ==> a[j].fileName == b[j].fileName && a[j].lastModified == b[j].lastModified
    ensures Kept(a, i) <==> Kept(b, i)
  {
    forall j | 0 <= j < |a|
      ensures SameName(a[i], a[j]) == SameName(b[i], b[j])
      ensures OrderedBefore(a, i, j) == OrderedBefore(b, i, j)
    {
    }
  }

  /** The pass touches neither names nor modification times, so running it
      again picks the same survivors. */
  lemma SurvivorsStable(rs: seq<Entry>, i: nat)
    requires i < |rs|
    ensures Kept(EnrichDuplicates(rs), i) <==> Kept(rs, i)
  {
    var out := EnrichDuplicates(rs);
    forall j | 0 <= j < |out|
      ensures out[j].fileName == rs[j].fileName && out[j].lastModified == rs[j].lastModified
    {
      assert SameFacts(out[j], rs[j]);
    }
    KeptDependsOnKeys(out, rs, i);
  }

  /** The concrete scenario: two `data.csv` in different folders; the one
      written yesterday keeps its verdict, even `DoNotDelete`, and the one
      written ten days ago becomes `BeCareful` with the sentence appended. */
  lemma DataCsvScenario(now: Ticks, newer: Entry, older: Entry)
    requires newer.fileName == "data.csv" && older.fileName == "Data.csv"
    requires newer.lastModified == now - Days(1) && older.lastModified == now - Days(10)
    requires newer.category == DoNotDelete && older.reason == "Recent activity or insufficient data."
    ensures EnrichDuplicates([older, newer])[1] == newer
    ensures EnrichDuplicates([older, newer])[0].category == BeCareful
    ensures EnrichDuplicates([older, newer])[0].reason == older.reason + " " + DuplicateSentence
  {
    var rs := [older, newer];
    assert older.lastModified < newer.lastModified;
    assert SameName(older, newer) by {
      assert Fold(older.fileName)[0] == Fold(newer.fileName)[0];
    }
    assert !Kept(rs, 0) by {
      assert !OrderedBefore(rs, 0, 1);
    }
    assert Kept(rs, 1) by {
      assert OrderedBefore(rs, 1, 0) && OrderedBefore(rs, 1, 1);
    }
    assert !IsBlank(older.reason) by {
      assert !IsWhiteSpace(older.reason[0]);
    }
  }
}
