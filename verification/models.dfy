/** The record the analyzer produces for each inspected file, its category, and
    the display mappings the results grid and the report use. */
module Models {
  import opened Wrappers
  import opened Text
  import opened Clock

  /** How the analyzer classifies each file. The first constructor is the
      enum's default value. */
  datatype Category = LikelySafe | BeCareful | DoNotDelete

  /** A signed 64-bit integer (`long`). */
  type Long = x: int | -0x8000_0000_0000_0000 <= x <= 0x7FFF_FFFF_FFFF_FFFF

  /** One analysed file. Every field but `category` and `reason` is init-only:
      it is fixed when the entry is created and only read afterwards. */
  datatype Entry = Entry(
    fileName: string,
    fullPath: string,
    sizeInBytes: Long,
    lastModified: Ticks,
    lastAccessed: Option<Ticks>,
    extension: string,
    category: Category,
    reason: string)

  /** Two entries describe the same file: every init-only field agrees. */
  predicate SameFacts(a: Entry, b: Entry) {
    && a.fileName == b.fileName
    && a.fullPath == b.fullPath
    && a.sizeInBytes == b.sizeInBytes
    && a.lastModified == b.lastModified
    && a.lastAccessed == b.lastAccessed
    && a.extension == b.extension
  }

  /** An object initialiser that sets the init-only fields: the settable ones
      keep their defaults, the enum's first value and the empty reason. */
  function NewEntry(fileName: string, fullPath: string, sizeInBytes: Long,
                    lastModified: Ticks, lastAccessed: Option<Ticks>, extension: string): (e: Entry)
    ensures e.fileName == fileName && e.fullPath == fullPath && e.sizeInBytes == sizeInBytes
    ensures e.lastModified == lastModified && e.lastAccessed == lastAccessed && e.extension == extension
    ensures e.category == LikelySafe && e.reason == ""
  {
    Entry(fileName, fullPath, sizeInBytes, lastModified, lastAccessed, extension, LikelySafe, "")
  }

  /** `new FileAnalysisResult()`: every string empty, every number zero,
      no access time, the default category. */
  function DefaultEntry(): (e: Entry)
    ensures e.fileName == "" && e.fullPath == "" && e.extension == "" && e.reason == ""
    ensures e.sizeInBytes == 0 && e.lastModified == MinTicks && e.lastAccessed.None?
    ensures e.category == LikelySafe
  {
    NewEntry("", "", 0, MinTicks, None, "")
  }

  /** Assigning the two settable properties. */
  function Reclassify(e: Entry, category: Category, reason: string): (r: Entry)
    ensures SameFacts(r, e)
    ensures r.category == category && r.reason == reason
  {
    e.(category := category, reason := reason)
  }

  // ---------------------------------------------------------------------------
  // CategoryDescription
  // ---------------------------------------------------------------------------

  function CategoryDescription(c: Category): (s: string)
    ensures s != "Unknown"
  {
    match c
    case LikelySafe => "Likely Safe to Delete"
    case BeCareful => "Be Careful"
    case DoNotDelete => "Do Not Delete"
  }

  /** Reading a label back; `None` for any string that is not one of the three. */
  function CategoryFromDescription(s: string): Option<Category> {
    if s == "Likely Safe to Delete" then Some(LikelySafe)
    else if s == "Be Careful" then Some(BeCareful)
    else if s == "Do Not Delete" then Some(DoNotDelete)
    else None
  }

  /** The three labels are distinct: the label alone identifies the category. */
  lemma CategoryDescriptionRoundTrip(c: Category)
    ensures CategoryFromDescription(CategoryDescription(c)) == Some(c)
  {
  }

  lemma CategoryDescriptionInjective(c: Category, d: Category)
    requires CategoryDescription(c) == CategoryDescription(d)
    ensures c == d
  {
    CategoryDescriptionRoundTrip(c);
    CategoryDescriptionRoundTrip(d);
  }

  /** No label carries a character that would need quoting in a CSV field. */
  lemma CategoryDescriptionPlain(c: Category)
    ensures forall i :: 0 <= i < |CategoryDescription(c)| ==>
      CategoryDescription(c)[i] != ',' && CategoryDescription(c)[i] != '"'
  {
  }

  // ---------------------------------------------------------------------------
  // LastAccessedDescription
  // ---------------------------------------------------------------------------

  const Unavailable: string := "Unavailable"

  function LastAccessedDescription(e: Entry): (s: string)
    ensures s == Unavailable <==> e.lastAccessed.None?
    ensures e.lastAccessed.Some? ==> |s| == 10
  {
    match e.lastAccessed
    case Some(t) => DateText(t)
    case None => Unavailable
  }

  // ---------------------------------------------------------------------------
  // SizeDescription: the unit choice
  // ---------------------------------------------------------------------------

  datatype SizeUnit = B | KB | MB | GB

  /** Bytes per unit. */
  function Scale(u: SizeUnit): int {
    match u
    case B => 1
    case KB => 1024
    case MB => 1_048_576
    case GB => 1_073_741_824
  }

  function Rank(u: SizeUnit): nat {
    match u
    case B => 0
    case KB => 1
    case MB => 2
    case GB => 3
  }

  /** The unit `SizeDescription` displays a size in: the largest unit the size
      reaches, so that the displayed number lies in [1, 1024) except in bytes
      (below 1024) and gigabytes (unbounded). */
  function UnitOf(size: Long): (u: SizeUnit)
    ensures u == B <==> size < 1024
    ensures u != B ==> Scale(u) <= size
    ensures u != GB ==> size < 1024 * Scale(u)
  {
    if size < 1024 then B
    else if size < 1_048_576 then KB
    else if size < 1_073_741_824 then MB
    else GB
  }

  /** A larger size never gets a smaller unit. */
  lemma UnitOfMonotonic(a: Long, b: Long)
    requires a <= b
    ensures Rank(UnitOf(a)) <= Rank(UnitOf(b))
  {
  }

  /** The exact text of the bytes case: the integer followed by " B". */
  function ByteSizeDescription(size: Long): (s: string)
    requires UnitOf(size) == B
    ensures |s| >= 3 && s[|s| - 2..] == " B"
    ensures ParseDecimal(s[..|s| - 2]) == Some(size as int)
  {
    DecimalRoundTrip(size);
    var s := Decimal(size) + " B";
    assert s[..|s| - 2] == Decimal(size);
    s
  }
}
