/** The CSV report the export command writes: a header line and one line per
    analysed file, with the file name and the reason quoted and their quotes
    doubled. The reader here follows the record grammar of section 2 of
    RFC 4180 and is the inverse the report lines are proved against. */
module Csv {
  import opened Wrappers
  import opened Text
  import opened Clock
  import opened Models

  /** The column names; the header line is these joined by commas. */
  const HeaderFields: seq<string> := ["File", "Size", "LastAccessed", "Category", "Reason"]
  const Header: string := Join(HeaderFields)

  /** A character that forces quoting, or that a plain field may not hold. */
  predicate Special(c: char) {
    c == ',' || c == '"'
  }

  predicate Plain(s: string) {
    forall i :: 0 <= i < |s| ==> !Special(s[i])
  }

  /** `Replace("\"", "\"\"")`: every quote doubled, everything else kept. */
  function Escape(s: string): (r: string)
    ensures |r| >= |s|
    ensures Plain(s) ==> r == s
    decreases |s|
  {
    if |s| == 0 then []
    else (if s[0] == '"' then "\"\"" else [s[0]]) + Escape(s[1..])
  }

  /** Fields joined by commas, none of them quoted. */
  function Join(fields: seq<string>): (s: string)
    requires |fields| > 0
    decreases |fields|
  {
    if |fields| == 1 then fields[0] else fields[0] + "," + Join(fields[1..])
  }

  /** A field between quotes, its own quotes doubled. */
  function Quote(s: string): (r: string)
    ensures |r| >= |s| + 2 && r[0] == '"' && r[|r| - 1] == '"'
  {
    "\"" + Escape(s) + "\""
  }

  /** One report line: the five fields in header order, separated by commas.
      Read back as a record, it yields exactly those five fields. */
  function ReportLine(e: Entry): (line: string)
    ensures ParseRecord(line) == Some([e.fileName, Decimal(e.sizeInBytes),
      LastAccessedDescription(e), CategoryDescription(e.category), e.reason])
  {
    var size := Decimal(e.sizeInBytes);
    var access := LastAccessedDescription(e);
    var caption := CategoryDescription(e.category);
    DecimalPlain(e.sizeInBytes);
    LastAccessedPlain(e);
    CategoryDescriptionPlain(e.category);
    assert |caption| > 0 && Plain(caption);
    var tail := size + "," + (access + "," + (caption + "," + Quote(e.reason)));
    TailParses(size, access, caption, e.reason);
    QuotedField(e.fileName, tail);
    assert [e.fileName] + [size, access, caption, e.reason] == [e.fileName, size, access, caption, e.reason];
    Quote(e.fileName) + "," + tail
  }

  /** The lines handed to `File.WriteAllLinesAsync`: the header, then one line
      per entry. */
  function Report(es: seq<Entry>): (lines: seq<string>)
    ensures |lines| == |es| + 1 && lines[0] == Header
  {
    [Header] + seq(|es|, i requires 0 <= i < |es| => ReportLine(es[i]))
  }

  // ---------------------------------------------------------------------------
  // Reading a record back
  // ---------------------------------------------------------------------------

  /** Reads the inside of a quoted field up to its closing quote: a doubled
      quote stands for one quote. Returns the field and what follows the
      closing quote, or `None` when the quote is never closed. */
  function ParseQuoted(s: string): (r: Option<(string, string)>)
    ensures r.Some? ==> |r.value.1| < |s|
    decreases |s|
  {
    if |s| == 0 then None
    else if s[0] == '"' then
      if |s| > 1 && s[1] == '"' then
        match ParseQuoted(s[2..])
        case None => None
        case Some(p) => Some(("\"" + p.0, p.1))
      else Some(("", s[1..]))
    else
      match ParseQuoted(s[1..])
      case None => None
      case Some(p) => Some(([s[0]] + p.0, p.1))
  }

  /** The end of an unquoted field starting at `i`: the next comma, or the end
      of the line. */
  function FieldEnd(s: string, i: nat): (n: nat)
    requires i <= |s|
    ensures i <= n <= |s|
    ensures n < |s| ==> s[n] == ','
    ensures forall j :: i <= j < n ==> s[j] != ','
    decreases |s| - i
  {
    if i == |s| || s[i] == ',' then i else FieldEnd(s, i + 1)
  }

  function Prepend(f: string, r: Option<seq<string>>): Option<seq<string>> {
    match r
    case None => None
    case Some(fs) => Some([f] + fs)
  }

  /** Splits one line into its fields; `None` for a line that is not a record:
      an unclosed quote, text after a closing quote, or a quote inside an
      unquoted field. */
  function ParseRecord(s: string): (r: Option<seq<string>>)
    ensures r.Some? ==> |r.value| >= 1
    decreases |s|
  {
    if |s| > 0 && s[0] == '"' then
      match ParseQuoted(s[1..])
      case None => None
      case Some(p) =>
        if |p.1| == 0 then Some([p.0])
        else if p.1[0] == ',' then Prepend(p.0, ParseRecord(p.1[1..]))
        else None
    else
      var n := FieldEnd(s, 0);
      if !Plain(s[..n]) then None
      else if n == |s| then Some([s])
      else Prepend(s[..n], ParseRecord(s[n + 1..]))
  }

  /** Un-doubling inverts `Escape`: the closing quote is found exactly after
      the escaped text. */
  lemma {:induction false} QuotedRoundTrip(x: string, rest: string)
    requires |rest| == 0 || rest[0] != '"'
    ensures ParseQuoted(Escape(x) + "\"" + rest) == Some((x, rest))
    decreases |x|
  {
    if |x| == 0 {
      QuotedEnd(rest);
    } else {
      QuotedRoundTrip(x[1..], rest);
      QuotedStep(x, rest);
    }
  }

  lemma QuotedEnd(rest: string)
    requires |rest| == 0 || rest[0] != '"'
    ensures ParseQuoted(Escape("") + "\"" + rest) == Some(("", rest))
  {
    assert Escape("") == "";
    var s := Escape("") + "\"" + rest;
    assert s == "\"" + rest;
    assert s[0] == '"';
    assert s[1..] == rest;
  }

  /** One character of the field: a quote is read back from its doubled form,
      anything else from itself. */
  lemma QuotedStep(x: string, rest: string)
    requires |x| > 0
    requires ParseQuoted(Escape(x[1..]) + "\"" + rest) == Some((x[1..], rest))
    ensures ParseQuoted(Escape(x) + "\"" + rest) == Some((x, rest))
  {
    var tail := Escape(x[1..]) + "\"" + rest;
    if x[0] == '"' {
      var s := "\"\"" + tail;
      assert Escape(x) + "\"" + rest == s;
      assert s[0] == '"' && s[1] == '"';
      assert s[2..] == tail;
      assert "\"" + x[1..] == x;
    } else {
      var s := [x[0]] + tail;
      assert Escape(x) + "\"" + rest == s;
      assert s[1..] == tail;
      assert [x[0]] + x[1..] == x;
    }
  }

  /** A quoted field followed by a comma and more fields. */
  lemma QuotedField(x: string, rest: string)
    ensures ParseRecord(Quote(x) + "," + rest) == Prepend(x, ParseRecord(rest))
  {
    var s := Quote(x) + "," + rest;
    assert s[1..] == Escape(x) + "\"" + ("," + rest);
    QuotedRoundTrip(x, "," + rest);
    assert ("," + rest)[1..] == rest;
  }

  /** A quoted field that ends the line. */
  lemma QuotedLastField(x: string)
    ensures ParseRecord(Quote(x)) == Some([x])
  {
    var s := Quote(x);
    assert s[1..] == Escape(x) + "\"" + "";
    QuotedRoundTrip(x, "");
  }

  /** A non-empty field without commas or quotes, followed by a comma and more
      fields. */
  lemma PlainField(x: string, rest: string)
    requires |x| > 0 && Plain(x)
    ensures ParseRecord(x + "," + rest) == Prepend(x, ParseRecord(rest))
  {
    var s := x + "," + rest;
    assert s[|x|] == ',';
    assert FieldEnd(s, 0) == |x| by {
      FieldEndPlain(s, 0, |x|);
    }
    assert s[..|x|] == x;
    assert s[|x| + 1..] == rest;
  }

  lemma {:induction false} FieldEndPlain(s: string, i: nat, n: nat)
    requires i <= n < |s| && s[n] == ','
    requires forall j :: i <= j < n ==> s[j] != ','
    ensures FieldEnd(s, i) == n
    decreases n - i
  {
    if i < n {
      FieldEndPlain(s, i + 1, n);
    }
  }

  /** A non-empty field without commas or quotes that ends the line. */
  lemma PlainLastField(x: string)
    requires |x| > 0 && Plain(x)
    ensures ParseRecord(x) == Some([x])
  {
    assert x[..|x|] == x;
  }

  lemma DecimalPlain(n: int)
    ensures |Decimal(n)| > 0 && Plain(Decimal(n))
  {
    var s := Decimal(n);
    forall i | 0 <= i < |s|
      ensures !Special(s[i])
    {
      assert IsDigit(s[i]) || s[i] == '-';
    }
  }

  lemma LastAccessedPlain(e: Entry)
    ensures |LastAccessedDescription(e)| > 0 && Plain(LastAccessedDescription(e))
  {
    var s := LastAccessedDescription(e);
    if e.lastAccessed.Some? {
      forall i | 0 <= i < |s|
        ensures !Special(s[i])
      {
        assert IsDigit(s[i]) || s[i] == '-';
      }
    }
  }

  /** The last four fields of a report line: three plain ones and the
      quoted reason. */
  lemma TailParses(size: string, access: string, caption: string, reason: string)
    requires |size| > 0 && Plain(size) && |access| > 0 && Plain(access) && |caption| > 0 && Plain(caption)
    ensures ParseRecord(size + "," + (access + "," + (caption + "," + Quote(reason))))
      == Some([size, access, caption, reason])
  {
    var t3 := caption + "," + Quote(reason);
    var t2 := access + "," + t3;
    QuotedLastField(reason);
    PlainField(caption, Quote(reason));
    assert [caption] + [reason] == [caption, reason];
    PlainField(access, t3);
    assert [access] + [caption, reason] == [access, caption, reason];
    PlainField(size, t2);
    assert [size] + [access, caption, reason] == [size, access, caption, reason];
  }

  /** Everything the report says about a file can be read back from its line:
      the name, the size, whether an access time was available, the category
      and the reason. */
  lemma ReportLineDecodes(e: Entry)
    ensures var fields := ParseRecord(ReportLine(e));
      && fields.Some? && |fields.value| == 5
      && fields.value[0] == e.fileName
      && ParseDecimal(fields.value[1]) == Some(e.sizeInBytes as int)
      && (fields.value[2] == Unavailable <==> e.lastAccessed.None?)
      && CategoryFromDescription(fields.value[3]) == Some(e.category)
      && fields.value[4] == e.reason
  {
    DecimalRoundTrip(e.sizeInBytes);
    CategoryDescriptionRoundTrip(e.category);
  }

  /** Two entries with the same report line agree on every field the line
      shows. */
  lemma ReportLineInjective(a: Entry, b: Entry)
    requires ReportLine(a) == ReportLine(b)
    ensures a.fileName == b.fileName && a.sizeInBytes == b.sizeInBytes
    ensures a.category == b.category && a.reason == b.reason
    ensures a.lastAccessed.None? <==> b.lastAccessed.None?
  {
    ReportLineDecodes(a);
    ReportLineDecodes(b);
  }

  /** Non-empty plain fields joined by commas read back as themselves. */
  lemma {:induction false} JoinParses(fields: seq<string>)
    requires |fields| > 0
    requires forall i :: 0 <= i < |fields| ==> |fields[i]| > 0 && Plain(fields[i])
    ensures ParseRecord(Join(fields)) == Some(fields)
    decreases |fields|
  {
    if |fields| == 1 {
      PlainLastField(fields[0]);
      assert [fields[0]] == fields;
    } else {
      JoinParses(fields[1..]);
      PlainField(fields[0], Join(fields[1..]));
      assert [fields[0]] + fields[1..] == fields;
    }
  }

  /** The header is a record of the five column names. */
  lemma HeaderParses()
    ensures ParseRecord(Header) == Some(HeaderFields)
    ensures |ParseRecord(Header).value| == 5
  {
    forall i | 0 <= i < |HeaderFields|
      ensures |HeaderFields[i]| > 0 && Plain(HeaderFields[i])
    {
    }
    JoinParses(HeaderFields);
  }

  /** The report is the header followed by one line per entry, in order. */
  lemma ReportLayout(es: seq<Entry>)
    ensures |Report(es)| == |es| + 1 && Report(es)[0] == Header
    ensures forall i :: 0 <= i < |es| ==> Report(es)[i + 1] == ReportLine(es[i])
  {
    forall i | 0 <= i < |es|
      ensures Report(es)[i + 1] == ReportLine(es[i])
    {
      ReportLineAt(es, i);
    }
  }

  lemma ReportLineAt(es: seq<Entry>, i: nat)
    requires i < |es|
    ensures Report(es)[i + 1] == ReportLine(es[i])
  {
  }

  /** Every line of the report reads back as a record with as many fields as
      the header, and the line after the header at position `i` carries the
      name and reason of entry `i`. */
  lemma ReportParses(es: seq<Entry>)
    ensures forall i :: 0 <= i < |Report(es)| ==>
      ParseRecord(Report(es)[i]).Some? && |ParseRecord(Report(es)[i]).value| == |HeaderFields|
    ensures forall i :: 0 <= i < |es| ==>
      ParseRecord(Report(es)[i + 1]).value[0] == es[i].fileName
      && ParseRecord(Report(es)[i + 1]).value[4] == es[i].reason
  {
    var lines := Report(es);
    ReportLayout(es);
    HeaderParses();
    forall i | 0 <= i < |es|
      ensures ParseRecord(lines[i + 1]).Some? && |ParseRecord(lines[i + 1]).value| == 5
      ensures ParseRecord(lines[i + 1]).value[0] == es[i].fileName
      ensures ParseRecord(lines[i + 1]).value[4] == es[i].reason
    {
      ReportLineDecodes(es[i]);
    }
    forall i | 0 <= i < |lines|
      ensures ParseRecord(lines[i]).Some? && |ParseRecord(lines[i]).value| == |HeaderFields|
    {
      if i > 0 {
        assert lines[i] == lines[(i - 1) + 1];
      }
    }
  }

  /** A name with a quote in it: the quote is doubled in the line and single
      again when read back. */
  lemma QuoteSample()
    ensures Escape("a\"b") == "a\"\"b"
    ensures ParseRecord(Quote("a\"b")) == Some(["a\"b"])
  {
    assert Escape("a\"b") == "a" + Escape("\"b");
    assert Escape("\"b") == "\"\"" + Escape("b");
    assert Escape("b") == "b" + Escape("");
    QuotedLastField("a\"b");
  }
}
