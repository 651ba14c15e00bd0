/**
 * The built-in sample text of get_sample_data (data/_load_config/__init__.py)
 * and what parse_sample_data makes of it: five rows, each keyed by the five
 * header names, with the trailing spaces of the second data line stripped away.
 */
module DefaultSample {
  import opened SampleData

  // The six lines of the sample, written field by field; the third line
  // ends in two spaces.
  const L0: string := "id" + "," + "name" + "," + "value" + "," + "category" + "," + "description"
  const L1: string := "1" + "," + "Alpha" + "," + "100" + "," + "Type1" + "," + "First sample item"
  const L2: string := "2" + "," + "Beta" + "," + "250" + "," + "Type2" + "," + "Second sample item  "
  const L3: string := "3" + "," + "Gamma" + "," + "175" + "," + "Type1" + "," + "Third sample item"
  const L4: string := "4" + "," + "Delta" + "," + "300" + "," + "Type2" + "," + "Fourth sample item"
  const L5: string := "5" + "," + "Epsilon" + "," + "125" + "," + "Type3" + "," + "Fifth sample item"

  /** The text get_sample_data returns when no data file is found. */
  const Sample: string := L0 + "\n" + L1 + "\n" + L2 + "\n" + L3 + "\n" + L4 + "\n" + L5

  const Headers: seq<string> := ["id", "name", "value", "category", "description"]
  const R1: seq<string> := ["1", "Alpha", "100", "Type1", "First sample item"]
  const R2: seq<string> := ["2", "Beta", "250", "Type2", "Second sample item  "]
  const R3: seq<string> := ["3", "Gamma", "175", "Type1", "Third sample item"]
  const R4: seq<string> := ["4", "Delta", "300", "Type2", "Fourth sample item"]
  const R5: seq<string> := ["5", "Epsilon", "125", "Type3", "Fifth sample item"]
  /** The fields of the third line once stripped. */
  const Stripped2: seq<string> := ["2", "Beta", "250", "Type2", "Second sample item"]

  lemma JoinCons(first: string, rest: seq<string>, sep: char)
    requires |rest| >= 1
    ensures Join([first] + rest, sep) == first + [sep] + Join(rest, sep)
  {
    assert ([first] + rest)[1..] == rest;
  }

  lemma JoinFive(a: string, b: string, c: string, d: string, e: string, sep: char)
    ensures Join([a, b, c, d, e], sep) == a + [sep] + b + [sep] + c + [sep] + d + [sep] + e
  {
    JoinCons(d, [e], sep);
    JoinCons(c, [d, e], sep);
    JoinCons(b, [c, d, e], sep);
    JoinCons(a, [b, c, d, e], sep);
  }

  lemma JoinSix(a: string, b: string, c: string, d: string, e: string, f: string, sep: char)
    ensures Join([a, b, c, d, e, f], sep) == a + [sep] + b + [sep] + c + [sep] + d + [sep] + e + [sep] + f
  {
    JoinCons(e, [f], sep);
    JoinCons(d, [e, f], sep);
    JoinCons(c, [d, e, f], sep);
    JoinCons(b, [c, d, e, f], sep);
    JoinCons(a, [b, c, d, e, f], sep);
  }

  lemma SampleJoined()
    ensures Join([L0, L1, L2, L3, L4, L5], '\n') == Sample
  {
    JoinSix(L0, L1, L2, L3, L4, L5, '\n');
  }

  lemma SampleIsStripped()
    ensures Strip(Sample) == Sample
  {
    assert Sample[0] == 'i';
    assert Sample[|Sample| - 1] == 'm';
    StripUnchanged(Sample);
  }

  /** A character outside every piece and different from the separator is outside their join. */
  lemma {:induction false} NotInJoin(parts: seq<string>, sep: char, c: char)
    requires |parts| >= 1
    requires c != sep
    requires forall k :: 0 <= k < |parts| ==> c !in parts[k]
    ensures c !in Join(parts, sep)
  {
    if |parts| > 1 {
      NotInJoin(parts[1..], sep, c);
    }
  }

  /** A field of the sample: no comma, no line break, nothing to strip. */
  predicate CleanField(s: string)
  {
    ',' !in s && '\n' !in s && s != [] && !IsSpace(s[0]) && !IsSpace(s[|s| - 1])
  }

  predicate CleanRow(fields: seq<string>)
  {
    |fields| == 5 && forall k :: 0 <= k < 5 ==> CleanField(fields[k])
  }

  lemma HeadersClean()
    ensures CleanRow(Headers)
  {
    assert CleanField("description");
  }

  lemma R1Clean()
    ensures CleanRow(R1)
  {
    assert CleanField("First sample item");
  }

  lemma R3Clean()
    ensures CleanRow(R3)
  {
    assert CleanField("Third sample item");
  }

  lemma R4Clean()
    ensures CleanRow(R4)
  {
    assert CleanField("Fourth sample item");
  }

  lemma R5Clean()
    ensures CleanRow(R5)
  {
    assert CleanField("Fifth sample item");
  }

  /** The third line's last field carries two trailing spaces that strip removes. */
  lemma SecondDescriptionStripped()
    ensures Strip("Second sample item  ") == "Second sample item"
  {
    var last := "Second sample item  ";
    assert SkipSpace(last, 0) == 0;
    assert SkipSpaceBack(last, 0, 18) == 18;
    assert SkipSpaceBack(last, 0, 20) == 18;
    assert last[0..18] == "Second sample item";
  }

  lemma R2AlmostClean()
    ensures forall k :: 0 <= k < 4 ==> CleanField(R2[k])
    ensures ',' !in R2[4] && '\n' !in R2[4]
  {
    assert ',' !in "Second sample item  " && '\n' !in "Second sample item  ";
  }

  /** Splitting a comma-joined clean row at commas and stripping gives the row back. */
  lemma CleanRowFields(fields: seq<string>, line: string)
    requires CleanRow(fields)
    requires Join(fields, ',') == line
    ensures Fields(line) == fields
    ensures '\n' !in line
  {
    FieldsOfJoin(fields);
    forall k | 0 <= k < 5
      ensures Strip(fields[k]) == fields[k]
    {
      StripUnchanged(fields[k]);
    }
    NotInJoin(fields, ',', '\n');
  }

  lemma Line0Fields()
    ensures Fields(L0) == Headers && '\n' !in L0
  {
    JoinFive("id", "name", "value", "category", "description", ',');
    HeadersClean();
    CleanRowFields(Headers, L0);
  }

  lemma Line1Fields()
    ensures Fields(L1) == R1 && '\n' !in L1
  {
    JoinFive("1", "Alpha", "100", "Type1", "First sample item", ',');
    R1Clean();
    CleanRowFields(R1, L1);
  }

  lemma Line2Fields()
    ensures Fields(L2) == Stripped2 && '\n' !in L2
  {
    JoinFive("2", "Beta", "250", "Type2", "Second sample item  ", ',');
    R2AlmostClean();
    FieldsOfJoin(R2);
    forall k | 0 <= k < 4
      ensures Strip(R2[k]) == R2[k]
    {
      StripUnchanged(R2[k]);
    }
    SecondDescriptionStripped();
    NotInJoin(R2, ',', '\n');
  }

  lemma Line3Fields()
    ensures Fields(L3) == R3 && '\n' !in L3
  {
    JoinFive("3", "Gamma", "175", "Type1", "Third sample item", ',');
    R3Clean();
    CleanRowFields(R3, L3);
  }

  lemma Line4Fields()
    ensures Fields(L4) == R4 && '\n' !in L4
  {
    JoinFive("4", "Delta", "300", "Type2", "Fourth sample item", ',');
    R4Clean();
    CleanRowFields(R4, L4);
  }

  lemma Line5Fields()
    ensures Fields(L5) == R5 && '\n' !in L5
  {
    JoinFive("5", "Epsilon", "125", "Type3", "Fifth sample item", ',');
    R5Clean();
    CleanRowFields(R5, L5);
  }

  lemma LinesFields()
    ensures Fields(L0) == Headers && Fields(L1) == R1 && Fields(L2) == Stripped2
    ensures Fields(L3) == R3 && Fields(L4) == R4 && Fields(L5) == R5
    ensures forall k :: 0 <= k < 6 ==> '\n' !in [L0, L1, L2, L3, L4, L5][k]
  {
    Line0Fields();
    Line1Fields();
    Line2Fields();
    Line3Fields();
    Line4Fields();
    Line5Fields();
  }

  lemma SampleLines()
    ensures Lines(Sample) == [L0, L1, L2, L3, L4, L5]
  {
    SampleIsStripped();
    SampleJoined();
    LinesFields();
    SplitJoin([L0, L1, L2, L3, L4, L5], '\n');
  }

  /** The data lines of the sample, after the header line. */
  const Data: seq<string> := [L1, L2, L3, L4, L5]

  lemma SampleBody()
    ensures SampleRows(Sample) == KeptRows(Headers, Data)
  {
    var lines := [L0, L1, L2, L3, L4, L5];
    SampleLines();
    Line0Fields();
    assert lines[1..] == Data;
  }

  lemma DataFieldCounts()
    ensures forall k :: 0 <= k < |Data| ==> |Fields(Data[k])| == |Headers|
  {
    LinesFields();
  }

  lemma SecondRow()
    ensures |KeptRows(Headers, Data)| > 1
    ensures KeptRows(Headers, Data)[1] == ZipDict(Headers, Stripped2)
  {
    Line1Fields();
    Line2Fields();
    assert Data[1] == L2;
    KeptRowAt(Headers, Data, 1);
    assert Data[..1] == [L1];
    assert CountMatching(Headers, [L1]) == 1 by {
      assert [L1][..0] == [];
    }
  }

  lemma SecondDescription()
    ensures "description" in ZipDict(Headers, Stripped2)
    ensures ZipDict(Headers, Stripped2)["description"] == "Second sample item"
  {
    ZipDictColumn(Headers, Stripped2, 4);
  }

  /** The rows the data lines give: one per line, keyed by the headers. */
  lemma DataRows()
    ensures |KeptRows(Headers, Data)| == 5
    ensures forall row :: row in KeptRows(Headers, Data) ==>
              row.Keys == {"id", "name", "value", "category", "description"}
    ensures KeptRows(Headers, Data)[1]["description"] == "Second sample item"
  {
    DataFieldCounts();
    AllMatchingKeptAll(Headers, Data);
    assert (set h | h in Headers) == {"id", "name", "value", "category", "description"};
    SecondRow();
    SecondDescription();
  }

  /**
   * The built-in sample parses into five rows, each keyed by the five
   * headers; the trailing spaces of the second data line do not reach its value.
   */
  lemma SampleParses()
    ensures |SampleRows(Sample)| == 5
    ensures forall row :: row in SampleRows(Sample) ==>
              row.Keys == {"id", "name", "value", "category", "description"}
    ensures SampleRows(Sample)[1]["description"] == "Second sample item"
  {
    SampleBody();
    DataRows();
  }
}
