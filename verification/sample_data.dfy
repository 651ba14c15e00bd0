/**
 * The parsing body of parse_sample_data (data/_load_config/__init__.py):
 * strip the text, split it into lines, take the first line's comma-separated
 * fields as headers, and keep, in order, each later line whose field count
 * equals the header count, as a dictionary from header to field.
 */
module SampleData {

  // ---------------------------------------------------------------------------
  // str.strip() and str.split(sep)
  // ---------------------------------------------------------------------------

  /** The characters Python's str.isspace() accepts. */
  predicate IsSpace(c: char)
  {
    ('\t' <= c <= '\r') || ('\U{001C}' <= c <= ' ') || c == '\U{0085}' || c == '\U{00A0}' ||
    c == '\U{1680}' || ('\U{2000}' <= c <= '\U{200A}') || c == '\U{2028}' || c == '\U{2029}' ||
    c == '\U{202F}' || c == '\U{205F}' || c == '\U{3000}'
  }

  /** Where s.lstrip() starts looking from i: the first non-whitespace position, or |s|. */
  function SkipSpace(s: string, i: nat): (k: nat)
    requires i <= |s|
    ensures i <= k <= |s|
    ensures forall j :: i <= j < k ==> IsSpace(s[j])
    ensures k < |s| ==> !IsSpace(s[k])
    decreases |s| - i
  {
    if i == |s| || !IsSpace(s[i]) then i else SkipSpace(s, i + 1)
  }

  /** Where s.rstrip() ends, looking back from j but not below lo. */
  function SkipSpaceBack(s: string, lo: nat, j: nat): (k: nat)
    requires lo <= j <= |s|
    ensures lo <= k <= j
    ensures forall m :: k <= m < j ==> IsSpace(s[m])
    ensures k > lo ==> !IsSpace(s[k - 1])
    decreases j
  {
    if j == lo || !IsSpace(s[j - 1]) then j else SkipSpaceBack(s, lo, j - 1)
  }

  /** s.strip(): drop leading, then trailing whitespace. */
  function Strip(s: string): (r: string)
    ensures |r| <= |s|
    ensures r == [] || (!IsSpace(r[0]) && !IsSpace(r[|r| - 1]))
  {
    var lo := SkipSpace(s, 0);
    s[lo..SkipSpaceBack(s, lo, |s|)]
  }

  /** strip() removes only whitespace: what it drops on either side is
      whitespace, what it keeps neither starts nor ends with whitespace, and it
      is empty exactly for all-whitespace text. */
  lemma StripTrims(s: string)
    ensures var lo := SkipSpace(s, 0);
      var hi := SkipSpaceBack(s, lo, |s|);
      && Strip(s) == s[lo..hi]
      && (forall i :: 0 <= i < lo ==> IsSpace(s[i]))
      && (forall i :: hi <= i < |s| ==> IsSpace(s[i]))
    ensures Strip(s) == [] || (!IsSpace(Strip(s)[0]) && !IsSpace(Strip(s)[|Strip(s)| - 1]))
    ensures Strip(s) == [] <==> forall i :: 0 <= i < |s| ==> IsSpace(s[i])
  {
  }

  lemma StripUnchanged(s: string)
    requires s != [] && !IsSpace(s[0]) && !IsSpace(s[|s| - 1])
    ensures Strip(s) == s
  {
  }

  /** sep.join(parts) */
  function Join(parts: seq<string>, sep: char): string
    requires |parts| >= 1
  {
    if |parts| == 1 then parts[0] else parts[0] + [sep] + Join(parts[1..], sep)
  }

  /** s.split(sep) for a one-character separator: never empty, no piece holds
      the separator, and joining the pieces back gives s. */
  function Split(s: string, sep: char): (r: seq<string>)
    ensures |r| >= 1
    ensures forall k :: 0 <= k < |r| ==> sep !in r[k]
    ensures Join(r, sep) == s
  {
    if s == [] then [""]
    else
      var rest := Split(s[1..], sep);
      if s[0] == sep then
        [""] + rest
      else
        var r := [[s[0]] + rest[0]] + rest[1..];
        assert Join(r, sep) == s by {
          if |rest| > 1 {
            assert r[1..] == rest[1..];
          }
        }
        r
  }

  lemma {:induction false} SplitNoSeparator(s: string, sep: char)
    requires sep !in s
    ensures Split(s, sep) == [s]
  {
    if s != [] {
      SplitNoSeparator(s[1..], sep);
    }
  }

  lemma {:induction false} SplitAtFirst(a: string, b: string, sep: char)
    requires sep !in a
    ensures Split(a + [sep] + b, sep) == [a] + Split(b, sep)
  {
    if a == [] {
      assert (a + [sep] + b)[1..] == b;
    } else {
      assert (a + [sep] + b)[1..] == a[1..] + [sep] + b;
      SplitAtFirst(a[1..], b, sep);
      assert [a[0]] + a[1..] == a;
    }
  }

  /** Splitting undoes joining pieces that do not hold the separator. */
  lemma {:induction false} SplitJoin(parts: seq<string>, sep: char)
    requires |parts| >= 1
    requires forall k :: 0 <= k < |parts| ==> sep !in parts[k]
    ensures Split(Join(parts, sep), sep) == parts
  {
    if |parts| == 1 {
      SplitNoSeparator(parts[0], sep);
    } else {
      SplitJoin(parts[1..], sep);
      SplitAtFirst(parts[0], Join(parts[1..], sep), sep);
      assert [parts[0]] + parts[1..] == parts;
    }
  }

  // ---------------------------------------------------------------------------
  // Rows
  // ---------------------------------------------------------------------------

  type Row = map<string, string>

  /** [v.strip() for v in line.split(',')] */
  function Fields(line: string): (r: seq<string>)
    ensures |r| == |Split(line, ',')|
  {
    var pieces := Split(line, ',');
    seq(|pieces|, k requires 0 <= k < |pieces| => Strip(pieces[k]))
  }

  /** dict(zip(headers, values)): its keys are exactly the headers. */
  function ZipDict(headers: seq<string>, values: seq<string>): (d: Row)
    requires |headers| == |values|
    ensures d.Keys == set h | h in headers
  {
    if headers == [] then map[]
    else
      var n := |headers| - 1;
      var d := ZipDict(headers[..n], values[..n])[headers[n] := values[n]];
      assert forall h :: h in headers <==> h in headers[..n] || h == headers[n];
      d
  }

  /** A header maps to the value at its last position: a header that does not
      repeat further on maps to the value in its own column. */
  lemma {:induction false} ZipDictColumn(headers: seq<string>, values: seq<string>, i: nat)
    requires |headers| == |values| && i < |headers|
    requires forall j :: i < j < |headers| ==> headers[j] != headers[i]
    ensures ZipDict(headers, values)[headers[i]] == values[i]
  {
    var n := |headers| - 1;
    if i < n {
      ZipDictColumn(headers[..n], values[..n], i);
    }
  }

  /** The lines after the header that the loop keeps, as rows, in order. */
  function KeptRows(headers: seq<string>, lines: seq<string>): (r: seq<Row>)
    ensures forall row :: row in r ==> row.Keys == set h | h in headers
  {
    if lines == [] then []
    else
      var n := |lines| - 1;
      var values := Fields(lines[n]);
      KeptRows(headers, lines[..n]) + (if |values| == |headers| then [ZipDict(headers, values)] else [])
  }

  /** One more line of the data extends the rows by that line's row, if it has one. */
  lemma KeptRowsStep(headers: seq<string>, data: seq<string>, i: nat)
    requires i < |data|
    ensures KeptRows(headers, data[..i + 1]) ==
              KeptRows(headers, data[..i]) + (if |Fields(data[i])| == |headers| then [ZipDict(headers, Fields(data[i]))] else [])
  {
    var lines := data[..i + 1];
    assert lines != [] && |lines| - 1 == i;
    assert lines[..i] == data[..i];
    assert lines[i] == data[i];
  }

  /** data_content.strip().split('\n') */
  function Lines(content: string): (r: seq<string>)
    ensures |r| >= 1
    ensures forall k :: 0 <= k < |r| ==> '\n' !in r[k]
    ensures Join(r, '\n') == Strip(content)
  {
    Split(Strip(content), '\n')
  }

  /** What parse_sample_data returns for a given text. */
  function SampleRows(content: string): (r: seq<Row>)
    ensures |Lines(content)| < 2 ==> r == []
    ensures |r| <= |Lines(content)| - 1
  {
    var lines := Lines(content);
    if |lines| < 2 then []
    else
      KeptRowsBound(Fields(lines[0]), lines[1..]);
      KeptRows(Fields(lines[0]), lines[1..])
  }

  /**
   * parse_sample_data on the text get_sample_data returned: fewer than two
   * lines give no rows, otherwise the lines after the header are filtered.
   */
  method ParseSampleData(content: string) returns (rows: seq<Row>)
    ensures rows == SampleRows(content)
    ensures |rows| <= |Lines(content)| - 1
  {
    var lines := Lines(content);
    if |lines| < 2 {
      return [];
    }
    var headers := Fields(lines[0]);
    rows := KeepRows(headers, lines[1..]);
  }

  /** The for loop over the data lines: append a row for each line whose field
      count equals the header count. */
  method KeepRows(headers: seq<string>, data: seq<string>) returns (rows: seq<Row>)
    ensures rows == KeptRows(headers, data)
  {
    rows := [];
    var i := 0;
    while i < |data|
      invariant 0 <= i <= |data|
      invariant rows == KeptRows(headers, data[..i])
    {
      var values := Fields(data[i]);
      if |values| == |headers| {
        rows := rows + [ZipDict(headers, values)];
      }
      KeptRowsStep(headers, data, i);
      i := i + 1;
    }
    assert data[..i] == data;
  }

  // ---------------------------------------------------------------------------
  // Properties
  // ---------------------------------------------------------------------------

  /** No more rows than data lines. */
  lemma {:induction false} KeptRowsBound(headers: seq<string>, lines: seq<string>)
    ensures |KeptRows(headers, lines)| <= |lines|
  {
    if lines != [] {
      KeptRowsBound(headers, lines[..|lines| - 1]);
    }
  }

  /** How many of the lines have as many fields as there are headers. */
  function CountMatching(headers: seq<string>, lines: seq<string>): nat
  {
    if lines == [] then 0
    else
      var n := |lines| - 1;
      CountMatching(headers, lines[..n]) + (if |Fields(lines[n])| == |headers| then 1 else 0)
  }

  /** There is one row per line whose field count equals the header count. */
  lemma {:induction false} KeptRowsCount(headers: seq<string>, lines: seq<string>)
    ensures |KeptRows(headers, lines)| == CountMatching(headers, lines)
  {
    if lines != [] {
      KeptRowsCount(headers, lines[..|lines| - 1]);
    }
  }

  /**
   * A line whose field count equals the header count gives the row that
   * follows those of the earlier matching lines.
   */
  lemma {:induction false} KeptRowAt(headers: seq<string>, lines: seq<string>, k: nat)
    requires k < |lines| && |Fields(lines[k])| == |headers|
    ensures CountMatching(headers, lines[..k]) < |KeptRows(headers, lines)|
    ensures KeptRows(headers, lines)[CountMatching(headers, lines[..k])] == ZipDict(headers, Fields(lines[k]))
    decreases |lines|
  {
    var n := |lines| - 1;
    var init := lines[..n];
    KeptRowsCount(headers, init);
    if k < n {
      KeptRowAt(headers, init, k);
      assert init[..k] == lines[..k];
      assert init[k] == lines[k];
    } else {
      assert lines[..k] == init;
    }
  }

  /**
   * A line is kept exactly when its field count equals the header count, and
   * in input order: there is one row per such line, and the line at position
   * k gives the row after those of the earlier matching lines.
   */
  lemma KeptRowsInOrder(headers: seq<string>, lines: seq<string>)
    ensures |KeptRows(headers, lines)| == CountMatching(headers, lines)
    ensures forall k :: 0 <= k < |lines| && |Fields(lines[k])| == |headers| ==>
              CountMatching(headers, lines[..k]) < |KeptRows(headers, lines)| &&
              KeptRows(headers, lines)[CountMatching(headers, lines[..k])] == ZipDict(headers, Fields(lines[k]))
  {
    KeptRowsCount(headers, lines);
    forall k | 0 <= k < |lines| && |Fields(lines[k])| == |headers|
      ensures CountMatching(headers, lines[..k]) < |KeptRows(headers, lines)|
      ensures KeptRows(headers, lines)[CountMatching(headers, lines[..k])] == ZipDict(headers, Fields(lines[k]))
    {
      KeptRowAt(headers, lines, k);
    }
  }

  /** When every line has the header's field count, every line gives a row. */
  lemma {:induction false} AllMatchingKeptAll(headers: seq<string>, lines: seq<string>)
    requires forall k :: 0 <= k < |lines| ==> |Fields(lines[k])| == |headers|
    ensures |KeptRows(headers, lines)| == |lines|
  {
    if lines != [] {
      var n := |lines| - 1;
      assert forall k :: 0 <= k < n ==> lines[..n][k] == lines[k];
      AllMatchingKeptAll(headers, lines[..n]);
    }
  }

  /** The fields of comma-joined pieces that hold no comma are the stripped pieces. */
  lemma FieldsOfJoin(pieces: seq<string>)
    requires |pieces| >= 1
    requires forall k :: 0 <= k < |pieces| ==> ',' !in pieces[k]
    ensures |Fields(Join(pieces, ','))| == |pieces|
    ensures forall k :: 0 <= k < |pieces| ==> Fields(Join(pieces, ','))[k] == Strip(pieces[k])
  {
    SplitJoin(pieces, ',');
  }
}
