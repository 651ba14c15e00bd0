/**
 * Construction-time validation of regex-bearing attributes
 * (patterns/patterns_date_classes/pattern_validator.py).
 *
 * `re.compile` belongs to a foreign regex engine: it is the parameter
 * `compiles`, true of the strings that compile with IGNORECASE | UNICODE.
 * The instance's attributes are given as the list `dir(self)` walks, each
 * with its name and value.
 */
module PatternValidation {

  /** The characters whose presence marks a string as a regex (the list in pattern_validator.py). */
  const RegexIndicators: seq<char> := ['(', ')', '[', ']', '{', '}', '\\', '+', '*', '?', '|', '^', '$']

  predicate IsRegexMeta(c: char)
  {
    c == '(' || c == ')' || c == '[' || c == ']' || c == '{' || c == '}' || c == '\\' ||
    c == '+' || c == '*' || c == '?' || c == '|' || c == '^' || c == '$'
  }

  /** any(indicator in pattern for indicator in indicators), for one-character indicators. */
  function AnyIndicatorIn(pattern: string, indicators: seq<char>): (r: bool)
    ensures r <==> exists i :: 0 <= i < |indicators| && indicators[i] in pattern
  {
    if indicators == [] then false
    else indicators[0] in pattern || AnyIndicatorIn(pattern, indicators[1..])
  }

  /** Each of the 13 indicators is a metacharacter, and each metacharacter is an indicator. */
  lemma IndicatorsAreMeta(pattern: string)
    ensures AnyIndicatorIn(pattern, RegexIndicators) <==>
              exists j :: 0 <= j < |pattern| && IsRegexMeta(pattern[j])
  {
    assert forall c :: IsRegexMeta(c) <==> c in RegexIndicators;
    if AnyIndicatorIn(pattern, RegexIndicators) {
      var i :| 0 <= i < |RegexIndicators| && RegexIndicators[i] in pattern;
      var j :| 0 <= j < |pattern| && pattern[j] == RegexIndicators[i];
      assert IsRegexMeta(pattern[j]);
    }
    if exists j :: 0 <= j < |pattern| && IsRegexMeta(pattern[j]) {
      var j :| 0 <= j < |pattern| && IsRegexMeta(pattern[j]);
      var i :| 0 <= i < |RegexIndicators| && RegexIndicators[i] == pattern[j];
      assert RegexIndicators[i] in pattern;
    }
  }

  /** _looks_like_regex: a string looks like a regex exactly when one of its
      characters is one of the 13 metacharacters. */
  function LooksLikeRegex(pattern: string): (r: bool)
    ensures r <==> exists j :: 0 <= j < |pattern| && IsRegexMeta(pattern[j])
  {
    IndicatorsAreMeta(pattern);
    AnyIndicatorIn(pattern, RegexIndicators)
  }

  /** Letters and spaces never make a string look like a regex. */
  lemma PlainTextIsNotRegex(pattern: string)
    requires forall j :: 0 <= j < |pattern| ==> 'a' <= pattern[j] <= 'z' || pattern[j] == ' '
    ensures !LooksLikeRegex(pattern)
  {
  }

  /** The documented examples that look like a regular expression. */
  lemma RegexExamples()
    ensures LooksLikeRegex("(\\d{4})")
    ensures LooksLikeRegex("[a-zA-Z]+")
    ensures LooksLikeRegex("year (2024)")
  {
    var p1, p2, p3 := "(\\d{4})", "[a-zA-Z]+", "year (2024)";
    assert IsRegexMeta(p1[0]) && IsRegexMeta(p2[0]) && IsRegexMeta(p3[5]);
  }

  /** The documented plain-text example, and the empty string. */
  lemma PlainTextExamples()
    ensures !LooksLikeRegex("simple text")
    ensures !LooksLikeRegex("")
  {
    PlainTextIsNotRegex("simple text");
    PlainTextIsNotRegex("");
  }

  // ---------------------------------------------------------------------------
  // _validate_patterns
  // ---------------------------------------------------------------------------

  /** An attribute value: a str, or any other object (methods included). */
  datatype AttrValue = Text(s: string) | NotText

  datatype Attribute = Attribute(name: string, value: AttrValue)

  /** Normal return, or the ValueError naming the offending attribute. */
  datatype Validation = AllValid | InvalidPattern(name: string)

  predicate IsPrivate(name: string) { |name| > 0 && name[0] == '_' }

  /** The attributes the loop hands to re.compile. */
  predicate IsChecked(a: Attribute)
  {
    !IsPrivate(a.name) && a.value.Text? && LooksLikeRegex(a.value.s)
  }

  predicate Fails(a: Attribute, compiles: string -> bool)
  {
    IsChecked(a) && !compiles(a.value.s)
  }

  /**
   * _validate_patterns: walks the attributes in order, skips private names,
   * non-strings and strings that do not look like a regex, and stops at the
   * first one that does not compile.  It reads the attributes only.
   */
  method ValidatePatterns(attrs: seq<Attribute>, compiles: string -> bool) returns (r: Validation)
    ensures r.AllValid? <==> forall k :: 0 <= k < |attrs| ==> !Fails(attrs[k], compiles)
    ensures r.InvalidPattern? ==>
              exists k :: 0 <= k < |attrs| && Fails(attrs[k], compiles) && r.name == attrs[k].name &&
                          forall j :: 0 <= j < k ==> !Fails(attrs[j], compiles)
    ensures r.InvalidPattern? ==> !IsPrivate(r.name)
  {
    var i := 0;
    while i < |attrs|
      invariant 0 <= i <= |attrs|
      invariant forall j :: 0 <= j < i ==> !Fails(attrs[j], compiles)
    {
      var a := attrs[i];
      if IsPrivate(a.name) {
        i := i + 1;
        continue;
      }
      if a.value.Text? && LooksLikeRegex(a.value.s) {
        if !compiles(a.value.s) {
          return InvalidPattern(a.name);
        }
      }
      i := i + 1;
    }
    return AllValid;
  }

  // ---------------------------------------------------------------------------
  // Order of dir()
  // ---------------------------------------------------------------------------

  /** Python's str ordering: code point by code point, a proper prefix first. */
  predicate NameLess(a: string, b: string)
  {
    if a == [] then b != []
    else b != [] && (a[0] < b[0] || (a[0] == b[0] && NameLess(a[1..], b[1..])))
  }

  /** dir() lists the names in ascending order. */
  predicate SortedByName(attrs: seq<Attribute>)
  {
    forall i, j :: 0 <= i < j < |attrs| ==> NameLess(attrs[i].name, attrs[j].name)
  }

  /** Over dir()'s order, the attribute reported is the failing one with the least name. */
  lemma FirstFailureHasLeastName(attrs: seq<Attribute>, compiles: string -> bool, k: nat)
    requires SortedByName(attrs)
    requires k < |attrs| && Fails(attrs[k], compiles)
    requires forall j :: 0 <= j < k ==> !Fails(attrs[j], compiles)
    ensures forall j :: 0 <= j < |attrs| && j != k && Fails(attrs[j], compiles) ==>
              NameLess(attrs[k].name, attrs[j].name)
  {
  }
}
