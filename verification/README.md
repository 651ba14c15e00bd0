# Date detector: match values, era normalisation, pattern validation, sample parsing

This project models four small pieces of the date-detection pipeline of
`date_detection` and proves what they promise.

- **Match-value extraction** (`get_match_value`): reads one date component out
  of a regex match, given one group index (an `int`, or a `str` that `int()`
  reads) or an ordered list of candidate indices. The match object is its list
  of groups (`seq<Option<string>>`, index 0 being the whole match). The index
  argument is a recursive datatype, so nested lists exist, as in the code.
- **Era normalisation** (`normalize_era`): an ordered cascade of twelve exact
  membership tests in a keyword table indexed by language × calendar ×
  marker. The first hit gives the calendar and the canonical spelling; a `lang`
  naming the other language switches the spelling to that language's entry.
  The table `era_keywords_dict` is a parameter (a `map` from key to keyword set
  and normalized spelling). The result is a datatype with the bare `""` of an
  empty era, the `(era, calendar)` pair, and the `KeyError` of an absent key.
- **Pattern validation** (`PatternValidator`): `_looks_like_regex` is a
  membership test over 13 metacharacters. `_validate_patterns` is a method with
  a loop over the instance's `(name, value)` attributes in `dir()` order. It
  returns normally or names the first checked attribute that does not compile.
  `re.compile` is the parameter `compiles: string -> bool`.
- **Sample CSV parsing** (the body of `parse_sample_data`): strip the text,
  split it at line breaks, take the stripped comma fields of the first line as
  headers, and append one `dict(zip(headers, values))` per later line whose
  field count equals the header count. `str.strip`, `str.split` and
  `dict(zip(...))` are modelled explicitly. The loop is a method proved against
  the function `KeptRows`. The built-in sample text of `get_sample_data` is
  shown to parse into its five rows.

Files: `wrappers.dfy` (the `Option` type), `match_value.dfy`,
`normalize_era.dfy`, `pattern_validator.dfy`, `sample_data.dfy`,
`default_sample.dfy`.

Choices the code dictates:
- `get_match_value` recurses on each list element, so a nested index list is
  searched as if flattened (`NestedListFlattens`).
- `normalize_era` tests exact, case-sensitive membership of the raw string; it
  does not fold case or diacritics.
- `normalize_era` returns a bare `""` (not a pair) for an empty era, and a key
  missing from the table raises `KeyError`.
- The docstring of `_validate_patterns` says it collects and reports all
  errors (pattern_validator.py:61); the code raises at the first failure, and
  the model does the same.

## Model

| member | source | states |
|---|---|---|
| MatchValue.ParseInt | src/date_detection/modules/calendar_variants/get_match_value.py:47 | `int(s)` succeeds exactly on an optional sign followed by ASCII digits; a leading `-` gives a value <= 0, otherwise >= 0 |
| MatchValue.ParseIntShowInt | src/date_detection/modules/calendar_variants/get_match_value.py:47 | `int(str(n)) == n` for every integer |
| MatchValue.ParseIntLeadingZero | src/date_detection/modules/calendar_variants/get_match_value.py:47 | `int("0" + s) == int(s)` for every non-empty ASCII digit string `s` |
| MatchValue.ParseIntPlus | src/date_detection/modules/calendar_variants/get_match_value.py:47 | `int("+" + s) == int(s)` for every non-empty ASCII digit string `s` |
| MatchValue.ParseIntMinus | src/date_detection/modules/calendar_variants/get_match_value.py:47 | `int("-" + s)` is minus the decimal value of `s`, for every non-empty ASCII digit string `s` |
| MatchValue.GroupValue | src/date_detection/modules/calendar_variants/get_match_value.py:47-54 | a single index gives a value iff it is within 0..len(groups()) and that group took part with non-empty text, and the value is that group's text |
| MatchValue.GetMatchValue | src/date_detection/modules/calendar_variants/get_match_value.py:16-68 | an absent match, a `None` index and an index of another type give None; any result is non-empty and is the text of one of the match's groups |
| MatchValue.FirstValue | src/date_detection/modules/calendar_variants/get_match_value.py:60-65 | the list loop only returns a non-empty text of one of the groups |
| MatchValue.SingleIntIndex | src/date_detection/modules/calendar_variants/get_match_value.py:44-57 | a negative index or one beyond the capture groups gives None; an in-range group gives its text exactly when that text is non-empty, and None for an empty or non-participating group |
| MatchValue.StrIndexLikeInt | src/date_detection/modules/calendar_variants/get_match_value.py:47-54 | a string index written like an integer selects the same as that integer |
| MatchValue.StrIndexNotNumeric | src/date_detection/modules/calendar_variants/get_match_value.py:56-57 | a string `int()` rejects gives None (the caught ValueError) |
| MatchValue.ListIndexFirstHit | src/date_detection/modules/calendar_variants/get_match_value.py:60-65 | a list gives a value iff some candidate does, and then the value of the first such candidate |
| MatchValue.ListIndexConcat | src/date_detection/modules/calendar_variants/get_match_value.py:60-65 | searching `a + b` is searching `a`, then `b` |
| MatchValue.NestedListFlattens | src/date_detection/modules/calendar_variants/get_match_value.py:62 | `[[i, j], k]` selects the same as `[i, j, k]` |
| MatchValue.DocumentedExamples | src/date_detection/modules/calendar_variants/get_match_value.py:83-95 | the documented calls on the match of `2023-12-25`: `1`→`2023`, `2`→`12`, `"3"`→`25`, `[1, 2]`→`2023`, `[5, 2]`→`12`; no match, `None`, `10` and `[]` give None |
| EraNormalization.StepsShape | src/date_detection/modules/normalizers/normalize_era.py:54-129 | the cascade has twelve branches, each pairing `ar` with `en` and naming hijri, gregorian or julian |
| EraNormalization.StepsPartner | src/date_detection/modules/normalizers/normalize_era.py:54-129 | each branch sits next to its partner, which tests the other language's set for the same calendar and marker |
| EraNormalization.NormalizeEra | src/date_detection/modules/normalizers/normalize_era.py:28-141 | the bare `""` exactly for a None or empty era; an unrecognised era comes back unchanged with calendar `""`; a hit gives one of the three calendars and a `normalized` value of the table |
| EraNormalization.Cascade | src/date_detection/modules/normalizers/normalize_era.py:54-135 | from branch i on, a hit returns the calendar of some branch k >= i and the spelling of its target entry; no hit returns the era unchanged |
| EraNormalization.CompleteTableNeverRaises | src/date_detection/modules/normalizers/normalize_era.py:52-141 | with all 12 entries (both languages × the six calendar/marker pairs) present no lookup raises |
| EraNormalization.CascadeFirstHit | src/date_detection/modules/normalizers/normalize_era.py:54-129 | the first branch from i on whose set holds the era decides the result |
| EraNormalization.NoHitCascade | src/date_detection/modules/normalizers/normalize_era.py:132-135 | when no later set holds the era, it comes back unchanged with calendar `""` |
| EraNormalization.FirstHitWins | src/date_detection/modules/normalizers/normalize_era.py:54-129 | the first set in cascade order holding the era fixes the calendar; an Arabic hit gives the Arabic spelling unless `lang == "en"`, an English hit the English spelling unless `lang == "ar"` |
| EraNormalization.UnrecognizedEraUnchanged | src/date_detection/modules/normalizers/normalize_era.py:132-135 | the calendar is non-empty iff some keyword set holds the era; otherwise the result is `(era, "")` |
| EraNormalization.FirstHitAtOrBefore | src/date_detection/modules/normalizers/normalize_era.py:54-129 | when set k holds the era there is a first set j <= k holding it |
| EraNormalization.HijriKeywordGivesHijri | src/date_detection/modules/normalizers/normalize_era.py:54-77 | an era in any hijri set is read as hijri, whatever `lang` is |
| EraNormalization.RenormalizeHit | src/date_detection/modules/normalizers/normalize_era.py:54-129 | on a table whose entries hold their own non-empty spelling and whose spellings lie in no earlier set, a returned spelling is found first by the branch of the entry it came from |
| EraNormalization.NormalizeEraIdempotent | src/date_detection/modules/normalizers/normalize_era.py:28-141 | on such a table, normalizing a result again with the same `lang` gives it back |
| EraNormalization.DisjointGivesOwnSpellingFirst | src/date_detection/modules/normalizers/normalize_era.py:54-129 | a self-normalizing table with pairwise-disjoint keyword sets has every spelling in no earlier set, so the idempotence lemmas apply to it |
| PatternValidation.AnyIndicatorIn | src/date_detection/modules/patterns/patterns_date_classes/pattern_validator.py:120 | `any(indicator in pattern ...)` is true iff some indicator occurs in the pattern |
| PatternValidation.IndicatorsAreMeta | src/date_detection/modules/patterns/patterns_date_classes/pattern_validator.py:119 | some of the 13 indicators occurs in a string iff one of its characters is a metacharacter: `( ) [ ] { } \ + * ?`, the vertical bar, `^` or `$` |
| PatternValidation.LooksLikeRegex | src/date_detection/modules/patterns/patterns_date_classes/pattern_validator.py:87-120 | `_looks_like_regex` is true iff one of the string's characters is one of the 13 metacharacters |
| PatternValidation.PlainTextIsNotRegex | src/date_detection/modules/patterns/patterns_date_classes/pattern_validator.py:119-120 | lower-case letters and spaces never look like a regex |
| PatternValidation.RegexExamples | src/date_detection/modules/patterns/patterns_date_classes/pattern_validator.py:114-117 | `(\d{4})`, `[a-zA-Z]+` and `year (2024)` look like a regex |
| PatternValidation.PlainTextExamples | src/date_detection/modules/patterns/patterns_date_classes/pattern_validator.py:116-120 | `simple text` and the empty string do not |
| PatternValidation.ValidatePatterns | src/date_detection/modules/patterns/patterns_date_classes/pattern_validator.py:73-85 | returns normally iff no public, regex-looking string attribute fails to compile; otherwise names the first such attribute in iteration order, never a private one |
| PatternValidation.FirstFailureHasLeastName | src/date_detection/modules/patterns/patterns_date_classes/pattern_validator.py:73 | over `dir()`'s sorted order, the attribute named is the failing one with the least name |
| SampleData.SkipSpace | src/date_detection/modules/data/_load_config/__init__.py:74 | the start of `lstrip`: everything skipped is whitespace and the character found is not |
| SampleData.SkipSpaceBack | src/date_detection/modules/data/_load_config/__init__.py:74 | the end of `rstrip`: everything dropped is whitespace and the last character kept is not |
| SampleData.Strip | src/date_detection/modules/data/_load_config/__init__.py:74-82 | `strip()` never lengthens the text, and its result is empty or neither starts nor ends with whitespace (the full characterisation is `StripTrims`) |
| SampleData.StripTrims | src/date_detection/modules/data/_load_config/__init__.py:74 | `strip()` drops only whitespace at both ends, keeps text neither starting nor ending in whitespace, and is empty iff the text is all whitespace |
| SampleData.StripUnchanged | src/date_detection/modules/data/_load_config/__init__.py:78 | text without whitespace at its ends is unchanged by `strip()` |
| SampleData.Split | src/date_detection/modules/data/_load_config/__init__.py:74 | `split(sep)` gives at least one piece, no piece holds the separator, and joining the pieces gives the text back |
| SampleData.SplitNoSeparator | src/date_detection/modules/data/_load_config/__init__.py:82 | text without the separator splits into itself |
| SampleData.SplitAtFirst | src/date_detection/modules/data/_load_config/__init__.py:82 | the first separator ends the first piece |
| SampleData.SplitJoin | src/date_detection/modules/data/_load_config/__init__.py:74 | splitting undoes joining pieces free of the separator |
| SampleData.Fields | src/date_detection/modules/data/_load_config/__init__.py:82 | one stripped value per comma-separated piece |
| SampleData.FieldsOfJoin | src/date_detection/modules/data/_load_config/__init__.py:82 | the fields of comma-joined comma-free pieces are the stripped pieces |
| SampleData.ZipDict | src/date_detection/modules/data/_load_config/__init__.py:84 | the keys of `dict(zip(headers, values))` are exactly the headers |
| SampleData.ZipDictColumn | src/date_detection/modules/data/_load_config/__init__.py:84 | a header not repeated later maps to the value in its column |
| SampleData.KeptRows | src/date_detection/modules/data/_load_config/__init__.py:79-85 | the rows the loop appends; every row has exactly the headers as keys |
| SampleData.KeptRowsStep | src/date_detection/modules/data/_load_config/__init__.py:81-85 | one more data line appends that line's row exactly when its field count equals the header count |
| SampleData.Lines | src/date_detection/modules/data/_load_config/__init__.py:74 | `strip().split('\n')` gives at least one line, no line holds a line break, and joining the lines with line breaks gives the stripped text back |
| SampleData.ParseSampleData | src/date_detection/modules/data/_load_config/__init__.py:74-88 | returns the rows of `SampleRows`, at most one per line after the header |
| SampleData.KeepRows | src/date_detection/modules/data/_load_config/__init__.py:79-85 | the loop builds exactly the rows `KeptRows` describes |
| SampleData.KeptRowsBound | src/date_detection/modules/data/_load_config/__init__.py:79-85 | no more rows than data lines |
| SampleData.SampleRows | src/date_detection/modules/data/_load_config/__init__.py:74-88 | what `parse_sample_data` returns: no rows when the stripped text has fewer than two lines (:75-76), and at most one row per line after the header |
| SampleData.KeptRowsCount | src/date_detection/modules/data/_load_config/__init__.py:81-85 | one row per line whose field count equals the header count |
| SampleData.KeptRowAt | src/date_detection/modules/data/_load_config/__init__.py:81-85 | such a line gives the row after those of the earlier matching lines |
| SampleData.KeptRowsInOrder | src/date_detection/modules/data/_load_config/__init__.py:81-85 | a line is kept iff its field count matches, and the rows appear in input order |
| SampleData.AllMatchingKeptAll | src/date_detection/modules/data/_load_config/__init__.py:83-85 | when every line matches, every line gives a row |
| DefaultSample.SampleJoined | src/date_detection/modules/data/_load_config/__init__.py:58-63 | the sample text is its six lines joined by line breaks |
| DefaultSample.SampleLines | src/date_detection/modules/data/_load_config/__init__.py:58-63 | stripping and splitting the sample gives its six lines |
| DefaultSample.SecondDescriptionStripped | src/date_detection/modules/data/_load_config/__init__.py:60 | the two trailing spaces of the third line are stripped from its last field |
| DefaultSample.Line2Fields | src/date_detection/modules/data/_load_config/__init__.py:60 | the third line gives five fields, the last without its trailing spaces |
| DefaultSample.LinesFields | src/date_detection/modules/data/_load_config/__init__.py:58-63 | every line of the sample has five fields and no line break |
| DefaultSample.SampleParses | src/date_detection/modules/data/_load_config/__init__.py:58-88 | the built-in sample parses into five rows, each keyed by the five headers, with `Second sample item` as the second row's description |

## Left out

- `load_config`, `save_config`, `get_sample_data` and `get_data_stats`: file-system and JSON I/O. The text `parse_sample_data` reads is a parameter, and the built-in sample text is a constant.
- `print` calls and the `__main__` demonstration blocks: output only. The documented calls of those blocks are lemmas.
- `re.compile` and regex match objects belong to a foreign regex engine. Compilation is the parameter `compiles`; a match object is its list of groups.
- `dir()` and `getattr`: the attributes arrive as a list of name and value in `dir()` order. That this order is sorted by name is a precondition of `FirstFailureHasLeastName`.
- The text of the `ValueError` message: only the attribute name it carries is modelled.
- The contents of `era_keywords_dict`: its module is not part of this model, so the table is a parameter.
- The `NameError` re-raise of `normalize_era`: it fires only when the table is not defined, which cannot happen to a parameter.
- ParseInt: does not model Python `int()` corner cases (surrounding whitespace, `_` separators, non-ASCII digits); the callers' index strings are outside this model, and only the sign-and-ASCII-digits form is modelled.
- GetMatchValue: a `bool` index (an `int` subclass in Python) is not a separate case; it is the integer 0 or 1.
- NormalizeEraIdempotent: is proved for tables whose entries contain their own non-empty spelling and whose spellings lie in no earlier set of the cascade (`OwnSpellingFirst`); the code promises nothing for other tables.
- DefaultSample.SampleParses: states the row count, the keys of every row and one value; the other 24 values follow from `LinesFields`, `KeptRowAt` (or `KeptRowsInOrder`) for the row positions, and `ZipDictColumn`, but are not listed one by one.
- ZipDict: a Python dict keeps its keys in insertion order, which is header order by first occurrence; the model's `map` has no key order, so that order is not captured.
- The date detector, the pattern dataclasses and the month, weekday, key and numeric-word normalizers are not part of this model.
