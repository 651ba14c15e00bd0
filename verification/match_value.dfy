/**
 * Extraction of one date component's text from a regex match
 * (calendar_variants/get_match_value.py).
 *
 * A match object is modelled by the list of its groups: group 0 is the whole
 * match, groups 1.. are the capture groups, and `None` stands for a group that
 * did not take part in the match.  The index argument is modelled by the
 * Python values the function distinguishes: `None`, an `int`, a `str`, a
 * `list` of further indices, and any other object.
 */
module MatchValue {
  import opened Wrappers

  datatype Match = Match(groups: seq<Option<string>>)

  datatype Idx =
    | NoIdx                     // Python None
    | IntIdx(n: int)            // an int
    | StrIdx(s: string)         // a str, converted with int()
    | ListIdx(items: seq<Idx>)  // a list of candidate indices, tried in order
    | OtherIdx                  // any other type

  // ---------------------------------------------------------------------------
  // int(s) on strings: an optional sign followed by one or more ASCII digits.
  // ---------------------------------------------------------------------------

  predicate IsDigit(c: char) { '0' <= c <= '9' }

  predicate IsSign(c: char) { c == '-' || c == '+' }

  predicate AllDigits(s: string) { forall i :: 0 <= i < |s| ==> IsDigit(s[i]) }

  /** The shape of the strings int() accepts in this model. */
  predicate IsIntLiteral(s: string)
  {
    if |s| > 0 && IsSign(s[0]) then |s| > 1 && AllDigits(s[1..]) else |s| > 0 && AllDigits(s)
  }

  function DigitValue(c: char): nat
    requires IsDigit(c)
  {
    (c as int) - ('0' as int)
  }

  /** Value of a decimal digit string, most significant digit first. */
  function DigitsValue(s: string): nat
    requires AllDigits(s)
  {
    if s == [] then 0 else DigitsValue(s[..|s| - 1]) * 10 + DigitValue(s[|s| - 1])
  }

  /** Python int(s), for the strings this model admits; None where int() raises ValueError. */
  function ParseInt(s: string): (r: Option<int>)
    ensures r.Some? <==> IsIntLiteral(s)
    ensures r.Some? && s[0] == '-' ==> r.value <= 0
    ensures r.Some? && s[0] != '-' ==> r.value >= 0
  {
    if |s| > 0 && IsSign(s[0]) then
      if |s| > 1 && AllDigits(s[1..]) then
        var v: int := DigitsValue(s[1..]);
        Some(if s[0] == '-' then -v else v)
      else None
    else if |s| > 0 && AllDigits(s) then Some(DigitsValue(s))
    else None
  }

  /** Decimal rendering of a natural number (Python str(n) for n >= 0). */
  function ShowNat(n: nat): (s: string)
    ensures |s| > 0 && AllDigits(s)
  {
    if n < 10 then [('0' as int + n) as char]
    else ShowNat(n / 10) + [('0' as int + n % 10) as char]
  }

  /** Decimal rendering of an integer (Python str(n)). */
  function ShowInt(n: int): string
  {
    if n < 0 then "-" + ShowNat(-n) else ShowNat(n)
  }

  lemma {:induction false} DigitsValueShowNat(n: nat)
    ensures DigitsValue(ShowNat(n)) == n
  {
    if n >= 10 {
      var s := ShowNat(n);
      DigitsValueShowNat(n / 10);
      assert s[..|s| - 1] == ShowNat(n / 10);
    }
  }

  /** int(str(n)) == n: the conversion reads back every rendered integer. */
  lemma ParseIntShowInt(n: int)
    ensures ParseInt(ShowInt(n)) == Some(n)
  {
    if n < 0 {
      var s := ShowInt(n);
      assert s[1..] == ShowNat(-n);
      DigitsValueShowNat(-n);
    } else {
      DigitsValueShowNat(n);
    }
  }

  /** A leading zero does not change the value of a digit string. */
  lemma {:induction false} LeadingZeroValue(s: string)
    requires AllDigits(s)
    ensures AllDigits("0" + s) && DigitsValue("0" + s) == DigitsValue(s)
  {
    var t := "0" + s;
    if s == [] {
      assert t[..0] == [];
    } else {
      assert t[..|t| - 1] == "0" + s[..|s| - 1];
      LeadingZeroValue(s[..|s| - 1]);
    }
  }

  /** int("0" + s) == int(s) for a digit string s: leading zeros are accepted and ignored. */
  lemma ParseIntLeadingZero(s: string)
    requires |s| > 0 && AllDigits(s)
    ensures ParseInt("0" + s) == ParseInt(s)
  {
    LeadingZeroValue(s);
  }

  /** int("+" + s) == int(s) for a digit string s: a plus sign changes nothing. */
  lemma ParseIntPlus(s: string)
    requires |s| > 0 && AllDigits(s)
    ensures ParseInt("+" + s) == ParseInt(s)
  {
    var t := "+" + s;
    assert t[0] == '+' && t[1..] == s;
  }

  /** int("-" + s) == -int(s) for a digit string s. */
  lemma ParseIntMinus(s: string)
    requires |s| > 0 && AllDigits(s)
    ensures ParseInt("-" + s) == Some(-(DigitsValue(s) as int))
  {
    var t := "-" + s;
    assert t[0] == '-' && t[1..] == s;
  }

  // ---------------------------------------------------------------------------
  // get_match_value
  // ---------------------------------------------------------------------------

  /** The single-index case: bounds check against len(match.groups()), then "empty means absent". */
  function GroupValue(mt: Match, n: int): (r: Option<string>)
    ensures r.Some? <==> 0 <= n < |mt.groups| && mt.groups[n].Some? && mt.groups[n].value != ""
    ensures r.Some? ==> r == mt.groups[n]
  {
    if n < 0 || n > |mt.groups| - 1 then None
    else match mt.groups[n]
      case None => None
      case Some(t) => if t != "" then Some(t) else None
  }

  /**
   * get_match_value(match, idx): None for an absent match or index, the text
   * of the indexed group when it is non-empty, and for a list the first
   * non-empty result in list order.  A result is never the empty string and
   * is always the text of one of the match's groups.
   */
  function GetMatchValue(m: Option<Match>, idx: Idx): (r: Option<string>)
    ensures m.None? ==> r.None?
    ensures idx.NoIdx? || idx.OtherIdx? ==> r.None?
    ensures r.Some? ==> r.value != "" && m.Some?
    ensures r.Some? ==> exists k :: 0 <= k < |m.value.groups| && m.value.groups[k] == r
    decreases idx, 1
  {
    match m
    case None => None
    case Some(mt) =>
      match idx
      case NoIdx => None
      case IntIdx(n) => GroupValue(mt, n)
      case StrIdx(s) =>
        (match ParseInt(s)
         case None => None
         case Some(n) => GroupValue(mt, n))
      case ListIdx(items) => FirstValue(mt, items)
      case OtherIdx => None
  }

  /** The loop over a list of indices: the first candidate with a non-empty value wins. */
  function FirstValue(mt: Match, items: seq<Idx>): (r: Option<string>)
    ensures r.Some? ==> r.value != "" && exists k :: 0 <= k < |mt.groups| && mt.groups[k] == r
    decreases items, 0
  {
    if items == [] then None
    else
      var v := GetMatchValue(Some(mt), items[0]);
      if v.Some? && v.value != "" then v else FirstValue(mt, items[1..])
  }

  // ---------------------------------------------------------------------------
  // Properties
  // ---------------------------------------------------------------------------

  /** A single int index: out of [0, len(groups())] it yields None without raising;
      in range it yields the group's text exactly when that text is non-empty. */
  lemma SingleIntIndex(mt: Match, n: int)
    ensures n < 0 || n >= |mt.groups| ==> GetMatchValue(Some(mt), IntIdx(n)) == None
    ensures 0 <= n < |mt.groups| && mt.groups[n].Some? && mt.groups[n].value != "" ==>
              GetMatchValue(Some(mt), IntIdx(n)) == mt.groups[n]
    ensures 0 <= n < |mt.groups| && (mt.groups[n] == None || mt.groups[n] == Some("")) ==>
              GetMatchValue(Some(mt), IntIdx(n)) == None
  {
  }

  /** A str index behaves like the int it denotes: "3" selects group 3, "-1" is out of range. */
  lemma StrIndexLikeInt(mt: Match, n: int)
    ensures GetMatchValue(Some(mt), StrIdx(ShowInt(n))) == GetMatchValue(Some(mt), IntIdx(n))
  {
    ParseIntShowInt(n);
  }

  /** A str that int() rejects (the caught ValueError) yields None. */
  lemma StrIndexNotNumeric(mt: Match, s: string)
    requires !IsIntLiteral(s)
    ensures GetMatchValue(Some(mt), StrIdx(s)) == None
  {
  }

  /** A list index: some value exactly when some candidate has one, and then the
      value of the first such candidate in list order. */
  lemma {:induction false} ListIndexFirstHit(mt: Match, items: seq<Idx>)
    ensures GetMatchValue(Some(mt), ListIdx(items)).Some? <==>
              exists k :: 0 <= k < |items| && GetMatchValue(Some(mt), items[k]).Some?
    ensures forall k :: 0 <= k < |items| && GetMatchValue(Some(mt), items[k]).Some? &&
                        (forall j :: 0 <= j < k ==> GetMatchValue(Some(mt), items[j]).None?) ==>
              GetMatchValue(Some(mt), ListIdx(items)) == GetMatchValue(Some(mt), items[k])
  {
    if items != [] {
      ListIndexFirstHit(mt, items[1..]);
      var v := GetMatchValue(Some(mt), items[0]);
      if v.None? {
        forall k | 1 <= k < |items| && GetMatchValue(Some(mt), items[k]).Some?
          ensures GetMatchValue(Some(mt), items[1..][k - 1]).Some?
        {
          assert items[1..][k - 1] == items[k];
        }
        forall k | 0 <= k < |items| && GetMatchValue(Some(mt), items[k]).Some? &&
                   (forall j :: 0 <= j < k ==> GetMatchValue(Some(mt), items[j]).None?)
          ensures GetMatchValue(Some(mt), ListIdx(items)) == GetMatchValue(Some(mt), items[k])
        {
          assert items[1..][k - 1] == items[k];
          forall j | 0 <= j < k - 1 ensures GetMatchValue(Some(mt), items[1..][j]).None? {
            assert items[1..][j] == items[j + 1];
          }
        }
      }
    }
  }

  /** Trying the candidates of a + b is trying those of a, then those of b. */
  lemma {:induction false} ListIndexConcat(mt: Match, a: seq<Idx>, b: seq<Idx>)
    ensures GetMatchValue(Some(mt), ListIdx(a + b)) ==
              if GetMatchValue(Some(mt), ListIdx(a)).Some? then GetMatchValue(Some(mt), ListIdx(a))
              else GetMatchValue(Some(mt), ListIdx(b))
  {
    if a == [] {
      assert a + b == b;
    } else {
      assert (a + b)[0] == a[0];
      assert (a + b)[1..] == a[1..] + b;
      ListIndexConcat(mt, a[1..], b);
    }
  }

  /** The recursive call on list elements flattens nested lists: [[i, j], k] acts like [i, j, k]. */
  lemma NestedListFlattens(mt: Match, a: seq<Idx>, b: seq<Idx>)
    ensures GetMatchValue(Some(mt), ListIdx([ListIdx(a)] + b)) == GetMatchValue(Some(mt), ListIdx(a + b))
  {
    assert ([ListIdx(a)] + b)[1..] == b;
    ListIndexConcat(mt, a, b);
  }

  /** The documented calls on re.search(r'(\d{4})-(\d{2})-(\d{2})', '2023-12-25'). */
  lemma DocumentedExamples()
    ensures var mt := Match([Some("2023-12-25"), Some("2023"), Some("12"), Some("25")]);
      && GetMatchValue(Some(mt), IntIdx(1)) == Some("2023")
      && GetMatchValue(Some(mt), IntIdx(2)) == Some("12")
      && GetMatchValue(Some(mt), StrIdx("3")) == Some("25")
      && GetMatchValue(Some(mt), ListIdx([IntIdx(1), IntIdx(2)])) == Some("2023")
      && GetMatchValue(Some(mt), ListIdx([IntIdx(5), IntIdx(2)])) == Some("12")
      && GetMatchValue(None, IntIdx(1)) == None
      && GetMatchValue(Some(mt), NoIdx) == None
      && GetMatchValue(Some(mt), IntIdx(10)) == None
      && GetMatchValue(Some(mt), ListIdx([])) == None
  {
    var mt := Match([Some("2023-12-25"), Some("2023"), Some("12"), Some("25")]);
    StrIndexLikeInt(mt, 3);
    assert ShowInt(3) == "3";
  }
}
