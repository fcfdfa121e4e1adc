/**
 * The string utilities of namespace `str` (strutils.h), over `string`
 * (`seq<char>`), with the ASCII behaviour of the C locale.
 *
 * Library calls the utilities are built from (`std::string::find`,
 * `find_first_of`, `find_first_not_of`, `find_last_not_of`, `substr`) are
 * functions here, each characterised by its contract.
 */
module StrUtils {
  import opened Common

  // ---------------------------------------------------------------------
  // Searching
  // ---------------------------------------------------------------------

  /** `p` occurs in `s` starting at index `i`. */
  predicate OccursAt(s: string, p: string, i: nat)
  {
    i + |p| <= |s| && s[i..i + |p|] == p
  }

  /** `p` matches `s` character by character from index `i` on: the comparison `find` makes at one position. */
  predicate MatchAt(s: string, p: string, i: nat)
    decreases |p|
  {
    i + |p| <= |s| && (p == [] || (s[i] == p[0] && MatchAt(s, p[1..], i + 1)))
  }

  /** Matching character by character is occurring as a substring. */
  lemma {:induction false} MatchAtIff(s: string, p: string, i: nat)
    ensures MatchAt(s, p, i) <==> OccursAt(s, p, i)
    decreases |p|
  {
    if p != [] && i + |p| <= |s| {
      MatchAtIff(s, p[1..], i + 1);
      assert s[i..i + |p|] == [s[i]] + s[i + 1..i + |p|];
      assert p == [p[0]] + p[1..];
    }
  }

  /** Matching in `a + t` beyond the prefix `a` is matching in `t`. */
  lemma {:induction false} MatchAtAfterPrefix(a: string, t: string, p: string, j: nat)
    ensures MatchAt(a + t, p, |a| + j) == MatchAt(t, p, j)
    decreases |p|
  {
    if p != [] && j + |p| <= |t| {
      assert (a + t)[|a| + j] == t[j];
      MatchAtAfterPrefix(a, t, p[1..], j + 1);
    }
  }

  /** `s.find(p, from)`: the leftmost occurrence of `p` at or after `from` (`FindSpec`). */
  function Find(s: string, p: string, from: nat): (r: Option<nat>)
    ensures r.Some? ==> from <= r.value && r.value + |p| <= |s|
    decreases |s| - from
  {
    if from + |p| > |s| then None
    else if MatchAt(s, p, from) then Some(from)
    else Find(s, p, from + 1)
  }

  /** What `find` returns: an occurrence of `p`, with none before it from `from` on; none at all when it fails. */
  lemma {:induction false} FindSpec(s: string, p: string, from: nat)
    ensures var r := Find(s, p, from);
            && (r.Some? ==> OccursAt(s, p, r.value))
            && (forall i :: from <= i && (r.None? || i < r.value) ==> !OccursAt(s, p, i))
    decreases |s| - from
  {
    MatchAtIff(s, p, from);
    if from + |p| <= |s| && !MatchAt(s, p, from) {
      FindSpec(s, p, from + 1);
    }
  }

  /** A search in `a + t` beyond the prefix `a` is a search in `t`. */
  lemma {:induction false} FindAfterPrefix(a: string, t: string, p: string, j: nat)
    ensures Find(a + t, p, |a| + j) == Shift(Find(t, p, j), |a|)
    decreases |t| - j
  {
    if j + |p| <= |t| {
      MatchAtAfterPrefix(a, t, p, j);
      if !MatchAt(t, p, j) {
        FindAfterPrefix(a, t, p, j + 1);
      }
    }
  }

  /** `s.find_first_of(chars, from)`. */
  function FindFirstOf(s: string, chars: string, from: nat): (r: Option<nat>)
    ensures r.Some? ==> from <= r.value < |s| && s[r.value] in chars
    ensures forall i :: from <= i < |s| && (r.None? || i < r.value) ==> s[i] !in chars
    decreases |s| - from
  {
    if from >= |s| then None
    else if s[from] in chars then Some(from)
    else FindFirstOf(s, chars, from + 1)
  }

  lemma {:induction false} FindFirstOfAfterPrefix(a: string, t: string, chars: string, j: nat)
    ensures FindFirstOf(a + t, chars, |a| + j) == Shift(FindFirstOf(t, chars, j), |a|)
    decreases |t| - j
  {
    if j < |t| {
      assert (a + t)[|a| + j] == t[j];
      if t[j] !in chars {
        FindFirstOfAfterPrefix(a, t, chars, j + 1);
      }
    }
  }

  /** `s.find_first_not_of(chars, from)`. */
  function FindFirstNotOf(s: string, chars: string, from: nat): (r: Option<nat>)
    ensures r.Some? ==> from <= r.value < |s| && s[r.value] !in chars
    ensures forall i :: from <= i < |s| && (r.None? || i < r.value) ==> s[i] in chars
    decreases |s| - from
  {
    if from >= |s| then None
    else if s[from] !in chars then Some(from)
    else FindFirstNotOf(s, chars, from + 1)
  }

  /** `s.find_last_not_of(chars)` restricted to the first `upto` characters. */
  function FindLastNotOf(s: string, chars: string, upto: nat): (r: Option<nat>)
    requires upto <= |s|
    ensures r.Some? ==> r.value < upto && s[r.value] !in chars
    ensures forall i :: 0 <= i < upto && (r.None? || r.value < i) ==> s[i] in chars
  {
    if upto == 0 then None
    else if s[upto - 1] !in chars then Some(upto - 1)
    else FindLastNotOf(s, chars, upto - 1)
  }

  // ---------------------------------------------------------------------
  // contains, starts_with, ends_with
  // ---------------------------------------------------------------------

  /** `contains`: `pattern` occurs somewhere in `str`. */
  function Contains(str: string, pattern: string): (r: bool)
    ensures r <==> exists i :: OccursAt(str, pattern, i)
  {
    FindSpec(str, pattern, 0);
    Find(str, pattern, 0).Some?
  }

  /** `starts_with`: `pattern` is a prefix of `str`. */
  function StartsWith(str: string, pattern: string): (r: bool)
    ensures r <==> pattern <= str
    ensures r ==> str == pattern + str[|pattern|..] && Contains(str, pattern)
  {
    var ok := |pattern| <= |str| && str[..|pattern|] == pattern;
    assert ok ==> OccursAt(str, pattern, 0);
    ok
  }

  /** `ends_with`: `pattern` is a suffix of `str`. */
  function EndsWith(str: string, pattern: string): (r: bool)
    ensures r <==> exists t :: str == t + pattern
    ensures r ==> Contains(str, pattern)
  {
    var ok := |pattern| <= |str| && str[|str| - |pattern|..] == pattern;
    assert ok ==> str == str[..|str| - |pattern|] + pattern;
    assert ok ==> OccursAt(str, pattern, |str| - |pattern|);
    ok
  }

  // ---------------------------------------------------------------------
  // range
  // ---------------------------------------------------------------------

  /**
   * `s.substr(pos, count)` for arguments that were `int`s converted to
   * `size_t`: a negative value stands for the huge `size_t` it becomes.
   * A position beyond the end throws; a count past the end is clipped.
   */
  function Substr(s: string, pos: int, count: int): (r: Result<string>)
    ensures r.Ok? <==> 0 <= pos <= |s|
    ensures r.Ok? ==> r.value <= s[pos..]
    ensures r.Ok? && (count < 0 || pos + count >= |s|) ==> r.value == s[pos..]
    ensures r.Ok? && 0 <= count ==> |r.value| == Min(count, |s| - pos)
  {
    if pos < 0 || pos > |s| then OutOfRange
    else if count < 0 then Ok(s[pos..])
    else Ok(s[pos..Min(|s|, pos + count)])
  }

  /**
   * `range(str, from, to)`: the characters from `from` (inclusive) to `to`
   * (exclusive); a negative index counts from the end (-1 is the last
   * character, and as `to` it includes it). The index arithmetic is that
   * of the source: `size_t` sums narrowed back to `int`.
   */
  function Range(str: string, from: Int32, to: Int32 := -1): Result<string>
  {
    var f := if from < 0 then ToInt32(|str| + from as int) else from as int;
    var count := if to < 0 then ToInt32(|str| - f + to as int + 1) else to as int - f;
    Substr(str, f, count)
  }

  /** `range(s, 0, -1)` is the whole string. */
  lemma RangeWhole(s: string)
    requires |s| < 0x8000_0000
    ensures Range(s, 0, -1) == Ok(s)
  {
  }

  /** With the default `to`, `range(s, from)` is the suffix from `from`. */
  lemma RangeSuffix(s: string, from: Int32)
    requires 0 <= from as int <= |s| < 0x8000_0000
    ensures Range(s, from) == Ok(s[from..])
  {
  }

  /** Non-negative `from <= to` within the string select `s[from..to]`. */
  lemma RangeSlice(s: string, from: Int32, to: Int32)
    requires 0 <= from <= to && to as int <= |s| < 0x8000_0000
    ensures Range(s, from, to) == Ok(s[from..to])
  {
  }

  /** A negative `from` counts from the end of the string. */
  lemma RangeNegativeFrom(s: string, from: Int32, to: Int32)
    requires |s| < 0x8000_0000 && -(|s| as int) <= from as int < 0
    ensures Range(s, from, to) == Range(s, (|s| + from as int) as Int32, to)
  {
  }

  /** A negative `to` of -k ends the range k - 1 characters before the end. */
  lemma RangeNegativeTo(s: string, from: Int32, to: Int32)
    requires |s| < 0x8000_0000 && 0 <= from as int <= |s| + to as int + 1 && to < 0
    ensures Range(s, from, to) == Ok(s[from..|s| + to as int + 1])
  {
  }

  /** A start outside the string throws. */
  lemma RangeOutOfRange(s: string, from: Int32, to: Int32)
    requires |s| < 0x8000_0000
    requires from as int > |s| || from as int < -(|s| as int)
    ensures Range(s, from, to) == OutOfRange
  {
  }

  /**
   * A `to` before `from` gives a negative count, which `substr` reads as
   * "to the end": the range is the whole suffix, not the empty string.
   */
  lemma RangeReversedIsSuffix(s: string, from: Int32, to: Int32)
    requires 0 <= to < from && from as int <= |s|
    ensures Range(s, from, to) == Ok(s[from..])
  {
  }

  // ---------------------------------------------------------------------
  // lstrip, rstrip, strip
  // ---------------------------------------------------------------------

  /** `lstrip`: drops the leading characters that are in `strip_chars`. */
  function LStrip(str: string, strip_chars: string := " "): (r: string)
    ensures |r| <= |str| && r == str[|str| - |r|..]
    ensures r == [] || r[0] !in strip_chars
    ensures forall i :: 0 <= i < |str| - |r| ==> str[i] in strip_chars
  {
    match FindFirstNotOf(str, strip_chars, 0)
    case None => []
    case Some(k) => str[k..]
  }

  /** `rstrip`: drops the trailing characters that are in `strip_chars`. */
  function RStrip(str: string, strip_chars: string := " "): (r: string)
    ensures |r| <= |str| && r == str[..|r|]
    ensures r == [] || r[|r| - 1] !in strip_chars
    ensures forall i :: |r| <= i < |str| ==> str[i] in strip_chars
  {
    match FindLastNotOf(str, strip_chars, |str|)
    case None => []
    case Some(k) => str[..k + 1]
  }

  /** `strip`: `lstrip` and then `rstrip` of what is left. */
  function Strip(str: string, strip_chars: string := " "): (r: string)
    ensures |r| <= |str|
    ensures r == [] || (r[0] !in strip_chars && r[|r| - 1] !in strip_chars)
  {
    RStrip(LStrip(str, strip_chars), strip_chars)
  }

  /** `lstrip` removes exactly a leading run of stripped characters that ends at a kept one. */
  lemma LStripUnique(t: string, chars: string, n: nat)
    requires n <= |t| && (n == |t| || t[n] !in chars)
    requires forall i :: 0 <= i < n ==> t[i] in chars
    ensures LStrip(t, chars) == t[n..]
  {
  }

  /** `rstrip` removes exactly a trailing run of stripped characters that starts after a kept one. */
  lemma RStripUnique(t: string, chars: string, n: nat)
    requires n <= |t| && (n == 0 || t[n - 1] !in chars)
    requires forall i :: n <= i < |t| ==> t[i] in chars
    ensures RStrip(t, chars) == t[..n]
  {
  }

  /** Both ends are trimmed independently: the order of the two strips does not matter. */
  lemma StripEitherOrder(s: string, chars: string)
    ensures Strip(s, chars) == LStrip(RStrip(s, chars), chars)
  {
    var l := LStrip(s, chars);
    var r := RStrip(s, chars);
    var a := |s| - |l|;
    var b := |r|;
    if l == [] {
      RStripUnique(s, chars, 0);
    } else {
      // s[a] is the first kept character and s[b - 1] the last one
      assert s[a] == l[0];
      assert a < b;
      RStripUnique(l, chars, b - a);
      assert l[..b - a] == s[a..b];
      LStripUnique(r, chars, a);
      assert r[a..] == s[a..b];
    }
  }

  /** Stripping twice is stripping once. */
  lemma StripIdempotent(s: string, chars: string)
    ensures Strip(Strip(s, chars), chars) == Strip(s, chars)
  {
    var t := Strip(s, chars);
    StripEitherOrder(s, chars);
    var r := RStrip(s, chars);
    assert t == LStrip(r, chars);
    // t starts with a kept character (as an lstrip result) and ends with one (as a suffix of an rstrip result)
    assert t == [] || t[|t| - 1] == r[|r| - 1];
    LStripUnique(t, chars, 0);
    RStripUnique(t, chars, |t|);
  }

  // ---------------------------------------------------------------------
  // to_upper, to_lower, iequals
  // ---------------------------------------------------------------------

  /** `::toupper` in the C locale. */
  function UpperChar(c: char): char
  {
    if 'a' <= c <= 'z' then (c as int - 32) as char else c
  }

  /** `::tolower` in the C locale. */
  function LowerChar(c: char): char
  {
    if 'A' <= c <= 'Z' then (c as int + 32) as char else c
  }

  /** The string with every character passed through `::toupper`. */
  function Uppered(s: string): (r: string)
    ensures |r| == |s| && forall i :: 0 <= i < |s| ==> r[i] == UpperChar(s[i])
  {
    seq(|s|, i requires 0 <= i < |s| => UpperChar(s[i]))
  }

  /** The string with every character passed through `::tolower`. */
  function Lowered(s: string): (r: string)
    ensures |r| == |s| && forall i :: 0 <= i < |s| ==> r[i] == LowerChar(s[i])
  {
    seq(|s|, i requires 0 <= i < |s| => LowerChar(s[i]))
  }

  /** `to_upper`: transforms its copy of the argument character by character. */
  method ToUpper(str: string) returns (r: string)
    ensures r == Uppered(str)
  {
    r := str;
    var i := 0;
    while i < |r|
      invariant 0 <= i <= |r| == |str|
      invariant forall k :: 0 <= k < i ==> r[k] == UpperChar(str[k])
      invariant forall k :: i <= k < |r| ==> r[k] == str[k]
    {
      r := r[i := UpperChar(r[i])];
      i := i + 1;
    }
  }

  /** `to_lower`: transforms its copy of the argument character by character. */
  method ToLower(str: string) returns (r: string)
    ensures r == Lowered(str)
  {
    r := str;
    var i := 0;
    while i < |r|
      invariant 0 <= i <= |r| == |str|
      invariant forall k :: 0 <= k < i ==> r[k] == LowerChar(str[k])
      invariant forall k :: i <= k < |r| ==> r[k] == str[k]
    {
      r := r[i := LowerChar(r[i])];
      i := i + 1;
    }
  }

  /** `iequals`: the lower-cased strings compare equal. */
  function IEquals(s1: string, s2: string): (r: bool)
    ensures r <==> |s1| == |s2| && forall i :: 0 <= i < |s1| ==> LowerChar(s1[i]) == LowerChar(s2[i])
  {
    Lowered(s1) == Lowered(s2)
  }

  /** Case-insensitive equality is an equivalence relation. */
  lemma IEqualsEquivalence(a: string, b: string, c: string)
    ensures IEquals(a, a)
    ensures IEquals(a, b) ==> IEquals(b, a)
    ensures IEquals(a, b) && IEquals(b, c) ==> IEquals(a, c)
  {
  }

  /** A string equals its upper- and lower-cased forms, ignoring case. */
  lemma IEqualsCaseFolded(s: string)
    ensures IEquals(s, Uppered(s)) && IEquals(s, Lowered(s))
  {
  }

  // ---------------------------------------------------------------------
  // remove_non_alnum_chars
  // ---------------------------------------------------------------------

  /** `::isalnum` in the C locale. */
  predicate IsAlnum(c: char)
  {
    '0' <= c <= '9' || 'A' <= c <= 'Z' || 'a' <= c <= 'z'
  }

  /** `remove_non_alnum_chars`: the alphanumeric characters of `text`, in order. */
  function RemoveNonAlnumChars(text: string): (r: string)
    ensures forall i :: 0 <= i < |r| ==> IsAlnum(r[i])
    ensures |r| <= |text|
  {
    if text == [] then []
    else (if IsAlnum(text[0]) then [text[0]] else []) + RemoveNonAlnumChars(text[1..])
  }

  /** The filter works piecewise: it keeps each character independently of the others. */
  lemma {:induction false} RemoveNonAlnumConcat(a: string, b: string)
    ensures RemoveNonAlnumChars(a + b) == RemoveNonAlnumChars(a) + RemoveNonAlnumChars(b)
  {
    if a != [] {
      assert (a + b)[0] == a[0] && (a + b)[1..] == a[1..] + b;
      RemoveNonAlnumConcat(a[1..], b);
      var head := if IsAlnum(a[0]) then [a[0]] else [];
      calc {
        RemoveNonAlnumChars(a + b);
        head + RemoveNonAlnumChars(a[1..] + b);
        head + (RemoveNonAlnumChars(a[1..]) + RemoveNonAlnumChars(b));
        (head + RemoveNonAlnumChars(a[1..])) + RemoveNonAlnumChars(b);
      }
    } else {
      assert a + b == b;
    }
  }

  /** An alphanumeric text is kept as it is; hence the filter is idempotent. */
  lemma {:induction false} RemoveNonAlnumKeepsAlnum(text: string)
    requires forall i :: 0 <= i < |text| ==> IsAlnum(text[i])
    ensures RemoveNonAlnumChars(text) == text
  {
    if text != [] {
      RemoveNonAlnumKeepsAlnum(text[1..]);
    }
  }

  /** Every alphanumeric character of the text survives, as often as it occurs. */
  lemma {:induction false} RemoveNonAlnumCounts(text: string, c: char)
    requires IsAlnum(c)
    ensures multiset(RemoveNonAlnumChars(text))[c] == multiset(text)[c]
  {
    if text != [] {
      RemoveNonAlnumCounts(text[1..], c);
      assert text == [text[0]] + text[1..];
    }
  }

  // ---------------------------------------------------------------------
  // split, split_delims, and joining items back
  // ---------------------------------------------------------------------

  /** The separator a split looks for: a delimiter string, or any one of a set of characters. */
  datatype Sep = Delim(d: string) | AnyOf(chars: string)
  {
    /** A split makes progress only over non-empty separators. */
    predicate Valid() { Delim? ==> d != [] }

    /** How many characters a separator occupies. */
    function Len(): nat { if Delim? then |d| else 1 }
  }

  /** The first separator in `t` at or after `from`: `find` or `find_first_of`. */
  function NextSep(t: string, sep: Sep, from: nat): (r: Option<nat>)
    ensures r.Some? ==> from <= r.value && r.value + sep.Len() <= |t|
  {
    match sep
    case Delim(d) => Find(t, d, from)
    case AnyOf(chars) => FindFirstOf(t, chars, from)
  }

  /** A search for a separator in `a + t` beyond the prefix `a` is a search in `t`. */
  lemma NextSepAfterPrefix(a: string, t: string, sep: Sep)
    ensures NextSep(a + t, sep, |a|) == Shift(NextSep(t, sep, 0), |a|)
  {
    match sep {
      case Delim(d) => FindAfterPrefix(a, t, d, 0);
      case AnyOf(chars) => FindFirstOfAfterPrefix(a, t, chars, 0);
    }
  }

  /**
   * The items the split loop produces from the remaining text `t` on:
   * each round cuts the text at the next separator (or takes all of it)
   * and keeps the item unless `skip` is set and it is empty. `quota` is
   * the number of items still to be kept before the loop appends the
   * unsplit remainder and stops (0: no limit); when that point is reached
   * with no separator left, the remainder starts at `npos` and `substr`
   * throws.
   */
  function SplitRest(t: string, sep: Sep, skip: bool, quota: nat): Result<seq<string>>
    requires sep.Valid()
    decreases |t|, 1
  {
    SplitCut(t, sep, skip, quota, NextSep(t, sep, 0))
  }

  /** One round of `SplitRest`, given where (if anywhere) the next separator is. */
  function SplitCut(t: string, sep: Sep, skip: bool, quota: nat, found: Option<nat>): Result<seq<string>>
    requires sep.Valid()
    requires found.Some? ==> found.value + sep.Len() <= |t|
    decreases |t|, 0
  {
    var end := if found.Some? then found.value else |t|;
    var item := if found.Some? then t[..end] else t;
    var kept := !skip || item != [];
    var pushed := if kept then [item] else [];
    if kept && quota == 1 then
      (if found.Some? then Ok(pushed + [t[end + sep.Len()..]]) else OutOfRange)
    else if found.None? then Ok(pushed)
    else Prepend(pushed, SplitRest(t[end + sep.Len()..], sep, skip, if kept && quota > 0 then quota - 1 else quota))
  }

  /** What `split` (with a `Delim`) and `split_delims` (with `AnyOf`) return, or throw. */
  function SplitSpec(str: string, sep: Sep, skip_empty: bool, max_items: nat): Result<seq<string>>
    requires sep.Valid()
  {
    if max_items == 1 then Ok([str])
    else if str == [] then Ok([])
    else SplitRest(str, sep, skip_empty, if max_items == 0 then 0 else max_items - 1)
  }

  /** The number of separators a left-to-right scan of `t` finds. */
  function SepCount(t: string, sep: Sep): nat
    requires sep.Valid()
    decreases |t|
  {
    var found := NextSep(t, sep, 0);
    if found.None? then 0 else 1 + SepCount(t[found.value + sep.Len()..], sep)
  }

  /** `items` with `d` between consecutive items. */
  function Join(items: seq<string>, d: string): string
  {
    if |items| == 0 then []
    else if |items| == 1 then items[0]
    else items[0] + d + Join(items[1..], d)
  }

  lemma JoinStartsWithFirst(items: seq<string>, d: string)
    requires items != []
    ensures items[0] <= Join(items, d)
  {
    if |items| > 1 {
      assert Join(items, d) == items[0] + (d + Join(items[1..], d));
    }
  }

  lemma {:induction false} JoinSnoc(items: seq<string>, x: string, d: string)
    requires items != []
    ensures Join(items + [x], d) == Join(items, d) + d + x
  {
    if |items| > 1 {
      assert (items + [x])[1..] == items[1..] + [x];
      JoinSnoc(items[1..], x, d);
    }
  }

  /** Appending item `i` to the first `i` items, joined, after the separator that follows them. */
  lemma JoinStep(items: seq<string>, i: nat, d: string)
    requires i < |items|
    ensures Join(items[..i + 1], d) == Join(items[..i], d) + (if 0 < i then d else []) + items[i]
  {
    if i > 0 {
      JoinSnoc(items[..i], items[i], d);
      assert items[..i + 1] == items[..i] + [items[i]];
    } else {
      assert items[..1] == [items[0]];
    }
  }

  /** The bookkeeping of the split loops: how many more items may be kept before the remainder is appended. */
  function Quota(max_items: nat, kept: nat): nat
  {
    if max_items == 0 || max_items <= kept + 1 then 0 else max_items - 1 - kept
  }

  /** The loop invariant of the split loops: what is still to come, given what is collected. */
  ghost predicate SplitStep(str: string, sep: Sep, skip: bool, max_items: nat, goal: Result<seq<string>>,
                            start: Option<nat>, end: nat, items: seq<string>)
    requires sep.Valid()
  {
    && end <= |str|
    && (max_items != 0 ==> |items| + 1 < max_items)
    && (end == |str| ==> goal == Ok(items))
    && (end != |str| ==>
          && start.Some? && start.value <= |str|
          && goal == Prepend(items, SplitRest(str[start.value..], sep, skip, Quota(max_items, |items|))))
  }

  /** One round of the split loops in terms of the remaining text `t`, with `items` collected. */
  lemma SplitRound(t: string, sep: Sep, skip: bool, max_items: nat, items: seq<string>, found: Option<nat>)
    requires sep.Valid()
    requires found.Some? ==> found.value + sep.Len() <= |t|
    requires max_items != 0 ==> |items| + 1 < max_items
    ensures
      var end := if found.Some? then found.value else |t|;
      var item := if found.Some? then t[..end] else t;
      var items' := if !skip || item != [] then items + [item] else items;
      Prepend(items, SplitCut(t, sep, skip, Quota(max_items, |items|), found))
      == if max_items != 0 && |items'| + 1 == max_items then
           (if found.Some? then Ok(items' + [t[end + sep.Len()..]]) else OutOfRange)
         else if found.None? then Ok(items')
         else Prepend(items', SplitRest(t[end + sep.Len()..], sep, skip, Quota(max_items, |items'|)))
  {
    var q := Quota(max_items, |items|);
    var end := if found.Some? then found.value else |t|;
    var item := if found.Some? then t[..end] else t;
    var pushed := if !skip || item != [] then [item] else [];
    var items' := if !skip || item != [] then items + [item] else items;
    assert items' == items + pushed;
    assert max_items != 0 ==> q == max_items - 1 - |items|;
    if found.Some? {
      var rest := t[end + sep.Len()..];
      if pushed != [] && q == 1 {
        assert items + (pushed + [rest]) == items' + [rest];
      } else {
        assert Quota(max_items, |items'|) == if pushed != [] && q > 0 then q - 1 else q;
        PrependTwice(items, pushed, SplitRest(rest, sep, skip, Quota(max_items, |items'|)));
      }
    } else if !(pushed != [] && q == 1) {
      assert Prepend(items, Ok(pushed)) == Ok(items');
    }
  }

  /** A position in `str` as a position in `str[from..]`. */
  function Back(found: Option<nat>, from: nat): (r: Option<nat>)
    requires found.Some? ==> from <= found.value
    ensures Shift(r, from) == found
  {
    if found.Some? then Some(found.value - from) else None
  }

  /** The rest of a split from position `from` of `str` is cut at the next separator found in `str`. */
  lemma SplitRestAt(str: string, sep: Sep, skip: bool, quota: nat, from: nat)
    requires sep.Valid() && from <= |str|
    ensures var found := NextSep(str, sep, from);
            SplitRest(str[from..], sep, skip, quota) == SplitCut(str[from..], sep, skip, quota, Back(found, from))
  {
    var t := str[from..];
    assert str[..from] + t == str;
    NextSepAfterPrefix(str[..from], t, sep);
  }

  /** A round of the split loops from position `from` of `str` that finds no separator. */
  lemma SplitAdvanceNone(str: string, sep: Sep, skip: bool, max_items: nat, from: nat,
                         items: seq<string>, items': seq<string>)
    requires sep.Valid() && from <= |str|
    requires max_items != 0 ==> |items| + 1 < max_items
    requires items' == if !skip || str[from..] != [] then items + [str[from..]] else items
    ensures Prepend(items, SplitCut(str[from..], sep, skip, Quota(max_items, |items|), None))
            == if max_items != 0 && |items'| + 1 == max_items then OutOfRange else Ok(items')
  {
    SplitRound(str[from..], sep, skip, max_items, items, None);
  }

  /** A round of the split loops from position `from` of `str` that finds a separator at `end`. */
  lemma SplitAdvanceSome(str: string, sep: Sep, skip: bool, max_items: nat, from: nat, end: nat,
                         items: seq<string>, items': seq<string>)
    requires sep.Valid() && from <= end && end + sep.Len() <= |str|
    requires max_items != 0 ==> |items| + 1 < max_items
    requires items' == if !skip || str[from..end] != [] then items + [str[from..end]] else items
    ensures Prepend(items, SplitCut(str[from..], sep, skip, Quota(max_items, |items|), Some(end - from)))
            == if max_items != 0 && |items'| + 1 == max_items then Ok(items' + [str[end + sep.Len()..]])
               else Prepend(items', SplitRest(str[end + sep.Len()..], sep, skip, Quota(max_items, |items'|)))
  {
    var t := str[from..];
    SplitRound(t, sep, skip, max_items, items, Some(end - from));
    assert t[..end - from] == str[from..end];
    assert t[end - from + sep.Len()..] == str[end + sep.Len()..];
  }

  /**
   * One iteration of the split loops: from the invariant at `from` with
   * `before` collected, the separator search `found`, the item kept or not
   * (`items`) and the next start position, either the loop stops with what
   * `goal` says, or the invariant holds again.
   */
  lemma SplitNext(str: string, sep: Sep, skip: bool, max_items: nat, goal: Result<seq<string>>,
                  from: nat, found: Option<nat>, before: seq<string>, items: seq<string>, start: Option<nat>)
    requires sep.Valid() && from <= |str|
    requires max_items != 0 ==> |before| + 1 < max_items
    requires goal == Prepend(before, SplitRest(str[from..], sep, skip, Quota(max_items, |before|)))
    requires found == NextSep(str, sep, from)
    requires var item := if found.Some? then str[from..found.value] else str[from..];
             items == if !skip || item != [] then before + [item] else before
    requires found.Some? ==> start == Some(found.value + sep.Len())
    requires found.None? ==> start.None? || start.value > |str|
    ensures max_items != 0 && |items| + 1 == max_items && found.Some? ==>
              start.value <= |str| && goal == Ok(items + [str[start.value..]])
    ensures max_items != 0 && |items| + 1 == max_items && found.None? ==> goal == OutOfRange
    ensures !(max_items != 0 && |items| + 1 == max_items) ==>
              SplitStep(str, sep, skip, max_items, goal, start, if found.Some? then found.value else |str|, items)
  {
    SplitRestAt(str, sep, skip, Quota(max_items, |before|), from);
    SplitNextCut(str, sep, skip, max_items, goal, from, found, before, items, start);
  }

  /** `SplitNext`, with the rest of the split cut at the separator found. */
  lemma SplitNextCut(str: string, sep: Sep, skip: bool, max_items: nat, goal: Result<seq<string>>,
                     from: nat, found: Option<nat>, before: seq<string>, items: seq<string>, start: Option<nat>)
    requires sep.Valid() && from <= |str|
    requires found.Some? ==> from <= found.value && found.value + sep.Len() <= |str|
    requires max_items != 0 ==> |before| + 1 < max_items
    requires goal == Prepend(before, SplitCut(str[from..], sep, skip, Quota(max_items, |before|), Back(found, from)))
    requires var item := if found.Some? then str[from..found.value] else str[from..];
             items == if !skip || item != [] then before + [item] else before
    requires found.Some? ==> start == Some(found.value + sep.Len())
    requires found.None? ==> start.None? || start.value > |str|
    ensures max_items != 0 && |items| + 1 == max_items && found.Some? ==>
              start.value <= |str| && goal == Ok(items + [str[start.value..]])
    ensures max_items != 0 && |items| + 1 == max_items && found.None? ==> goal == OutOfRange
    ensures !(max_items != 0 && |items| + 1 == max_items) ==>
              SplitStep(str, sep, skip, max_items, goal, start, if found.Some? then found.value else |str|, items)
  {
    if found.Some? {
      SplitNextSome(str, sep, skip, max_items, goal, from, found.value, before, items, start);
    } else {
      SplitNextNone(str, sep, skip, max_items, goal, from, before, items, start);
    }
  }

  /** `SplitNext` when a separator was found at `end`. */
  lemma SplitNextSome(str: string, sep: Sep, skip: bool, max_items: nat, goal: Result<seq<string>>,
                      from: nat, end: nat, before: seq<string>, items: seq<string>, start: Option<nat>)
    requires sep.Valid() && from <= end && end + sep.Len() <= |str|
    requires max_items != 0 ==> |before| + 1 < max_items
    requires goal == Prepend(before, SplitCut(str[from..], sep, skip, Quota(max_items, |before|), Some(end - from)))
    requires items == if !skip || str[from..end] != [] then before + [str[from..end]] else before
    requires start == Some(end + sep.Len())
    ensures if max_items != 0 && |items| + 1 == max_items then goal == Ok(items + [str[start.value..]])
            else SplitStep(str, sep, skip, max_items, goal, start, end, items)
  {
    SplitAdvanceSome(str, sep, skip, max_items, from, end, before, items);
  }

  /** `SplitNext` when no separator was left. */
  lemma SplitNextNone(str: string, sep: Sep, skip: bool, max_items: nat, goal: Result<seq<string>>,
                      from: nat, before: seq<string>, items: seq<string>, start: Option<nat>)
    requires sep.Valid() && from <= |str|
    requires max_items != 0 ==> |before| + 1 < max_items
    requires goal == Prepend(before, SplitCut(str[from..], sep, skip, Quota(max_items, |before|), None))
    requires items == if !skip || str[from..] != [] then before + [str[from..]] else before
    requires start.None? || start.value > |str|
    ensures if max_items != 0 && |items| + 1 == max_items then goal == OutOfRange
            else SplitStep(str, sep, skip, max_items, goal, start, |str|, items)
  {
    SplitAdvanceNone(str, sep, skip, max_items, from, before, items);
  }

  /** `split`: cuts `str` at each occurrence of the non-empty `delim`. */
  method Split(str: string, delim: string, skip_empty: bool := false, max_items: nat := 0)
    returns (r: Result<seq<string>>)
    requires delim != []
    ensures r == SplitSpec(str, Delim(delim), skip_empty, max_items)
  {
    var start: Option<nat> := Some(0);  // None is npos
    var end: nat := 0;
    var items: seq<string> := [];

    if max_items == 1 {
      return Ok([str]);
    }

    ghost var goal := SplitSpec(str, Delim(delim), skip_empty, max_items);
    assert str[0..] == str;
    while end != |str|
      invariant SplitStep(str, Delim(delim), skip_empty, max_items, goal, start, end, items)
      decreases if end == |str| then 0 else |str| + 1 - start.value
    {
      var from := start.value;
      var found := NextSep(str, Delim(delim), from);  // str.find(delim, start)
      end := if found.Some? then found.value else |str|;

      ghost var before := items;
      var item := if found.Some? then str[from..end] else str[from..];
      if !skip_empty || item != [] {
        items := items + [item];
      }

      // `str.size() - delim.size()` is unsigned: when the delimiter is
      // longer than the string it wraps around and the test fails.
      start := if |delim| <= |str| && end > |str| - |delim| then None else Some(end + |delim|);
      SplitNext(str, Delim(delim), skip_empty, max_items, goal, from, found, before, items, start);

      if max_items != 0 && |items| + 1 == max_items {
        if start.Some? && start.value <= |str| {
          return Ok(items + [str[start.value..]]);
        }
        return OutOfRange;  // substr(npos) throws std::out_of_range
      }
    }
    return Ok(items);
  }

  /** `split_delims`: cuts `str` at each character that is one of `delims`. */
  method SplitDelims(str: string, delims: string, skip_empty: bool := false, max_items: nat := 0)
    returns (r: Result<seq<string>>)
    ensures r == SplitSpec(str, AnyOf(delims), skip_empty, max_items)
  {
    var start: Option<nat> := Some(0);  // None is npos
    var end: nat := 0;
    var items: seq<string> := [];

    if max_items == 1 {
      return Ok([str]);
    }

    ghost var goal := SplitSpec(str, AnyOf(delims), skip_empty, max_items);
    assert str[0..] == str;
    while end != |str|
      invariant SplitStep(str, AnyOf(delims), skip_empty, max_items, goal, start, end, items)
      decreases if end == |str| then 0 else |str| + 1 - start.value
    {
      var from := start.value;
      var found := NextSep(str, AnyOf(delims), from);  // str.find_first_of(delims, start)
      end := if found.Some? then found.value else |str|;

      ghost var before := items;
      var item := if found.Some? then str[from..end] else str[from..];
      if !skip_empty || item != [] {
        items := items + [item];
      }

      start := if end > |str| - 1 then None else Some(end + 1);
      SplitNext(str, AnyOf(delims), skip_empty, max_items, goal, from, found, before, items, start);

      if max_items != 0 && |items| + 1 == max_items {
        if start.Some? && start.value <= |str| {
          return Ok(items + [str[start.value..]]);
        }
        return OutOfRange;  // substr(npos) throws std::out_of_range
      }
    }
    return Ok(items);
  }

  /** Joining what a split without a limit returns gives back the text. */
  lemma {:induction false} SplitRestJoin(t: string, d: string, quota: nat)
    requires d != []
    ensures var r := SplitRest(t, Delim(d), false, quota);
            r.Ok? ==> r.value != [] && Join(r.value, d) == t
    decreases |t|
  {
    var found := NextSep(t, Delim(d), 0);
    if found.Some? {
      var i := found.value;
      var rest := t[i + |d|..];
      assert t == t[..i] + d + rest by {
        FindSpec(t, d, 0);
        assert OccursAt(t, d, i);
        assert t[i..i + |d|] == d;
        assert t == t[..i] + t[i..i + |d|] + t[i + |d|..];
      }
      if quota != 1 {
        var q' := if quota > 0 then quota - 1 else quota;
        SplitRestJoin(rest, d, q');
        var r' := SplitRest(rest, Delim(d), false, q');
        if r'.Ok? {
          var items := [t[..i]] + r'.value;
          assert items[1..] == r'.value;
        }
      }
    }
  }

  /**
   * Without skipping, a split makes one item per separator plus one; with
   * a quota of `q` items before the remainder, it stops after `q`
   * separators and appends the remainder, and it throws exactly when the
   * text has `q - 1` separators: the remainder then starts at `npos`.
   */
  lemma {:induction false} SplitRestCount(t: string, sep: Sep, quota: nat)
    requires sep.Valid()
    ensures var r := SplitRest(t, sep, false, quota);
            var c := SepCount(t, sep);
            && (r.Ok? <==> quota == 0 || c != quota - 1)
            && (r.Ok? ==> |r.value| == if quota != 0 && c >= quota then quota + 1 else c + 1)
    decreases |t|, 1
  {
    SplitCutCount(t, sep, quota, NextSep(t, sep, 0));
  }

  /** `SplitRestCount` for one round, given the separator search. */
  lemma {:induction false} SplitCutCount(t: string, sep: Sep, quota: nat, found: Option<nat>)
    requires sep.Valid()
    requires found.Some? ==> found.value + sep.Len() <= |t|
    ensures var r := SplitCut(t, sep, false, quota, found);
            var c := if found.None? then 0 else 1 + SepCount(t[found.value + sep.Len()..], sep);
            && (r.Ok? <==> quota == 0 || c != quota - 1)
            && (r.Ok? ==> |r.value| == if quota != 0 && c >= quota then quota + 1 else c + 1)
    decreases |t|, 0
  {
    if found.Some? && quota != 1 {
      SplitRestCount(t[found.value + sep.Len()..], sep, if quota > 0 then quota - 1 else quota);
    }
  }

  /**
   * A split without a limit always succeeds, no item contains a separator,
   * and with `skip` no item is empty.
   */
  lemma {:induction false} SplitRestUnlimited(t: string, sep: Sep, skip: bool)
    requires sep.Valid()
    ensures var r := SplitRest(t, sep, skip, 0);
            && r.Ok?
            && (forall k :: 0 <= k < |r.value| ==> NextSep(r.value[k], sep, 0).None?)
            && (skip ==> forall k :: 0 <= k < |r.value| ==> r.value[k] != [])
    decreases |t|
  {
    var found := NextSep(t, sep, 0);
    if found.Some? {
      var i := found.value;
      NoSepBefore(t, sep, i);
      SplitRestUnlimited(t[i + sep.Len()..], sep, skip);
    }
  }

  /** A prefix of `t` that ends before its first separator holds none. */
  lemma NoSepBefore(t: string, sep: Sep, i: nat)
    requires sep.Valid() && i <= |t|
    requires NextSep(t, sep, 0).None? || i <= NextSep(t, sep, 0).value
    ensures NextSep(t[..i], sep, 0).None?
  {
    match sep {
      case Delim(d) =>
        var r := Find(t[..i], d, 0);
        FindSpec(t[..i], d, 0);
        FindSpec(t, d, 0);
        if r.Some? {
          assert t[..i][r.value..r.value + |d|] == t[r.value..r.value + |d|];
          assert OccursAt(t, d, r.value);
        }
      case AnyOf(chars) =>
        assert forall k :: 0 <= k < i ==> t[..i][k] == t[k];
    }
  }

  /** A search can start past positions where the pattern does not occur. */
  lemma {:induction false} FindSkip(s: string, p: string, from: nat, upto: nat)
    requires from <= upto
    requires forall i :: from <= i < upto ==> !OccursAt(s, p, i)
    ensures Find(s, p, from) == Find(s, p, upto)
    decreases upto - from
  {
    if from < upto {
      assert !OccursAt(s, p, from);
      MatchAtIff(s, p, from);
      FindSkip(s, p, from + 1, upto);
    }
  }

  /** A single character `c` is found first after a prefix free of `c`. */
  lemma FindCharAfterFree(x: string, y: string, c: char)
    requires c !in x
    ensures Find(x + y, [c], 0) == Shift(Find(y, [c], 0), |x|)
  {
    forall i | 0 <= i < |x|
      ensures !OccursAt(x + y, [c], i)
    {
      assert (x + y)[i] == x[i];
    }
    FindSkip(x + y, [c], 0, |x|);
    FindAfterPrefix(x, y, [c], 0);
  }

  /** A round of a split without limit or skipping that finds a separator at `i`. */
  lemma SplitCutUnlimited(t: string, sep: Sep, i: nat)
    requires sep.Valid() && i + sep.Len() <= |t|
    ensures SplitCut(t, sep, false, 0, Some(i)) == Prepend([t[..i]], SplitRest(t[i + sep.Len()..], sep, false, 0))
  {
  }

  /**
   * Splitting items joined with a single-character delimiter that none of
   * them contains gives the items back.
   */
  lemma {:induction false} SplitOfJoin(items: seq<string>, c: char)
    requires items != []
    requires forall k :: 0 <= k < |items| ==> c !in items[k]
    ensures SplitRest(Join(items, [c]), Delim([c]), false, 0) == Ok(items)
    decreases |items|
  {
    var x := items[0];
    if |items| == 1 {
      FindCharAfterFree(x, [], c);
      assert x + [] == x;
      assert items == [x];
    } else {
      var y := Join(items[1..], [c]);
      assert Join(items, [c]) == x + ([c] + y);
      SplitAfterFree(x, y, c, Join(items, [c]));
      SplitOfJoin(items[1..], c);
      assert [x] + items[1..] == items;
    }
  }

  /** Splitting `x + [c] + y` at `c`, for `x` free of `c`, cuts off `x` and splits `y`. */
  lemma SplitAfterFree(x: string, y: string, c: char, t: string)
    requires c !in x && t == x + ([c] + y)
    ensures SplitRest(t, Delim([c]), false, 0) == Prepend([x], SplitRest(y, Delim([c]), false, 0))
  {
    FindCharAfterFree(x, [c] + y, c);
    MatchAtIff([c] + y, [c], 0);
    assert NextSep(t, Delim([c]), 0) == Some(|x|);
    SplitCutUnlimited(t, Delim([c]), |x|);
    assert t[..|x|] == x;
    assert t[|x| + 1..] == y;
  }

  /** `split` without skipping is undone by joining with the delimiter. */
  lemma SplitJoin(str: string, delim: string, max_items: nat)
    requires delim != []
    ensures var r := SplitSpec(str, Delim(delim), false, max_items);
            r.Ok? ==> Join(r.value, delim) == str
  {
    if max_items != 1 && str != [] {
      SplitRestJoin(str, delim, if max_items == 0 then 0 else max_items - 1);
    }
  }

  /**
   * Without skipping, `split` and `split_delims` return one more item than
   * there are separators, but never more than `max_items`; with a limit
   * they throw exactly when the text has `max_items - 2` separators.
   */
  lemma SplitCount(str: string, sep: Sep, max_items: nat)
    requires sep.Valid() && str != [] && max_items != 1
    ensures var r := SplitSpec(str, sep, false, max_items);
            var c := SepCount(str, sep);
            && (r.Ok? <==> max_items == 0 || c != max_items - 2)
            && (r.Ok? ==> |r.value| == if max_items != 0 && c >= max_items - 1 then max_items else c + 1)
  {
    SplitRestCount(str, sep, if max_items == 0 then 0 else max_items - 1);
  }

  /** A limited split returns at most `quota + 1` items from the remaining text, with or without skipping. */
  lemma {:induction false} SplitRestBound(t: string, sep: Sep, skip: bool, quota: nat)
    requires sep.Valid()
    ensures var r := SplitRest(t, sep, skip, quota);
            r.Ok? && quota > 0 ==> |r.value| <= quota + 1
    decreases |t|, 1
  {
    SplitCutBound(t, sep, skip, quota, NextSep(t, sep, 0));
  }

  /** `SplitRestBound` for one round, given the separator search. */
  lemma {:induction false} SplitCutBound(t: string, sep: Sep, skip: bool, quota: nat, found: Option<nat>)
    requires sep.Valid()
    requires found.Some? ==> found.value + sep.Len() <= |t|
    ensures var r := SplitCut(t, sep, skip, quota, found);
            r.Ok? && quota > 0 ==> |r.value| <= quota + 1
    decreases |t|, 0
  {
    if found.Some? {
      var end := found.value;
      var kept := !skip || t[..end] != [];
      if !(kept && quota == 1) {
        SplitRestBound(t[end + sep.Len()..], sep, skip, if kept && quota > 0 then quota - 1 else quota);
      }
    }
  }

  /** `split` and `split_delims` never return more than `max_items` items, with or without `skip_empty`. */
  lemma SplitBounded(str: string, sep: Sep, skip_empty: bool, max_items: nat)
    requires sep.Valid()
    ensures var r := SplitSpec(str, sep, skip_empty, max_items);
            r.Ok? && max_items > 0 ==> |r.value| <= max_items
  {
    if max_items > 1 && str != [] {
      SplitRestBound(str, sep, skip_empty, max_items - 1);
    }
  }

  /** The text after the `n`-th separator a left-to-right scan of `t` finds. */
  function TextAfterSeps(t: string, sep: Sep, n: nat): (r: string)
    requires sep.Valid() && n <= SepCount(t, sep)
    decreases n
  {
    if n == 0 then t
    else
      var i := NextSep(t, sep, 0).value;
      TextAfterSeps(t[i + sep.Len()..], sep, n - 1)
  }

  /**
   * `r` is `quota` items free of separators followed by `remainder`: what
   * a split with a limit returns once it has used up its quota.
   */
  ghost predicate SplitsInto(r: Result<seq<string>>, sep: Sep, quota: nat, remainder: string)
    requires sep.Valid()
  {
    && r.Ok? && |r.value| == quota + 1
    && (forall k :: 0 <= k < quota ==> NextSep(r.value[k], sep, 0).None?)
    && r.value[quota] == remainder
  }

  /**
   * Without skipping, a remainder with at least `quota` separators splits
   * into `quota` separator-free items followed by the unsplit text after
   * the `quota`-th separator.
   */
  lemma {:induction false} SplitRestLimited(t: string, sep: Sep, quota: nat)
    requires sep.Valid() && quota >= 1 && SepCount(t, sep) >= quota
    ensures SplitsInto(SplitRest(t, sep, false, quota), sep, quota, TextAfterSeps(t, sep, quota))
    decreases quota
  {
    var i, rest := TextAfterSepsStep(t, sep, quota);
    if quota > 1 {
      SplitRestLimited(rest, sep, quota - 1);
    }
    SplitRestLimitedRound(t, sep, quota, i, rest, TextAfterSeps(rest, sep, quota - 1));
  }

  /** The first separator of `t`, the text after it, and the remainder after `n` separators seen from there. */
  lemma TextAfterSepsStep(t: string, sep: Sep, n: nat) returns (i: nat, rest: string)
    requires sep.Valid() && 1 <= n <= SepCount(t, sep)
    ensures NextSep(t, sep, 0) == Some(i) && rest == t[i + sep.Len()..]
    ensures n - 1 <= SepCount(rest, sep) && TextAfterSeps(t, sep, n) == TextAfterSeps(rest, sep, n - 1)
  {
    i := NextSep(t, sep, 0).value;
    rest := t[i + sep.Len()..];
  }

  /**
   * One round of a limited split without skipping that finds a separator at
   * `i`: the item before it is free of separators, and the rest either is
   * the remainder (the quota is used up) or splits on with one less.
   */
  lemma SplitRestLimitedRound(t: string, sep: Sep, quota: nat, i: nat, rest: string, remainder: string)
    requires sep.Valid() && quota >= 1
    requires NextSep(t, sep, 0) == Some(i) && rest == t[i + sep.Len()..]
    requires quota == 1 ==> remainder == rest
    requires quota > 1 ==> SplitsInto(SplitRest(rest, sep, false, quota - 1), sep, quota - 1, remainder)
    ensures SplitsInto(SplitRest(t, sep, false, quota), sep, quota, remainder)
  {
    NoSepBefore(t, sep, i);
    if quota == 1 {
      assert SplitRest(t, sep, false, quota) == Prepend([t[..i]], Ok([rest]));
      assert SplitsInto(Ok([rest]), sep, 0, remainder);
      SplitsIntoPrepend(t[..i], Ok([rest]), sep, 0, remainder);
    } else {
      assert SplitRest(t, sep, false, quota) == Prepend([t[..i]], SplitRest(rest, sep, false, quota - 1));
      SplitsIntoPrepend(t[..i], SplitRest(rest, sep, false, quota - 1), sep, quota - 1, remainder);
    }
  }

  /** One more separator-free item in front keeps the shape, with one more item in the quota. */
  lemma SplitsIntoPrepend(x: string, r: Result<seq<string>>, sep: Sep, quota: nat, remainder: string)
    requires sep.Valid() && NextSep(x, sep, 0).None? && SplitsInto(r, sep, quota, remainder)
    ensures SplitsInto(Prepend([x], r), sep, quota + 1, remainder)
  {
    var p := Prepend([x], r).value;
    forall k | 0 <= k < quota + 1
      ensures NextSep(p[k], sep, 0).None?
    {
      if k > 0 {
        assert p[k] == r.value[k - 1];
      }
    }
  }

  /**
   * Without skipping, `split` and `split_delims` with `max_items = n >= 2`
   * on a text with at least `n - 1` separators return exactly `n` items:
   * `n - 1` items free of separators, then the unsplit remainder after the
   * `(n - 1)`-th separator. With a delimiter string the items join back to
   * the text.
   */
  lemma SplitLimited(str: string, sep: Sep, max_items: nat)
    requires sep.Valid() && max_items >= 2 && SepCount(str, sep) >= max_items - 1
    ensures var r := SplitSpec(str, sep, false, max_items);
            && SplitsInto(r, sep, max_items - 1, TextAfterSeps(str, sep, max_items - 1))
            && (sep.Delim? ==> Join(r.value, sep.d) == str)
  {
    assert str != [];
    SplitRestLimited(str, sep, max_items - 1);
    if sep.Delim? {
      SplitJoin(str, sep.d, max_items);
    }
  }

  /**
   * Without a limit `split` and `split_delims` never throw, return items
   * free of separators, and with `skip_empty` no empty item.
   */
  lemma SplitUnlimited(str: string, sep: Sep, skip_empty: bool)
    requires sep.Valid()
    ensures var r := SplitSpec(str, sep, skip_empty, 0);
            && r.Ok?
            && (forall k :: 0 <= k < |r.value| ==> NextSep(r.value[k], sep, 0).None?)
            && (skip_empty ==> forall k :: 0 <= k < |r.value| ==> r.value[k] != [])
  {
    SplitRestUnlimited(str, sep, skip_empty);
  }

  /** Splitting items joined with a one-character delimiter they do not contain gives them back. */
  lemma SplitOfJoinSpec(items: seq<string>, c: char)
    requires items != [] && Join(items, [c]) != []
    requires forall k :: 0 <= k < |items| ==> c !in items[k]
    ensures SplitSpec(Join(items, [c]), Delim([c]), false, 0) == Ok(items)
  {
    SplitOfJoin(items, c);
  }

  /**
   * As written, a limited split of a text with no separator left when the
   * limit is reached throws, with or without `skip_empty`: the remainder
   * starts at `npos`.
   */
  lemma SplitThrowsAtLastItem()
    ensures SplitSpec("a", Delim(","), false, 2) == OutOfRange
    ensures SplitSpec("a,b", Delim(","), false, 3) == OutOfRange
    ensures SplitSpec(",a", Delim(","), true, 2) == OutOfRange
  {
    assert ",a"[0..1] == ",";
    assert ",a"[1..] == "a";
    assert "a"[0..1][0] == 'a';
    assert "a,b"[0..1][0] == 'a';
    assert "a,b"[1..2] == ",";
    assert "a,b"[2..] == "b";
    assert "b"[0..1][0] == 'b';
  }

  /**
   * The split the limit evidently intends: when the limit is reached and
   * no separator is left, the loop ends with what it has.
   */
  function SplitRestIntended(t: string, sep: Sep, skip: bool, quota: nat): (r: seq<string>)
    requires sep.Valid()
    decreases |t|, 1
  {
    IntendedCut(t, sep, skip, quota, NextSep(t, sep, 0))
  }

  /** One round of `SplitRestIntended`, given where (if anywhere) the next separator is. */
  function IntendedCut(t: string, sep: Sep, skip: bool, quota: nat, found: Option<nat>): (r: seq<string>)
    requires sep.Valid()
    requires found.Some? ==> found.value + sep.Len() <= |t|
    decreases |t|, 0
  {
    var end := if found.Some? then found.value else |t|;
    var item := if found.Some? then t[..end] else t;
    var kept := !skip || item != [];
    var pushed := if kept then [item] else [];
    if found.None? then pushed
    else if kept && quota == 1 then pushed + [t[end + sep.Len()..]]
    else pushed + SplitRestIntended(t[end + sep.Len()..], sep, skip, if kept && quota > 0 then quota - 1 else quota)
  }

  /**
   * The intended split keeps at most `quota + 1` items, and agrees with the
   * split as written wherever that one does not throw.
   */
  lemma {:induction false} SplitRestIntendedProps(t: string, sep: Sep, skip: bool, quota: nat)
    requires sep.Valid()
    ensures var r := SplitRestIntended(t, sep, skip, quota);
            && (quota != 0 ==> |r| <= quota + 1)
            && (SplitRest(t, sep, skip, quota).Ok? ==> SplitRest(t, sep, skip, quota).value == r)
    decreases |t|, 1
  {
    IntendedCutProps(t, sep, skip, quota, NextSep(t, sep, 0));
  }

  /** `SplitRestIntendedProps` for one round. */
  lemma {:induction false} IntendedCutProps(t: string, sep: Sep, skip: bool, quota: nat, found: Option<nat>)
    requires sep.Valid()
    requires found.Some? ==> found.value + sep.Len() <= |t|
    ensures var r := IntendedCut(t, sep, skip, quota, found);
            && (quota != 0 ==> |r| <= quota + 1)
            && (SplitCut(t, sep, skip, quota, found).Ok? ==> SplitCut(t, sep, skip, quota, found).value == r)
    decreases |t|, 0
  {
    if found.Some? {
      var i := found.value;
      var kept := !skip || t[..i] != [];
      if !(kept && quota == 1) {
        SplitRestIntendedProps(t[i + sep.Len()..], sep, skip, if kept && quota > 0 then quota - 1 else quota);
      }
    }
  }

  /** `split` as evidently intended: at most `max_items` items, and no exception. */
  function SplitIntended(str: string, sep: Sep, skip_empty: bool, max_items: nat): (r: seq<string>)
    requires sep.Valid()
    ensures max_items != 0 ==> |r| <= max_items
    ensures SplitSpec(str, sep, skip_empty, max_items).Ok? ==> SplitSpec(str, sep, skip_empty, max_items).value == r
  {
    if max_items == 1 then [str]
    else if str == [] then []
    else
      var q := if max_items == 0 then 0 else max_items - 1;
      SplitRestIntendedProps(str, sep, skip_empty, q);
      SplitRestIntended(str, sep, skip_empty, q)
  }

  /** Joining the intended split gives back the text. */
  lemma {:induction false} SplitRestIntendedJoin(t: string, d: string, quota: nat)
    requires d != []
    ensures var r := SplitRestIntended(t, Delim(d), false, quota);
            r != [] && Join(r, d) == t
    decreases |t|
  {
    var found := NextSep(t, Delim(d), 0);
    if found.Some? {
      var i := found.value;
      var rest := t[i + |d|..];
      assert t == t[..i] + d + rest by {
        FindSpec(t, d, 0);
        assert OccursAt(t, d, i);
        assert t == t[..i] + t[i..i + |d|] + t[i + |d|..];
      }
      if quota != 1 {
        var q' := if quota > 0 then quota - 1 else quota;
        SplitRestIntendedJoin(rest, d, q');
        var items := [t[..i]] + SplitRestIntended(rest, Delim(d), false, q');
        assert items[1..] == SplitRestIntended(rest, Delim(d), false, q');
      }
    }
  }

  // ---------------------------------------------------------------------
  // replace_all
  // ---------------------------------------------------------------------

  /** `t` with every occurrence of `p`, found left to right without overlap, replaced by `r`. */
  function Replaced(t: string, p: string, r: string): string
    requires p != []
    decreases |t|, 1
  {
    ReplacedAt(t, p, r, Find(t, p, 0))
  }

  /** `Replaced`, given where (if anywhere) the first occurrence of `p` is. */
  function ReplacedAt(t: string, p: string, r: string, found: Option<nat>): string
    requires p != []
    requires found.Some? ==> found.value + |p| <= |t|
    decreases |t|, 0
  {
    if found.None? then t
    else t[..found.value] + r + Replaced(t[found.value + |p|..], p, r)
  }

  /** What `replace_all` leaves in `str`: nothing changes for an empty `search`. */
  function ReplaceAllSpec(str: string, search: string, replace: string): string
  {
    if search == [] then str else Replaced(str, search, replace)
  }

  /**
   * The invariant of the `replace_all` loop: the string is the finished
   * part `done` followed by the unscanned part `rest`, and `pos` is the
   * first occurrence of `p` in `rest`.
   */
  ghost predicate ReplaceInv(goal: string, p: string, r: string, res: string, done: string, rest: string, pos: Option<nat>)
    requires p != []
  {
    && res == done + rest
    && done + Replaced(rest, p, r) == goal
    && pos == Shift(Find(rest, p, 0), |done|)
  }

  /** `Replaced`, unfolded at the first occurrence of `p`. */
  lemma ReplacedFirst(t: string, p: string, r: string, j: nat)
    requires p != [] && Find(t, p, 0) == Some(j)
    ensures j + |p| <= |t|
    ensures Replaced(t, p, r) == t[..j] + r + Replaced(t[j + |p|..], p, r)
  {
    assert Replaced(t, p, r) == ReplacedAt(t, p, r, Some(j));
    ReplacedAtSome(t, p, r, j);
  }

  lemma ReplacedAtSome(t: string, p: string, r: string, j: nat)
    requires p != [] && j + |p| <= |t|
    ensures ReplacedAt(t, p, r, Some(j)) == t[..j] + r + Replaced(t[j + |p|..], p, r)
  {
  }

  /** Replacing inside `done + rest` at offset `j` of `rest` is the same text regrouped. */
  lemma ReplaceSlices(res: string, done: string, rest: string, j: nat, p: string, r: string)
    requires res == done + rest && j + |p| <= |rest|
    ensures res[..|done| + j] + r + res[|done| + j + |p|..] == (done + rest[..j] + r) + rest[j + |p|..]
  {
    assert res[..|done| + j] == done + rest[..j];
    assert res[|done| + j + |p|..] == rest[j + |p|..];
  }

  lemma ConcatRegroup(a: string, b: string, c: string, d: string)
    ensures a + (b + c + d) == (a + b + c) + d
  {
  }

  /** A search in `a + t` from the end of `a` on is a search in `t`. */
  lemma FindShift(s: string, a: string, t: string, p: string, k: nat)
    requires s == a + t && k == |a|
    ensures Find(s, p, k) == Shift(Find(t, p, 0), |a|)
  {
    FindAfterPrefix(a, t, p, 0);
  }

  /**
   * One replacement of the `replace_all` loop, which turns `res` into
   * `res'`, keeps its invariant and shortens the unscanned part; `done'`
   * and `rest'` are the new parts.
   */
  lemma ReplaceStep(goal: string, p: string, r: string, res: string, done: string, rest: string, pos: Option<nat>,
                    res': string, pos': Option<nat>)
      returns (done': string, rest': string)
    requires p != [] && ReplaceInv(goal, p, r, res, done, rest, pos) && pos.Some?
    requires pos.value + |p| <= |res| && res' == res[..pos.value] + r + res[pos.value + |p|..]
    requires pos' == Find(res', p, pos.value + |r|)
    ensures ReplaceInv(goal, p, r, res', done', rest', pos')
    ensures |rest'| < |rest|
  {
    var j := pos.value - |done|;
    ReplacedFirst(rest, p, r, j);
    done', rest' := done + rest[..j] + r, rest[j + |p|..];
    ConcatRegroup(done, rest[..j], r, Replaced(rest', p, r));
    ReplaceSlices(res, done, rest, j, p, r);
    FindShift(res', done', rest', p, pos.value + |r|);
  }

  /** The `replace_all` loop invariant holds before the first round. */
  lemma ReplaceStart(str: string, p: string, r: string)
    requires p != []
    ensures ReplaceInv(Replaced(str, p, r), p, r, str, [], str, Find(str, p, 0))
  {
    assert [] + str == str;
  }

  /** When no occurrence is left, the string is the replaced text. */
  lemma ReplaceEnd(goal: string, p: string, r: string, res: string, done: string, rest: string)
    requires p != [] && ReplaceInv(goal, p, r, res, done, rest, None)
    ensures res == goal
  {
    assert Replaced(rest, p, r) == ReplacedAt(rest, p, r, None);
  }

  /** `replace_all`: replaces, left to right, each occurrence of `search` by `replace`. */
  method ReplaceAll(str: string, search: string, replace: string) returns (res: string)
    ensures res == ReplaceAllSpec(str, search, replace)
  {
    res := str;
    if search == [] {
      return;
    }
    ghost var goal := Replaced(str, search, replace);
    ghost var done: string := [];
    ghost var rest := str;
    var pos := Find(res, search, 0);
    ReplaceStart(str, search, replace);
    while pos.Some?
      invariant ReplaceInv(goal, search, replace, res, done, rest, pos)
      decreases |rest|
    {
      var i := pos.value;
      ghost var res0, pos0 := res, pos;
      res := res[..i] + replace + res[i + |search|..];
      pos := Find(res, search, i + |replace|);
      done, rest := ReplaceStep(goal, search, replace, res0, done, rest, pos0, res, pos);
    }
    ReplaceEnd(goal, search, replace, res, done, rest);
  }

  /** Replacing a pattern by itself changes nothing. */
  lemma {:induction false} ReplacedSelf(t: string, p: string)
    requires p != []
    ensures Replaced(t, p, p) == t
    decreases |t|
  {
    var found := Find(t, p, 0);
    if found.Some? {
      var i := found.value;
      FindSpec(t, p, 0);
      ReplacedFirst(t, p, p, i);
      ReplacedSelf(t[i + |p|..], p);
      assert t == t[..i] + t[i..i + |p|] + t[i + |p|..];
    }
  }

  /** `SepCount`, unfolded at the first separator. */
  lemma SepCountFirst(t: string, sep: Sep, i: nat)
    requires sep.Valid() && NextSep(t, sep, 0) == Some(i)
    ensures SepCount(t, sep) == 1 + SepCount(t[i + sep.Len()..], sep)
  {
  }

  lemma LengthStep(lt: int, i: int, lp: int, lr: int, lrest: int, c: int, x: int)
    requires lt == i + lp + lrest && x == lrest + c * (lr - lp)
    ensures i + lr + x == lt + (1 + c) * (lr - lp)
  {
    MulSucc(c, lr - lp);
  }

  /** Each replacement changes the length by the difference of the two strings. */
  lemma {:induction false} ReplacedLength(t: string, p: string, r: string)
    requires p != []
    ensures |Replaced(t, p, r)| == |t| + SepCount(t, Delim(p)) * (|r| - |p|)
    decreases |t|
  {
    var found := Find(t, p, 0);
    if found.Some? {
      var i := found.value;
      ReplacedFirst(t, p, r, i);
      var rest := t[i + |p|..];
      ReplacedLength(rest, p, r);
      SepCountFirst(t, Delim(p), i);
      LengthStep(|t|, i, |p|, |r|, |rest|, SepCount(rest, Delim(p)), |Replaced(rest, p, r)|);
    }
  }

  /** `replace_all` is `split` on the search string followed by a join with the replacement. */
  lemma {:induction false} ReplacedIsSplitJoin(t: string, p: string, r: string)
    requires p != []
    ensures SplitRest(t, Delim(p), false, 0).Ok?
    ensures Join(SplitRest(t, Delim(p), false, 0).value, r) == Replaced(t, p, r)
    decreases |t|
  {
    SplitRestUnlimited(t, Delim(p), false);
    var found := Find(t, p, 0);
    if found.Some? {
      var i := found.value;
      var rest := t[i + |p|..];
      ReplacedIsSplitJoin(rest, p, r);
      SplitRestJoin(rest, p, 0);
      var v := SplitRest(rest, Delim(p), false, 0).value;
      assert ([t[..i]] + v)[1..] == v;
    }
  }

  /** Inserted text is not searched again: replacing `a` by `aa` terminates with one replacement. */
  lemma ReplaceAllNoRescan()
    ensures ReplaceAllSpec("a", "a", "aa") == "aa"
  {
    assert "a"[0..1] == "a";
    assert Find("a", "a", 0) == Some(0);
    assert "a"[1..] == [];
    assert Replaced([], "a", "aa") == [];
    assert "a"[..0] + "aa" + [] == "aa";
  }

  // ---------------------------------------------------------------------
  // to_hex_string
  // ---------------------------------------------------------------------

  const HEX_CHARS: string := "0123456789ABCDEF"

  /** The value of an uppercase hexadecimal digit. */
  function DigitValue(c: char): nat
  {
    if '0' <= c <= '9' then c as nat - '0' as nat
    else if 'A' <= c <= 'F' then c as nat - 'A' as nat + 10
    else 0
  }

  lemma DigitValueOfHex(d: int)
    requires 0 <= d < 16
    ensures DigitValue(HEX_CHARS[d]) == d
  {
  }

  /** The `n` least significant hexadecimal digits of `v` (two's complement for negative `v`), most significant first. */
  function HexOf(v: int, n: nat): (r: string)
    ensures |r| == n
    decreases n
  {
    if n == 0 then [] else HexOf(v / 16, n - 1) + [HEX_CHARS[v % 16]]
  }

  /** The number a string of hexadecimal digits denotes. */
  function HexValue(s: string): nat
  {
    if s == [] then 0 else 16 * HexValue(s[..|s| - 1]) + DigitValue(s[|s| - 1])
  }

  /** Reading the digits back gives `v` modulo 16^n: no digit is lost or reordered. */
  lemma {:induction false} HexRoundTrip(v: int, n: nat)
    ensures HexValue(HexOf(v, n)) == v % Pow16(n)
    decreases n
  {
    if n > 0 {
      var h := HexOf(v, n);
      HexRoundTrip(v / 16, n - 1);
      assert h[..n - 1] == HexOf(v / 16, n - 1);
      DigitValueOfHex(v % 16);
      DivMod2(v, 16, Pow16(n - 1));
    }
  }

  /** Digit `m` of `HexOf(v, n)` is the nibble of weight 16^(n-1-m): most significant first. */
  lemma {:induction false} HexOfDigit(v: int, n: nat, m: nat)
    requires m < n
    ensures HexOf(v, n)[m] == HEX_CHARS[(v / Pow16(n - 1 - m)) % 16]
    decreases n
  {
    if m < n - 1 {
      HexOfDigit(v / 16, n - 1, m);
      var p := Pow16(n - 2 - m);
      assert Pow16(n - 1 - m) == 16 * p;
      DivMod2(v, 16, p);
      assert HexOf(v, n)[m] == HexOf(v / 16, n - 1)[m];
    }
  }

  /** One more digit of `HexOf`, read off `value` by a shift of 4 * (k - 1) bits. */
  lemma HexOfStep(value: int, n: nat, k: nat)
    requires 1 <= k <= n
    ensures HexOf(value / Pow16(k - 1), n - k + 1)
            == HexOf(value / Pow16(k), n - k) + [HEX_CHARS[(value / Pow2(4 * (k - 1))) % 16]]
  {
    var p := Pow16(k - 1);
    Pow2Nibbles(k - 1);
    assert Pow16(k) == p * 16;
    DivMod2(value, p, 16);
  }

  /**
   * `to_hex_string(value)` for a `width`-byte integer type: one digit per
   * nibble, from shift `8 * width - 4` down to 0.
   */
  method ToHexString(value: int, width: nat) returns (r: string)
    ensures r == HexOf(value, 2 * width)
  {
    r := [];
    var i: int := width * 8 - 4;
    ghost var k: nat := 2 * width;  // digits still to come
    while i >= 0
      invariant i == 4 * k - 4 && k <= 2 * width
      invariant r == HexOf(value / Pow16(k), 2 * width - k)
    {
      HexOfStep(value, 2 * width, k);
      r := r + [HEX_CHARS[(value / Pow2(i)) % 16]];  // hex_chars[(value >> i) & 0xF]
      i := i - 4;
      k := k - 1;
    }
  }

  /** The two digits of byte `b`, high nibble first. */
  function HexPair(b: int): (r: string)
    ensures |r| == 2
  {
    [HEX_CHARS[(b / 16) % 16], HEX_CHARS[b % 16]]
  }

  /** A byte's pair of digits is what `to_hex_string` of a one-byte value writes. */
  lemma HexPairIsHexOf(b: int)
    ensures HexPair(b) == HexOf(b, 2)
  {
    assert HexOf(b, 2) == HexOf(b / 16, 1) + [HEX_CHARS[b % 16]];
  }

  /** The two-digit codes of the bytes of `s`, in order. */
  function HexBytes(s: seq<Int8>): string
  {
    if s == [] then [] else HexBytes(s[..|s| - 1]) + HexPair(s[|s| - 1] as int)
  }

  /** `HexBytes` spends two digits per byte. */
  lemma {:induction false} HexBytesLength(s: seq<Int8>)
    ensures |HexBytes(s)| == 2 * |s|
  {
    if s != [] {
      HexBytesLength(s[..|s| - 1]);
    }
  }

  /** Byte `k` of `s` is digits `2 * k` (its high nibble) and `2 * k + 1` (its low nibble) of `HexBytes(s)`. */
  lemma {:induction false} HexBytesPair(s: seq<Int8>, k: nat)
    requires k < |s|
    ensures 2 * k + 1 < |HexBytes(s)|
    ensures HexBytes(s)[2 * k] == HEX_CHARS[(s[k] as int / 16) % 16]
    ensures HexBytes(s)[2 * k + 1] == HEX_CHARS[s[k] as int % 16]
  {
    var s' := s[..|s| - 1];
    HexBytesLength(s');
    var h := HexBytes(s');
    assert HexBytes(s) == h + HexPair(s[|s| - 1] as int);
    if k < |s'| {
      HexBytesPair(s', k);
      assert s'[k] == s[k];
    }
  }

  /** The codes of one more byte. */
  lemma HexBytesStep(buff: seq<Int8>, i: nat)
    requires i < |buff|
    ensures HexBytes(buff[..i + 1]) == HexBytes(buff[..i]) + HexPair(buff[i] as int)
  {
    assert buff[..i + 1][..i] == buff[..i];
  }

  /** `to_hex_string(buff, size)`: two digits per byte, high nibble first. */
  method BytesToHexString(buff: seq<Int8>, size: nat) returns (r: string)
    requires size <= |buff|
    ensures r == HexBytes(buff[..size])
  {
    r := [];
    var i := 0;
    while i < size
      invariant i <= size && r == HexBytes(buff[..i])
    {
      var b := buff[i] as int;
      HexBytesStep(buff, i);
      r := r + [HEX_CHARS[(b / 16) % 16], HEX_CHARS[b % 16]];  // (buff[i] >> 4) & 0xF, buff[i] & 0xF
      i := i + 1;
    }
  }

  // ---------------------------------------------------------------------
  // to_string of integers, array_to_string
  // ---------------------------------------------------------------------

  /** The decimal digits of `n`, without leading zeros. */
  function DecimalDigits(n: nat): (r: string)
    ensures r != [] && (r[0] == '0' ==> n == 0)
    ensures forall i :: 0 <= i < |r| ==> '0' <= r[i] <= '9'
  {
    if n < 10 then [('0' as int + n) as char]
    else DecimalDigits(n / 10) + [('0' as int + n % 10) as char]
  }

  /** `to_string` of an integer: its decimal digits, after a minus sign when negative. */
  function DecimalString(x: int): (r: string)
    ensures r != [] && ' ' !in r
  {
    if x < 0 then "-" + DecimalDigits(-x) else DecimalDigits(x)
  }

  /** The number a string of decimal digits denotes. */
  function DigitsValue(s: string): int
  {
    if s == [] then 0 else 10 * DigitsValue(s[..|s| - 1]) + (s[|s| - 1] as int - '0' as int)
  }

  /** What a stream extraction of an integer reads from `s`. */
  function ParseDecimal(s: string): int
  {
    if s != [] && s[0] == '-' then -DigitsValue(s[1..]) else DigitsValue(s)
  }

  lemma {:induction false} DecimalDigitsRoundTrip(n: nat)
    ensures DigitsValue(DecimalDigits(n)) == n
  {
    if n >= 10 {
      DecimalDigitsRoundTrip(n / 10);
      var d := DecimalDigits(n);
      assert d[..|d| - 1] == DecimalDigits(n / 10);
    }
  }

  /** Reading back what `to_string` writes gives the number. */
  lemma DecimalRoundTrip(x: int)
    ensures ParseDecimal(DecimalString(x)) == x
  {
    if x < 0 {
      DecimalDigitsRoundTrip(-x);
      assert ("-" + DecimalDigits(-x))[1..] == DecimalDigits(-x);
    } else {
      DecimalDigitsRoundTrip(x);
    }
  }

  /** The decimal strings of the elements of `a`, in order. */
  function DecimalStrings(a: seq<int>): (r: seq<string>)
    ensures |r| == |a| && forall i :: 0 <= i < |a| ==> r[i] == DecimalString(a[i])
  {
    seq(|a|, i requires 0 <= i < |a| => DecimalString(a[i]))
  }

  /**
   * `array_to_string(buff, size)` for elements that a stream writes as
   * decimal numbers: the integer types wider than a character, and `char`
   * and `unsigned char`, whose overloads convert to `int` and `unsigned int`
   * first. The result is the decimal strings of the first `size` elements,
   * separated by single spaces.
   */
  method ArrayToString(buff: seq<int>, size: nat) returns (output: string)
    requires size <= |buff|
    ensures output == Join(DecimalStrings(buff[..size]), " ")
  {
    ghost var items := DecimalStrings(buff[..size]);
    output := [];
    for i := 0 to size
      invariant output == Join(items[..i], " ") + (if 0 < i < size then " " else "")
    {
      JoinStep(items, i, " ");
      output := output + DecimalString(buff[i]);
      if i != size - 1 {
        output := output + " ";
      }
    }
    assert items[..size] == items;
  }

  /** Splitting the output of `array_to_string` at spaces gives the decimal strings back. */
  lemma ArrayToStringSplits(buff: seq<int>, size: nat)
    requires size <= |buff|
    ensures SplitSpec(Join(DecimalStrings(buff[..size]), " "), Delim(" "), false, 0) == Ok(DecimalStrings(buff[..size]))
  {
    if size > 0 {
      var items := DecimalStrings(buff[..size]);
      JoinStartsWithFirst(items, " ");
      SplitOfJoinSpec(items, ' ');
    }
  }
}
