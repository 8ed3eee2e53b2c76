/**
 * The three regular expressions the output parser searches with, and Python's
 * `re.search` over them: try every start position from the left and report
 * the first one where the pattern matches, with the span of group 1.
 *
 *   ActionLine       r"Action: (.*?)[\n]"
 *   ActionInputLine  r"Action Input: (.*)"
 *   NumericField(k)  r'"k":\s*(\d+(?:\.\d+)?)'   for k = 'a' and k = 'b'
 *
 * None of the patterns is compiled with DOTALL, so `.` stops at a newline.
 */
module Patterns {
  import opened Wrappers
  import opened Text

  datatype Pattern =
    | ActionLine
    | ActionInputLine
    | NumericField(key: char)

  /** Group 1 of a match: the span `s[lo..hi]`. */
  datatype Group = Group(lo: nat, hi: nat)

  /** A match found by `Search`: where it starts and what group 1 captured. */
  datatype Found = Found(at: nat, group: Group)

  const ActionPrefix: string := "Action: "
  const ActionInputPrefix: string := "Action Input: "

  /** The literal `"k":` that a numeric field starts with. */
  function FieldHead(key: char): string {
    ['"', key, '"', ':']
  }

  /** The regex class `\d`, on ASCII digits. */
  predicate IsDigit(c: char) {
    '0' <= c <= '9'
  }

  /** A non-empty run of digits: what `\d+` matches. */
  predicate IsDigits(t: string) {
    |t| > 0 && forall k :: 0 <= k < |t| ==> IsDigit(t[k])
  }

  /** What `\d+(?:\.\d+)?` matches: digits, then possibly a point and more digits. */
  predicate IsDecimal(t: string) {
    IsDigits(t) || exists d :: 0 < d < |t| && t[d] == '.' && IsDigits(t[..d]) && IsDigits(t[d + 1..])
  }

  /** First index at or after `from` that does not hold a digit, or `|s|`. */
  function SkipDigits(s: string, from: nat): (r: nat)
    requires from <= |s|
    decreases |s| - from
    ensures from <= r <= |s|
    ensures forall k :: from <= k < r ==> IsDigit(s[k])
    ensures r < |s| ==> !IsDigit(s[r])
  {
    if from < |s| && IsDigit(s[from]) then SkipDigits(s, from + 1) else from
  }

  /**
   * Whether pattern `p` matches with its first character at index `i`, and
   * if so the span of group 1, following the backtracking matcher:
   * - the lazy `(.*?)` grows one character at a time until `[\n]` matches,
   *   so it ends at the first newline; with no newline left there is no match;
   * - the greedy `(.*)` takes the rest of the line;
   * - `\s*` and `\d` share no character, so the greedy `\s*` never gives
   *   anything back, and the greedy `\d+` followed by an optional group
   *   takes every digit, then the fraction if a point and a digit follow.
   */
  function MatchAt(p: Pattern, s: string, i: nat): (m: Option<Group>)
    ensures m.Some? ==> i <= m.value.lo <= m.value.hi <= |s|
  {
    match p
    case ActionLine =>
      if !OccursAt(s, i, ActionPrefix) then None
      else
        var e := LineEnd(s, i + |ActionPrefix|);
        if e < |s| then Some(Group(i + |ActionPrefix|, e)) else None
    case ActionInputLine =>
      if !OccursAt(s, i, ActionInputPrefix) then None
      else Some(Group(i + |ActionInputPrefix|, LineEnd(s, i + |ActionInputPrefix|)))
    case NumericField(key) =>
      if !OccursAt(s, i, FieldHead(key)) then None
      else
        var lo := SkipSpace(s, i + 4);
        var e := SkipDigits(s, lo);
        if e == lo then None
        else if e + 1 < |s| && s[e] == '.' && IsDigit(s[e + 1]) then Some(Group(lo, SkipDigits(s, e + 1)))
        else Some(Group(lo, e))
  }

  /** Python's `re.search(p, s[from..])`, positions counted in `s`. */
  function Search(p: Pattern, s: string, from: nat): (r: Option<Found>)
    requires from <= |s|
    decreases |s| - from
    ensures r.Some? ==> from <= r.value.at && MatchAt(p, s, r.value.at) == Some(r.value.group)
    ensures r.Some? ==> forall j: nat :: from <= j < r.value.at ==> MatchAt(p, s, j).None?
    ensures r.None? ==> forall j: nat :: from <= j ==> MatchAt(p, s, j).None?
  {
    match MatchAt(p, s, from)
    case Some(g) => Some(Found(from, g))
    case None => if from == |s| then None else Search(p, s, from + 1)
  }

  /**
   * `Action: ` can only match at an occurrence of its prefix, and there it
   * matches exactly when a newline follows somewhere; group 1 runs up to
   * the first such newline.
   */
  lemma ActionLineAt(s: string, i: nat)
    ensures MatchAt(ActionLine, s, i).Some? <==>
      OccursAt(s, i, ActionPrefix) && exists n :: i + |ActionPrefix| <= n < |s| && s[n] == '\n'
    ensures MatchAt(ActionLine, s, i).Some? ==>
      var g := MatchAt(ActionLine, s, i).value;
      g.lo == i + |ActionPrefix| && g.hi < |s| && s[g.hi] == '\n' && '\n' !in s[g.lo..g.hi]
  {
    if OccursAt(s, i, ActionPrefix) {
      var e := LineEnd(s, i + |ActionPrefix|);
      var lo := i + |ActionPrefix|;
      forall k | 0 <= k < e - lo ensures s[lo..e][k] != '\n' {
        assert s[lo..e][k] == s[lo + k];
      }
    }
  }

  /**
   * `re.search` for the action line finds it at the FIRST `Action: ` or not at
   * all: if no newline follows the first occurrence, none follows a later one.
   */
  lemma {:induction false} ActionLineSearch(s: string, p: nat)
    requires OccursAt(s, p, ActionPrefix)
    requires forall q: nat :: q < p ==> !OccursAt(s, q, ActionPrefix)
    ensures Search(ActionLine, s, 0).Some? <==> LineEnd(s, p + |ActionPrefix|) < |s|
    ensures Search(ActionLine, s, 0).Some? ==>
      Search(ActionLine, s, 0).value == Found(p, Group(p + |ActionPrefix|, LineEnd(s, p + |ActionPrefix|)))
  {
    var r := Search(ActionLine, s, 0);
    var e := LineEnd(s, p + |ActionPrefix|);
    if r.Some? {
      var q := r.value.at;
      assert OccursAt(s, q, ActionPrefix);
      var eq := LineEnd(s, q + |ActionPrefix|);
      assert eq < |s| && s[eq] == '\n';
      assert e < |s|;
      assert MatchAt(ActionLine, s, p).Some?;
      assert q == p;
    } else {
      assert MatchAt(ActionLine, s, p).None?;
    }
  }

  /**
   * The other direction of `NumericFieldCapture`: where `"k":` occurs and,
   * after nothing but whitespace, a digit follows, the field pattern matches
   * there, and group 1 starts at that digit.
   */
  lemma NumericFieldMatches(key: char, s: string, i: nat, j: nat)
    requires OccursAt(s, i, FieldHead(key))
    requires i + 4 <= j < |s| && IsDigit(s[j])
    requires forall k :: i + 4 <= k < j ==> IsSpace(s[k])
    ensures MatchAt(NumericField(key), s, i).Some?
    ensures MatchAt(NumericField(key), s, i).value.lo == j
  {
    assert SkipSpace(s, i + 4) == j;
  }

  /**
   * `re.search` for the action input finds the first `Action Input: `, and
   * group 1 is the rest of that line; it is absent exactly when the prefix is.
   */
  lemma {:induction false} ActionInputSearch(s: string)
    ensures Search(ActionInputLine, s, 0).Some? <==> Contains(s, ActionInputPrefix)
    ensures Contains(s, ActionInputPrefix) ==>
      var p := FindFirst(ActionInputPrefix, s).value;
      Search(ActionInputLine, s, 0).value == Found(p, Group(p + |ActionInputPrefix|, LineEnd(s, p + |ActionInputPrefix|)))
  {
    var r := Search(ActionInputLine, s, 0);
    if Contains(s, ActionInputPrefix) {
      var p := FindFirst(ActionInputPrefix, s).value;
      assert MatchAt(ActionInputLine, s, p).Some?;
      assert r.Some?;
      var q := r.value.at;
      assert OccursAt(s, q, ActionInputPrefix);
      assert q == p;
    } else {
      forall j: nat ensures MatchAt(ActionInputLine, s, j).None? {
        assert j <= |s| ==> !OccursAt(s, j, ActionInputPrefix);
      }
    }
  }

  /** A numeric field cannot start before `m` when its key does not appear before `m + 1`. */
  lemma FieldAbsentBefore(s: string, key: char, m: nat)
    requires m < |s| && key !in s[..m + 1]
    ensures forall j: nat :: j < m ==> MatchAt(NumericField(key), s, j).None?
  {
    forall j: nat | j < m ensures !OccursAt(s, j, FieldHead(key)) {
      assert s[..m + 1][j + 1] == s[j + 1];
      assert j + 4 <= |s| ==> s[j..j + 4][1] == s[j + 1];
    }
  }

  /**
   * What a numeric field captures: it starts at the literal `"k":`, only
   * whitespace separates the colon from group 1, group 1 is a decimal, and
   * no longer piece starting at the same place is one (greedy matching).
   */
  lemma NumericFieldCapture(key: char, s: string, i: nat)
    requires MatchAt(NumericField(key), s, i).Some?
    ensures OccursAt(s, i, FieldHead(key))
    ensures var g := MatchAt(NumericField(key), s, i).value;
      i + 4 <= g.lo
      && (forall k :: i + 4 <= k < g.lo ==> IsSpace(s[k]))
      && IsDecimal(s[g.lo..g.hi])
      && (forall e :: g.hi < e <= |s| ==> !IsDecimal(s[g.lo..e]))
  {
    var g := MatchAt(NumericField(key), s, i).value;
    var lo := SkipSpace(s, i + 4);
    var d := SkipDigits(s, lo);
    assert g.lo == lo;
    assert IsDigits(s[lo..d]) by {
      assert forall k :: 0 <= k < d - lo ==> s[lo..d][k] == s[lo + k];
    }
    if d + 1 < |s| && s[d] == '.' && IsDigit(s[d + 1]) {
      var f := SkipDigits(s, d + 1);
      assert g.hi == f;
      var t := s[lo..f];
      assert t[..d - lo] == s[lo..d];
      var u := t[d - lo + 1..];
      forall k | 0 <= k < |u| ensures IsDigit(u[k]) {
        assert u[k] == s[d + 1 + k];
      }
      assert t[d - lo] == '.';
      assert IsDecimal(t);
      forall e | f < e <= |s| ensures !IsDecimal(s[lo..e]) {
        DecimalNotExtended(s, lo, d, f, e);
      }
    } else {
      assert g.hi == d;
      forall e | d < e <= |s| ensures !IsDecimal(s[lo..e]) {
        DigitsNotExtended(s, lo, d, e);
      }
    }
  }

  /**
   * A piece that starts with the maximal digit run `s[lo..d]` and extends
   * past it, where no point-and-digit follows the run, is not a decimal.
   */
  lemma DigitsNotExtended(s: string, lo: nat, d: nat, e: nat)
    requires lo < d < e <= |s|
    requires forall k :: lo <= k < d ==> IsDigit(s[k])
    requires !IsDigit(s[d])
    requires !(d + 1 < |s| && s[d] == '.' && IsDigit(s[d + 1]))
    ensures !IsDecimal(s[lo..e])
  {
    var t := s[lo..e];
    assert t[d - lo] == s[d];
    forall x | 0 < x < |t| && t[x] == '.' && IsDigits(t[..x]) ensures !IsDigits(t[x + 1..]) {
      assert t[x] == s[lo + x];
      assert forall k :: 0 <= k < x ==> t[..x][k] == t[k];
      assert x + 1 < |t| ==> t[x + 1..][0] == s[lo + x + 1];
    }
  }

  /**
   * A piece that extends past a maximal `digits.digits` run `s[lo..f]`
   * (the point at `d`) is not a decimal.
   */
  lemma DecimalNotExtended(s: string, lo: nat, d: nat, f: nat, e: nat)
    requires lo < d && d + 1 < f < e <= |s|
    requires forall k :: lo <= k < d ==> IsDigit(s[k])
    requires s[d] == '.'
    requires forall k :: d + 1 <= k < f ==> IsDigit(s[k])
    requires !IsDigit(s[f])
    ensures !IsDecimal(s[lo..e])
  {
    var t := s[lo..e];
    assert t[d - lo] == '.';
    assert t[f - lo] == s[f];
    forall x | 0 < x < |t| && t[x] == '.' && IsDigits(t[..x]) ensures !IsDigits(t[x + 1..]) {
      assert t[x] == s[lo + x];
      assert forall k :: 0 <= k < x ==> t[..x][k] == t[k];
      assert forall k :: x + 1 <= k < |t| ==> t[x + 1..][k - x - 1] == t[k];
    }
  }
}
