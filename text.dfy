/**
 * The Python string operations the output parser relies on: substring test
 * (`in`), first-occurrence search, the end of the current line, `str.strip()`
 * and `str.split(sep)[-1]`, all over `string` (a `seq<char>`).
 */
module Text {
  import opened Wrappers

  /** `sub` occurs in `s` starting at index `i`. */
  predicate OccursAt(s: string, i: nat, sub: string) {
    i + |sub| <= |s| && s[i..i + |sub|] == sub
  }

  /** Python's `sub in s`. */
  predicate Contains(s: string, sub: string) {
    exists i :: 0 <= i <= |s| && OccursAt(s, i, sub)
  }

  /** Leftmost index at or after `from` where `sub` occurs. */
  function FindFrom(sub: string, s: string, from: nat): (r: Option<nat>)
    requires from <= |s|
    decreases |s| - from
    ensures r.Some? ==> from <= r.value && OccursAt(s, r.value, sub)
    ensures r.Some? ==> forall j: nat :: from <= j < r.value ==> !OccursAt(s, j, sub)
    ensures r.None? ==> forall j: nat :: from <= j ==> !OccursAt(s, j, sub)
  {
    if OccursAt(s, from, sub) then Some(from)
    else if from == |s| then None
    else FindFrom(sub, s, from + 1)
  }

  /** Leftmost index of `sub` in `s` (Python's `s.find(sub)`, with None for -1). */
  function FindFirst(sub: string, s: string): (r: Option<nat>)
    ensures r.Some? <==> Contains(s, sub)
    ensures r.Some? ==> OccursAt(s, r.value, sub)
    ensures r.Some? ==> forall j: nat :: j < r.value ==> !OccursAt(s, j, sub)
  {
    FindFrom(sub, s, 0)
  }

  /**
   * End of the line that contains index `from`: the first newline at or after
   * `from`, or `|s|` when none follows. This is how far the regex `.`, which
   * matches every character except a newline, can reach.
   */
  function LineEnd(s: string, from: nat): (r: nat)
    requires from <= |s|
    decreases |s| - from
    ensures from <= r <= |s|
    ensures r < |s| ==> s[r] == '\n'
    ensures forall j :: from <= j < r ==> s[j] != '\n'
  {
    if from == |s| || s[from] == '\n' then from else LineEnd(s, from + 1)
  }

  /**
   * Python's whitespace (`str.isspace`), which both `str.strip()` and the
   * regex class `\s` use for text patterns.
   */
  predicate IsSpace(c: char) {
    ('\t' <= c <= '\r') || ('\U{1c}' <= c <= ' ') || c == '\U{85}' || c == '\U{a0}'
    || c == '\U{1680}' || ('\U{2000}' <= c <= '\U{200a}') || c == '\U{2028}' || c == '\U{2029}'
    || c == '\U{202f}' || c == '\U{205f}' || c == '\U{3000}'
  }

  /**
   * First index at or after `from` that does not hold whitespace, or `|s|`:
   * how far the regex `\s*` reaches, and where `str.strip()` starts.
   */
  function SkipSpace(s: string, from: nat): (r: nat)
    requires from <= |s|
    decreases |s| - from
    ensures from <= r <= |s|
    ensures forall k :: from <= k < r ==> IsSpace(s[k])
    ensures r < |s| ==> !IsSpace(s[r])
  {
    if from < |s| && IsSpace(s[from]) then SkipSpace(s, from + 1) else from
  }

  /**
   * Scanning back from `limit`, but not past `lo`, the end of the last
   * character that is not whitespace: where `str.strip()` stops.
   */
  function TrimEnd(s: string, lo: nat, limit: nat): (r: nat)
    requires lo <= limit <= |s|
    decreases limit
    ensures lo <= r <= limit
    ensures forall k :: r <= k < limit ==> IsSpace(s[k])
    ensures lo < r ==> !IsSpace(s[r - 1])
  {
    if lo < limit && IsSpace(s[limit - 1]) then TrimEnd(s, lo, limit - 1) else limit
  }

  /**
   * Python's `s.strip()`: the piece of `s` left once every leading and
   * trailing whitespace character is removed.
   */
  function Strip(s: string): (r: string)
    ensures exists i: nat :: (OccursAt(s, i, r)
      && (forall k :: 0 <= k < i ==> IsSpace(s[k]))
      && (forall k :: i + |r| <= k < |s| ==> IsSpace(s[k])))
    ensures r == [] || (!IsSpace(r[0]) && !IsSpace(r[|r| - 1]))
  {
    var lo := SkipSpace(s, 0);
    var hi := TrimEnd(s, lo, |s|);
    assert OccursAt(s, lo, s[lo..hi]);
    s[lo..hi]
  }

  /**
   * The conditions of `Strip`'s contract single out one piece of `s`: any
   * slice `s[i..j]` that removes only whitespace and starts and ends with a
   * non-whitespace character (or is empty because `s` is all whitespace) is
   * `Strip(s)`.
   */
  lemma {:induction false} StripUnique(s: string, i: nat, j: nat)
    requires i <= j <= |s|
    requires forall k :: 0 <= k < i ==> IsSpace(s[k])
    requires forall k :: j <= k < |s| ==> IsSpace(s[k])
    requires i == j ==> forall k :: 0 <= k < |s| ==> IsSpace(s[k])
    requires i < j ==> !IsSpace(s[i]) && !IsSpace(s[j - 1])
    ensures Strip(s) == s[i..j]
  {
    var lo := SkipSpace(s, 0);
    var hi := TrimEnd(s, lo, |s|);
    if i == j {
      assert lo == |s|;
    } else {
      assert lo == i;
      assert hi == j;
    }
  }

  /** Every character of `Strip(s)` comes from `s`. */
  lemma {:induction false} StripKeepsCharacters(s: string, c: char)
    requires c !in s
    ensures c !in Strip(s)
  {
    var r := Strip(s);
    var p: nat :| OccursAt(s, p, r)
      && (forall k :: 0 <= k < p ==> IsSpace(s[k]))
      && (forall k :: p + |r| <= k < |s| ==> IsSpace(s[k]));
    forall k | 0 <= k < |r| ensures r[k] != c {
      assert r[k] == s[p + k];
    }
  }

  /**
   * Where the last piece of `s[from..].split(sep)` starts: split scans from
   * the left for non-overlapping occurrences of `sep`, and the last piece
   * begins right after the final one it finds.
   */
  function LastPieceStart(s: string, sep: string, from: nat): (r: nat)
    requires sep != [] && from <= |s|
    decreases |s| - from
    ensures from <= r <= |s|
    ensures forall j: nat :: r <= j ==> !OccursAt(s, j, sep)
    ensures r == from <==> forall j: nat :: from <= j ==> !OccursAt(s, j, sep)
    ensures from < r ==> from + |sep| <= r && OccursAt(s, r - |sep|, sep)
  {
    match FindFrom(sep, s, from)
    case None => from
    case Some(i) => LastPieceStart(s, sep, i + |sep|)
  }

  /**
   * Python's `s.split(sep)[-1]`: the text after the final separator that
   * split finds, or all of `s` when `sep` does not occur. Python rejects an
   * empty separator. The body follows split's left-to-right scan; the
   * contract pins the result down only for a separator that cannot overlap
   * itself (for `"aa"` in `"aaa"` it would also admit the empty piece).
   */
  function LastPiece(s: string, sep: string): (r: string)
    requires sep != []
    ensures |r| <= |s| && r == s[|s| - |r|..]
    ensures forall j: nat :: |s| - |r| <= j ==> !OccursAt(s, j, sep)
    ensures r == s <==> !Contains(s, sep)
    ensures Contains(s, sep) ==> |sep| <= |s| - |r| && OccursAt(s, |s| - |r| - |sep|, sep)
  {
    s[LastPieceStart(s, sep, 0)..]
  }

  /** A string that lacks one of the characters of `sub` does not contain `sub`. */
  lemma MissingCharacter(s: string, sub: string, k: nat)
    requires k < |sub| && sub[k] !in s
    ensures !Contains(s, sub)
  {
    forall i | 0 <= i <= |s| ensures !OccursAt(s, i, sub) {
      assert i + |sub| <= |s| ==> s[i..i + |sub|][k] == s[i + k];
    }
  }

  /** An occurrence in a suffix of `s` is an occurrence in `s`, shifted. */
  lemma ShiftOccurrence(s: string, m: nat, k: nat, sub: string)
    requires m <= |s|
    ensures OccursAt(s[m..], k, sub) <==> OccursAt(s, m + k, sub)
  {
    if k + |sub| <= |s| - m {
      assert s[m..][k..k + |sub|] == s[m + k..m + k + |sub|];
    }
  }
}
