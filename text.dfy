/**
 * The Python `str` operations the core relies on, over ASCII: whitespace
 * (`str.isspace`, `\s`), `strip`, `lower`, `startswith`/`endswith`, `in`,
 * `find`/`rfind`, `split(sep)`, `sep.join` and the word count `len(s.split())`.
 */
module Text {
  import opened Wrappers

  /** Python's ASCII whitespace: space, \t, \n, \v, \f, \r and the separators \x1c-\x1f. */
  predicate IsSpace(c: char) {
    c == ' ' || c == '\t' || c == '\n' || c == '\U{B}' || c == '\U{C}' || c == '\r'
    || ('\U{1C}' <= c <= '\U{1F}')
  }

  predicate IsDigit(c: char) {
    '0' <= c <= '9'
  }

  predicate AllSpace(s: string) {
    forall k :: 0 <= k < |s| ==> IsSpace(s[k])
  }

  // ---------------------------------------------------------------------------
  // strip

  /** The first index from `i` on that does not hold whitespace, or `|s|`. */
  function SkipSpaces(s: string, i: nat): (k: nat)
    requires i <= |s|
    decreases |s| - i
    ensures i <= k <= |s|
    ensures forall m :: i <= m < k ==> IsSpace(s[m])
    ensures k < |s| ==> !IsSpace(s[k])
  {
    if i == |s| || !IsSpace(s[i]) then i else SkipSpaces(s, i + 1)
  }

  /** The index just after the last character before `j` that is not whitespace, or 0. */
  function SkipSpacesBack(s: string, j: nat): (k: nat)
    requires j <= |s|
    ensures k <= j
    ensures forall m :: k <= m < j ==> IsSpace(s[m])
    ensures k > 0 ==> !IsSpace(s[k - 1])
  {
    if j == 0 || !IsSpace(s[j - 1]) then j else SkipSpacesBack(s, j - 1)
  }

  /** `s.strip()`: `s` without its leading and trailing whitespace. */
  function Strip(s: string): (r: string)
    ensures r == [] <==> AllSpace(s)
    ensures r != [] ==> !IsSpace(r[0]) && !IsSpace(r[|r| - 1])
    ensures |r| <= |s|
  {
    var i := SkipSpaces(s, 0);
    if i == |s| then []
    else
      var j := SkipSpacesBack(s, |s|);
      assert i < j by {
        assert !IsSpace(s[i]);
      }
      s[i..j]
  }

  /** What `strip` keeps is the contiguous piece of `s` between its leading and its trailing whitespace. */
  lemma StripIsSlice(s: string)
    ensures var i, j := SkipSpaces(s, 0), SkipSpacesBack(s, |s|);
      && (i == |s| ==> Strip(s) == [])
      && (i < |s| ==> i < j && Strip(s) == s[i..j])
  {
    var i := SkipSpaces(s, 0);
    if i < |s| {
      assert !IsSpace(s[i]);
    }
  }

  /** What `strip` removes, before and after the piece it keeps, is whitespace. */
  lemma StripRemovesOnlySpace(s: string)
    ensures var i, j := SkipSpaces(s, 0), SkipSpacesBack(s, |s|);
      i < |s| ==> AllSpace(s[..i]) && AllSpace(s[j..])
  {
    var i, j := SkipSpaces(s, 0), SkipSpacesBack(s, |s|);
    forall k | 0 <= k < i ensures IsSpace(s[..i][k]) {
      assert s[..i][k] == s[k];
    }
    forall k | 0 <= k < |s| - j ensures IsSpace(s[j..][k]) {
      assert s[j..][k] == s[j + k];
    }
  }

  lemma StripIdempotent(s: string)
    ensures Strip(Strip(s)) == Strip(s)
  {
    var r := Strip(s);
    if r != [] {
      assert SkipSpaces(r, 0) == 0;
      assert SkipSpacesBack(r, |r|) == |r|;
      assert r[0..|r|] == r;
    }
  }

  // ---------------------------------------------------------------------------
  // lower

  function LowerChar(c: char): char {
    if 'A' <= c <= 'Z' then (c as int + 32) as char else c
  }

  /** `s.lower()` over ASCII letters. */
  function Lower(s: string): (r: string)
    ensures |r| == |s|
    ensures forall k :: 0 <= k < |s| ==> r[k] == LowerChar(s[k])
  {
    seq(|s|, k requires 0 <= k < |s| => LowerChar(s[k]))
  }

  /**
   * Lower-casing moves each ASCII capital to the small letter at the same
   * place in the alphabet, leaves every other character alone, and leaves
   * no capital behind.
   */
  lemma LowerSpec(s: string)
    ensures |Lower(s)| == |s|
    ensures forall k :: 0 <= k < |s| && 'A' <= s[k] <= 'Z' ==>
      'a' <= Lower(s)[k] <= 'z' && Lower(s)[k] as int - 'a' as int == s[k] as int - 'A' as int
    ensures forall k :: 0 <= k < |s| && !('A' <= s[k] <= 'Z') ==> Lower(s)[k] == s[k]
    ensures forall k :: 0 <= k < |s| ==> !('A' <= Lower(s)[k] <= 'Z')
  {
  }

  lemma LowerIdempotent(s: string)
    ensures Lower(Lower(s)) == Lower(s)
  {
  }

  // ---------------------------------------------------------------------------
  // prefixes, suffixes, occurrences

  predicate StartsWith(s: string, prefix: string) {
    |prefix| <= |s| && s[..|prefix|] == prefix
  }

  predicate EndsWith(s: string, suffix: string) {
    |suffix| <= |s| && s[|s| - |suffix|..] == suffix
  }

  /** `sep` occurs in `s` starting at index `k`. */
  predicate OccursAt(s: string, sep: string, k: int) {
    0 <= k && k + |sep| <= |s| && s[k..k + |sep|] == sep
  }

  /** Leftmost occurrence of `sep` in `s` at or after `from`. */
  function FindFrom(s: string, sep: string, from: nat): (r: Option<nat>)
    decreases |s| - from
    ensures r.Some? ==> from <= r.value && OccursAt(s, sep, r.value)
    ensures r.Some? ==> forall k :: from <= k < r.value ==> !OccursAt(s, sep, k)
    ensures r.None? ==> forall k :: from <= k ==> !OccursAt(s, sep, k)
  {
    if from + |sep| > |s| then None
    else if s[from..from + |sep|] == sep then Some(from)
    else FindFrom(s, sep, from + 1)
  }

  /** `sep in s`. */
  predicate Contains(s: string, sep: string) {
    FindFrom(s, sep, 0).Some?
  }

  /** `s.find(c)`: the first index of `c`, or -1. */
  function Find(s: string, c: char): (r: int)
    ensures -1 <= r < |s|
    ensures r >= 0 ==> s[r] == c && forall k :: 0 <= k < r ==> s[k] != c
    ensures r == -1 ==> forall k :: 0 <= k < |s| ==> s[k] != c
  {
    if s == [] then -1
    else if s[0] == c then 0
    else var r := Find(s[1..], c); if r == -1 then -1 else r + 1
  }

  /** `s.rfind(c)`: the last index of `c`, or -1. */
  function RFind(s: string, c: char): (r: int)
    ensures -1 <= r < |s|
    ensures r >= 0 ==> s[r] == c && forall k :: r < k < |s| ==> s[k] != c
    ensures r == -1 ==> forall k :: 0 <= k < |s| ==> s[k] != c
  {
    if s == [] then -1
    else if s[|s| - 1] == c then |s| - 1
    else RFind(s[..|s| - 1], c)
  }

  // ---------------------------------------------------------------------------
  // split and join

  /** `sep.join(parts)`. */
  function Join(parts: seq<string>, sep: string): string {
    if |parts| == 0 then ""
    else if |parts| == 1 then parts[0]
    else parts[0] + sep + Join(parts[1..], sep)
  }

  /** The pieces of `s[from..]` that `s.split(sep)` yields (a non-empty `sep`). */
  function SplitFrom(s: string, sep: string, from: nat): (parts: seq<string>)
    requires |sep| > 0 && from <= |s|
    decreases |s| - from
    ensures |parts| >= 1
  {
    match FindFrom(s, sep, from)
    case None => [s[from..]]
    case Some(k) => [s[from..k]] + SplitFrom(s, sep, k + |sep|)
  }

  /** `s.split(sep)`. */
  function Split(s: string, sep: string): (parts: seq<string>)
    requires |sep| > 0
    ensures |parts| >= 1
  {
    SplitFrom(s, sep, 0)
  }

  /** Joining the pieces of a split with the separator gives back the string. */
  lemma {:induction false} SplitFromJoin(s: string, sep: string, from: nat)
    requires |sep| > 0 && from <= |s|
    decreases |s| - from
    ensures Join(SplitFrom(s, sep, from), sep) == s[from..]
  {
    match FindFrom(s, sep, from)
    case None =>
    case Some(k) =>
      SplitFromFound(s, sep, from, k);
      var rest := SplitFrom(s, sep, k + |sep|);
      SplitFromJoin(s, sep, k + |sep|);
      calc {
        Join(SplitFrom(s, sep, from), sep);
        Join([s[from..k]] + rest, sep);
        { JoinCons(s[from..k], rest, sep); }
        s[from..k] + sep + Join(rest, sep);
        s[from..k] + sep + s[k + |sep|..];
        { assert s[k..k + |sep|] == sep; ThreeSlices(s, from, k, k + |sep|); }
        s[from..];
      }
  }

  /** Where the separator is found, the split is the text before it, then the split after it. */
  lemma SplitFromFound(s: string, sep: string, from: nat, k: nat)
    requires |sep| > 0 && from <= |s| && FindFrom(s, sep, from) == Some(k)
    ensures k + |sep| <= |s|
    ensures SplitFrom(s, sep, from) == [s[from..k]] + SplitFrom(s, sep, k + |sep|)
  {
  }

  /** A suffix is the concatenation of three consecutive slices. */
  lemma ThreeSlices(s: string, i: nat, j: nat, k: nat)
    requires i <= j <= k <= |s|
    ensures s[i..] == s[i..j] + s[j..k] + s[k..]
  {
  }

  /** Joining a first part in front of other parts puts the separator between them. */
  lemma JoinCons(p: string, rest: seq<string>, sep: string)
    requires rest != []
    ensures Join([p] + rest, sep) == p + sep + Join(rest, sep)
  {
    assert ([p] + rest)[1..] == rest;
  }

  lemma SplitJoin(s: string, sep: string)
    requires |sep| > 0
    ensures Join(Split(s, sep), sep) == s
  {
    SplitFromJoin(s, sep, 0);
  }

  /** No piece of a split contains the separator. */
  lemma {:induction false} SplitFromPiecesFree(s: string, sep: string, from: nat)
    requires |sep| > 0 && from <= |s|
    decreases |s| - from
    ensures forall p :: p in SplitFrom(s, sep, from) ==> !Contains(p, sep)
  {
    var parts := SplitFrom(s, sep, from);
    match FindFrom(s, sep, from)
    case None =>
      PieceFree(s, sep, from, |s|);
      assert s[from..|s|] == s[from..];
    case Some(k) =>
      PieceFree(s, sep, from, k);
      SplitFromPiecesFree(s, sep, k + |sep|);
  }

  /** A piece `s[from..to]` holds no occurrence when none starts in it inside `s`. */
  lemma PieceFree(s: string, sep: string, from: nat, to: nat)
    requires |sep| > 0 && from <= to <= |s|
    requires forall k :: from <= k < to ==> !OccursAt(s, sep, k)
    ensures !Contains(s[from..to], sep)
  {
    var p := s[from..to];
    if FindFrom(p, sep, 0).Some? {
      var k := FindFrom(p, sep, 0).value;
      assert OccursAt(p, sep, k);
      assert k + |sep| <= |p|;
      forall i | 0 <= i < |sep| ensures s[from + k + i] == sep[i] {
        assert p[k..k + |sep|][i] == sep[i];
        assert p[k + i] == s[from + k + i];
      }
      assert s[from + k..from + k + |sep|] == sep;
      assert OccursAt(s, sep, from + k);
      assert false;
    }
  }

  lemma SplitPiecesFree(s: string, sep: string)
    requires |sep| > 0
    ensures forall p :: p in Split(s, sep) ==> !Contains(p, sep)
  {
    SplitFromPiecesFree(s, sep, 0);
  }

  /** A string splits into more than one piece exactly when it contains the separator. */
  lemma SplitSingleIff(s: string, sep: string)
    requires |sep| > 0
    ensures |Split(s, sep)| > 1 <==> Contains(s, sep)
    ensures !Contains(s, sep) ==> Split(s, sep) == [s]
  {
    if FindFrom(s, sep, 0).Some? {
      var k := FindFrom(s, sep, 0).value;
      assert Split(s, sep) == [s[0..k]] + SplitFrom(s, sep, k + |sep|);
    }
  }

  // ---------------------------------------------------------------------------
  // word count: len(s.split())

  /**
   * The number of words of `s` when the character read before `s` was
   * whitespace (`afterSpace`) or not: a word starts at every non-whitespace
   * character that follows whitespace or the start.
   */
  function WordsFrom(s: string, afterSpace: bool): nat {
    if s == [] then 0
    else (if afterSpace && !IsSpace(s[0]) then 1 else 0) + WordsFrom(s[1..], IsSpace(s[0]))
  }

  /** `len(s.split())`: the number of maximal runs of non-whitespace characters. */
  function WordCount(s: string): nat {
    WordsFrom(s, true)
  }

  /** Whether the last character read, after `s`, is whitespace. */
  function EndsAfterSpace(s: string, afterSpace: bool): bool {
    if s == [] then afterSpace else IsSpace(s[|s| - 1])
  }

  lemma {:induction false} WordsFromConcat(a: string, b: string, afterSpace: bool)
    ensures WordsFrom(a + b, afterSpace) == WordsFrom(a, afterSpace) + WordsFrom(b, EndsAfterSpace(a, afterSpace))
  {
    if a == [] {
      assert a + b == b;
    } else {
      assert (a + b)[0] == a[0];
      assert (a + b)[1..] == a[1..] + b;
      WordsFromConcat(a[1..], b, IsSpace(a[0]));
      if |a| > 1 {
        assert a[1..][|a[1..]| - 1] == a[|a| - 1];
      }
    }
  }

  lemma {:induction false} WordsFromAllSpace(s: string, afterSpace: bool)
    requires AllSpace(s)
    ensures WordsFrom(s, afterSpace) == 0
  {
    if s != [] {
      WordsFromAllSpace(s[1..], IsSpace(s[0]));
    }
  }

  /** Total word count of a sequence of strings. */
  function SumWords(parts: seq<string>): nat {
    if parts == [] then 0 else WordCount(parts[0]) + SumWords(parts[1..])
  }

  lemma {:induction false} SumWordsAppend(parts: seq<string>, p: string)
    ensures SumWords(parts + [p]) == SumWords(parts) + WordCount(p)
  {
    if parts != [] {
      assert (parts + [p])[1..] == parts[1..] + [p];
      SumWordsAppend(parts[1..], p);
    }
  }

  /** Gluing two strings with whitespace between them adds their word counts. */
  lemma WordCountGlue(a: string, sep: string, b: string)
    requires |sep| > 0 && AllSpace(sep)
    ensures WordCount(a + sep + b) == WordCount(a) + WordCount(b)
  {
    WordsFromConcat(a + sep, b, true);
    WordsFromConcat(a, sep, true);
    WordsFromAllSpace(sep, EndsAfterSpace(a, true));
    assert IsSpace(sep[|sep| - 1]);
    assert (a + sep)[|a + sep| - 1] == sep[|sep| - 1];
  }

  /**
   * Joining with a non-empty whitespace separator (" ", "\n\n") neither merges
   * nor splits words: the joined text has exactly the words of its parts.
   */
  lemma {:induction false} WordCountJoin(parts: seq<string>, sep: string)
    requires |sep| > 0 && AllSpace(sep)
    ensures WordCount(Join(parts, sep)) == SumWords(parts)
  {
    if |parts| == 1 {
      assert parts[1..] == [];
    } else if |parts| > 1 {
      WordCountJoin(parts[1..], sep);
      WordCountGlue(parts[0], sep, Join(parts[1..], sep));
    }
  }
}
