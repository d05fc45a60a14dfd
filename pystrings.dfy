/**
 * The parts of Python's `str` that the template filters rely on:
 * `split(sep)` with a one-character separator, `strip()` with no
 * argument, and the positions that describe their pieces.
 */
module PyStrings {

  /** Python's `str.isspace()` for one character: the characters `strip()` removes. */
  predicate IsSpace(c: char)
  {
    || ('\t' <= c <= '\r')
    || ('\U{1C}' <= c <= '\U{1F}')
    || c == ' '
    || c == '\U{85}'
    || c == '\U{A0}'
    || c == '\U{1680}'
    || ('\U{2000}' <= c <= '\U{200A}')
    || c == '\U{2028}'
    || c == '\U{2029}'
    || c == '\U{202F}'
    || c == '\U{205F}'
    || c == '\U{3000}'
  }

  /** Every character of `s` from position `lo` up to (not including) `hi` is whitespace. */
  ghost predicate SpacesIn(s: string, lo: int, hi: int)
  {
    forall k | lo <= k < hi && 0 <= k < |s| :: IsSpace(s[k])
  }

  /** Neither end of `s` is whitespace. */
  predicate IsStripped(s: string)
  {
    s == [] || (!IsSpace(s[0]) && !IsSpace(s[|s| - 1]))
  }

  /**
   * The first position at or after `i` that is not whitespace, or `|s|`:
   * where the text that `strip()` keeps starts.
   */
  function SkipLeading(s: string, i: nat): (n: nat)
    requires i <= |s|
    ensures i <= n <= |s| && SpacesIn(s, i, n)
    ensures n < |s| ==> !IsSpace(s[n])
    decreases |s| - i
  {
    if i < |s| && IsSpace(s[i]) then SkipLeading(s, i + 1) else i
  }

  /**
   * The position just after the last non-whitespace position in `s[lo..j]`,
   * or `lo`: where the text that `strip()` keeps ends.
   */
  function SkipTrailing(s: string, lo: nat, j: nat): (m: nat)
    requires lo <= j <= |s|
    ensures lo <= m <= j && SpacesIn(s, m, j)
    ensures m > lo ==> !IsSpace(s[m - 1])
    decreases j
  {
    if j > lo && IsSpace(s[j - 1]) then SkipTrailing(s, lo, j - 1) else j
  }

  /**
   * `s.strip()`: the infix of `s` between its leading and its trailing
   * whitespace, which itself neither starts nor ends with whitespace.
   */
  function Strip(s: string): (r: string)
    ensures |r| <= |s| && IsStripped(r)
  {
    var i := SkipLeading(s, 0);
    var j := SkipTrailing(s, i, |s|);
    assert j > i ==> s[i..j][0] == s[i] && s[i..j][j - i - 1] == s[j - 1];
    s[i..j]
  }

  /**
   * What `strip()` keeps is an infix of `s` framed by a run of leading and a
   * run of trailing whitespace.
   */
  lemma StripFrame(s: string)
    ensures exists i, j | 0 <= i <= j <= |s| ::
              Strip(s) == s[i..j] && SpacesIn(s, 0, i) && SpacesIn(s, j, |s|)
  {
    var i := SkipLeading(s, 0);
    var j := SkipTrailing(s, i, |s|);
    assert Strip(s) == s[i..j];
  }

  /** Any whitespace-framed, stripped infix of `s` is what `strip()` returns. */
  lemma StripUnique(s: string, i: nat, j: nat)
    requires i <= j <= |s|
    requires SpacesIn(s, 0, i) && SpacesIn(s, j, |s|) && IsStripped(s[i..j])
    ensures Strip(s) == s[i..j]
  {
    var n := SkipLeading(s, 0);
    if i == j {
      assert n == |s|;
      assert SkipTrailing(s, n, |s|) == |s|;
    } else {
      assert !IsSpace(s[i]) && !IsSpace(s[j - 1]) by {
        assert s[i..j][0] == s[i] && s[i..j][j - i - 1] == s[j - 1];
      }
      assert n == i;
      var m := SkipTrailing(s, i, |s|);
      assert m == j;
    }
  }

  /** Trailing whitespace after a stripped string is all that `strip()` removes. */
  lemma StripPadded(x: string, pad: string)
    requires IsStripped(x) && SpacesIn(pad, 0, |pad|)
    ensures Strip(x + pad) == x
  {
    var s := x + pad;
    assert forall k | 0 <= k < |pad| :: s[|x| + k] == pad[k];
    assert s[0..|x|] == x;
    StripUnique(s, 0, |x|);
  }

  /** The position of the first `c` in `s`, or `|s|` when there is none (`s.find(c)` with -1 read as `|s|`). */
  function IndexOf(s: string, c: char): (i: nat)
    ensures i <= |s| && c !in s[..i]
    ensures i < |s| ==> s[i] == c
  {
    if s == [] || s[0] == c then 0 else 1 + IndexOf(s[1..], c)
  }

  /** The position of the last `c` in `s`, or -1 when there is none (`s.rfind(c)`). */
  function LastIndexOf(s: string, c: char): (i: int)
    ensures -1 <= i < |s| && c !in s[i + 1..]
    ensures i >= 0 ==> s[i] == c
  {
    if s == [] then -1
    else if s[|s| - 1] == c then |s| - 1
    else LastIndexOf(s[..|s| - 1], c)
  }

  /** `sep.join(pieces)`, the inverse of `Split`. */
  function Join(pieces: seq<string>, sep: char): string
    requires |pieces| >= 1
  {
    if |pieces| == 1 then pieces[0] else pieces[0] + [sep] + Join(pieces[1..], sep)
  }

  /** `s.split(sep)`: the pieces between occurrences of `sep`, none of them holding it. */
  function Split(s: string, sep: char): (pieces: seq<string>)
    ensures |pieces| >= 1
    ensures forall k | 0 <= k < |pieces| :: sep !in pieces[k]
  {
    if s == [] then [[]]
    else
      var rest := Split(s[1..], sep);
      if s[0] == sep then [[]] + rest
      else [[s[0]] + rest[0]] + rest[1..]
  }

  /** A split has one more piece than the string has separators. */
  lemma {:induction false} SplitCount(s: string, sep: char)
    ensures |Split(s, sep)| == multiset(s)[sep] + 1
  {
    if s != [] {
      SplitCount(s[1..], sep);
      assert s == [s[0]] + s[1..];
      assert multiset(s)[sep] == (if s[0] == sep then 1 else 0) + multiset(s[1..])[sep];
    }
  }

  lemma {:induction false} JoinPrepend(x: string, pieces: seq<string>, sep: char)
    requires |pieces| >= 1
    ensures Join([x + pieces[0]] + pieces[1..], sep) == x + Join(pieces, sep)
  {
    var ps := [x + pieces[0]] + pieces[1..];
    if |pieces| > 1 {
      assert ps[1..] == pieces[1..];
    }
  }

  /** Joining the pieces of a split with the same separator gives back the string. */
  lemma {:induction false} SplitJoin(s: string, sep: char)
    ensures Join(Split(s, sep), sep) == s
  {
    if s != [] {
      var rest := Split(s[1..], sep);
      SplitJoin(s[1..], sep);
      assert s == [s[0]] + s[1..];
      if s[0] == sep {
        var pieces := [[]] + rest;
        assert Split(s, sep) == pieces;
        assert pieces[1..] == rest;
        assert Join(pieces, sep) == [] + [sep] + Join(rest, sep);
      } else {
        assert Split(s, sep) == [[s[0]] + rest[0]] + rest[1..];
        JoinPrepend([s[0]], rest, sep);
      }
    }
  }

  /** A split is the only separator-free sequence of pieces that joins back to the string. */
  lemma {:induction false} SplitUnique(s: string, sep: char, pieces: seq<string>)
    requires |pieces| >= 1
    requires forall k | 0 <= k < |pieces| :: sep !in pieces[k]
    requires Join(pieces, sep) == s
    ensures pieces == Split(s, sep)
    decreases |s|
  {
    if s == [] {
    } else if pieces[0] == [] {
      assert |pieces| > 1;
      var rest := pieces[1..];
      assert Join(pieces, sep) == [] + [sep] + Join(rest, sep);
      assert s[0] == sep && s[1..] == Join(rest, sep);
      SplitUnique(s[1..], sep, rest);
      assert s == [s[0]] + s[1..];
      assert Split(s, sep) == [[]] + rest;
      assert pieces == [[]] + rest;
    } else {
      var head := pieces[0];
      var tailPieces: seq<string> := [head[1..]] + pieces[1..];
      assert sep !in head[1..];
      assert head == [head[0]] + head[1..];
      assert pieces == [[head[0]] + tailPieces[0]] + tailPieces[1..];
      JoinPrepend([head[0]], tailPieces, sep);
      assert s[0] == head[0] && s[1..] == Join(tailPieces, sep);
      SplitUnique(s[1..], sep, tailPieces);
      assert s == [s[0]] + s[1..];
      assert Split(s, sep) == [[s[0]] + tailPieces[0]] + tailPieces[1..];
    }
  }

  /** The first piece of a split is everything before the first separator. */
  lemma {:induction false} SplitFirst(s: string, sep: char)
    ensures Split(s, sep)[0] == s[..IndexOf(s, sep)]
  {
    if s != [] && s[0] != sep {
      SplitFirst(s[1..], sep);
    }
  }

  /** The last piece of a split is everything after the last separator. */
  lemma {:induction false} SplitLast(s: string, sep: char)
    ensures var pieces := Split(s, sep); pieces[|pieces| - 1] == s[LastIndexOf(s, sep) + 1..]
  {
    var pieces := Split(s, sep);
    var i := LastIndexOf(s, sep);
    var ps := pieces[..|pieces| - 1];
    var last := pieces[|pieces| - 1];
    SplitJoin(s, sep);
    JoinLast(pieces, sep);
    if |pieces| == 1 {
      assert s == last;
      assert i == -1;
    } else {
      assert s == Join(ps, sep) + [sep] + last;
      LastSeparator(Join(ps, sep), sep, last);
    }
  }

  /** In `prefix + [sep] + last`, with no `sep` in `last`, the added `sep` is the last one. */
  lemma LastSeparator(prefix: string, sep: char, last: string)
    requires sep !in last
    ensures var s := prefix + [sep] + last;
      LastIndexOf(s, sep) == |prefix| && s[|prefix| + 1..] == last
  {
    var s := prefix + [sep] + last;
    assert forall k | |prefix| < k < |s| :: s[k] == last[k - |prefix| - 1];
    LastIndexOfAt(s, sep, |prefix|);
  }

  /** A position holding `c` with no `c` after it is the last position of `c`. */
  lemma LastIndexOfAt(s: string, c: char, p: int)
    requires -1 <= p < |s| && forall k | p < k < |s| :: s[k] != c
    requires p >= 0 ==> s[p] == c
    ensures LastIndexOf(s, c) == p
  {
    var i := LastIndexOf(s, c);
    assert forall k | i < k < |s| :: s[k] == s[i + 1..][k - i - 1];
  }

  /** The last piece of a join follows the last separator it adds. */
  lemma {:induction false} JoinLast(pieces: seq<string>, sep: char)
    requires |pieces| >= 1
    ensures |pieces| > 1 ==>
      Join(pieces, sep) == Join(pieces[..|pieces| - 1], sep) + [sep] + pieces[|pieces| - 1]
  {
    if |pieces| > 2 {
      JoinLast(pieces[1..], sep);
      assert pieces[1..][..|pieces| - 2] == pieces[..|pieces| - 1][1..];
    }
  }
}
