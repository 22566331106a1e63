/** The string primitives the classifier relies on: ASCII case folding,
    whitespace stripping, splitting at a separator character and substring
    search, each as Python's `str` methods behave on ASCII text. */
module Text {

  /** Whitespace as Python's `str.isspace()` classifies ASCII characters:
      space, \t \n \v \f \r (9-13) and the separators 0x1C-0x1F. */
  predicate IsSpace(c: char) {
    c == ' ' || 9 <= c as int <= 13 || 28 <= c as int <= 31
  }

  /** A character of the regular-expression class `\w`, restricted to ASCII. */
  predicate IsWordChar(c: char) {
    'a' <= c <= 'z' || 'A' <= c <= 'Z' || '0' <= c <= '9' || c == '_'
  }

  /** ASCII lower-casing of one character. */
  function LowerChar(c: char): (d: char)
    ensures !('A' <= d <= 'Z')
    ensures IsWordChar(d) == IsWordChar(c)
    ensures IsSpace(d) == IsSpace(c)
    ensures d == '.' <==> c == '.'
  {
    if 'A' <= c <= 'Z' then (c as int + 32) as char else c
  }

  /** `str.lower()` on ASCII text. */
  function Lower(s: string): string {
    seq(|s|, i requires 0 <= i < |s| => LowerChar(s[i]))
  }

  /** Lower-casing keeps the length, leaves no upper-case letter, and
      changes nothing but upper-case letters. */
  lemma LowerFolds(s: string)
    ensures |Lower(s)| == |s|
    ensures forall i | 0 <= i < |s| :: !('A' <= Lower(s)[i] <= 'Z')
    ensures forall i | 0 <= i < |s| :: Lower(s)[i] == s[i] || 'A' <= s[i] <= 'Z'
  {
  }

  lemma LowerSlice(s: string, i: nat, j: nat)
    requires i <= j <= |s|
    ensures Lower(s)[i..j] == Lower(s[i..j])
  {
  }

  // ---------------------------------------------------------------------
  // str.strip()

  /** Offset of the first character of `s` at or after `i` that is not
      whitespace, or `|s|` when there is none. */
  function SkipForward(s: string, i: nat): (n: nat)
    requires i <= |s|
    ensures i <= n <= |s|
    decreases |s| - i
  {
    if i == |s| || !IsSpace(s[i]) then i else SkipForward(s, i + 1)
  }

  /** Offset just past the last character of `s[i..j]` that is not
      whitespace, or `i` when there is none. */
  function SkipBackward(s: string, i: nat, j: nat): (n: nat)
    requires i <= j <= |s|
    ensures i <= n <= j
    decreases j - i
  {
    if j == i || !IsSpace(s[j - 1]) then j else SkipBackward(s, i, j - 1)
  }

  lemma {:induction false} SkipForwardSpaces(s: string, i: nat)
    requires i <= |s|
    ensures forall k | i <= k < SkipForward(s, i) :: IsSpace(s[k])
    ensures SkipForward(s, i) < |s| ==> !IsSpace(s[SkipForward(s, i)])
    decreases |s| - i
  {
    if i < |s| && IsSpace(s[i]) {
      SkipForwardSpaces(s, i + 1);
    }
  }

  lemma {:induction false} SkipBackwardSpaces(s: string, i: nat, j: nat)
    requires i <= j <= |s|
    ensures forall k | SkipBackward(s, i, j) <= k < j :: IsSpace(s[k])
    ensures i < SkipBackward(s, i, j) ==> !IsSpace(s[SkipBackward(s, i, j) - 1])
    decreases j - i
  {
    if i < j && IsSpace(s[j - 1]) {
      SkipBackwardSpaces(s, i, j - 1);
    }
  }

  /** Every character of `s[i..j]` is whitespace. */
  predicate AllSpace(s: string, i: nat, j: nat)
    requires i <= j <= |s|
    decreases j - i
  {
    i == j || (IsSpace(s[i]) && AllSpace(s, i + 1, j))
  }

  lemma {:induction false} AllSpaceIff(s: string, i: nat, j: nat)
    requires i <= j <= |s|
    ensures AllSpace(s, i, j) <==> forall k | i <= k < j :: IsSpace(s[k])
    decreases j - i
  {
    if i < j {
      AllSpaceIff(s, i + 1, j);
    }
  }

  /** `s[i..j]` is what is left of `s` once its leading and trailing
      whitespace is removed. */
  ghost predicate StripsTo(s: string, i: nat, j: nat) {
    i <= j <= |s|
    && AllSpace(s, 0, i)
    && AllSpace(s, j, |s|)
    && (i < j ==> !IsSpace(s[i]) && !IsSpace(s[j - 1]))
  }

  /** Reference definition of stripping: `r` is a slice of `s` that neither
      starts nor ends with whitespace, and only whitespace was cut off. */
  ghost predicate IsStripOf(r: string, s: string) {
    exists i: nat, j: nat :: StripsTo(s, i, j) && r == s[i..j]
  }

  /** `str.strip()`: remove leading and trailing whitespace. */
  function Strip(s: string): (r: string)
    ensures IsStripOf(r, s)
  {
    var a := SkipForward(s, 0);
    var b := SkipBackward(s, a, |s|);
    StripBounds(s);
    s[a..b]
  }

  /** The offsets the scans stop at are those of the stripped slice. */
  lemma StripBounds(s: string)
    ensures StripsTo(s, SkipForward(s, 0), SkipBackward(s, SkipForward(s, 0), |s|))
  {
    var a := SkipForward(s, 0);
    var b := SkipBackward(s, a, |s|);
    SkipForwardSpaces(s, 0);
    SkipBackwardSpaces(s, a, |s|);
    AllSpaceIff(s, 0, a);
    AllSpaceIff(s, b, |s|);
  }

  /** The reference definition determines the stripped string uniquely. */
  lemma StripUnique(s: string, r1: string, r2: string)
    requires IsStripOf(r1, s) && IsStripOf(r2, s)
    ensures r1 == r2
  {
    var i1: nat, j1: nat :| StripsTo(s, i1, j1) && r1 == s[i1..j1];
    var i2: nat, j2: nat :| StripsTo(s, i2, j2) && r2 == s[i2..j2];
    AllSpaceIff(s, 0, i1);
    AllSpaceIff(s, j1, |s|);
    AllSpaceIff(s, 0, i2);
    AllSpaceIff(s, j2, |s|);
    assert i1 < j1 <==> i2 < j2;
    if i1 < j1 {
      assert i1 == i2 && j1 == j2;
    }
  }

  /** The stripped string sits in `s` at offset `i`. */
  lemma StripOffset(s: string) returns (i: nat)
    ensures SubAt(s, Strip(s), i)
  {
    var r := Strip(s);
    var j: nat;
    i, j :| StripsTo(s, i, j) && r == s[i..j];
  }

  /** A string that neither starts nor ends with whitespace is its own
      strip. */
  lemma StripClean(s: string)
    requires s != [] ==> !IsSpace(s[0]) && !IsSpace(s[|s| - 1])
    ensures Strip(s) == s
  {
    assert StripsTo(s, 0, |s|);
    assert s[0..|s|] == s;
    StripUnique(s, Strip(s), s);
  }

  /** Stripping twice changes nothing more than stripping once. */
  lemma StripIdempotent(s: string)
    ensures Strip(Strip(s)) == Strip(s)
  {
    var r := Strip(s);
    var i: nat, j: nat :| StripsTo(s, i, j) && r == s[i..j];
    assert StripsTo(r, 0, |r|);
    assert r[0..|r|] == r;
    StripUnique(r, Strip(r), r);
  }

  // ---------------------------------------------------------------------
  // str.split(sep) and sep.join(parts)

  /** `s.split(sep)` for a one-character separator: the pieces between
      separators, always at least one (`"".split(".") == [""]`). */
  function Split(s: string, sep: char): (parts: seq<string>)
    ensures |parts| >= 1
    ensures forall k :: 0 <= k < |parts| ==> sep !in parts[k]
    ensures |parts[0]| <= |s| && parts[0] == s[..|parts[0]|]
    ensures |parts[0]| < |s| ==> s[|parts[0]|] == sep
  {
    if s == [] then [[]]
    else
      var rest := Split(s[1..], sep);
      if s[0] == sep then [[]] + rest
      else [[s[0]] + rest[0]] + rest[1..]
  }

  /** The first piece of a split ends at the first separator. */
  lemma SplitHeadAt(s: string, sep: char, n: nat)
    requires n < |s| && s[n] == sep && sep !in s[..n]
    ensures Split(s, sep)[0] == s[..n]
  {
    var h := Split(s, sep)[0];
    assert |h| >= n by {
      assert forall m | 0 <= m < n :: s[m] == s[..n][m];
    }
  }

  /** `sep.join(parts)`. */
  function Join(parts: seq<string>, sep: char): string {
    if parts == [] then []
    else if |parts| == 1 then parts[0]
    else parts[0] + [sep] + Join(parts[1..], sep)
  }

  /** Joining the pieces of a split with the same separator gives back the
      original string. */
  lemma {:induction false} JoinSplit(s: string, sep: char)
    ensures Join(Split(s, sep), sep) == s
  {
    if s != [] {
      var rest := Split(s[1..], sep);
      JoinSplit(s[1..], sep);
      if s[0] == sep {
        JoinSplitAtSeparator(s, sep, rest);
      } else {
        JoinSplitInPiece(s, sep, rest);
      }
    }
  }

  /** The step of `JoinSplit` when the string starts with the separator. */
  lemma JoinSplitAtSeparator(s: string, sep: char, rest: seq<string>)
    requires s != [] && s[0] == sep && rest == Split(s[1..], sep)
    requires Join(rest, sep) == s[1..]
    ensures Join(Split(s, sep), sep) == s
  {
    var parts := Split(s, sep);
    assert parts == [[]] + rest;
    assert parts[0] == [] && parts[1..] == rest;
    assert Join(parts, sep) == [] + [sep] + Join(rest, sep);
    assert [s[0]] + s[1..] == s;
  }

  /** The step of `JoinSplit` when the string starts inside a piece. */
  lemma JoinSplitInPiece(s: string, sep: char, rest: seq<string>)
    requires s != [] && s[0] != sep && rest == Split(s[1..], sep)
    requires Join(rest, sep) == s[1..]
    ensures Join(Split(s, sep), sep) == s
  {
    var parts := Split(s, sep);
    assert parts == [[s[0]] + rest[0]] + rest[1..];
    if |rest| == 1 {
      assert parts == [[s[0]] + rest[0]];
      assert Join(rest, sep) == rest[0];
    } else {
      assert parts[0] == [s[0]] + rest[0] && parts[1..] == rest[1..];
      calc {
        Join(parts, sep);
        ([s[0]] + rest[0]) + [sep] + Join(rest[1..], sep);
        [s[0]] + (rest[0] + [sep] + Join(rest[1..], sep));
        [s[0]] + Join(rest, sep);
      }
    }
    assert [s[0]] + s[1..] == s;
  }

  // ---------------------------------------------------------------------
  // Substring test `w in s`

  /** `w` occurs in `s` at offset `i`. */
  predicate SubAt(s: string, w: string, i: nat) {
    i + |w| <= |s| && s[i..i + |w|] == w
  }

  /** Python's `w in s` for strings. */
  predicate Contains(s: string, w: string) {
    exists i: nat | i <= |s| :: SubAt(s, w, i)
  }

  /** `w` equals the window of `s` at offset `i`, up to case. */
  predicate SubAtIgnoringCase(s: string, w: string, i: nat) {
    i + |w| <= |s| && Lower(s[i..i + |w|]) == Lower(w)
  }

  /** `w in s.lower()` for a lower-case `w`: some window of `s` equals `w`
      up to case. */
  lemma ContainsLower(s: string, w: string)
    requires Lower(w) == w
    ensures Contains(Lower(s), w) <==> exists i: nat | i <= |s| :: SubAtIgnoringCase(s, w, i)
  {
    forall i: nat | i <= |s|
      ensures SubAt(Lower(s), w, i) <==> SubAtIgnoringCase(s, w, i)
    {
      if i + |w| <= |s| {
        LowerSlice(s, i, i + |w|);
      }
    }
  }
}
