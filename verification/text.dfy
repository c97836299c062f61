/** The JavaScript string primitives the filename parsers rely on:
    `trim`, `split` and `join` on a one-character separator, `indexOf`
    and `includes` on a string needle, `replace` of the first occurrence of
    a string, and a global one-character `replace`. Strings are sequences
    of Unicode scalar values. */
module Text {
  import opened Common

  /** ECMAScript LineTerminator: what `.` in a regular expression refuses. */
  predicate IsLineTerminator(c: char) {
    c == '\n' || c == '\r' || c == '\U{2028}' || c == '\U{2029}'
  }

  /** ECMAScript WhiteSpace or LineTerminator: what `trim` strips and what
      `\s` matches. */
  predicate IsWhiteSpace(c: char) {
    || IsLineTerminator(c)
    || c == '\t' || c == '\U{000B}' || c == '\U{000C}' || c == ' '
    || c == '\U{00A0}' || c == '\U{FEFF}' || c == '\U{1680}'
    || ('\U{2000}' <= c <= '\U{200A}')
    || c == '\U{202F}' || c == '\U{205F}' || c == '\U{3000}'
  }

  /** `\d` in a regular expression without the `u` flag. */
  predicate IsDigit(c: char) {
    '0' <= c <= '9'
  }

  predicate AllWhiteSpace(s: string) {
    forall i :: 0 <= i < |s| ==> IsWhiteSpace(s[i])
  }

  predicate AllDigits(s: string) {
    forall i :: 0 <= i < |s| ==> IsDigit(s[i])
  }

  predicate NoLineTerminator(s: string) {
    forall i :: 0 <= i < |s| ==> !IsLineTerminator(s[i])
  }

  lemma NoLineTerminatorSlice(s: string, a: nat, b: nat)
    requires NoLineTerminator(s) && a <= b <= |s|
    ensures NoLineTerminator(s[a..b])
  {
    forall i | 0 <= i < b - a
      ensures !IsLineTerminator(s[a..b][i])
    {
      assert s[a..b][i] == s[a + i];
    }
  }

  /** Neither end of `s` is white space. */
  predicate Trimmed(s: string) {
    |s| == 0 || (!IsWhiteSpace(s[0]) && !IsWhiteSpace(s[|s| - 1]))
  }

  /** Where the run of white space starting at `i` ends. */
  function SpaceAfter(s: string, i: nat): (n: nat)
    requires i <= |s|
    ensures i <= n <= |s|
    ensures forall k :: i <= k < n ==> IsWhiteSpace(s[k])
    ensures n < |s| ==> !IsWhiteSpace(s[n])
    decreases |s| - i
  {
    if i < |s| && IsWhiteSpace(s[i]) then SpaceAfter(s, i + 1) else i
  }

  /** Where the run of white space ending just before `j` starts. */
  function SpaceBefore(s: string, j: nat): (n: nat)
    requires j <= |s|
    ensures n <= j
    ensures forall k :: n <= k < j ==> IsWhiteSpace(s[k])
    ensures n > 0 ==> !IsWhiteSpace(s[n - 1])
  {
    if j > 0 && IsWhiteSpace(s[j - 1]) then SpaceBefore(s, j - 1) else j
  }

  /** `String.prototype.trim`. */
  function Trim(s: string): (r: string)
    ensures Trimmed(r)
    ensures |r| <= |s|
  {
    var a := SpaceAfter(s, 0);
    if a == |s| then "" else s[a..SpaceBefore(s, |s|)]
  }

  /** What `trim` leaves is the infix of `s` starting at `a`, with only
      white space before and after it. */
  lemma TrimInfix(s: string) returns (a: nat)
    ensures a + |Trim(s)| <= |s| && s[a..a + |Trim(s)|] == Trim(s)
    ensures AllWhiteSpace(s[..a]) && AllWhiteSpace(s[a + |Trim(s)|..])
  {
    a := SpaceAfter(s, 0);
    var r := Trim(s);
    assert forall k :: 0 <= k < a ==> s[..a][k] == s[k];
    if a < |s| {
      var b := SpaceBefore(s, |s|);
      assert r == s[a..b];
      assert forall k :: 0 <= k < |s| - b ==> s[b..][k] == s[b + k];
    }
  }

  /** `SpaceAfter` is determined by its promises. */
  lemma SpaceAfterIs(s: string, i: nat, m: nat)
    requires i <= m <= |s|
    requires forall k :: i <= k < m ==> IsWhiteSpace(s[k])
    requires m < |s| ==> !IsWhiteSpace(s[m])
    ensures SpaceAfter(s, i) == m
  {
  }

  /** `SpaceBefore` is determined by its promises. */
  lemma SpaceBeforeIs(s: string, j: nat, m: nat)
    requires m <= j <= |s|
    requires forall k :: m <= k < j ==> IsWhiteSpace(s[k])
    requires m > 0 ==> !IsWhiteSpace(s[m - 1])
    ensures SpaceBefore(s, j) == m
  {
  }

  /** Trimming something that is already trimmed changes nothing. */
  lemma TrimTrimmed(s: string)
    requires Trimmed(s)
    ensures Trim(s) == s
  {
    if |s| > 0 {
      SpaceAfterIs(s, 0, 0);
      SpaceBeforeIs(s, |s|, |s|);
    }
  }

  /** `Trim` is determined by what it promises: whatever sits between two
      runs of white space and has no white space at its ends is the trim. */
  lemma TrimUnique(w1: string, t: string, w2: string)
    requires AllWhiteSpace(w1) && AllWhiteSpace(w2) && Trimmed(t)
    ensures Trim(w1 + t + w2) == t
  {
    var s := w1 + t + w2;
    var a := |w1|;
    var b := |w1| + |t|;
    assert forall k :: 0 <= k < a ==> s[k] == w1[k];
    assert forall k :: b <= k < |s| ==> s[k] == w2[k - b];
    if |t| == 0 {
      SpaceAfterIs(s, 0, |s|);
    } else {
      assert s[a] == t[0] && s[b - 1] == t[|t| - 1];
      SpaceAfterIs(s, 0, a);
      SpaceBeforeIs(s, |s|, b);
      assert s[a..b] == t;
    }
  }

  /** White space in front of a string makes no difference to its trim. */
  lemma TrimLeading(w: string, x: string)
    requires AllWhiteSpace(w)
    ensures Trim(w + x) == Trim(x)
  {
    var a := TrimInfix(x);
    var t := Trim(x);
    var lead, rest := x[..a], x[a + |t|..];
    assert Trim((w + lead) + t + rest) == t by {
      WhiteSpaceConcat(w, lead);
      TrimUnique(w + lead, t, rest);
    }
    assert x == lead + t + rest by {
      SliceThree(x, a, a + |t|);
    }
    SeqAssoc(w, lead, t);
    SeqAssoc(w, lead + t, rest);
  }

  /** A string is its three consecutive slices put together. */
  lemma SliceThree(s: string, i: nat, j: nat)
    requires i <= j <= |s|
    ensures s == s[..i] + s[i..j] + s[j..]
  {
  }

  lemma WhiteSpaceConcat(a: string, b: string)
    requires AllWhiteSpace(a) && AllWhiteSpace(b)
    ensures AllWhiteSpace(a + b)
  {
    forall i | 0 <= i < |a + b|
      ensures IsWhiteSpace((a + b)[i])
    {
      if i >= |a| {
        assert (a + b)[i] == b[i - |a|];
      }
    }
  }

  lemma SeqAssoc(a: string, b: string, c: string)
    ensures a + b + c == a + (b + c)
  {
  }

  /** Position of the first `c` in `s`, or `|s|` when there is none. */
  function FirstIndex(s: string, c: char): (i: nat)
    ensures i <= |s|
    ensures i < |s| ==> s[i] == c
    ensures forall k :: 0 <= k < i ==> s[k] != c
    ensures c !in s[..i]
    ensures i < |s| <==> c in s
  {
    if |s| == 0 || s[0] == c then 0 else 1 + FirstIndex(s[1..], c)
  }

  /** `parts.join(sep)`. */
  function Join(parts: seq<string>, sep: char): string
  {
    if |parts| == 0 then ""
    else if |parts| == 1 then parts[0]
    else parts[0] + [sep] + Join(parts[1..], sep)
  }

  /** `s.split(sep)` for a one-character separator. */
  function Split(s: string, sep: char): (parts: seq<string>)
    ensures |parts| >= 1
    decreases |s|
  {
    var i := FirstIndex(s, sep);
    if i == |s| then [s] else [s[..i]] + Split(s[i + 1..], sep)
  }

  /** The pieces of `s.split(sep)` are the maximal separator-free pieces
      of `s`: one more than there are separators, none holding the
      separator, and joining them back gives `s`. */
  lemma SplitSpec(s: string, sep: char)
    ensures |Split(s, sep)| == multiset(s)[sep] + 1
    ensures forall i :: 0 <= i < |Split(s, sep)| ==> sep !in Split(s, sep)[i]
    ensures Join(Split(s, sep), sep) == s
  {
    SplitCount(s, sep);
    SplitPieces(s, sep);
    SplitJoinBack(s, sep);
  }

  lemma {:induction false} SplitCount(s: string, sep: char)
    ensures |Split(s, sep)| == multiset(s)[sep] + 1
    decreases |s|
  {
    var i := FirstIndex(s, sep);
    if i == |s| {
      assert sep !in s;
    } else {
      SplitCount(s[i + 1..], sep);
      CountAfterFirst(s, i, sep);
    }
  }

  /** The first `c`, at `i`, is one of the `c`s of `s`; the rest follow it. */
  lemma CountAfterFirst(s: string, i: nat, c: char)
    requires i < |s| && s[i] == c && c !in s[..i]
    ensures multiset(s)[c] == 1 + multiset(s[i + 1..])[c]
  {
    assert s == s[..i] + [c] + s[i + 1..];
    assert multiset(s) == multiset(s[..i]) + multiset{c} + multiset(s[i + 1..]);
  }

  lemma {:induction false} SplitPieces(s: string, sep: char)
    ensures forall i :: 0 <= i < |Split(s, sep)| ==> sep !in Split(s, sep)[i]
    decreases |s|
  {
    var i := FirstIndex(s, sep);
    if i == |s| {
      assert s[..i] == s;
    } else {
      SplitPieces(s[i + 1..], sep);
    }
  }

  lemma {:induction false} SplitJoinBack(s: string, sep: char)
    ensures Join(Split(s, sep), sep) == s
    decreases |s|
  {
    var i := FirstIndex(s, sep);
    if i < |s| {
      var rest := Split(s[i + 1..], sep);
      SplitJoinBack(s[i + 1..], sep);
      assert Join(Split(s, sep), sep) == s[..i] + [sep] + Join(rest, sep) by {
        assert Split(s, sep) == [s[..i]] + rest;
        assert ([s[..i]] + rest)[1..] == rest;
      }
      assert s == s[..i] + [sep] + s[i + 1..];
    }
  }

  /** Splitting undoes joining, whenever no piece holds the separator. */
  lemma {:induction false} SplitJoin(parts: seq<string>, sep: char)
    requires |parts| >= 1
    requires forall i :: 0 <= i < |parts| ==> sep !in parts[i]
    ensures Split(Join(parts, sep), sep) == parts
  {
    if |parts| > 1 {
      var s := Join(parts, sep);
      var tail := Join(parts[1..], sep);
      assert s == parts[0] + [sep] + tail;
      FirstIndexAfter(parts[0], sep, tail);
      var i := |parts[0]|;
      assert FirstIndex(s, sep) == i;
      assert s[..i] == parts[0];
      assert s[i + 1..] == tail;
      SplitJoin(parts[1..], sep);
      assert Split(s, sep) == [parts[0]] + Split(tail, sep);
      assert parts == [parts[0]] + parts[1..];
    } else {
      assert Join(parts, sep) == parts[0];
      assert FirstIndex(parts[0], sep) == |parts[0]| by {
        FirstIndexAbsent(parts[0], sep);
      }
    }
  }

  lemma {:induction false} FirstIndexAbsent(s: string, c: char)
    requires c !in s
    ensures FirstIndex(s, c) == |s|
  {
    if |s| > 0 {
      assert c !in s[1..];
      FirstIndexAbsent(s[1..], c);
    }
  }

  lemma {:induction false} FirstIndexAfter(p: string, c: char, t: string)
    requires c !in p
    ensures FirstIndex(p + [c] + t, c) == |p|
  {
    if |p| > 0 {
      assert (p + [c] + t)[1..] == p[1..] + [c] + t;
      FirstIndexAfter(p[1..], c, t);
    }
  }

  /** What follows the first `sep` in `s`, or the empty string when `s`
      holds none. */
  function AfterFirst(s: string, sep: char): string
  {
    var i := FirstIndex(s, sep);
    if i < |s| then s[i + 1..] else ""
  }

  /** `s.split(sep)[0]` is `s` up to the first separator, and
      `s.split(sep).slice(1).join(sep)` is the rest of `s` after it. */
  lemma SplitHeadTail(s: string, sep: char)
    ensures Split(s, sep)[0] == s[..FirstIndex(s, sep)]
    ensures Join(Split(s, sep)[1..], sep) == AfterFirst(s, sep)
  {
    var i := FirstIndex(s, sep);
    if i < |s| {
      assert Split(s, sep)[1..] == Split(s[i + 1..], sep);
      SplitSpec(s[i + 1..], sep);
    } else {
      assert s[..i] == s;
    }
  }

  /** `needle` occurs in `hay` starting at position `k`. */
  predicate OccursAt(hay: string, needle: string, k: nat) {
    k + |needle| <= |hay| && hay[k..k + |needle|] == needle
  }

  /** `hay.indexOf(needle, from)`: the first occurrence at or after `from`. */
  function IndexOfFrom(hay: string, needle: string, from: nat): (r: Option<nat>)
    requires from <= |hay|
    ensures r.Some? ==> from <= r.value && OccursAt(hay, needle, r.value)
    ensures r.Some? ==> forall k :: from <= k < r.value ==> !OccursAt(hay, needle, k)
    ensures r.None? ==> forall k :: from <= k ==> !OccursAt(hay, needle, k)
    decreases |hay| - from
  {
    if OccursAt(hay, needle, from) then Some(from)
    else if from == |hay| then None
    else IndexOfFrom(hay, needle, from + 1)
  }

  /** `hay.indexOf(needle)`, with -1 as `None`. */
  function IndexOf(hay: string, needle: string): Option<nat>
  {
    IndexOfFrom(hay, needle, 0)
  }

  /** `hay.includes(needle)`. */
  predicate Includes(hay: string, needle: string)
  {
    IndexOf(hay, needle).Some?
  }

  /** `includes` holds exactly when the needle occurs somewhere. */
  lemma IncludesSpec(hay: string, needle: string)
    ensures Includes(hay, needle) <==> exists k :: OccursAt(hay, needle, k)
  {
  }

  /** Every string includes itself, and every string includes "". */
  lemma IncludesSelf(s: string)
    ensures Includes(s, s)
    ensures Includes(s, "")
  {
    assert OccursAt(s, s, 0);
    assert OccursAt(s, "", 0);
  }

  /** `s.replace(pattern, replacement)` with a string pattern: only the
      first occurrence is replaced. */
  function ReplaceFirst(s: string, pattern: string, replacement: string): string
  {
    match IndexOf(s, pattern)
    case None => s
    case Some(k) => s[..k] + replacement + s[k + |pattern|..]
  }

  /** Replacing a pattern that `s` starts with removes exactly that prefix. */
  lemma ReplacePrefix(s: string, pattern: string)
    requires |pattern| <= |s| && s[..|pattern|] == pattern
    ensures ReplaceFirst(s, pattern, "") == s[|pattern|..]
  {
    assert OccursAt(s, pattern, 0);
  }

  /** `s.replace(/a/g, b)` for single characters `a` and `b`. */
  function ReplaceChar(s: string, a: char, b: char): (r: string)
    ensures |r| == |s|
    ensures forall i :: 0 <= i < |s| ==> r[i] == if s[i] == a then b else s[i]
  {
    if |s| == 0 then ""
    else [if s[0] == a then b else s[0]] + ReplaceChar(s[1..], a, b)
  }

  /** With one occurrence of `a`, replacing every `a` replaces just that
      one. */
  lemma ReplaceOneChar(p: string, q: string, a: char, b: char)
    requires a !in p && a !in q
    ensures ReplaceChar(p + [a] + q, a, b) == p + [b] + q
  {
    var s := p + [a] + q;
    var r := ReplaceChar(s, a, b);
    assert forall i :: 0 <= i < |s| ==> r[i] == (p + [b] + q)[i];
  }
}
