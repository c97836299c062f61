/** Turning a file's base name into the fields of a database record.

    `ParseName` is the parse at the top of `createOrUpdatePage` in
    `esmp_js.js`: the first `_` field is the id (an `ESMP<digits>` code
    loses its `ESMP`), the rest is the title, and a trailing `( … )` group of
    the title becomes the status. `ParseFields` is the parse of
    `esmp_test.js`: the first three `_` fields, each trimmed. */
module FileName {
  import opened Common
  import opened Text

  const FieldSeparator: char := '_'
  const CodePrefix: string := "ESMP"
  const DefaultStatus: string := "Unknown"

  /** The field matches `/^ESMP\d+$/`. */
  predicate IsCode(field: string) {
    |field| > |CodePrefix| && field[..|CodePrefix|] == CodePrefix && AllDigits(field[|CodePrefix|..])
  }

  /** A record derived from a file's base name: the id text (passed to
      `Number` only when a page is written), the title used as matching
      key, and one status string. */
  datatype ParsedName = ParsedName(id: string, title: string, status: string)

  /** A match of `/\((.*?)\)\s*$/`: where it starts, the captured group,
      and the whole matched text. */
  datatype GroupMatch = GroupMatch(start: nat, inner: string, whole: string)

  /** From position `j`, the lazy `(.*?)` of the pattern looks for the `)`
      after which only white space remains up to the end: `j` is the first
      place tried for `\)\s*$`; failing that, `.` consumes `t[j]` unless it
      is a line terminator. The answer is the position of that `)`. */
  function LazyClose(t: string, j: nat): (r: Option<nat>)
    requires j <= |t|
    ensures r.Some? ==> j <= r.value < |t| && t[r.value] == ')'
    decreases |t| - j
  {
    if j < |t| && t[j] == ')' && AllWhiteSpace(t[j + 1..]) then Some(j)
    else if j < |t| && !IsLineTerminator(t[j]) then LazyClose(t, j + 1)
    else None
  }

  /** The pattern tried at start position `i`: an `(` and a lazy close.
      `\s*` is greedy and `$` anchors at the end of the input, so the whole
      match always runs to the end of `t`. */
  function MatchAt(t: string, i: nat): (r: Option<GroupMatch>)
    requires i <= |t|
    ensures r.Some? ==> r.value.start == i < |t| - 1 && r.value.whole == t[i..]
  {
    if i < |t| && t[i] == '(' then
      match LazyClose(t, i + 1)
      case Some(j) => Some(GroupMatch(i, t[i + 1..j], t[i..]))
      case None => None
    else None
  }

  /** `String.prototype.match` without the `g` flag: start positions are
      tried from left to right and the first that matches wins. */
  function SearchFrom(t: string, i: nat): (r: Option<GroupMatch>)
    requires i <= |t|
    ensures r.Some? ==> i <= r.value.start < |t| - 1 && r.value.whole == t[r.value.start..]
    decreases |t| - i
  {
    match MatchAt(t, i)
    case Some(m) => Some(m)
    case None => if i == |t| then None else SearchFrom(t, i + 1)
  }

  /** `t.match(/\((.*?)\)\s*$/)`. */
  function StatusGroup(t: string): (r: Option<GroupMatch>)
    ensures r.Some? ==> r.value.start < |t| - 1 && r.value.whole == t[r.value.start..]
  {
    SearchFrom(t, 0)
  }

  /** On a trimmed string, position `i` opens the status group: an `(`
      before a final `)` with no line terminator in between. */
  predicate OpensGroup(t: string, i: nat) {
    i + 1 < |t| && t[i] == '(' && t[|t| - 1] == ')' && NoLineTerminator(t[i + 1..|t| - 1])
  }

  lemma {:induction false} LazyCloseTrimmed(t: string, j: nat)
    requires Trimmed(t) && j <= |t|
    ensures LazyClose(t, j) ==
      if j < |t| && t[|t| - 1] == ')' && NoLineTerminator(t[j..|t| - 1]) then Some(|t| - 1) else None
    decreases |t| - j
  {
    if j == |t| {
    } else if j == |t| - 1 {
      assert t[j + 1..] == [];
      assert t[j..|t| - 1] == [];
      if t[j] != ')' && !IsLineTerminator(t[j]) {
        LazyCloseTrimmed(t, j + 1);
      }
    } else {
      assert !AllWhiteSpace(t[j + 1..]) by {
        assert t[j + 1..][|t| - j - 2] == t[|t| - 1];
      }
      assert t[j..|t| - 1] == [t[j]] + t[j + 1..|t| - 1];
      if !IsLineTerminator(t[j]) {
        LazyCloseTrimmed(t, j + 1);
      }
    }
  }

  lemma MatchAtTrimmed(t: string, i: nat)
    requires Trimmed(t) && i <= |t|
    ensures MatchAt(t, i).Some? <==> OpensGroup(t, i)
    ensures MatchAt(t, i).Some? ==> MatchAt(t, i) == Some(GroupMatch(i, t[i + 1..|t| - 1], t[i..]))
  {
    if i < |t| {
      LazyCloseTrimmed(t, i + 1);
    }
  }

  lemma {:induction false} SearchFromTrimmed(t: string, i: nat)
    requires Trimmed(t) && i <= |t|
    ensures SearchFrom(t, i).Some? <==> exists k :: i <= k && OpensGroup(t, k)
    ensures SearchFrom(t, i).Some? ==>
      var m := SearchFrom(t, i).value;
      && i <= m.start && OpensGroup(t, m.start)
      && (forall k :: i <= k < m.start ==> !OpensGroup(t, k))
      && m.inner == t[m.start + 1..|t| - 1] && m.whole == t[m.start..]
    decreases |t| - i
  {
    MatchAtTrimmed(t, i);
    if MatchAt(t, i).None? && i < |t| {
      SearchFromTrimmed(t, i + 1);
      if exists k :: i <= k && OpensGroup(t, k) {
        var k :| i <= k && OpensGroup(t, k);
        assert k != i;
      }
    }
  }

  /** The regular expression on a trimmed title: it matches exactly when
      some `(` opens a group closed by the final `)` with no line terminator
      in between; the match starts at the leftmost such `(`, captures what
      lies between, and runs to the end of the title. */
  lemma StatusGroupSpec(t: string)
    requires Trimmed(t)
    ensures StatusGroup(t).Some? <==> exists k :: OpensGroup(t, k)
    ensures StatusGroup(t).Some? ==>
      var m := StatusGroup(t).value;
      && OpensGroup(t, m.start)
      && (forall k :: 0 <= k < m.start ==> !OpensGroup(t, k))
      && m.inner == t[m.start + 1..|t| - 1] && m.whole == t[m.start..]
  {
    SearchFromTrimmed(t, 0);
  }

  /** Without line terminators the regular expression needs no more than
      an `(` and a final `)`: it matches exactly when the title ends in `)`
      and holds an `(` before it, and the match starts at the first `(`. */
  lemma StatusGroupPlain(t: string)
    requires Trimmed(t) && NoLineTerminator(t)
    ensures StatusGroup(t).Some? <==> |t| > 0 && t[|t| - 1] == ')' && '(' in t
    ensures StatusGroup(t).Some? ==> StatusGroup(t).value.start == FirstIndex(t, '(')
  {
    StatusGroupSpec(t);
    var f := FirstIndex(t, '(');
    if |t| > 0 && t[|t| - 1] == ')' && '(' in t {
      NoLineTerminatorSlice(t, f + 1, |t| - 1);
      assert OpensGroup(t, f);
    }
  }

  /** The id taken from the first field: an `ESMP<digits>` code loses its
      `ESMP` (`replace` of the first occurrence), anything else stays. */
  function CodeId(field: string): string {
    if IsCode(field) then ReplaceFirst(field, CodePrefix, "") else field
  }

  /** Splits a trimmed title into the title proper and the status: a
      trailing group's text with its commas turned into spaces, or "Unknown"
      when there is no group. The title proper is the title with the first
      occurrence of the matched text removed, trimmed again. */
  function StripStatus(title: string): (r: (string, string))
    requires Trimmed(title)
    ensures Trimmed(r.0)
    ensures ',' !in r.1
  {
    match StatusGroup(title)
    case None => (title, DefaultStatus)
    case Some(m) =>
      var status := ReplaceChar(m.inner, ',', ' ');
      assert forall i :: 0 <= i < |status| ==> status[i] != ',';
      (Trim(ReplaceFirst(title, m.whole, "")), status)
  }

  /** `createOrUpdatePage`'s parse in `esmp_js.js`. */
  function ParseName(name: string): (p: ParsedName)
    ensures Trimmed(p.title)
    ensures ',' !in p.status
  {
    var parts := Split(name, FieldSeparator);
    var (title, status) := StripStatus(Trim(Join(parts[1..], FieldSeparator)));
    ParsedName(CodeId(parts[0]), title, status)
  }

  /** The first `_` field of a base name. */
  function Head(name: string): string {
    name[..FirstIndex(name, FieldSeparator)]
  }

  /** `ParseName` reads the id from the first field and the title from the
      rest of the name after the first `_`. */
  lemma ParseNameParts(name: string)
    ensures ParseName(name).id == CodeId(Head(name))
    ensures (ParseName(name).title, ParseName(name).status)
         == StripStatus(Trim(AfterFirst(name, FieldSeparator)))
  {
    SplitHeadTail(name, FieldSeparator);
  }

  /** The id: an `ESMP<digits>` head yields its digits, any other head is
      the id as it stands. */
  lemma ParseNameId(name: string)
    ensures IsCode(Head(name)) ==> ParseName(name).id == Head(name)[|CodePrefix|..]
    ensures IsCode(Head(name)) ==> AllDigits(ParseName(name).id) && |ParseName(name).id| > 0
    ensures !IsCode(Head(name)) ==> ParseName(name).id == Head(name)
  {
    ParseNameParts(name);
    if IsCode(Head(name)) {
      ReplacePrefix(Head(name), CodePrefix);
    }
  }

  /** Without a trailing group the status is "Unknown" and the title is
      everything after the first `_`, trimmed; a name with no `_` at all has
      an empty title. */
  lemma ParseNameNoGroup(name: string)
    requires StatusGroup(Trim(AfterFirst(name, FieldSeparator))).None?
    ensures ParseName(name).title == Trim(AfterFirst(name, FieldSeparator))
    ensures ParseName(name).status == DefaultStatus
    ensures FieldSeparator !in name ==> ParseName(name).title == ""
  {
    ParseNameParts(name);
    if FieldSeparator !in name {
      TrimTrimmed("");
    }
  }

  /** With a trailing group the status is the group's text with every comma
      turned into a space, and the title is what comes before the group,
      trimmed (the replace removes the group itself whenever the title has
      no line terminator). */
  lemma StripStatusGroup(t: string)
    requires Trimmed(t) && StatusGroup(t).Some?
    ensures var m := StatusGroup(t).value;
      && StripStatus(t).1 == ReplaceChar(t[m.start + 1..|t| - 1], ',', ' ')
      && (NoLineTerminator(t) ==> StripStatus(t).0 == Trim(t[..m.start]))
  {
    StatusGroupSpec(t);
    var m := StatusGroup(t).value;
    if NoLineTerminator(t) {
      FirstOccurrenceIsGroup(t, m.start);
      assert ReplaceFirst(t, m.whole, "") == t[..m.start] + "" + t[m.start + |m.whole|..];
      assert t[..m.start] + "" + t[m.start + |m.whole|..] == t[..m.start];
    }
  }

  /** `StripStatusGroup` read on a whole base name. */
  lemma ParseNameGroup(name: string)
    requires StatusGroup(Trim(AfterFirst(name, FieldSeparator))).Some?
    ensures var t := Trim(AfterFirst(name, FieldSeparator));
      var m := StatusGroup(t).value;
      && ParseName(name).status == ReplaceChar(t[m.start + 1..|t| - 1], ',', ' ')
      && (NoLineTerminator(t) ==> ParseName(name).title == Trim(t[..m.start]))
  {
    ParseNameParts(name);
    StripStatusGroup(Trim(AfterFirst(name, FieldSeparator)));
  }

  /** In a title without line terminators the group text first occurs where
      the match starts: any occurrence begins with an `(` that opens a group
      itself, and the match starts at the leftmost such `(`. */
  lemma FirstOccurrenceIsGroup(t: string, start: nat)
    requires Trimmed(t) && NoLineTerminator(t)
    requires OpensGroup(t, start) && forall k :: 0 <= k < start ==> !OpensGroup(t, k)
    ensures IndexOf(t, t[start..]) == Some(start)
  {
    FirstOccurrenceOpens(t, start);
  }

  lemma FirstOccurrenceOpens(t: string, start: nat)
    requires Trimmed(t) && NoLineTerminator(t) && OpensGroup(t, start)
    ensures IndexOf(t, t[start..]).Some?
    ensures IndexOf(t, t[start..]).value <= start
    ensures OpensGroup(t, IndexOf(t, t[start..]).value)
  {
    var w := t[start..];
    assert OccursAt(t, w, start);
    var k := IndexOf(t, w).value;
    assert t[k..k + |w|] == w;
    assert t[k] == w[0] == '(';
    NoLineTerminatorSlice(t, k + 1, |t| - 1);
  }

  /** A title `<before>(<inner>)` loses its group: the status is the
      group's text with commas turned into spaces and the title is
      `<before>` trimmed. */
  lemma StripStatusOf(title: string, before: string, inner: string)
    requires title == before + ['('] + inner + [')']
    requires |before| == 0 || !IsWhiteSpace(before[0])
    requires '(' !in before
    requires NoLineTerminator(before) && NoLineTerminator(inner)
    ensures Trimmed(title)
    ensures StripStatus(title) == (Trim(before), ReplaceChar(inner, ',', ' '))
  {
    assert Trimmed(title) by {
      assert title[|title| - 1] == ')';
      assert title[0] == if |before| == 0 then '(' else before[0];
    }
    assert NoLineTerminator(title) by {
      GroupNoLineTerminator(title, before, inner);
    }
    assert FirstIndex(title, '(') == |before| by {
      assert title == before + ['('] + (inner + [')']);
      FirstIndexAfter(before, '(', inner + [')']);
    }
    assert StatusGroup(title).Some? && StatusGroup(title).value.start == |before| by {
      GroupAt(title, before, inner);
    }
    StripGroupAt(title, before, inner);
  }

  lemma GroupNoLineTerminator(t: string, before: string, inner: string)
    requires t == before + ['('] + inner + [')']
    requires NoLineTerminator(before) && NoLineTerminator(inner)
    ensures NoLineTerminator(t)
  {
    forall i | 0 <= i < |t|
      ensures !IsLineTerminator(t[i])
    {
      if i < |before| {
        assert t[i] == before[i];
      } else if |before| < i < |t| - 1 {
        assert t[i] == inner[i - |before| - 1];
      }
    }
  }

  lemma GroupAt(t: string, before: string, inner: string)
    requires t == before + ['('] + inner + [')']
    requires Trimmed(t) && NoLineTerminator(t)
    requires FirstIndex(t, '(') == |before|
    ensures StatusGroup(t).Some? && StatusGroup(t).value.start == |before|
  {
    assert t[|before|] == '(';
    assert t[|t| - 1] == ')';
    StatusGroupPlain(t);
  }

  lemma StripGroupAt(t: string, before: string, inner: string)
    requires t == before + ['('] + inner + [')']
    requires Trimmed(t) && NoLineTerminator(t)
    requires StatusGroup(t).Some? && StatusGroup(t).value.start == |before|
    ensures StripStatus(t) == (Trim(before), ReplaceChar(inner, ',', ' '))
  {
    StripStatusGroup(t);
    assert t[..|before|] == before;
    assert t[|before| + 1..|t| - 1] == inner;
    assert StripStatus(t).0 == Trim(before);
    assert StripStatus(t).1 == ReplaceChar(inner, ',', ' ');
  }

  /** A coded name `ESMP<digits>_<before>(<inner>)`: the digits are the
      id, the status is the group's text with its commas turned into spaces,
      and the title is `<before>` trimmed, so a `_` in front of the group
      stays in the title. White space in front of `<before>` goes with the
      trim of the whole title. */
  lemma ParseCodedName(name: string, digits: string, before: string, inner: string)
    requires name == CodePrefix + digits + [FieldSeparator] + before + ['('] + inner + [')']
    requires |digits| > 0 && AllDigits(digits)
    requires '(' !in before
    requires NoLineTerminator(before) && NoLineTerminator(inner)
    ensures ParseName(name) == ParsedName(digits, Trim(before), ReplaceChar(inner, ',', ' '))
  {
    var head := CodePrefix + digits + [FieldSeparator];
    var t := before + ['('] + inner + [')'];
    assert name == head + t by {
      SeqAssoc(head, before, ['('] + inner + [')']);
    }
    CodedSplit(name, digits, t);
    ParseNameParts(name);
    StripTrimmedGroup(before, inner);
  }

  /** `StripStatusOf` after the title's own trim: white space in front of
      `<before>` is gone before the group is looked for. */
  lemma StripTrimmedGroup(before: string, inner: string)
    requires '(' !in before
    requires NoLineTerminator(before) && NoLineTerminator(inner)
    ensures StripStatus(Trim(before + ['('] + inner + [')'])) == (Trim(before), ReplaceChar(inner, ',', ' '))
  {
    var w, b := LeadingSpace(before);
    TrimLeading(w, b);
    StripStatusOf(b + ['('] + inner + [')'], b, inner);
    TrimGroupAfterSpace(w, b, inner);
  }

  /** `s` as its leading white space `w` and the rest `b`, which starts
      with something else; `b` keeps what `s` lacks. */
  lemma LeadingSpace(s: string) returns (w: string, b: string)
    requires '(' !in s && NoLineTerminator(s)
    ensures s == w + b && AllWhiteSpace(w)
    ensures |b| == 0 || !IsWhiteSpace(b[0])
    ensures '(' !in b && NoLineTerminator(b)
  {
    var a := SpaceAfter(s, 0);
    w, b := s[..a], s[a..];
    NoLineTerminatorSlice(s, a, |s|);
    if |b| > 0 {
      assert b[0] == s[a];
    }
    forall i | 0 <= i < |b|
      ensures b[i] != '('
    {
      assert b[i] == s[a + i];
    }
  }

  /** A title whose group follows white space and a trimmed start loses
      only that white space to `trim`. */
  lemma TrimGroupAfterSpace(w: string, b: string, inner: string)
    requires AllWhiteSpace(w)
    requires Trimmed(b + ['('] + inner + [')'])
    ensures Trim(w + b + ['('] + inner + [')']) == b + ['('] + inner + [')']
  {
    var r := ['('] + inner + [')'];
    var u := b + ['('] + inner + [')'];
    assert u == b + r by {
      SeqAssoc(b, ['('], inner);
      SeqAssoc(b, ['('] + inner, [')']);
    }
    assert w + b + ['('] + inner + [')'] == w + u by {
      SeqAssoc(w + b, ['('], inner);
      SeqAssoc(w + b, ['('] + inner, [')']);
      SeqAssoc(w, b, r);
    }
    TrimLeading(w, u);
    TrimTrimmed(u);
  }

  /** A name `ESMP<digits>_<t>` has the digits as id and `t` after its
      first `_`. */
  lemma CodedSplit(name: string, digits: string, t: string)
    requires name == CodePrefix + digits + [FieldSeparator] + t
    requires |digits| > 0 && AllDigits(digits)
    ensures ParseName(name).id == digits
    ensures AfterFirst(name, FieldSeparator) == t
  {
    var code := CodePrefix + digits;
    assert FieldSeparator !in code by {
      forall i | 0 <= i < |code|
        ensures code[i] != FieldSeparator
      {
        if i >= |CodePrefix| {
          assert code[i] == digits[i - |CodePrefix|];
        }
      }
    }
    FirstIndexAfter(code, FieldSeparator, t);
    assert Head(name) == code;
    assert code[..|CodePrefix|] == CodePrefix && code[|CodePrefix|..] == digits;
    ParseNameId(name);
  }

  /** The first example of a coded name with a status group: the `_` in
      front of the group stays in the title. */
  lemma ParseNameExample(name: string)
    requires name == "ESMP12_My Song_(Draft, Final)"
    ensures ParseName(name) == ParsedName("12", "My Song_", "Draft  Final")
  {
    ExampleShape(name);
    ExamplePieces();
    ParseCodedName(name, "12", "My Song_", "Draft, Final");
    ExampleResults();
    ExampleStatus("Draft, Final");
  }

  lemma ExampleShape(name: string)
    requires name == "ESMP12_My Song_(Draft, Final)"
    ensures name == CodePrefix + "12" + [FieldSeparator] + "My Song_" + ['('] + "Draft, Final" + [')']
  {
  }

  lemma ExamplePieces()
    ensures AllDigits("12") && '(' !in "My Song_"
    ensures NoLineTerminator("My Song_") && NoLineTerminator("Draft, Final")
  {
  }

  lemma ExampleResults()
    ensures Trim("My Song_") == "My Song_"
  {
    TrimTrimmed("My Song_");
  }

  lemma ExampleStatus(inner: string)
    requires inner == "Draft, Final"
    ensures ReplaceChar(inner, ',', ' ') == "Draft  Final"
  {
    var p, q := "Draft", " Final";
    assert ReplaceChar(inner, ',', ' ') == p + [' '] + q by {
      assert inner == p + [','] + q;
      ReplaceOneChar(p, q, ',', ' ');
    }
    assert p + [' '] + q == "Draft  Final";
  }

  /** The three fields of `esmp_test.js`; a missing field is `undefined`. */
  datatype Fields = Fields(id: string, title: Option<string>, status: Option<string>)

  /** `const [id, title, status] = name.split("_").map(part => part.trim())`. */
  function ParseFields(name: string): (f: Fields)
    ensures f.id == Trim(Head(name))
    ensures f.title.Some? <==> FieldSeparator in name
    ensures f.status.Some? <==> multiset(name)[FieldSeparator] >= 2
  {
    SplitHeadTail(name, FieldSeparator);
    SplitSpec(name, FieldSeparator);
    assert FieldSeparator in name <==> multiset(name)[FieldSeparator] > 0;
    FirstThree(Split(name, FieldSeparator))
  }

  /** The first three pieces, trimmed, `undefined` past the end. */
  function FirstThree(parts: seq<string>): Fields
    requires |parts| >= 1
  {
    Fields(Trim(parts[0]),
           if |parts| > 1 then Some(Trim(parts[1])) else None,
           if |parts| > 2 then Some(Trim(parts[2])) else None)
  }

  /** A name made of `_`-free pieces gives back its first three pieces,
      trimmed, with `undefined` for a title or status it does not have;
      any further pieces are ignored. */
  lemma ParseFieldsOfJoin(parts: seq<string>)
    requires |parts| >= 1
    requires forall i :: 0 <= i < |parts| ==> FieldSeparator !in parts[i]
    ensures ParseFields(Join(parts, FieldSeparator))
         == Fields(Trim(parts[0]),
                   if |parts| > 1 then Some(Trim(parts[1])) else None,
                   if |parts| > 2 then Some(Trim(parts[2])) else None)
  {
    SplitJoin(parts, FieldSeparator);
  }
}
