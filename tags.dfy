/** The space-separated tag text of serve.py: parse_space_separated_tags and serialise_tags.

    In the text form, an unescaped space separates two tags and a backslash makes the next
    character literal. The parser keeps a set of tags, the tag being read and an `escaped` flag,
    and returns the set in sorted order. */
module TagCodec {

  // ---------------------------------------------------------------------------
  // Python's string order: lexicographic by code point, a proper prefix first.

  predicate Less(a: string, b: string)
    decreases |a|
  {
    if |a| == 0 then |b| > 0
    else |b| > 0 && (if a[0] != b[0] then a[0] < b[0] else Less(a[1..], b[1..]))
  }

  lemma {:induction false} LessIrreflexive(a: string)
    ensures !Less(a, a)
    decreases |a|
  {
    if |a| > 0 {
      LessIrreflexive(a[1..]);
    }
  }

  lemma {:induction false} LessTransitive(a: string, b: string, c: string)
    requires Less(a, b) && Less(b, c)
    ensures Less(a, c)
    decreases |a|
  {
    if |a| > 0 && a[0] == b[0] && b[0] == c[0] {
      LessTransitive(a[1..], b[1..], c[1..]);
    }
  }

  lemma {:induction false} LessTotal(a: string, b: string)
    requires a != b
    ensures Less(a, b) || Less(b, a)
    decreases |a|
  {
    if |a| > 0 && |b| > 0 && a[0] == b[0] {
      assert a == [a[0]] + a[1..] && b == [b[0]] + b[1..];
      LessTotal(a[1..], b[1..]);
    }
  }

  lemma LessAsymmetric(a: string, b: string)
    requires Less(a, b)
    ensures !Less(b, a)
  {
    if Less(b, a) {
      LessTransitive(a, b, a);
      LessIrreflexive(a);
    }
  }

  // ---------------------------------------------------------------------------
  // Sorted, duplicate-free lists: what `list(sorted(tags))` returns for a set.

  predicate StrictlySorted(s: seq<string>)
  {
    forall i, j | 0 <= i < j < |s| :: Less(s[i], s[j])
  }

  function Elements(s: seq<string>): set<string>
  {
    set x | x in s
  }

  /** A strictly sorted list holds no tag twice, so it is exactly as long as its set. */
  lemma {:induction false} SortedLength(s: seq<string>)
    requires StrictlySorted(s)
    ensures |Elements(s)| == |s|
  {
    if |s| > 0 {
      SortedTail(s);
      SortedLength(s[1..]);
      SortedHeadCounts(s);
    }
  }

  /** The smallest tag of a strictly sorted list adds one element to the set of the rest. */
  lemma SortedHeadCounts(s: seq<string>)
    requires StrictlySorted(s) && |s| > 0
    ensures |Elements(s)| == |Elements(s[1..])| + 1
  {
    var rest := s[1..];
    SortedTail(s);
    assert s[0] !in rest by {
      if s[0] in rest {
        LessIrreflexive(s[0]);
      }
    }
    assert s == [s[0]] + rest;
    assert Elements(s) == {s[0]} + Elements(rest);
  }

  /** Two strictly sorted lists with the same tags are the same list: the sorted form of a set
      is unique. */
  lemma {:induction false} SortedUnique(a: seq<string>, b: seq<string>)
    requires StrictlySorted(a) && StrictlySorted(b) && Elements(a) == Elements(b)
    ensures a == b
    decreases |a|
  {
    if |a| == 0 {
      assert Elements(a) == {};
      SortedLength(b);
    } else {
      assert a[0] in Elements(b);
      assert b[0] in Elements(a);
      if a[0] != b[0] {
        var i :| 0 <= i < |a| && a[i] == b[0];
        var j :| 0 <= j < |b| && b[j] == a[0];
        assert Less(a[0], b[0]) by {
          assert i > 0;
        }
        assert Less(b[0], a[0]) by {
          assert j > 0;
        }
        LessAsymmetric(a[0], b[0]);
      }
      var ra, rb := a[1..], b[1..];
      assert StrictlySorted(ra) by {
        forall i, j | 0 <= i < j < |ra| ensures Less(ra[i], ra[j]) {
          assert ra[i] == a[i + 1] && ra[j] == a[j + 1];
        }
      }
      assert StrictlySorted(rb) by {
        forall i, j | 0 <= i < j < |rb| ensures Less(rb[i], rb[j]) {
          assert rb[i] == b[i + 1] && rb[j] == b[j + 1];
        }
      }
      forall x | x in ra ensures x != a[0] {
        var k :| 0 <= k < |ra| && ra[k] == x;
        assert Less(a[0], a[k + 1]);
        if x == a[0] {
          LessIrreflexive(x);
        }
      }
      forall x | x in rb ensures x != b[0] {
        var k :| 0 <= k < |rb| && rb[k] == x;
        assert Less(b[0], b[k + 1]);
        if x == b[0] {
          LessIrreflexive(x);
        }
      }
      assert a == [a[0]] + ra && b == [b[0]] + rb;
      assert Elements(ra) == Elements(a) - {a[0]};
      assert Elements(rb) == Elements(b) - {b[0]};
      SortedUnique(ra, rb);
    }
  }

  lemma SortedTail(s: seq<string>)
    requires StrictlySorted(s) && |s| > 0
    ensures StrictlySorted(s[1..])
    ensures forall y | y in s[1..] :: Less(s[0], y)
  {
    var rest := s[1..];
    forall i, j | 0 <= i < j < |rest| ensures Less(rest[i], rest[j]) {
      assert rest[i] == s[i + 1] && rest[j] == s[j + 1];
    }
    forall y | y in rest ensures Less(s[0], y) {
      var k :| 0 <= k < |rest| && rest[k] == y;
      assert rest[k] == s[k + 1];
    }
  }

  lemma SortedCons(h: string, t: seq<string>)
    requires StrictlySorted(t) && forall y | y in t :: Less(h, y)
    ensures StrictlySorted([h] + t)
  {
    var r := [h] + t;
    forall i, j | 0 <= i < j < |r| ensures Less(r[i], r[j]) {
      if i == 0 {
        assert r[j] == t[j - 1];
      } else {
        assert r[i] == t[i - 1] && r[j] == t[j - 1];
      }
    }
  }

  /** Insert x into a sorted list, keeping it sorted; a tag already present is not repeated. */
  function InsertSorted(s: seq<string>, x: string): seq<string>
  {
    if |s| == 0 then [x]
    else if x == s[0] then s
    else if Less(x, s[0]) then [x] + s
    else [s[0]] + InsertSorted(s[1..], x)
  }

  lemma {:induction false} InsertSortedSpec(s: seq<string>, x: string)
    requires StrictlySorted(s)
    ensures StrictlySorted(InsertSorted(s, x))
    ensures Elements(InsertSorted(s, x)) == Elements(s) + {x}
  {
    if |s| == 0 {
    } else if x == s[0] {
    } else if Less(x, s[0]) {
      SortedTail(s);
      forall y | y in s ensures Less(x, y) {
        if y != s[0] {
          assert y in s[1..] by {
            assert s == [s[0]] + s[1..];
          }
          LessTransitive(x, s[0], y);
        }
      }
      SortedCons(x, s);
      assert Elements([x] + s) == {x} + Elements(s);
    } else {
      LessTotal(x, s[0]);
      SortedTail(s);
      var rest := s[1..];
      InsertSortedSpec(rest, x);
      var tail := InsertSorted(rest, x);
      forall y | y in tail ensures Less(s[0], y) {
        assert y in Elements(tail);
      }
      SortedCons(s[0], tail);
      assert s == [s[0]] + rest;
      assert Elements(s) == {s[0]} + Elements(rest);
      assert Elements([s[0]] + tail) == {s[0]} + Elements(tail);
    }
  }

  /** `list(sorted(tags))`: the tags of a set in ascending order. */
  method SortedList(tags: set<string>) returns (r: seq<string>)
    ensures StrictlySorted(r) && Elements(r) == tags
  {
    r := [];
    var rest := tags;
    while rest != {}
      invariant StrictlySorted(r)
      invariant Elements(r) + rest == tags && Elements(r) !! rest
      decreases |rest|
    {
      var x :| x in rest;
      InsertSortedSpec(r, x);
      r := InsertSorted(r, x);
      rest := rest - {x};
    }
  }

  // ---------------------------------------------------------------------------
  // The parser's state machine.

  /** The parser's variables: the tags found so far, the tag being read, and whether the previous
      character was an escaping backslash. */
  datatype ScanState = ScanState(tags: set<string>, tag: string, escaped: bool)

  const Start := ScanState({}, "", false)

  /** One character: an unescaped backslash only sets the flag, an unescaped space closes the
      current tag (even an empty one), and anything else (or an escaped backslash or space) is
      appended and clears the flag. */
  function Step(st: ScanState, c: char): ScanState
  {
    if c == '\\' && !st.escaped then st.(escaped := true)
    else if c == ' ' && !st.escaped then ScanState(st.tags + {st.tag}, "", false)
    else ScanState(st.tags, st.tag + [c], false)
  }

  function RunFrom(st: ScanState, s: string): ScanState
    decreases |s|
  {
    if |s| == 0 then st else RunFrom(Step(st, s[0]), s[1..])
  }

  /** After the last character, a non-empty pending tag is kept; an empty one is not. */
  function Finish(st: ScanState): set<string>
  {
    if st.tag != "" then st.tags + {st.tag} else st.tags
  }

  /** The set of tags the parser finds in inp. */
  function ParsedSet(inp: string): set<string>
  {
    Finish(RunFrom(Start, inp))
  }

  /** parse_space_separated_tags: scan the characters, then sort the set. */
  method ParseSpaceSeparatedTags(inp: string) returns (r: seq<string>)
    ensures StrictlySorted(r) && Elements(r) == ParsedSet(inp)
  {
    var tags: set<string> := {};
    var tag := "";
    var escaped := false;
    for i := 0 to |inp|
      invariant RunFrom(ScanState(tags, tag, escaped), inp[i..]) == RunFrom(Start, inp)
    {
      var c := inp[i];
      assert inp[i..] == [c] + inp[i + 1..];
      if c == '\\' {
        if !escaped {
          escaped := true;
          continue;
        }
      } else if c == ' ' {
        if !escaped {
          tags := tags + {tag};
          tag := "";
          continue;
        }
      }
      escaped := false;
      tag := tag + [c];
    }
    if tag != "" {
      tags := tags + {tag};
    }
    r := SortedList(tags);
  }

  // ---------------------------------------------------------------------------
  // A reference reading of the text form: a backslash and the character after it form one
  // literal character, and the text splits at every remaining space.

  /** The pieces of s between unescaped spaces, the first one continuing cur; a lone backslash at
      the very end is dropped. There is always at least one piece. */
  function Lex(s: string, cur: string): (pieces: seq<string>)
    ensures |pieces| >= 1
    decreases |s|
  {
    if |s| == 0 then [cur]
    else if s[0] == '\\' then (if |s| == 1 then [cur] else Lex(s[2..], cur + [s[1]]))
    else if s[0] == ' ' then [cur] + Lex(s[1..], "")
    else Lex(s[1..], cur + [s[0]])
  }

  function Pieces(s: string): (pieces: seq<string>)
    ensures |pieces| >= 1
  {
    Lex(s, "")
  }

  /** The tags kept from a list of pieces: every piece before the last (empty ones included), and
      the last one only when it is not empty. */
  function Kept(tags: set<string>, pieces: seq<string>): set<string>
    requires |pieces| >= 1
  {
    var last := pieces[|pieces| - 1];
    tags + Elements(pieces[..|pieces| - 1]) + (if last != "" then {last} else {})
  }

  /** The state machine finds exactly the tags the reference reading describes. */
  lemma {:induction false} ScanMatchesLex(tags: set<string>, cur: string, s: string)
    ensures Finish(RunFrom(ScanState(tags, cur, false), s)) == Kept(tags, Lex(s, cur))
    decreases |s|
  {
    var st := ScanState(tags, cur, false);
    if |s| == 0 {
    } else if s[0] == '\\' {
      if |s| == 1 {
        assert RunFrom(st, s) == RunFrom(st.(escaped := true), []);
      } else {
        var next := ScanState(tags, cur + [s[1]], false);
        assert RunFrom(st, s) == RunFrom(st.(escaped := true), s[1..]);
        assert s[1..][1..] == s[2..];
        assert RunFrom(st.(escaped := true), s[1..]) == RunFrom(next, s[2..]);
        ScanMatchesLex(tags, cur + [s[1]], s[2..]);
      }
    } else if s[0] == ' ' {
      ScanMatchesLex(tags + {cur}, "", s[1..]);
      var rest := Lex(s[1..], "");
      var pieces := [cur] + rest;
      assert pieces[..|pieces| - 1] == [cur] + rest[..|rest| - 1];
      assert Elements(pieces[..|pieces| - 1]) == {cur} + Elements(rest[..|rest| - 1]);
    } else {
      ScanMatchesLex(tags, cur + [s[0]], s[1..]);
    }
  }

  lemma ParsedSetByPieces(inp: string)
    ensures ParsedSet(inp) == Kept({}, Pieces(inp))
  {
    ScanMatchesLex({}, "", inp);
  }

  // ---------------------------------------------------------------------------
  // What the parser does with particular characters, derived from the reference reading.

  lemma {:induction false} RunFromAppend(st: ScanState, s: string, c: char)
    ensures RunFrom(st, s + [c]) == Step(RunFrom(st, s), c)
    decreases |s|
  {
    if |s| > 0 {
      assert (s + [c])[1..] == s[1..] + [c];
      RunFromAppend(Step(st, s[0]), s[1..], c);
    }
  }

  /** A lone backslash at the end of the text is dropped. */
  lemma TrailingBackslashDropped(s: string)
    requires !RunFrom(Start, s).escaped
    ensures ParsedSet(s + "\\") == ParsedSet(s)
  {
    RunFromAppend(Start, s, '\\');
  }

  /** An escaped backslash and an escaped space are both kept literally inside the tag. */
  lemma EscapedCharactersAreLiteral(tags: set<string>, cur: string, c: char, s: string)
    requires c == '\\' || c == ' '
    ensures Finish(RunFrom(ScanState(tags, cur, false), ['\\', c] + s))
         == Finish(RunFrom(ScanState(tags, cur + [c], false), s))
  {
    var t := ['\\', c] + s;
    assert t[1..] == [c] + s && t[1..][1..] == s;
  }

  /** A leading space closes an empty first tag, so "" is among the tags. */
  lemma LeadingSpaceGivesEmptyTag(s: string)
    ensures ParsedSet(" " + s) == {""} + ParsedSet(s)
  {
    ParsedSetByPieces(" " + s);
    ParsedSetByPieces(s);
    var rest := Lex(s, "");
    assert (" " + s)[1..] == s;
    var pieces := [""] + rest;
    assert Pieces(" " + s) == pieces;
    assert pieces[..|pieces| - 1] == [""] + rest[..|rest| - 1];
    assert Elements(pieces[..|pieces| - 1]) == {""} + Elements(rest[..|rest| - 1]);
  }

  // ---------------------------------------------------------------------------
  // serialise_tags.

  /** `s.replace(c, with)` for a one-character c. */
  function ReplaceAll(s: string, c: char, with: string): string
    decreases |s|
  {
    if |s| == 0 then ""
    else (if s[0] == c then with else [s[0]]) + ReplaceAll(s[1..], c, with)
  }

  /** Backslashes doubled first, then every space preceded by a backslash. */
  function Escape(t: string): string
  {
    ReplaceAll(ReplaceAll(t, '\\', "\\\\"), ' ', "\\ ")
  }

  /** A tag without backslashes or spaces is written unchanged. */
  lemma EscapePlain(t: string)
    requires '\\' !in t && ' ' !in t
    ensures Escape(t) == t
  {
    ReplaceAllAbsent(t, '\\', "\\\\");
    ReplaceAllAbsent(t, ' ', "\\ ");
  }

  lemma {:induction false} ReplaceAllAbsent(s: string, c: char, with: string)
    requires c !in s
    ensures ReplaceAll(s, c, with) == s
    decreases |s|
  {
    if |s| > 0 {
      ReplaceAllAbsent(s[1..], c, with);
      assert s == [s[0]] + s[1..];
    }
  }

  function EscapeChar(c: char): string
  {
    if c == '\\' then "\\\\" else if c == ' ' then "\\ " else [c]
  }

  lemma {:induction false} ReplaceAllAppend(a: string, b: string, c: char, with: string)
    ensures ReplaceAll(a + b, c, with) == ReplaceAll(a, c, with) + ReplaceAll(b, c, with)
    decreases |a|
  {
    if |a| == 0 {
      assert a + b == b;
    } else {
      assert (a + b)[0] == a[0];
      assert (a + b)[1..] == a[1..] + b;
      ReplaceAllAppend(a[1..], b, c, with);
    }
  }

  /** The two passes never interfere: each character is escaped on its own. */
  lemma EscapeByCharacter(t: string)
    requires |t| > 0
    ensures Escape(t) == EscapeChar(t[0]) + Escape(t[1..])
  {
    var once := ReplaceAll(t, '\\', "\\\\");
    var head := if t[0] == '\\' then "\\\\" else [t[0]];
    assert once == head + ReplaceAll(t[1..], '\\', "\\\\");
    ReplaceAllAppend(head, ReplaceAll(t[1..], '\\', "\\\\"), ' ', "\\ ");
  }

  lemma LexEscapedChar(c: char, rest: string, cur: string)
    ensures Lex(EscapeChar(c) + rest, cur) == Lex(rest, cur + [c])
  {
    var s := EscapeChar(c) + rest;
    if c == '\\' || c == ' ' {
      assert s[0] == '\\' && s[1] == c && s[2..] == rest;
    } else {
      assert s[0] == c && s[1..] == rest;
    }
  }

  /** The parser reads an escaped tag back as the tag itself, whatever follows it. */
  lemma {:induction false} LexEscaped(t: string, rest: string, cur: string)
    ensures Lex(Escape(t) + rest, cur) == Lex(rest, cur + t)
    decreases |t|
  {
    if |t| == 0 {
      assert Escape(t) + rest == rest;
      assert cur + t == cur;
    } else {
      LexEscaped(t[1..], rest, cur + [t[0]]);
      LexEscapedStep(t, rest, cur);
    }
  }

  /** One escaped character read back, given that the rest of the tag reads back. */
  lemma LexEscapedStep(t: string, rest: string, cur: string)
    requires |t| > 0
    requires Lex(Escape(t[1..]) + rest, cur + [t[0]]) == Lex(rest, cur + [t[0]] + t[1..])
    ensures Lex(Escape(t) + rest, cur) == Lex(rest, cur + t)
  {
    var c, tail := t[0], t[1..];
    var e := Escape(tail);
    EscapeByCharacter(t);
    calc {
      Lex(Escape(t) + rest, cur);
      { assert Escape(t) + rest == EscapeChar(c) + (e + rest); }
      Lex(EscapeChar(c) + (e + rest), cur);
      { LexEscapedChar(c, e + rest, cur); }
      Lex(e + rest, cur + [c]);
      Lex(rest, cur + [c] + tail);
      { MoveHead(cur, t); }
      Lex(rest, cur + t);
    }
  }

  lemma MoveHead(cur: string, t: string)
    requires |t| > 0
    ensures cur + [t[0]] + t[1..] == cur + t
  {
    assert [t[0]] + t[1..] == t;
  }

  /** The serialised text of a tag list: escaped tags joined by single spaces. */
  function Joined(ts: seq<string>): string
  {
    if |ts| == 0 then ""
    else if |ts| == 1 then Escape(ts[0])
    else Joined(ts[..|ts| - 1]) + " " + Escape(ts[|ts| - 1])
  }

  lemma {:induction false} JoinedCons(t: string, ts: seq<string>)
    requires |ts| >= 1
    ensures Joined([t] + ts) == Escape(t) + " " + Joined(ts)
    decreases |ts|
  {
    var all := [t] + ts;
    if |ts| > 1 {
      assert all[..|all| - 1] == [t] + ts[..|ts| - 1];
      JoinedCons(t, ts[..|ts| - 1]);
    } else {
      assert all[..|all| - 1] == [t];
    }
  }

  /** Reading the serialised text gives back the list itself, piece by piece: the joiner puts
      exactly |ts| - 1 unescaped spaces, one between each two tags. */
  lemma {:induction false} PiecesOfJoined(ts: seq<string>)
    requires |ts| >= 1
    ensures Pieces(Joined(ts)) == ts
    decreases |ts|
  {
    var t := ts[0];
    if |ts| == 1 {
      LexEscaped(t, "", "");
      assert Escape(t) + "" == Escape(t) && "" + t == t;
    } else {
      var more := ts[1..];
      assert ts == [t] + more;
      JoinedCons(t, more);
      var tail := " " + Joined(more);
      assert Joined(ts) == Escape(t) + tail;
      LexEscaped(t, tail, "");
      assert "" + t == t;
      assert tail[1..] == Joined(more);
      PiecesOfJoined(more);
    }
  }

  /** Round trip: parsing the serialised list gives back its set of tags exactly when the last tag
      is not empty (or the list is empty, or "" is also earlier in the list): a final empty tag is
      the one thing the parser drops. */
  lemma RoundTrip(ts: seq<string>)
    ensures ParsedSet(Joined(ts)) == Elements(ts)
        <==> |ts| == 0 || ts[|ts| - 1] != "" || "" in ts[..|ts| - 1]
  {
    ParsedSetByPieces(Joined(ts));
    if |ts| > 0 {
      PiecesOfJoined(ts);
      KeptAll(ts);
    }
  }

  /** A single tag without backslashes or spaces is read back as itself. */
  lemma PlainTagParsed(t: string)
    requires t != "" && '\\' !in t && ' ' !in t
    ensures ParsedSet(t) == {t}
  {
    EscapePlain(t);
    RoundTrip([t]);
    assert Joined([t]) == t;
    assert Elements([t]) == {t};
  }

  lemma KeptAll(ts: seq<string>)
    requires |ts| >= 1
    ensures Kept({}, ts) == Elements(ts) <==> ts[|ts| - 1] != "" || "" in ts[..|ts| - 1]
  {
    var init, last := ts[..|ts| - 1], ts[|ts| - 1];
    assert ts == init + [last];
    assert Elements(ts) == Elements(init) + {last};
    assert ("" in init) == ("" in Elements(init));
  }

  /** serialise_tags: each tag escaped, a space before every tag but the first. */
  method SerialiseTags(ts: seq<string>) returns (result: string)
    ensures result == Joined(ts)
  {
    result := "";
    for i := 0 to |ts|
      invariant result == Joined(ts[..i])
    {
      assert ts[..i + 1][..i] == ts[..i];
      if i > 0 {
        result := result + " ";
      }
      result := result + Escape(ts[i]);
    }
    assert ts[..|ts|] == ts;
  }

  /** In a sorted list of two or more tags the last one is not "", because "" sorts first. */
  lemma LastOfSortedNotEmpty(ts: seq<string>)
    requires StrictlySorted(ts) && |ts| >= 1 && ts != [""]
    ensures ts[|ts| - 1] != ""
  {
    if |ts| == 1 {
      assert ts == [ts[0]];
    } else {
      assert Less(ts[0], ts[|ts| - 1]);
    }
  }

  /** What a tag edit does with a feed's tags when nothing is changed: the stored list is
      serialised into the form and the submitted text is parsed again. A sorted list comes back
      unchanged unless it is the single empty tag, whose text "" reads as no tags at all. */
  method Reparse(ts: seq<string>) returns (r: seq<string>)
    ensures StrictlySorted(r)
    ensures ts != [] && ts[|ts| - 1] != "" ==> Elements(r) == Elements(ts)
    ensures StrictlySorted(ts) && ts != [""] ==> r == ts
    ensures ts == [""] ==> r == []
  {
    var text := SerialiseTags(ts);
    r := ParseSpaceSeparatedTags(text);
    RoundTrip(ts);
    if |ts| == 0 {
      SortedUnique(r, ts);
    } else if ts == [""] {
      assert Joined(ts) == Escape("") == "";
      assert Elements(r) == {};
      SortedLength(r);
    } else if StrictlySorted(ts) {
      assert ts[|ts| - 1] != "" by {
        LastOfSortedNotEmpty(ts);
      }
      SortedUnique(r, ts);
    }
  }
}
