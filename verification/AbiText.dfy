/** The text tools of the ABI compiler: matching brackets, splitting at top level, blanking ranges. */
module AbiText {
  import opened Wrappers

  // ---------------------------------------------------------------------------
  // Bracket depth
  // ---------------------------------------------------------------------------

  /** The characters that open and close a level. */
  datatype Brackets = Brackets(opens: set<char>, closes: set<char>)

  const ROUND := Brackets({'('}, {')'})
  const ROUND_AND_SQUARE := Brackets({'(', '['}, {')', ']'})

  /** The depth after a text that starts at depth `d`, or `None` when it closes more than is open. */
  function Walk(b: Brackets, s: string, d: nat): Option<nat> {
    if s == "" then Some(d)
    else
      var up := if s[0] in b.opens then d + 1 else d;
      if s[0] !in b.closes then Walk(b, s[1..], up)
      else if up == 0 then None
      else Walk(b, s[1..], up - 1)
  }

  predicate Balanced(b: Brackets, s: string) {
    Walk(b, s, 0) == Some(0)
  }

  /** No `separator` stands at depth 0 in a text that starts at depth `d`. */
  predicate Unsplit(b: Brackets, separator: char, s: string, d: nat) {
    if s == "" then true
    else
      var up := if s[0] in b.opens then d + 1 else d;
      var down := if s[0] in b.closes && up > 0 then up - 1 else up;
      (s[0] == separator ==> down > 0) && Unsplit(b, separator, s[1..], down)
  }

  lemma {:induction false} WalkAppend(b: Brackets, x: string, y: string, d: nat)
    ensures Walk(b, x + y, d) == if Walk(b, x, d).Some? then Walk(b, y, Walk(b, x, d).value) else None
  {
    if x == "" {
      assert x + y == y;
    } else {
      assert (x + y)[1..] == x[1..] + y;
      var up := if x[0] in b.opens then d + 1 else d;
      if x[0] !in b.closes {
        WalkAppend(b, x[1..], y, up);
      } else if up > 0 {
        WalkAppend(b, x[1..], y, up - 1);
      }
    }
  }

  lemma {:induction false} UnsplitAppend(b: Brackets, separator: char, x: string, y: string, d: nat)
    requires Walk(b, x, d).Some?
    ensures Unsplit(b, separator, x + y, d) <==>
            Unsplit(b, separator, x, d) && Unsplit(b, separator, y, Walk(b, x, d).value)
  {
    if x == "" {
      assert x + y == y;
    } else {
      assert (x + y)[1..] == x[1..] + y;
      var up := if x[0] in b.opens then d + 1 else d;
      UnsplitAppend(b, separator, x[1..], y, if x[0] in b.closes then up - 1 else up);
    }
  }

  /** What is balanced at depth 0 is balanced at every depth. */
  lemma {:induction false} WalkDeeper(b: Brackets, s: string, d: nat, e: nat)
    requires Walk(b, s, d).Some?
    ensures Walk(b, s, d + e) == Some(Walk(b, s, d).value + e)
  {
    if s != "" {
      var up := if s[0] in b.opens then d + 1 else d;
      WalkDeeper(b, s[1..], if s[0] in b.closes then up - 1 else up, e);
    }
  }

  // ---------------------------------------------------------------------------
  // readGroup
  // ---------------------------------------------------------------------------

  /** The characters of a group and the index of its closing bracket. */
  datatype Group = Group(inner: string, end: nat)

  /** Opened minus closed brackets in `text[from..upTo]`; indices outside the text count nothing. */
  function Net(text: string, open: char, close: char, from: int, upTo: int): int
    decreases upTo - from
  {
    if upTo <= from then 0
    else
      var last := upTo - 1;
      Net(text, open, close, from, last)
      + if !(0 <= last < |text|) then 0 else if text[last] == open then 1 else if text[last] == close then -1 else 0
  }

  /** The group that begins at `openIndex` ends at `end`: the first closing bracket after which
      as many were closed as opened. */
  predicate EndsAt(text: string, openIndex: int, open: char, close: char, end: int) {
    && 0 <= end < |text| && openIndex <= end && text[end] == close && text[end] != open
    && Net(text, open, close, openIndex, end + 1) == 0
  }

  /** The group at an index, or `None` where the program throws: exactly when nothing ends it. */
  method ReadGroup(text: string, openIndex: int, open: char, close: char) returns (r: Option<Group>)
    requires -1 <= openIndex
    ensures r.Some? ==>
              && EndsAt(text, openIndex, open, close, r.value.end)
              && (forall e | e < r.value.end :: !EndsAt(text, openIndex, open, close, e))
              && r.value.inner == if openIndex < r.value.end then text[openIndex + 1..r.value.end] else ""
    ensures r.None? ==> forall e :: !EndsAt(text, openIndex, open, close, e)
  {
    var depth := 0;
    var i := openIndex;
    while i < |text|
      invariant openIndex <= i
      invariant depth == Net(text, open, close, openIndex, i)
      invariant forall e | e < i :: !EndsAt(text, openIndex, open, close, e)
    {
      if 0 <= i && text[i] == open {
        depth := depth + 1;
      } else if 0 <= i && text[i] == close {
        depth := depth - 1;
        if depth == 0 {
          return Some(Group(if openIndex < i then text[openIndex + 1..i] else "", i));
        }
      }
      i := i + 1;
    }
    return None;
  }

  lemma {:induction false} NetIsWalk(text: string, open: char, close: char, from: nat, upTo: nat)
    requires from <= upTo <= |text| && open != close
    requires Walk(Brackets({open}, {close}), text[from..upTo], 0).Some?
    ensures Net(text, open, close, from, upTo) == Walk(Brackets({open}, {close}), text[from..upTo], 0).value
    decreases upTo - from
  {
    var b := Brackets({open}, {close});
    if from < upTo {
      var init := text[from..upTo - 1];
      assert text[from..upTo] == init + [text[upTo - 1]];
      WalkAppend(b, init, [text[upTo - 1]], 0);
      NetIsWalk(text, open, close, from, upTo - 1);
      assert [text[upTo - 1]][1..] == "";
    }
  }

  lemma GroupNet(text: string, at: nat, part: string, open: char, close: char)
    requires open != close && at + 1 + |part| <= |text| && text[at..at + 1 + |part|] == [open] + part
    requires Walk(Brackets({open}, {close}), part, 0).Some?
    ensures Net(text, open, close, at, at + 1 + |part|) == Walk(Brackets({open}, {close}), part, 0).value + 1
  {
    OpenWalk(Brackets({open}, {close}), open, close, part);
    NetIsWalk(text, open, close, at, at + 1 + |part|);
  }

  /** Bracketing is undone: a balanced text between an opening and a closing bracket is the group
      that is read there, whatever follows. */
  lemma BracketingIsUndone(before: string, inner: string, rest: string, open: char, close: char, e: int)
    requires open != close && Balanced(Brackets({open}, {close}), inner)
    ensures var text, at := before + [open] + inner + [close] + rest, |before|;
            && text[at + 1..at + 1 + |inner|] == inner
            && EndsAt(text, at, open, close, at + 1 + |inner|)
            && (e < at + 1 + |inner| ==> !EndsAt(text, at, open, close, e))
  {
    var text, at := before + [open] + inner + [close] + rest, |before|;
    var end := at + 1 + |inner|;
    assert text[at..end] == [open] + inner && text[end] == close;
    GroupNet(text, at, inner, open, close);
    if at < e < end {
      NotYet(text, at, inner, open, close, e);
    }
  }

  lemma NotYet(text: string, at: nat, inner: string, open: char, close: char, e: int)
    requires open != close && Balanced(Brackets({open}, {close}), inner)
    requires at + 1 + |inner| <= |text| && text[at..at + 1 + |inner|] == [open] + inner
    requires at < e < at + 1 + |inner|
    ensures Net(text, open, close, at, e + 1) > 0
  {
    var part, more := inner[..e - at], inner[e - at..];
    assert text[at..e + 1] == [open] + part by {
      PrefixOf(text, at, [open] + inner, e + 1 - at);
      assert ([open] + inner)[..e + 1 - at] == [open] + part;
    }
    assert inner == part + more;
    WalkAppend(Brackets({open}, {close}), part, more, 0);
    GroupNet(text, at, part, open, close);
  }

  lemma PrefixOf(text: string, at: nat, whole: string, n: nat)
    requires at + |whole| <= |text| && text[at..at + |whole|] == whole && n <= |whole|
    ensures text[at..at + n] == whole[..n]
  {
    assert text[at..at + n] == text[at..at + |whole|][..n];
  }

  lemma OpenWalk(b: Brackets, open: char, close: char, inner: string)
    requires b == Brackets({open}, {close}) && open != close && Walk(b, inner, 0).Some?
    ensures Walk(b, [open] + inner, 0) == Some(Walk(b, inner, 0).value + 1)
  {
    assert ([open] + inner)[1..] == inner;
    WalkDeeper(b, inner, 0, 1);
  }

  // ---------------------------------------------------------------------------
  // splitTopLevel
  // ---------------------------------------------------------------------------

  /** The characters that `trim` removes. */
  predicate IsSpace(c: char) {
    var u := c as int;
    9 <= u <= 13 || u == 0x20 || u == 0xA0 || u == 0x1680 || 0x2000 <= u <= 0x200A
    || u == 0x2028 || u == 0x2029 || u == 0x202F || u == 0x205F || u == 0x3000 || u == 0xFEFF
  }

  predicate Blank(s: string) {
    forall i | 0 <= i < |s| :: IsSpace(s[i])
  }

  /** The depth after one character; here it may go below zero. */
  function Shift(c: char, depth: int): int {
    depth + (if c in ROUND_AND_SQUARE.opens then 1 else 0) - (if c in ROUND_AND_SQUARE.closes then 1 else 0)
  }

  function SplitFrom(text: string, separator: char, depth: int, current: string): seq<string>
    decreases |text|
  {
    if text == "" then if Blank(current) then [] else [current]
    else
      var d := Shift(text[0], depth);
      if text[0] == separator && d == 0 then [current] + SplitFrom(text[1..], separator, d, "")
      else SplitFrom(text[1..], separator, d, current + [text[0]])
  }

  function Split(text: string, separator: char): seq<string> {
    SplitFrom(text, separator, 0, "")
  }

  method SplitTopLevel(text: string, separator: char) returns (parts: seq<string>)
    ensures parts == Split(text, separator)
  {
    hide Blank;
    parts := [];
    var depth, current := 0, "";
    for i := 0 to |text|
      invariant parts + SplitFrom(text[i..], separator, depth, current) == Split(text, separator)
    {
      var c := text[i];
      assert text[i..][1..] == text[i + 1..];
      if c == '(' || c == '[' {
        depth := depth + 1;
      }
      if c == ')' || c == ']' {
        depth := depth - 1;
      }
      if c == separator && depth == 0 {
        parts := parts + [current];
        current := "";
      } else {
        current := current + [c];
      }
    }
    if !Blank(current) {
      parts := parts + [current];
    }
  }

  function Join(parts: seq<string>, separator: char): string {
    if parts == [] then ""
    else if |parts| == 1 then parts[0]
    else parts[0] + [separator] + Join(parts[1..], separator)
  }

  /** A part that top-level splitting leaves whole. */
  predicate Whole(separator: char, part: string) {
    Balanced(ROUND_AND_SQUARE, part) && Unsplit(ROUND_AND_SQUARE, separator, part, 0)
  }

  lemma {:induction false} SplitSkips(part: string, rest: string, separator: char, depth: nat, current: string)
    requires Walk(ROUND_AND_SQUARE, part, depth).Some? && Unsplit(ROUND_AND_SQUARE, separator, part, depth)
    ensures SplitFrom(part + rest, separator, depth, current) ==
            SplitFrom(rest, separator, Walk(ROUND_AND_SQUARE, part, depth).value, current + part)
    decreases |part|
  {
    if part == "" {
      assert part + rest == rest && current + part == current;
    } else {
      assert (part + rest)[1..] == part[1..] + rest;
      assert current + part == current + [part[0]] + part[1..];
      SplitSkips(part[1..], rest, separator, Shift(part[0], depth), current + [part[0]]);
    }
  }

  lemma SplitLast(part: string, separator: char)
    requires Whole(separator, part)
    ensures Split(part, separator) == if Blank(part) then [] else [part]
  {
    SplitSkips(part, "", separator, 0, "");
    assert part + "" == part && "" + part == part;
  }

  lemma SplitFirst(part: string, separator: char, rest: string)
    requires separator !in ROUND_AND_SQUARE.opens + ROUND_AND_SQUARE.closes && Whole(separator, part)
    ensures Split(part + [separator] + rest, separator) == [part] + Split(rest, separator)
  {
    SplitSkips(part, [separator] + rest, separator, 0, "");
    assert part + [separator] + rest == part + ([separator] + rest);
    assert ([separator] + rest)[1..] == rest && "" + part == part;
  }

  /** Joining is undone: whole parts, the last of them not blank, come back from the joined text. */
  lemma {:induction false} JoiningIsUndone(parts: seq<string>, separator: char)
    requires separator !in ROUND_AND_SQUARE.opens + ROUND_AND_SQUARE.closes
    requires forall i | 0 <= i < |parts| :: Whole(separator, parts[i])
    requires parts != [] ==> !Blank(parts[|parts| - 1])
    ensures Split(Join(parts, separator), separator) == parts
  {
    if |parts| == 1 {
      SplitLast(parts[0], separator);
    } else if |parts| > 1 {
      JoiningIsUndone(parts[1..], separator);
      SplitFirst(parts[0], separator, Join(parts[1..], separator));
    }
  }

  /** Splitting is undone, on every text: it has pieces that join to it, and splitting returns
      them, without the last one when that is blank. */
  lemma {:induction false} SplittingIsUndone(text: string, separator: char, depth: int, current: string)
    returns (pieces: seq<string>)
    ensures pieces != [] && Join(pieces, separator) == current + text
    ensures SplitFrom(text, separator, depth, current) ==
            if Blank(pieces[|pieces| - 1]) then pieces[..|pieces| - 1] else pieces
    decreases |text|
  {
    if text == "" {
      pieces := [current];
      assert current + text == current;
    } else {
      var d := Shift(text[0], depth);
      MoveOne(current, text);
      if text[0] == separator && d == 0 {
        var more := SplittingIsUndone(text[1..], separator, d, "");
        pieces := Prepend(current, more, separator);
      } else {
        pieces := SplittingIsUndone(text[1..], separator, d, current + [text[0]]);
      }
    }
  }

  lemma MoveOne(current: string, text: string)
    requires text != ""
    ensures current + text == current + [text[0]] + text[1..] && "" + text[1..] == text[1..]
  {
  }

  lemma Prepend(first: string, more: seq<string>, separator: char) returns (all: seq<string>)
    requires more != []
    ensures all == [first] + more && Join(all, separator) == first + [separator] + Join(more, separator)
    ensures all[|all| - 1] == more[|more| - 1] && all[..|all| - 1] == [first] + more[..|more| - 1]
  {
    all := [first] + more;
    assert all[1..] == more;
  }

  // ---------------------------------------------------------------------------
  // Blanking declared ranges
  // ---------------------------------------------------------------------------

  predicate Covers(ranges: seq<(nat, nat)>, k: int) {
    exists r :: 0 <= r < |ranges| && ranges[r].0 <= k <= ranges[r].1
  }

  /** Blanks every range, in any order: the length stays, the covered characters and no others
      become spaces. */
  method BlankRanges(source: string, ranges: seq<(nat, nat)>) returns (body: string)
    requires forall r | 0 <= r < |ranges| :: ranges[r].0 <= ranges[r].1 < |source|
    ensures |body| == |source|
    ensures forall k | 0 <= k < |source| :: body[k] == if Covers(ranges, k) then ' ' else source[k]
  {
    body := source;
    for i := 0 to |ranges|
      invariant |body| == |source|
      invariant forall k | 0 <= k < |source| :: body[k] == if Covers(ranges[..i], k) then ' ' else source[k]
    {
      var (start, end) := ranges[i];
      var before := body;
      body := body[..start] + seq(end - start + 1, _ => ' ') + body[end + 1..];
      forall k | 0 <= k < |source| ensures body[k] == if Covers(ranges[..i + 1], k) then ' ' else source[k] {
        assert Covers(ranges[..i + 1], k) <==> Covers(ranges[..i], k) || start <= k <= end by {
          assert ranges[..i + 1][i] == (start, end);
          assert forall r | 0 <= r < i :: ranges[..i][r] == ranges[..i + 1][r];
        }
      }
    }
    assert ranges[..|ranges|] == ranges;
  }

  // ---------------------------------------------------------------------------
  // Cutting the body into declarations
  // ---------------------------------------------------------------------------

  function PiecesFrom(text: string, separator: char, current: string): seq<string>
    decreases |text|
  {
    if text == "" then [current]
    else if text[0] == separator then [current] + PiecesFrom(text[1..], separator, "")
    else PiecesFrom(text[1..], separator, current + [text[0]])
  }

  /** `text.split(separator)` */
  function Pieces(text: string, separator: char): seq<string> {
    PiecesFrom(text, separator, "")
  }

  /** The text between consecutive cuts, from `from` on. */
  function Between(text: string, cuts: seq<nat>, from: nat): seq<string>
    requires from <= |text| && Increasing(cuts, from, |text|)
    decreases |cuts|
  {
    if cuts == [] then [text[from..]] else [text[from..cuts[0]]] + Between(text, cuts[1..], cuts[0] + 1)
  }

  predicate Increasing(cuts: seq<nat>, from: nat, upTo: nat) {
    && (forall i | 0 <= i < |cuts| :: from <= cuts[i] < upTo)
    && (forall i, j | 0 <= i < j < |cuts| :: cuts[i] < cuts[j])
  }

  /** `cuts` are exactly the places of the separator, from `from` on. */
  predicate CutsAt(text: string, separator: char, cuts: seq<nat>, from: nat) {
    forall k: nat | from <= k < |text| :: text[k] == separator <==> k in cuts
  }

  /** A separator is the first of the cuts from its place on. */
  lemma CutHere(text: string, separator: char, cuts: seq<nat>, at: nat)
    requires at < |text| && Increasing(cuts, at, |text|) && CutsAt(text, separator, cuts, at) && text[at] == separator
    ensures cuts != [] && cuts[0] == at
    ensures Increasing(cuts[1..], at + 1, |text|) && CutsAt(text, separator, cuts[1..], at + 1)
  {
    assert at in cuts && cuts[0] == at;
    assert forall k | k in cuts[1..] :: k in cuts;
    assert forall k | k in cuts :: k == at || k in cuts[1..];
  }

  lemma {:induction false} PiecesAreBetween(text: string, separator: char, cuts: seq<nat>, from: nat, at: nat)
    requires from <= at <= |text| && Increasing(cuts, at, |text|) && CutsAt(text, separator, cuts, at)
    ensures PiecesFrom(text[at..], separator, text[from..at]) == Between(text, cuts, from)
    decreases |text| - at
  {
    if at < |text| {
      assert text[at..][1..] == text[at + 1..];
      if text[at] == separator {
        CutHere(text, separator, cuts, at);
        PiecesAreBetween(text, separator, cuts[1..], at + 1, at + 1);
        assert text[at + 1..at + 1] == "";
      } else {
        assert text[from..at + 1] == text[from..at] + [text[at]];
        assert forall i | 0 <= i < |cuts| :: cuts[i] in cuts;
        PiecesAreBetween(text, separator, cuts, from, at + 1);
      }
    } else {
      assert text[from..at] == text[from..];
    }
  }

  /** The blanked body is cut into declarations exactly at the semicolons of the source that no
      range covers, and at no other place. */
  lemma DeclarationsCutExactly(source: string, ranges: seq<(nat, nat)>, body: string, cuts: seq<nat>)
    requires |body| == |source|
    requires forall k | 0 <= k < |source| :: body[k] == if Covers(ranges, k) then ' ' else source[k]
    requires Increasing(cuts, 0, |source|)
    requires forall k: nat | k < |source| :: k in cuts <==> source[k] == ';' && !Covers(ranges, k)
    ensures Pieces(body, ';') == Between(body, cuts, 0)
  {
    PiecesAreBetween(body, ';', cuts, 0, 0);
    assert body[0..] == body && body[0..0] == "";
  }

  // ---------------------------------------------------------------------------
  // Where a text is split
  // ---------------------------------------------------------------------------

  /** Opened minus closed brackets of a text, round and square alike. */
  function OpenBrackets(s: string): int {
    var m := multiset(s);
    (m['('] + m['[']) as int - (m[')'] + m[']']) as int
  }

  /** `cuts` are exactly the separators, from `from` on, before which as many brackets are closed as opened. */
  predicate TopCutsAt(text: string, separator: char, cuts: seq<nat>, from: nat) {
    forall k: nat | from <= k < |text| :: text[k] == separator && OpenBrackets(text[..k]) == 0 <==> k in cuts
  }

  lemma BracketsShift(s: string, c: char)
    ensures OpenBrackets(s + [c]) == Shift(c, OpenBrackets(s))
  {
    assert multiset(s + [c]) == multiset(s) + multiset{c};
  }

  function DropBlankLast(pieces: seq<string>): seq<string>
    requires pieces != []
  {
    if Blank(pieces[|pieces| - 1]) then pieces[..|pieces| - 1] else pieces
  }

  lemma TopCutHere(text: string, separator: char, cuts: seq<nat>, at: nat)
    requires at < |text| && Increasing(cuts, at, |text|) && TopCutsAt(text, separator, cuts, at)
    requires text[at] == separator && OpenBrackets(text[..at]) == 0
    ensures cuts != [] && cuts[0] == at
    ensures Increasing(cuts[1..], at + 1, |text|) && TopCutsAt(text, separator, cuts[1..], at + 1)
  {
    assert at in cuts && cuts[0] == at;
    assert forall k | k in cuts[1..] :: k in cuts;
    assert forall k | k in cuts :: k == at || k in cuts[1..];
  }

  lemma SplitStep(t: string, separator: char, depth: int, current: string)
    requires t != "" && separator !in {'(', '[', ')', ']'}
    ensures SplitFrom(t, separator, depth, current) ==
            if t[0] == separator && depth == 0 then [current] + SplitFrom(t[1..], separator, Shift(t[0], depth), "")
            else SplitFrom(t[1..], separator, Shift(t[0], depth), current + [t[0]])
  {
  }

  lemma NoCutHere(text: string, separator: char, cuts: seq<nat>, at: nat)
    requires at < |text| && Increasing(cuts, at, |text|) && TopCutsAt(text, separator, cuts, at)
    requires !(text[at] == separator && OpenBrackets(text[..at]) == 0)
    ensures Increasing(cuts, at + 1, |text|) && TopCutsAt(text, separator, cuts, at + 1)
  {
    assert forall i | 0 <= i < |cuts| :: cuts[i] in cuts;
  }

  lemma CutsNeedRoom(cuts: seq<nat>, from: nat, upTo: nat)
    requires Increasing(cuts, from, upTo)
    ensures cuts != [] ==> from < upTo
  {
    if cuts != [] {
      assert from <= cuts[0] < upTo;
    }
  }

  lemma SplitEnds(text: string, separator: char, depth: int, from: nat)
    requires from <= |text|
    ensures Increasing([], from, |text|) && Between(text, [], from) == [text[from..]]
    ensures SplitFrom("", separator, depth, text[from..]) == DropBlankLast(Between(text, [], from))
  {
  }

  lemma OneMorePiece(first: string, more: seq<string>)
    requires more != []
    ensures DropBlankLast([first] + more) == [first] + DropBlankLast(more)
  {
  }

  lemma BetweenHere(text: string, cuts: seq<nat>, from: nat, at: nat)
    requires from <= at < |text| && cuts != [] && cuts[0] == at
    requires Increasing(cuts, at, |text|) && Increasing(cuts[1..], at + 1, |text|)
    ensures Increasing(cuts, from, |text|) && Between(text, cuts[1..], at + 1) != []
    ensures Between(text, cuts, from) == [text[from..at]] + Between(text, cuts[1..], at + 1)
  {
  }

  lemma {:induction false} SplitIsBetween(text: string, separator: char, cuts: seq<nat>, from: nat, at: nat)
    requires separator !in {'(', '[', ')', ']'}
    requires from <= at <= |text| && Increasing(cuts, at, |text|) && TopCutsAt(text, separator, cuts, at)
    ensures Increasing(cuts, from, |text|) && Between(text, cuts, from) != []
    ensures SplitFrom(text[at..], separator, OpenBrackets(text[..at]), text[from..at]) ==
            DropBlankLast(Between(text, cuts, from))
    decreases |text| - at
  {
    hide OpenBrackets, Shift, SplitFrom, Blank, TopCutsAt, Increasing, Between, DropBlankLast;
    if at < |text| {
      assert text[at..][1..] == text[at + 1..];
      assert text[..at + 1] == text[..at] + [text[at]];
      BracketsShift(text[..at], text[at]);
      SplitStep(text[at..], separator, OpenBrackets(text[..at]), text[from..at]);
      if text[at] == separator && OpenBrackets(text[..at]) == 0 {
        TopCutHere(text, separator, cuts, at);
        SplitIsBetween(text, separator, cuts[1..], at + 1, at + 1);
        assert text[at + 1..at + 1] == "";
        BetweenHere(text, cuts, from, at);
        OneMorePiece(text[from..at], Between(text, cuts[1..], at + 1));
      } else {
        assert text[from..at + 1] == text[from..at] + [text[at]];
        NoCutHere(text, separator, cuts, at);
        SplitIsBetween(text, separator, cuts, from, at + 1);
      }
    } else {
      CutsNeedRoom(cuts, at, |text|);
      assert text[from..at] == text[from..] && text[at..] == "";
      SplitEnds(text, separator, OpenBrackets(text[..at]), from);
    }
  }

  /** Exactly where a text is split: at the separators outside all brackets, and nowhere else; a blank
      last piece is dropped. */
  lemma SplitExactly(text: string, separator: char, cuts: seq<nat>)
    requires separator !in {'(', '[', ')', ']'}
    requires Increasing(cuts, 0, |text|) && TopCutsAt(text, separator, cuts, 0)
    ensures Between(text, cuts, 0) != [] && Split(text, separator) == DropBlankLast(Between(text, cuts, 0))
  {
    hide TopCutsAt, SplitFrom, Between, DropBlankLast;
    SplitIsBetween(text, separator, cuts, 0, 0);
    assert text[0..] == text && text[0..0] == "" && text[..0] == "";
    assert OpenBrackets("") == 0;
  }

  /** The spaces among the characters of ASCII. */
  lemma AsciiSpaces(c: char)
    requires c as int < 128
    ensures IsSpace(c) <==> c == ' ' || c == '\t' || c == '\n' || c == '\r' || c as int == 11 || c as int == 12
  {
  }
}
