/** `String.prototype.replaceAll` with a string pattern and a string
    replacement, as the ECMAScript standard defines it (section 22.1.3.18 of
    ECMA-262, 2021 edition, with GetSubstitution of section 22.1.3.17.1).
    Strings here are sequences of Unicode scalar values, where ECMAScript
    strings are sequences of UTF-16 code units: the two agree on text of the
    Basic Multilingual Plane, and the positions an empty pattern matches
    differ for characters outside it (one position per scalar value here,
    one per code unit there). */
module JsString {
  import opened Wrappers
  import opened Text

  /** GetSubstitution for a string pattern, which has no capture groups:
      `$$` gives `$`, `$&` the matched text, `` $` `` the text before the
      match and `$'` the text after it; every other character, including a
      `$` in any other position, is copied as it is. */
  function Expand(template: string, matched: string, before: string, after: string): string
    decreases |template|
  {
    if |template| >= 2 && template[0] == '$' && template[1] == '$' then
      "$" + Expand(template[2..], matched, before, after)
    else if |template| >= 2 && template[0] == '$' && template[1] == '&' then
      matched + Expand(template[2..], matched, before, after)
    else if |template| >= 2 && template[0] == '$' && template[1] == '`' then
      before + Expand(template[2..], matched, before, after)
    else if |template| >= 2 && template[0] == '$' && template[1] == '\'' then
      after + Expand(template[2..], matched, before, after)
    else if template == [] then []
    else [template[0]] + Expand(template[1..], matched, before, after)
  }

  /** A replacement with no `$` is inserted literally. */
  lemma {:induction false} ExpandLiteral(template: string, matched: string, before: string, after: string)
    requires '$' !in template
    ensures Expand(template, matched, before, after) == template
  {
    if template != [] {
      assert '$' !in template[1..];
      ExpandLiteral(template[1..], matched, before, after);
    }
  }

  /** `s.replaceAll(search, replacement)`. An empty pattern matches at every
      index from 0 to |s|; a non-empty one matches left to right without
      overlapping, each search starting where the last match ended. */
  function ReplaceAll(s: string, search: string, replacement: string): string {
    if search == [] then ReplaceEmptyFrom(s, replacement, 0)
    else ReplaceFrom(s, search, replacement, 0)
  }

  /** What `s.replaceAll("", replacement)` produces from index `from` on. */
  function ReplaceEmptyFrom(s: string, replacement: string, from: nat): string
    requires from <= |s|
    decreases |s| - from
  {
    Expand(replacement, "", s[..from], s[from..])
      + (if from < |s| then [s[from]] + ReplaceEmptyFrom(s, replacement, from + 1) else [])
  }

  /** What `s.replaceAll(search, replacement)` produces from index `from` on,
      for a non-empty `search`, where `from` is where the last match ended
      (or 0) and the next search starts. */
  function ReplaceFrom(s: string, search: string, replacement: string, from: nat): string
    requires search != [] && from <= |s|
    decreases |s| - from
  {
    match IndexOf(s, search, from)
    case None => s[from..]
    case Some(p) =>
      s[from..p] + Expand(replacement, search, s[..p], s[p + |search|..])
        + ReplaceFrom(s, search, replacement, p + |search|)
  }

  lemma ReplaceFromMatch(s: string, search: string, replacement: string, from: nat, p: nat)
    requires search != [] && from <= |s| && IndexOf(s, search, from) == Some(p)
    ensures p + |search| <= |s|
    ensures ReplaceFrom(s, search, replacement, from)
      == s[from..p] + Expand(replacement, search, s[..p], s[p + |search|..])
         + ReplaceFrom(s, search, replacement, p + |search|)
  {
  }

  /** The pieces of `s[from..]` between the leftmost non-overlapping
      occurrences of a non-empty `search`. */
  function Split(s: string, search: string, from: nat): (pieces: seq<string>)
    requires search != [] && from <= |s|
    ensures pieces != []
    decreases |s| - from
  {
    match IndexOf(s, search, from)
    case None => [s[from..]]
    case Some(p) => [s[from..p]] + Split(s, search, p + |search|)
  }

  /** The pieces with `sep` between each two of them. */
  function Join(pieces: seq<string>, sep: string): string {
    if pieces == [] then ""
    else if |pieces| == 1 then pieces[0]
    else pieces[0] + sep + Join(pieces[1..], sep)
  }

  lemma JoinCons(piece: string, rest: seq<string>, sep: string)
    requires rest != []
    ensures Join([piece] + rest, sep) == piece + sep + Join(rest, sep)
  {
    assert ([piece] + rest)[1..] == rest;
  }

  /** Pieces that are what a leftmost, non-overlapping scan for `search`
      leaves between its matches: no piece contains `search`, and no
      occurrence starts inside a piece and runs into the match after it. */
  predicate LeftmostPieces(pieces: seq<string>, search: string)
    requires search != []
  {
    && (forall k :: 0 <= k < |pieces| ==> !Contains(pieces[k], search))
    && (forall k :: 0 <= k < |pieces| - 1 ==> !Contains(pieces[k] + search[..|search| - 1], search))
  }

  /** From `from` on, joining the pieces with the pattern gives back the text. */
  ghost predicate JoinRestores(s: string, search: string, from: nat)
    requires search != [] && from <= |s|
  {
    Join(Split(s, search, from), search) == s[from..]
  }

  /** A text is the part before a match, the match and the part after it. */
  lemma AroundMatch(s: string, search: string, from: nat, p: nat)
    requires from <= p && OccursAt(s, search, p)
    ensures s[from..] == s[from..p] + search + s[p + |search|..]
  {
  }

  /** One match step of `SplitJoin`. */
  lemma SplitJoinStep(s: string, search: string, from: nat, p: nat)
    requires search != [] && from <= |s| && IndexOf(s, search, from) == Some(p)
    requires JoinRestores(s, search, p + |search|)
    ensures JoinRestores(s, search, from)
  {
    IndexOfLeftmost(s, search, from);
    SplitMatch(s, search, from, p);
    JoinCons(s[from..p], Split(s, search, p + |search|), search);
    AroundMatch(s, search, from, p);
  }

  lemma {:induction false} SplitJoin(s: string, search: string, from: nat)
    requires search != [] && from <= |s|
    ensures JoinRestores(s, search, from)
    decreases |s| - from
  {
    var next := IndexOf(s, search, from);
    if next.None? {
      ReplaceFromNoMatch(s, search, "", from);
    } else {
      SplitJoin(s, search, next.value + |search|);
      SplitJoinStep(s, search, from, next.value);
    }
  }

  /** The last piece: no match starts at or after `from`. */
  lemma LastPieceAvoids(s: string, search: string, from: nat)
    requires search != [] && from <= |s| && IndexOf(s, search, from).None?
    ensures !Contains(s[from..], search)
  {
    var t, n := s[from..], |search|;
    IndexOfLeftmost(s, search, from);
    forall j | 0 <= j <= |t|
      ensures !OccursAt(t, search, j)
    {
      if j + n <= |t| {
        assert t == s[from..|s|];
        SliceOfSlice(s, from, |s|, j, j + n);
        assert !OccursAt(s, search, from + j);
      }
    }
  }

  /** If `u` starts at no index in `[lo, hi)`, the window that such starts
      could cover holds no occurrence of `u`. */
  lemma WindowAvoids(s: string, u: string, lo: nat, hi: nat)
    requires u != [] && lo <= hi && hi + |u| - 1 <= |s|
    requires forall j :: lo <= j < hi ==> !OccursAt(s, u, j)
    ensures !Contains(s[lo..hi + |u| - 1], u)
  {
    var w := s[lo..hi + |u| - 1];
    forall j | 0 <= j <= |w|
      ensures !OccursAt(w, u, j)
    {
      if j + |u| <= |w| {
        SliceOfSlice(s, lo, hi + |u| - 1, j, j + |u|);
        assert !OccursAt(s, u, lo + j);
      }
    }
  }

  /** A narrower window of a string that avoids `u` avoids it too. */
  lemma NarrowerAvoids(s: string, lo: nat, hi: nat, hi': nat, u: string)
    requires lo <= hi' <= hi <= |s| && !Contains(s[lo..hi], u)
    ensures !Contains(s[lo..hi'], u)
  {
    if Contains(s[lo..hi'], u) {
      SliceOfSlice(s, lo, hi, 0, hi' - lo);
      ContainsInSlice(s[lo..hi], 0, hi' - lo, u);
    }
  }

  /** The text before a match, followed by all but the last character of the
      match, is a window of `s`. */
  lemma MatchExtendsPiece(s: string, search: string, from: nat, p: nat)
    requires search != [] && from <= p && OccursAt(s, search, p)
    ensures s[from..p] + search[..|search| - 1] == s[from..p + |search| - 1]
  {
    assert search[..|search| - 1] == s[p..p + |search| - 1];
  }

  /** A piece before a match: no occurrence starts inside it, not even one
      that runs into the match. */
  lemma PieceBeforeMatchAvoids(s: string, search: string, from: nat, p: nat)
    requires search != [] && from <= |s| && IndexOf(s, search, from) == Some(p)
    ensures !Contains(s[from..p], search)
    ensures !Contains(s[from..p] + search[..|search| - 1], search)
  {
    IndexOfLeftmost(s, search, from);
    WindowAvoids(s, search, from, p);
    MatchExtendsPiece(s, search, from, p);
    NarrowerAvoids(s, from, p + |search| - 1, p, search);
  }

  lemma {:induction false} SplitLeftmost(s: string, search: string, from: nat)
    requires search != [] && from <= |s|
    ensures LeftmostPieces(Split(s, search, from), search)
    decreases |s| - from
  {
    match IndexOf(s, search, from)
    case None =>
      LastPieceAvoids(s, search, from);
    case Some(p) =>
      PieceBeforeMatchAvoids(s, search, from, p);
      SplitLeftmost(s, search, p + |search|);
      assert Split(s, search, from) == [s[from..p]] + Split(s, search, p + |search|);
  }

  /** With a non-empty pattern and a replacement without `$`, `replaceAll`
      replaces exactly the leftmost non-overlapping occurrences: `s` is the
      pieces joined by the pattern, and the result is the same pieces joined
      by the replacement. */
  lemma ReplaceFromNoMatch(s: string, search: string, replacement: string, from: nat)
    requires search != [] && from <= |s| && IndexOf(s, search, from).None?
    ensures ReplaceFrom(s, search, replacement, from) == s[from..]
    ensures Split(s, search, from) == [s[from..]]
    ensures ScanIsJoin(s, search, replacement, from)
  {
  }

  lemma SplitMatch(s: string, search: string, from: nat, p: nat)
    requires search != [] && from <= |s| && IndexOf(s, search, from) == Some(p)
    ensures p + |search| <= |s|
    ensures Split(s, search, from) == [s[from..p]] + Split(s, search, p + |search|)
  {
  }

  /** From `from` on, the scan produces the pieces joined by the replacement. */
  ghost predicate ScanIsJoin(s: string, search: string, replacement: string, from: nat)
    requires search != [] && from <= |s|
  {
    ReplaceFrom(s, search, replacement, from) == Join(Split(s, search, from), replacement)
  }

  /** One match step of the correspondence between the scan and the pieces. */
  lemma ReplaceFromStep(s: string, search: string, replacement: string, from: nat, p: nat)
    requires search != [] && from <= |s| && '$' !in replacement
    requires IndexOf(s, search, from) == Some(p)
    requires ScanIsJoin(s, search, replacement, p + |search|)
    ensures ScanIsJoin(s, search, replacement, from)
  {
    var n := |search|;
    ReplaceFromMatch(s, search, replacement, from, p);
    ExpandLiteral(replacement, search, s[..p], s[p + n..]);
    SplitMatch(s, search, from, p);
    JoinCons(s[from..p], Split(s, search, p + n), replacement);
  }

  lemma {:induction false} ReplaceFromIsJoin(s: string, search: string, replacement: string, from: nat)
    requires search != [] && from <= |s| && '$' !in replacement
    ensures ScanIsJoin(s, search, replacement, from)
    decreases |s| - from
  {
    var next := IndexOf(s, search, from);
    if next.None? {
      ReplaceFromNoMatch(s, search, replacement, from);
    } else {
      ReplaceFromIsJoin(s, search, replacement, next.value + |search|);
      ReplaceFromStep(s, search, replacement, from, next.value);
    }
  }

  lemma ReplaceAllReplacesEveryOccurrence(s: string, search: string, replacement: string)
    requires search != [] && '$' !in replacement
    ensures LeftmostPieces(Split(s, search, 0), search)
    ensures Join(Split(s, search, 0), search) == s
    ensures ReplaceAll(s, search, replacement) == Join(Split(s, search, 0), replacement)
  {
    SplitLeftmost(s, search, 0);
    SplitJoin(s, search, 0);
    ReplaceFromIsJoin(s, search, replacement, 0);
  }

  /** Joining pieces that do not contain `u` with a non-empty separator
      separated from `u` yields a string without `u`. */
  lemma {:induction false} JoinAvoids(pieces: seq<string>, sep: string, u: string)
    requires forall k :: 0 <= k < |pieces| ==> !Contains(pieces[k], u)
    requires pieces != [] && u != [] && sep != [] && Separated(u, sep)
    ensures !Contains(Join(pieces, sep), u)
  {
    if |pieces| > 1 {
      JoinAvoids(pieces[1..], sep, u);
      NoOccurrenceAcross(pieces[0], sep, Join(pieces[1..], sep), u);
    }
  }

  /** The pieces are slices of `s`, so what `s` does not contain, no piece contains. */
  lemma {:induction false} SplitPiecesAvoid(s: string, search: string, from: nat, v: string)
    requires search != [] && from <= |s| && !Contains(s, v)
    ensures forall k :: 0 <= k < |Split(s, search, from)| ==> !Contains(Split(s, search, from)[k], v)
    decreases |s| - from
  {
    match IndexOf(s, search, from)
    case None =>
      assert s[from..] == s[from..|s|];
      if Contains(s[from..], v) {
        ContainsInSlice(s, from, |s|, v);
      }
    case Some(p) =>
      SplitPiecesAvoid(s, search, p + |search|, v);
      if Contains(s[from..p], v) {
        ContainsInSlice(s, from, p, v);
      }
      assert Split(s, search, from) == [s[from..p]] + Split(s, search, p + |search|);
  }

  /** Replacing every `search` by a non-empty, `$`-free `replacement` that
      is separated from `search` leaves no `search` behind. */
  lemma ReplaceAllRemoves(s: string, search: string, replacement: string)
    requires search != [] && replacement != [] && '$' !in replacement
    requires Separated(search, replacement)
    ensures !Contains(ReplaceAll(s, search, replacement), search)
  {
    ReplaceAllReplacesEveryOccurrence(s, search, replacement);
    JoinAvoids(Split(s, search, 0), replacement, search);
  }

  /** Under the same conditions on the replacement, `replaceAll` does not
      bring back a string `v` that `s` does not contain. */
  lemma ReplaceAllKeepsAbsent(s: string, search: string, replacement: string, v: string)
    requires search != [] && replacement != [] && '$' !in replacement
    requires v != [] && Separated(v, replacement) && !Contains(s, v)
    ensures !Contains(ReplaceAll(s, search, replacement), v)
  {
    ReplaceFromIsJoin(s, search, replacement, 0);
    SplitPiecesAvoid(s, search, 0, v);
    JoinAvoids(Split(s, search, 0), replacement, v);
  }

  /** The characters of `s` from `from` on, one piece each. */
  function CharPieces(s: string, from: nat): (pieces: seq<string>)
    requires from <= |s|
    ensures |pieces| == |s| - from
    ensures forall i :: 0 <= i < |pieces| ==> pieces[i] == [s[from + i]]
    decreases |s| - from
  {
    if from == |s| then [] else [[s[from]]] + CharPieces(s, from + 1)
  }

  /** One step of the empty-pattern scan: the replacement, then the
      character at `from`, then the rest of the scan. */
  lemma ReplaceEmptyStep(s: string, replacement: string, from: nat)
    requires from < |s| && '$' !in replacement
    ensures ReplaceEmptyFrom(s, replacement, from)
      == replacement + [s[from]] + ReplaceEmptyFrom(s, replacement, from + 1)
  {
    ExpandLiteral(replacement, "", s[..from], s[from..]);
  }

  /** Putting one more character piece in front of the interleaving. */
  lemma InterleaveCons(c: char, rest: seq<string>, sep: string)
    ensures Join([""] + ([[c]] + rest) + [""], sep) == sep + [c] + Join([""] + rest + [""], sep)
  {
    assert [""] + ([[c]] + rest) + [""] == [""] + ([[c]] + (rest + [""]));
    assert [""] + rest + [""] == [""] + (rest + [""]);
    JoinCons("", [[c]] + (rest + [""]), sep);
    JoinCons([c], rest + [""], sep);
    JoinCons("", rest + [""], sep);
  }

  /** An empty pattern matches before every character and at the end: a
      `$`-free replacement goes before the first character, between each
      two characters and after the last one. */
  lemma {:induction false} ReplaceEmptyInterleaves(s: string, replacement: string, from: nat)
    requires from <= |s| && '$' !in replacement
    ensures ReplaceEmptyFrom(s, replacement, from) == Join([""] + CharPieces(s, from) + [""], replacement)
    decreases |s| - from
  {
    if from == |s| {
      ExpandLiteral(replacement, "", s[..from], s[from..]);
      assert [""] + CharPieces(s, from) + [""] == [""] + [""];
      JoinCons("", [""], replacement);
    } else {
      ReplaceEmptyInterleaves(s, replacement, from + 1);
      ReplaceEmptyStep(s, replacement, from);
      assert CharPieces(s, from) == [[s[from]]] + CharPieces(s, from + 1);
      InterleaveCons(s[from], CharPieces(s, from + 1), replacement);
    }
  }

  /** An empty pattern matches before every character and at the end, so a
      `$`-free replacement is inserted |s| + 1 times. */
  lemma {:induction false} ReplaceEmptySearchLength(s: string, replacement: string, from: nat)
    requires from <= |s| && '$' !in replacement
    ensures |ReplaceEmptyFrom(s, replacement, from)| == (|s| - from) + (|s| - from + 1) * |replacement|
    decreases |s| - from
  {
    ExpandLiteral(replacement, "", s[..from], s[from..]);
    if from < |s| {
      ReplaceEmptySearchLength(s, replacement, from + 1);
    }
  }

  /** Removing an occurrence can join its neighbours into a new one:
      `"aabb".replaceAll("ab", "b")` is `"abb"`, which still contains `"ab"`
      although the replacement does not. */
  lemma ReplaceAllCanCreateOccurrence()
    ensures !Contains("b", "ab")
    ensures ReplaceAll("aabb", "ab", "b") == "abb"
    ensures Contains("abb", "ab")
  {
    var s := "aabb";
    assert s[0..2] == ['a', 'a'] && s[1..3] == ['a', 'b'];
    assert IndexOf(s, "ab", 1) == Some(1);
    assert IndexOf(s, "ab", 0) == Some(1);
    assert IndexOf(s, "ab", 3) == None;
    ExpandLiteral("b", "ab", s[..1], s[3..]);
    assert OccursAt("abb", "ab", 0);
    assert forall j :: 0 <= j <= 1 ==> !OccursAt("b", "ab", j);
  }

  /** A `$&` in the replacement re-inserts the matched text: replacing
      every `"a.png"` by `"$&"` leaves `"a.png"` as it was. */
  lemma ReplaceAllExpandsMatch()
    ensures ReplaceAll("a.png", "a.png", "$&") == "a.png"
  {
    assert OccursAt("a.png", "a.png", 0);
    assert IndexOf("a.png", "a.png", 0) == Some(0);
    assert IndexOf("a.png", "a.png", 5) == None;
  }
}
