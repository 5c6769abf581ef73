/** The three regular expressions of the program. Each is a fixed text in which
    `.` is Python's wildcard (any character but a line feed), followed by a greedy
    run of characters outside a stop set (`[^ \xa0]*` and the like). */
module Patterns {
  import opened Outcomes
  import opened Strings

  const NoBreakSpace: char := '\U{A0}'

  /** A literal prefix (with `.` as wildcard) and the characters that end the run after it. */
  datatype Pattern = Pattern(literal: string, stop: set<char>)

  /** `https://nitter.net/pic/[^ \xa0\"]*`: a picture on the feed gateway. */
  const PictureUrl := Pattern("https://nitter.net/pic/", {' ', NoBreakSpace, '"'})
  /** `http[^ \xa0]*`: a URL-like token. */
  const LinkToken := Pattern("http", {' ', NoBreakSpace})
  /** `pic.twitter.com[^ \xa0]*`: an embedded picture short link. */
  const PicTwitterToken := Pattern("pic.twitter.com", {' ', NoBreakSpace})

  /** A half-open range `[start, end)` of a text. */
  datatype Span = Span(start: nat, end: nat)

  predicate CharMatches(p: char, c: char) {
    if p == '.' then c != '\n' else c == p
  }

  /** The literal part of a pattern matches `s` at index `i`. */
  predicate LiteralAt(s: string, literal: string, i: nat) {
    i + |literal| <= |s| && forall k :: 0 <= k < |literal| ==> CharMatches(literal[k], s[i + k])
  }

  /** Where the greedy run of characters outside `stop` that starts at `j` ends. */
  function RunEnd(s: string, j: nat, stop: set<char>): (e: nat)
    requires j <= |s|
    ensures j <= e <= |s|
    ensures forall k :: j <= k < e ==> s[k] !in stop
    ensures e == |s| || s[e] in stop
    decreases |s| - j
  {
    if j == |s| || s[j] in stop then j else RunEnd(s, j + 1, stop)
  }

  /** `sp` is the match of `p` that starts at `sp.start`. */
  predicate IsMatch(s: string, p: Pattern, sp: Span) {
    && LiteralAt(s, p.literal, sp.start)
    && sp.end == RunEnd(s, sp.start + |p.literal|, p.stop)
  }

  /** `re.search` from index `from`: the leftmost position where the literal
      matches, extended by the greedy run. */
  function Search(s: string, p: Pattern, from: nat): (r: Option<Span>)
    ensures r.Some? ==> && IsMatch(s, p, r.value)
                        && from <= r.value.start
                        && r.value.start + |p.literal| <= r.value.end <= |s|
                        && forall i :: from <= i < r.value.start ==> !LiteralAt(s, p.literal, i)
    ensures r.None? ==> forall i :: from <= i ==> !LiteralAt(s, p.literal, i)
    decreases |s| - from
  {
    if from + |p.literal| > |s| then None
    else if LiteralAt(s, p.literal, from) then Some(Span(from, RunEnd(s, from + |p.literal|, p.stop)))
    else Search(s, p, from + 1)
  }

  /** `t` is the text of the match of `p` at `i`, and the literal matches at no
      index before `i`. */
  ghost predicate LeftmostMatchAt(s: string, p: Pattern, i: nat, t: string) {
    && i + |t| <= |s|
    && s[i..i + |t|] == t
    && IsMatch(s, p, Span(i, i + |t|))
    && forall j :: 0 <= j < i ==> !LiteralAt(s, p.literal, j)
  }

  /** The text of the first match of `p` in `s`, as `m.group(0)` after `re.search`:
      it starts at the leftmost index where the literal matches and runs to the end
      of the greedy run. */
  function FirstToken(s: string, p: Pattern): (r: Option<string>)
    ensures r.Some? ==> && LiteralAt(r.value, p.literal, 0)
                        && forall k :: |p.literal| <= k < |r.value| ==> r.value[k] !in p.stop
    ensures r.Some? ==> Contains(s, r.value)
    ensures r.Some? ==> exists i: nat :: LeftmostMatchAt(s, p, i, r.value)
    ensures r.None? <==> forall i :: 0 <= i ==> !LiteralAt(s, p.literal, i)
  {
    match Search(s, p, 0)
    case None => None
    case Some(sp) =>
      var t := s[sp.start..sp.end];
      assert OccursAt(s, t, sp.start);
      assert Span(sp.start, sp.start + |t|) == sp;
      assert LeftmostMatchAt(s, p, sp.start, t);
      Some(t)
  }

  /** `re.finditer`: the matches of `p` from `from` on, left to right; after a
      match the scan resumes where it ended. */
  function FindAll(s: string, p: Pattern, from: nat): (r: seq<Span>)
    requires |p.literal| > 0 && from <= |s|
    ensures forall k :: 0 <= k < |r| ==> IsMatch(s, p, r[k]) && from <= r[k].start
    ensures forall k :: 0 <= k < |r| ==> r[k].start + |p.literal| <= r[k].end <= |s|
    ensures forall k :: 0 < k < |r| ==> r[k - 1].end <= r[k].start
    decreases |s| - from
  {
    match Search(s, p, from)
    case None => []
    case Some(sp) =>
      var rest := FindAll(s, p, sp.end);
      assert forall k :: 0 < k <= |rest| ==> ([sp] + rest)[k] == rest[k - 1];
      [sp] + rest
  }

  /** No match is skipped: every position where the literal matches lies inside
      one of the reported matches. */
  lemma {:induction false} FindAllCovers(s: string, p: Pattern, from: nat, i: nat)
    requires |p.literal| > 0 && from <= |s|
    requires from <= i && LiteralAt(s, p.literal, i)
    ensures exists k :: 0 <= k < |FindAll(s, p, from)| && FindAll(s, p, from)[k].start <= i < FindAll(s, p, from)[k].end
    decreases |s| - from
  {
    var r := FindAll(s, p, from);
    match Search(s, p, from)
    case None =>
      assert false;
    case Some(sp) =>
      var rest := FindAll(s, p, sp.end);
      assert r == [sp] + rest;
      if i < sp.end {
        assert r[0] == sp;
      } else {
        FindAllCovers(s, p, sp.end, i);
        var k :| 0 <= k < |rest| && rest[k].start <= i < rest[k].end;
        assert r[k + 1] == rest[k];
      }
  }

  /** The texts of the matches, in the order `re.finditer` yields them. */
  function Tokens(s: string, spans: seq<Span>): (r: seq<string>)
    requires forall k :: 0 <= k < |spans| ==> spans[k].start <= spans[k].end <= |s|
    ensures |r| == |spans|
    ensures forall k :: 0 <= k < |r| ==> r[k] == s[spans[k].start..spans[k].end]
  {
    seq(|spans|, k requires 0 <= k < |spans| => s[spans[k].start..spans[k].end])
  }

  lemma MatchText(s: string, p: Pattern, sp: Span)
    requires IsMatch(s, p, sp) && sp.start + |p.literal| <= sp.end <= |s|
    ensures LiteralAt(s[sp.start..sp.end], p.literal, 0)
  {
    var t := s[sp.start..sp.end];
    forall k | 0 <= k < |p.literal| ensures CharMatches(p.literal[k], t[k]) {
      assert t[k] == s[sp.start + k];
    }
  }

  lemma NoSpansNoLiteral(s: string, p: Pattern)
    requires |p.literal| > 0 && FindAll(s, p, 0) == []
    ensures forall i :: 0 <= i ==> !LiteralAt(s, p.literal, i)
  {
    forall i | 0 <= i && LiteralAt(s, p.literal, i) ensures false {
      FindAllCovers(s, p, 0, i);
    }
  }

  lemma TokenOccurs(s: string, spans: seq<Span>, k: nat)
    requires forall j :: 0 <= j < |spans| ==> spans[j].start <= spans[j].end <= |s|
    requires k < |spans|
    ensures Contains(s, Tokens(s, spans)[k])
  {
    assert OccursAt(s, Tokens(s, spans)[k], spans[k].start);
  }

  lemma TokensFacts(s: string, p: Pattern)
    requires |p.literal| > 0
    ensures var r := Tokens(s, FindAll(s, p, 0));
            && (forall k :: 0 <= k < |r| ==> LiteralAt(r[k], p.literal, 0))
            && (forall k :: 0 <= k < |r| ==> Contains(s, r[k]))
            && (r == [] <==> forall i :: 0 <= i ==> !LiteralAt(s, p.literal, i))
  {
    var spans := FindAll(s, p, 0);
    var tokens := Tokens(s, spans);
    forall k | 0 <= k < |tokens| ensures LiteralAt(tokens[k], p.literal, 0) {
      MatchText(s, p, spans[k]);
    }
    forall k: nat | k < |tokens| ensures Contains(s, tokens[k]) {
      TokenOccurs(s, spans, k);
    }
    if tokens == [] {
      NoSpansNoLiteral(s, p);
    }
  }

  /** `r` are the texts of matches of `p` in `s` at the positions `pos`: each
      runs from its position to the end of the greedy run, and they come in
      textual order without overlapping. */
  ghost predicate MatchedInOrder(s: string, p: Pattern, r: seq<string>, pos: seq<nat>) {
    && |pos| == |r|
    && (forall k :: 0 <= k < |r| ==>
          && pos[k] + |r[k]| <= |s|
          && s[pos[k]..pos[k] + |r[k]|] == r[k]
          && IsMatch(s, p, Span(pos[k], pos[k] + |r[k]|)))
    && (forall k :: 0 < k < |r| ==> pos[k - 1] + |r[k - 1]| <= pos[k])
  }

  /** The texts `re.finditer` yields over the whole of `s`: each is a match of the
      pattern found in `s`, and there are none exactly when the literal occurs
      nowhere. */
  function AllTokens(s: string, p: Pattern): (r: seq<string>)
    requires |p.literal| > 0
    ensures forall k :: 0 <= k < |r| ==> LiteralAt(r[k], p.literal, 0)
    ensures forall k :: 0 <= k < |r| ==> Contains(s, r[k])
    ensures r == [] <==> forall i :: 0 <= i ==> !LiteralAt(s, p.literal, i)
  {
    TokensFacts(s, p);
    Tokens(s, FindAll(s, p, 0))
  }

  /** The start positions of some spans. */
  function Starts(spans: seq<Span>): (pos: seq<nat>)
    ensures |pos| == |spans|
    ensures forall k :: 0 <= k < |spans| ==> pos[k] == spans[k].start
  {
    seq(|spans|, k requires 0 <= k < |spans| => spans[k].start)
  }

  lemma SpanTextAt(s: string, p: Pattern, spans: seq<Span>, k: int)
    requires forall j :: 0 <= j < |spans| ==> IsMatch(s, p, spans[j]) && spans[j].start <= spans[j].end <= |s|
    requires 0 <= k < |spans|
    ensures var r, pos := Tokens(s, spans), Starts(spans);
            && pos[k] + |r[k]| == spans[k].end <= |s|
            && s[pos[k]..pos[k] + |r[k]|] == r[k]
            && IsMatch(s, p, Span(pos[k], pos[k] + |r[k]|))
  {
    assert Span(spans[k].start, spans[k].end) == spans[k];
  }

  /** The tokens of a run of non-overlapping matches, with their starts. */
  lemma {:induction false} SpansInOrder(s: string, p: Pattern, spans: seq<Span>)
    requires forall j :: 0 <= j < |spans| ==> IsMatch(s, p, spans[j]) && spans[j].start <= spans[j].end <= |s|
    requires forall j :: 0 < j < |spans| ==> spans[j - 1].end <= spans[j].start
    ensures MatchedInOrder(s, p, Tokens(s, spans), Starts(spans))
  {
    var r, pos := Tokens(s, spans), Starts(spans);
    SpanTexts(s, p, spans);
    forall k | 0 < k < |r| ensures pos[k - 1] + |r[k - 1]| <= pos[k] {
      SpanTextAt(s, p, spans, k - 1);
    }
  }

  lemma SpanTexts(s: string, p: Pattern, spans: seq<Span>)
    requires forall j :: 0 <= j < |spans| ==> IsMatch(s, p, spans[j]) && spans[j].start <= spans[j].end <= |s|
    ensures var r, pos := Tokens(s, spans), Starts(spans);
            forall k :: 0 <= k < |r| ==>
              && pos[k] + |r[k]| <= |s|
              && s[pos[k]..pos[k] + |r[k]|] == r[k]
              && IsMatch(s, p, Span(pos[k], pos[k] + |r[k]|))
  {
    var r, pos := Tokens(s, spans), Starts(spans);
    forall k | 0 <= k < |r|
      ensures && pos[k] + |r[k]| <= |s|
              && s[pos[k]..pos[k] + |r[k]|] == r[k]
              && IsMatch(s, p, Span(pos[k], pos[k] + |r[k]|))
    {
      SpanTextAt(s, p, spans, k);
    }
  }

  /** Every index where the literal matches lies inside one of the texts `r` at
      the positions `pos`. */
  ghost predicate CoversLiterals(s: string, p: Pattern, r: seq<string>, pos: seq<nat>) {
    && |pos| == |r|
    && forall i: nat :: LiteralAt(s, p.literal, i) ==>
         exists k :: 0 <= k < |r| && pos[k] <= i < pos[k] + |r[k]|
  }

  lemma SpansCover(s: string, p: Pattern)
    requires |p.literal| > 0
    ensures CoversLiterals(s, p, Tokens(s, FindAll(s, p, 0)), Starts(FindAll(s, p, 0)))
  {
    var spans := FindAll(s, p, 0);
    var r, pos := Tokens(s, spans), Starts(spans);
    forall i: nat | LiteralAt(s, p.literal, i)
      ensures exists k :: 0 <= k < |r| && pos[k] <= i < pos[k] + |r[k]|
    {
      SpanCovers(s, p, i);
    }
  }

  lemma SpanCovers(s: string, p: Pattern, i: nat)
    requires |p.literal| > 0 && LiteralAt(s, p.literal, i)
    ensures var spans := FindAll(s, p, 0);
            var r, pos := Tokens(s, spans), Starts(spans);
            exists k :: 0 <= k < |r| && pos[k] <= i < pos[k] + |r[k]|
  {
    var spans := FindAll(s, p, 0);
    FindAllCovers(s, p, 0, i);
    var k :| 0 <= k < |spans| && spans[k].start <= i < spans[k].end;
    SpanBounds(s, spans, k);
  }

  lemma SpanBounds(s: string, spans: seq<Span>, k: nat)
    requires forall j :: 0 <= j < |spans| ==> spans[j].start <= spans[j].end <= |s|
    requires k < |spans|
    ensures Starts(spans)[k] == spans[k].start
    ensures Starts(spans)[k] + |Tokens(s, spans)[k]| == spans[k].end
  {
  }

  /** The tokens come in textual order: at strictly increasing, non-overlapping
      positions, each running from the literal to the end of the greedy run; and
      none is skipped: every index where the literal matches lies inside one of
      them. */
  lemma AllTokensInOrder(s: string, p: Pattern)
    requires |p.literal| > 0
    ensures exists pos :: MatchedInOrder(s, p, AllTokens(s, p), pos) && CoversLiterals(s, p, AllTokens(s, p), pos)
  {
    SpansInOrder(s, p, FindAll(s, p, 0));
    SpansCover(s, p);
    var pos := Starts(FindAll(s, p, 0));
    assert MatchedInOrder(s, p, AllTokens(s, p), pos) && CoversLiterals(s, p, AllTokens(s, p), pos);
  }
}
