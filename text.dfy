/** The entry transformer: how one feed entry becomes the text of a post. */
module Toots {
  import opened Outcomes
  import opened Strings
  import opened Patterns

  /** One feed entry, as far as the program reads it. `published` is the
      publication time in whole seconds (a `struct_time` has no fraction). */
  datatype Entry = Entry(id: string, title: string, summary: string, author: string,
                         firstAuthorName: string, link: string, published: int)

  const GatewayBase := "https://nitter.net/"

  /** The feed gateway's truncation artifact: a no-break space followed by the
      UTF-8 bytes of an ellipsis read as cp1252 (`\xa0â€¦`). */
  const Ellipsis: string := [NoBreakSpace, '\U{E2}', '\U{20AC}', '\U{A6}']

  /** `source[:4] == 'http'`. */
  predicate IsFeedUrl(source: string) {
    |source| >= 4 && source[..4] == "http"
  }

  /** The feed to read and the account the run is bound to (`twitter`): a source
      starting with `http` is a feed URL and binds no account; anything else is a
      handle whose gateway feed is read. */
  function ResolveSource(source: string): (r: (string, Option<string>))
    ensures r.1.None? <==> IsFeedUrl(source)
    ensures r.1.Some? ==> r.1.value == source
    ensures IsFeedUrl(r.0)
    ensures r.0 == source <==> IsFeedUrl(source)
    ensures !IsFeedUrl(source) ==> r.0 == GatewayBase + source + "/rss"
  {
    if IsFeedUrl(source) then (source, None)
    else (GatewayBase + source + "/rss", Some(source))
  }

  function RetweetLine(author: string): string {
    "RT " + GatewayBase + author + "\n"
  }

  /** The run is bound to an account (a non-empty handle: an empty string is
      false in Python) and the entry's author is not that account, compared
      case-insensitively against `(@handle)`. */
  predicate IsRetweet(author: string, twitter: Option<string>) {
    twitter.Some? && twitter.value != "" && Lower(author) != Lower("(@" + twitter.value + ")")
  }

  /** The retweet-attribution step: a line pointing at the author's gateway
      profile is put in front of the title of a retweet. */
  function Attribute(title: string, author: string, twitter: Option<string>): string {
    if IsRetweet(author, twitter) then RetweetLine(author) + title else title
  }

  /** The attribution step under the source mode: the title gains a prefix
      exactly when the source is a non-empty bare handle (not a feed URL) whose
      `(@handle)` differs from the author ignoring case, and that prefix is the
      line `RT https://nitter.net/<author>`; the title itself always ends the
      result. */
  lemma AttributionIff(title: string, author: string, source: string)
    ensures var r := Attribute(title, author, ResolveSource(source).1);
            && |r| >= |title| && r[|r| - |title|..] == title
            && (r != title <==> && !IsFeedUrl(source) && source != ""
                                && Lower(author) != Lower("(@" + source + ")"))
            && (r != title ==> r == "RT https://nitter.net/" + author + "\n" + title)
  {
    var r := Attribute(title, author, ResolveSource(source).1);
    if IsRetweet(author, ResolveSource(source).1) {
      assert r == RetweetLine(author) + title;
      assert |r| > |title|;
      assert r[|r| - |title|..] == title;
    } else {
      assert r[|r| - |title|..] == title[0..] == title;
    }
  }

  /** The handle comparison ignores letter case: handles that differ only in case
      attribute exactly the same entries, and an entry written by the bound
      account itself is never attributed. */
  lemma RetweetIgnoresCase(author: string, h1: string, h2: string)
    requires Lower(h1) == Lower(h2)
    ensures IsRetweet(author, Some(h1)) <==> IsRetweet(author, Some(h2))
    ensures !IsRetweet("(@" + h2 + ")", Some(h1))
  {
    assert |Lower(h1)| == |h1| && |Lower(h2)| == |h2|;
    LowerConcat("(@", h1);
    LowerConcat("(@" + h1, ")");
    LowerConcat("(@", h2);
    LowerConcat("(@" + h2, ")");
  }

  lemma RunEndPast(s: string, j: nat, m: nat, stop: set<char>)
    requires j <= m <= |s|
    requires forall k :: j <= k < m ==> s[k] !in stop
    ensures RunEnd(s, j, stop) >= m
    decreases m - j
  {
    if j < m {
      RunEndPast(s, j + 1, m, stop);
    }
  }

  /** A text opening with `RT ` has no `http` at its first three indices. */
  lemma NoLinkInRetweetMark(s: string)
    requires |s| >= 3 && s[0] == 'R' && s[1] == 'T' && s[2] == ' '
    ensures !LiteralAt(s, "http", 0) && !LiteralAt(s, "http", 1) && !LiteralAt(s, "http", 2)
  {
    assert "http"[0] == 'h';
    assert !CharMatches("http"[0], s[0]);
    assert !CharMatches("http"[0], s[1]);
    assert !CharMatches("http"[0], s[2]);
  }

  /** The first URL-like token of a text that opens with the attribution line's
      `RT ` and gateway address starts at index 3, with the whole address. */
  lemma ProfileLinkFirst(s: string)
    requires |s| >= 3 + |GatewayBase| && s[..3 + |GatewayBase|] == "RT " + GatewayBase
    ensures var t := FirstToken(s, LinkToken);
            t.Some? && |t.value| >= |GatewayBase| && t.value[..|GatewayBase|] == GatewayBase
  {
    var n := 3 + |GatewayBase|;
    var head := s[..n];
    assert s[0] == head[0] == 'R' && s[1] == head[1] == 'T' && s[2] == head[2] == ' ';
    assert s[3..n] == head[3..] == GatewayBase;
    NoLinkInRetweetMark(s);
    assert LiteralAt(s, "http", 3) by {
      forall k | 0 <= k < 4 ensures CharMatches("http"[k], s[3 + k]) {
        assert s[3 + k] == GatewayBase[k];
      }
    }
    forall k | 7 <= k < n ensures s[k] !in LinkToken.stop {
      assert s[k] == GatewayBase[k - 3];
    }
    RunEndPast(s, 7, n, LinkToken.stop);
    var e := RunEnd(s, 7, LinkToken.stop);
    assert Search(s, LinkToken, 3) == Some(Span(3, e));
    assert Search(s, LinkToken, 2) == Search(s, LinkToken, 3);
    assert Search(s, LinkToken, 1) == Search(s, LinkToken, 2);
    assert Search(s, LinkToken, 0) == Search(s, LinkToken, 1);
    var t := s[3..e];
    assert FirstToken(s, LinkToken) == Some(t);
    assert t[..|GatewayBase|] == s[3..n];
  }

  /** On a retweet, the first URL-like token is the gateway profile link of the
      attribution line (glued to the first word of the title across the line
      feed, which the token's character class does not exclude), so the link
      probe never sees a link of the title itself. */
  lemma RetweetProbesProfileLink(title: string, author: string, twitter: Option<string>)
    requires IsRetweet(author, twitter)
    ensures var t := FirstToken(Attribute(title, author, twitter), LinkToken);
            t.Some? && |t.value| >= |GatewayBase| && t.value[..|GatewayBase|] == GatewayBase
  {
    var prefix := "RT " + GatewayBase;
    var s := prefix + (author + "\n" + title);
    assert s == Attribute(title, author, twitter);
    assert s[..|prefix|] == prefix;
    ProfileLinkFirst(s);
  }

  /** What the redirect probe answers: the status code and the `Location` header. */
  datatype Response = Response(status: int, location: Option<string>)

  predicate IsRedirect(status: int) {
    status == 301 || status == 302
  }

  /** The first URL-like token is answered by a redirect to a different place. */
  predicate RewritesLink(title: string, probe: string -> CallResult<Response>) {
    var t := FirstToken(title, LinkToken);
    && t.Some?
    && probe(t.value).Ok?
    && IsRedirect(probe(t.value).value.status)
    && probe(t.value).value.location.Some?
    && probe(t.value).value.location.value != t.value
  }

  /** Link de-shortening: the first URL-like token is probed without following
      redirects; on a 301 or 302 every occurrence of that token is replaced by the
      `Location` header. A probe that raises, or a redirect without a `Location`
      header (`str.replace` then gets `None`), raises. */
  function ReplaceShortLinks(title: string, probe: string -> CallResult<Response>): (r: CallResult<string>)
    ensures r.Raised? <==> && FirstToken(title, LinkToken).Some?
                           && var answer := probe(FirstToken(title, LinkToken).value);
                              || answer.Raised?
                              || (IsRedirect(answer.value.status) && answer.value.location.None?)
    ensures r.Ok? ==> (r.value != title <==> RewritesLink(title, probe))
    ensures r.Ok? && RewritesLink(title, probe) ==>
              var t := FirstToken(title, LinkToken).value;
              r.value == ReplaceAll(title, t, probe(t).value.location.value)
  {
    match FirstToken(title, LinkToken)
    case None => Ok(title)
    case Some(url) =>
      match probe(url)
      case Raised => Raised
      case Ok(answer) =>
        if !IsRedirect(answer.status) then Ok(title)
        else
          match answer.location
          case None => Raised
          case Some(target) =>
            ReplaceUnchangedIff(title, url, target);
            Ok(ReplaceAll(title, url, target))
  }

  /** The first `pic.twitter.com` token, if any, is replaced by a space wherever
      it occurs; a title without one is returned unchanged. */
  function RemovePicLink(title: string): (r: string)
    ensures r == title <==> FirstToken(title, PicTwitterToken).None?
    ensures var t := FirstToken(title, PicTwitterToken);
            t.Some? ==> r == ReplaceAll(title, t.value, " ")
    ensures var t := FirstToken(title, PicTwitterToken);
            t.Some? && ' ' !in t.value ==> !Contains(r, t.value)
  {
    match FirstToken(title, PicTwitterToken)
    case None => title
    case Some(t) =>
      ReplaceUnchangedIff(title, t, " ");
      if ' ' in t then ReplaceAll(title, t, " ")
      else
        ReplaceLeavesNone(title, t, " ");
        ReplaceAll(title, t, " ")
  }

  /** Only the first token is removed: after a separator that the token does not
      hold, a rest of the title that does not contain the token (another picture
      link, say) is kept verbatim. */
  lemma RemovePicLinkKeepsRest(head: string, sep: char, rest: string)
    requires FirstToken(head + [sep] + rest, PicTwitterToken).Some?
    requires var t := FirstToken(head + [sep] + rest, PicTwitterToken).value;
             sep !in t && !Contains(rest, t)
    ensures var t := FirstToken(head + [sep] + rest, PicTwitterToken).value;
            RemovePicLink(head + [sep] + rest) == ReplaceAll(head, t, " ") + [sep] + rest
  {
    var t := FirstToken(head + [sep] + rest, PicTwitterToken).value;
    ReplaceAround(head, sep, rest, t, " ");
    ReplaceAbsent(rest, t, " ");
  }

  /** Trash removal: the picture short link, then every truncation artifact,
      each replaced by a space. No artifact is left. */
  function RemoveTitleTrash(title: string): (r: string)
    ensures r == ReplaceAll(RemovePicLink(title), Ellipsis, " ")
    ensures !Contains(r, Ellipsis)
    ensures FirstToken(title, PicTwitterToken).None? && !Contains(title, Ellipsis) ==> r == title
  {
    var s := RemovePicLink(title);
    ReplaceLeavesNone(s, Ellipsis, " ");
    ReplaceUnchangedIff(s, Ellipsis, " ");
    ReplaceAll(s, Ellipsis, " ")
  }

  /** The attribution footer of a generic feed. */
  function SourceFooter(e: Entry): string {
    "\nSource: " + e.firstAuthorName + "\n\n" + e.link
  }

  /** The tag block: a line feed and the tags joined by spaces, or nothing. */
  function TagBlock(tags: seq<string>): (r: string)
    ensures r == "" <==> tags == []
    ensures tags != [] ==> r[0] == '\n'
  {
    if |tags| > 0 then "\n" + Join(tags, ' ') else ""
  }

  /** The tags can be read back from the block when none of them holds a space. */
  lemma TagBlockRoundTrip(tags: seq<string>)
    requires tags != []
    requires forall k :: 0 <= k < |tags| ==> ' ' !in tags[k]
    ensures Split(TagBlock(tags)[1..], ' ') == tags
  {
    assert TagBlock(tags)[1..] == Join(tags, ' ');
    SplitJoin(tags, ' ');
  }

  /** A concatenation splits back into its two parts. */
  lemma ConcatParts(a: string, b: string)
    ensures |a + b| - |b| == |a|
    ensures (a + b)[..|a|] == a && (a + b)[|a|..] == b
  {
  }

  /** The whole text of a post, in the order of the program: attribution, link
      de-shortening, trash removal, the footer of a generic feed, the tag block. */
  function PostText(e: Entry, twitter: Option<string>, tags: string, probe: string -> CallResult<Response>): (r: CallResult<string>)
    ensures r.Raised? <==> ReplaceShortLinks(Attribute(e.title, e.author, twitter), probe).Raised?
    ensures r.Ok? ==> |r.value| >= |tags| && r.value[|r.value| - |tags|..] == tags
    ensures r.Ok? && twitter.None? ==>
              var body := r.value[..|r.value| - |tags|];
              |body| >= |SourceFooter(e)| && body[|body| - |SourceFooter(e)|..] == SourceFooter(e)
    ensures r.Ok? && twitter.Some? ==> !Contains(r.value[..|r.value| - |tags|], Ellipsis)
    ensures r.Ok? ==>
              r.value == RemoveTitleTrash(ReplaceShortLinks(Attribute(e.title, e.author, twitter), probe).value)
                         + (if twitter.None? then SourceFooter(e) else "") + tags
  {
    match ReplaceShortLinks(Attribute(e.title, e.author, twitter), probe)
    case Raised => Raised
    case Ok(linked) =>
      var cleaned := RemoveTitleTrash(linked);
      var body := if twitter.None? then cleaned + SourceFooter(e) else cleaned;
      ConcatParts(cleaned, SourceFooter(e));
      ConcatParts(body, tags);
      Ok(body + tags)
  }
}
