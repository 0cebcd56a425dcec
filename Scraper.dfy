/**
 * The scraper script (backend/src/scripts/scraper.ts): link discovery on the
 * home page, and the cleaning of one page's text before it is stored.
 *
 * `fetch` and cheerio are the datatype `Response`: what the request gave
 * back, and for a parsed page the texts cheerio reports once the script,
 * style and navigation elements are removed.
 */
module Scraper {
  import opened Wrappers
  import opened JsString
  import opened Database

  const BaseUrl: String := "https://www.koningsspelen.nl"

  /** The content selectors, in the order they are tried. */
  const ContentSelectors: seq<String> := ["main", ".content", ".main-content", "article", ".post-content", ".entry-content"]

  /** The file extensions `findUrls` skips, as its regex lists them. */
  const BlockedExtensions: seq<String> := ["pdf", "jpg", "jpeg", "png", "gif", "zip", "doc", "docx"]

  /** Pages shorter than this, in UTF-16 units, are not stored. */
  const MinContentLength: nat := 50

  /**
   * A page as cheerio sees it after the removal of script, style, nav,
   * header, footer, .menu and .navigation: the text of `title`, of the first
   * `h1` and of `body`; `select(sel)` is the text of the elements matching
   * `sel`, or `None` when none match; `links` the `href` of every `a[href]`.
   */
  datatype Page = Page(title: String, firstH1: String, body: String, select: String -> Option<String>, links: seq<String>)

  /** What `fetch` gave: an exception, or a response with its status and parsed page. */
  datatype Response = FetchFailed | Fetched(ok: bool, page: Page)

  datatype Scraped = Scraped(url: String, title: String, content: String)

  // ---------------------------------------------------------------- URLs

  /** An `href` resolved against the site: a path gets the site prefix, a site URL is kept, anything else is external. */
  function ResolveHref(href: String): (r: Option<String>)
    ensures r.Some? <==> StartsWith(href, "/") || StartsWith(href, BaseUrl)
    ensures r.Some? ==> StartsWith(r.value, BaseUrl) && EndsWith(r.value, href)
    ensures r.Some? && !StartsWith(href, "/") ==> r.value == href
  {
    if href == [] then None
    else if StartsWith(href, "/") then Some(BaseUrl + href)
    else if StartsWith(href, BaseUrl) then Some(href)
    else None
  }

  /** `url.split('#')[0].split('?')[0]`. */
  function CleanUrl(url: String): (r: String)
    ensures '#' !in r && '?' !in r
    ensures |r| <= |url| && r == url[..|r|]
    ensures |r| < |url| ==> url[|r|] == '#' || url[|r|] == '?'
  {
    BeforeFirst(BeforeFirst(url, '#'), '?')
  }

  /** Cleaning is idempotent: a cleaned URL has nothing left to strip. */
  lemma CleanUrlIdempotent(url: String)
    ensures CleanUrl(CleanUrl(url)) == CleanUrl(url)
  {
    var r := CleanUrl(url);
    NoSeparatorKept(r, '#');
    NoSeparatorKept(r, '?');
  }

  lemma {:induction false} NoSeparatorKept(s: String, c: char)
    requires c !in s
    ensures BeforeFirst(s, c) == s
  {
    if s != [] {
      NoSeparatorKept(s[1..], c);
    }
  }

  /** Cleaning never cuts into a prefix free of `#` and `?`. */
  lemma CleanUrlKeepsPrefix(p: String, rest: String)
    requires '#' !in p && '?' !in p
    ensures CleanUrl(p + rest) == p + CleanUrl(rest)
  {
    BeforeFirstKeepsPrefix(p, rest, '#');
    BeforeFirstKeepsPrefix(p, BeforeFirst(rest, '#'), '?');
  }

  lemma {:induction false} BeforeFirstKeepsPrefix(p: String, rest: String, c: char)
    requires c !in p
    ensures BeforeFirst(p + rest, c) == p + BeforeFirst(rest, c)
  {
    if p != [] {
      assert (p + rest)[1..] == p[1..] + rest;
      assert (p + rest)[0] == p[0] != c;
      BeforeFirstKeepsPrefix(p[1..], rest, c);
      assert p == [p[0]] + p[1..];
    } else {
      assert p + rest == rest;
    }
  }

  /** `/\.(pdf|jpg|jpeg|png|gif|zip|doc|docx)$/i`: ends in a dot and a listed extension, ignoring ASCII case. */
  predicate HasBlockedExtension(url: String) {
    EndsWithExtension(ToLowerAscii(url), BlockedExtensions)
  }

  /** `s` ends in a dot followed by one of `exts`. */
  predicate EndsWithExtension(s: String, exts: seq<String>) {
    exists i :: 0 <= i < |exts| && EndsWith(s, "." + exts[i])
  }

  /** `url.includes('/admin') || url.includes('/wp-')`. */
  predicate IsAdminPath(url: String) {
    Contains(url, "/admin") || Contains(url, "/wp-")
  }

  /** What one `a[href]` contributes to the set of URLs, if anything. */
  function LinkTarget(href: String): Option<String> {
    match ResolveHref(href)
    case None => None
    case Some(full) =>
      var url := CleanUrl(full);
      if HasBlockedExtension(url) || IsAdminPath(url) then None else Some(url)
  }

  /** Every URL a link contributes is on the site, free of fragment and query, and passes both filters. */
  lemma LinkTargetShape(href: String)
    ensures LinkTarget(href).Some? ==>
      var url := LinkTarget(href).value;
      StartsWith(url, BaseUrl) && '#' !in url && '?' !in url && !HasBlockedExtension(url) && !IsAdminPath(url)
  {
    var full := ResolveHref(href);
    if full.Some? {
      var rest := full.value[|BaseUrl|..];
      assert full.value == BaseUrl + rest;
      BaseUrlHasNoSeparator();
      CleanUrlKeepsPrefix(BaseUrl, rest);
    }
  }

  /** A link is dropped exactly when it is external, or its cleaned URL has a listed extension or an admin path. */
  lemma LinkTargetDropped(href: String)
    ensures LinkTarget(href).None? <==>
      ResolveHref(href).None? || HasBlockedExtension(CleanUrl(ResolveHref(href).value)) || IsAdminPath(CleanUrl(ResolveHref(href).value))
  {
  }

  /** `ToLowerAscii` leaves lower-case text alone. */
  lemma {:induction false} LowerAsciiFixed(s: String)
    requires forall i :: 0 <= i < |s| ==> !('A' <= s[i] <= 'Z')
    ensures ToLowerAscii(s) == s
  {
    if s != [] {
      LowerAsciiFixed(s[1..]);
    }
  }

  lemma {:induction false} LowerAsciiAppend(a: String, b: String)
    ensures ToLowerAscii(a + b) == ToLowerAscii(a) + ToLowerAscii(b)
  {
    if a != [] {
      assert (a + b)[1..] == a[1..] + b;
      LowerAsciiAppend(a[1..], b);
    } else {
      assert a + b == b;
    }
  }

  /** The extension filter ignores case: a URL is blocked exactly when its lower-cased form is. */
  lemma BlockedIgnoresCase(url: String)
    ensures HasBlockedExtension(url) <==> HasBlockedExtension(ToLowerAscii(url))
  {
    var low := ToLowerAscii(url);
    forall i | 0 <= i < |low|
      ensures ToLowerAscii(low)[i] == low[i]
    {
    }
    assert ToLowerAscii(low) == low;
  }

  lemma LowerAsciiDotSuffix(stem: String, ext: String)
    ensures ToLowerAscii(stem + "." + ext) == ToLowerAscii(stem) + "." + ToLowerAscii(ext)
  {
    var dot: String := ".";
    LowerAsciiAppend(stem + dot, ext);
    LowerAsciiAppend(stem, dot);
    LowerAsciiFixed(dot);
  }

  lemma ExtensionMatches(stem: String, ext: String, exts: seq<String>, i: nat)
    requires i < |exts| && ToLowerAscii(ext) == exts[i]
    ensures EndsWithExtension(ToLowerAscii(stem + "." + ext), exts)
  {
    var suffix := "." + exts[i];
    var low := ToLowerAscii(stem + "." + ext);
    assert low == ToLowerAscii(stem) + suffix by {
      LowerAsciiDotSuffix(stem, ext);
    }
    EndsWithAppended(ToLowerAscii(stem), suffix);
  }

  lemma EndsWithAppended(s: String, suffix: String)
    ensures EndsWith(s + suffix, suffix)
  {
    assert (s + suffix)[|s|..] == suffix;
  }

  /** Whatever comes before, a URL ending in a dot and a listed extension, in any ASCII case, is blocked. */
  lemma BlockedExtensionMatches(stem: String, ext: String, i: nat)
    requires i < |BlockedExtensions| && ToLowerAscii(ext) == BlockedExtensions[i]
    ensures HasBlockedExtension(stem + "." + ext)
  {
    ExtensionMatches(stem, ext, BlockedExtensions, i);
  }

  /** JavaScript's `Set.add` on a set kept in insertion order, as `Array.from` lists it. */
  function SetAdd(urls: seq<String>, url: String): (r: seq<String>)
    ensures url in r && forall u :: u in urls ==> u in r
    ensures forall u :: u in r ==> u in urls || u == url
    ensures |urls| <= |r| && r[..|urls|] == urls
  {
    if url in urls then urls else urls + [url]
  }

  /** No URL twice. */
  predicate Distinct(urls: seq<String>) {
    forall i, j :: 0 <= i < j < |urls| ==> urls[i] != urls[j]
  }

  lemma SetAddDistinct(urls: seq<String>, url: String)
    requires Distinct(urls)
    ensures Distinct(SetAdd(urls, url))
  {
  }

  /** What each link contributes, in document order. */
  function Targets(links: seq<String>): (ts: seq<Option<String>>)
    ensures |ts| == |links|
    ensures forall k :: 0 <= k < |links| ==> ts[k] == LinkTarget(links[k])
  {
    seq(|links|, k requires 0 <= k < |links| => LinkTarget(links[k]))
  }

  /** The set after adding each contributed URL in turn. */
  function Gather(targets: seq<Option<String>>): (urls: seq<String>)
    ensures |urls| <= |targets|
  {
    if targets == [] then []
    else
      var prev := Gather(targets[..|targets| - 1]);
      match targets[|targets| - 1]
      case None => prev
      case Some(url) => SetAdd(prev, url)
  }

  /** The set after visiting `links` in document order. */
  function Collected(links: seq<String>): seq<String> {
    Gather(Targets(links))
  }

  /** `findUrls` as the function of what fetching the home page gave back. */
  function FoundUrls(home: Response): (urls: seq<String>)
    ensures urls == [] <==> home.FetchFailed?
  {
    match home
    case FetchFailed => []
    case Fetched(_, page) => SetAdd(Collected(page.links), BaseUrl)
  }

  /**
   * `findUrls`: visits every `a[href]` of the home page, adds the URL each one
   * contributes to a set, then adds the home page itself. The status of the
   * response is not checked; a failed fetch leaves the set empty.
   */
  method FindUrls(home: Response) returns (urls: seq<String>)
    ensures urls == FoundUrls(home)
  {
    urls := [];
    if home.FetchFailed? {
      return;
    }
    var links := home.page.links;
    for k := 0 to |links|
      invariant urls == Gather(Targets(links)[..k])
    {
      assert Targets(links)[..k + 1][..k] == Targets(links)[..k];
      var href := links[k];
      if href == [] {
        continue;
      }
      var full: String;
      if StartsWith(href, "/") {
        full := BaseUrl + href;
      } else if StartsWith(href, BaseUrl) {
        full := href;
      } else {
        continue;
      }
      var url := CleanUrl(full);
      if HasBlockedExtension(url) || IsAdminPath(url) {
        continue;
      }
      if url !in urls {
        urls := urls + [url];
      }
    }
    assert Targets(links)[..|links|] == Targets(links);
    if BaseUrl !in urls {
      urls := urls + [BaseUrl];
    }
  }

  /** The set never holds a URL twice. */
  lemma {:induction false} GatherDistinct(targets: seq<Option<String>>)
    ensures Distinct(Gather(targets))
  {
    if targets != [] {
      GatherDistinct(targets[..|targets| - 1]);
      var t := targets[|targets| - 1];
      if t.Some? {
        SetAddDistinct(Gather(targets[..|targets| - 1]), t.value);
      }
    }
  }

  /** A URL is in the set exactly when some step contributed it. */
  lemma {:induction false} GatherMembers(targets: seq<Option<String>>, url: String)
    ensures url in Gather(targets) <==> exists k :: 0 <= k < |targets| && targets[k] == Some(url)
  {
    if targets != [] {
      var init := targets[..|targets| - 1];
      GatherMembers(init, url);
      if url in Gather(targets) {
        if url in Gather(init) {
          var k :| 0 <= k < |init| && init[k] == Some(url);
          assert targets[k] == init[k];
        } else {
          assert targets[|targets| - 1] == Some(url);
        }
      }
      if exists k :: 0 <= k < |targets| && targets[k] == Some(url) {
        var k :| 0 <= k < |targets| && targets[k] == Some(url);
        if k < |init| {
          assert init[k] == targets[k];
        }
      }
    }
  }

  /** A URL is collected exactly when some link contributes it. */
  lemma CollectedMembers(links: seq<String>, url: String)
    ensures url in Collected(links) <==> exists k :: 0 <= k < |links| && LinkTarget(links[k]) == Some(url)
  {
    GatherMembers(Targets(links), url);
  }

  /**
   * What `findUrls` promises: no URL twice; when the home page came back (any
   * status) it is among them, and so is exactly every URL a link contributes;
   * when the fetch failed the list is empty.
   */
  lemma FoundUrlsCorrect(home: Response)
    ensures Distinct(FoundUrls(home))
    ensures home.FetchFailed? ==> FoundUrls(home) == []
    ensures home.Fetched? ==> BaseUrl in FoundUrls(home)
    ensures home.Fetched? ==> forall url :: url in FoundUrls(home) <==>
      url == BaseUrl || exists k :: 0 <= k < |home.page.links| && LinkTarget(home.page.links[k]) == Some(url)
  {
    if home.Fetched? {
      GatherDistinct(Targets(home.page.links));
      SetAddDistinct(Collected(home.page.links), BaseUrl);
      forall url
        ensures url in FoundUrls(home) <==>
          url == BaseUrl || exists k :: 0 <= k < |home.page.links| && LinkTarget(home.page.links[k]) == Some(url)
      {
        CollectedMembers(home.page.links, url);
      }
    }
  }

  /** Every URL found is on the site and free of fragment and query, and every one but the home page passes both filters. */
  lemma FoundUrlsOnSite(home: Response)
    ensures forall url :: url in FoundUrls(home) ==> StartsWith(url, BaseUrl) && '#' !in url && '?' !in url
    ensures forall url :: url in FoundUrls(home) && url != BaseUrl ==> !HasBlockedExtension(url) && !IsAdminPath(url)
  {
    if home.Fetched? {
      BaseUrlHasNoSeparator();
      forall url | url in FoundUrls(home) && url != BaseUrl
        ensures StartsWith(url, BaseUrl) && '#' !in url && '?' !in url && !HasBlockedExtension(url) && !IsAdminPath(url)
      {
        CollectedShape(home.page.links, url);
      }
    }
  }

  lemma CollectedShape(links: seq<String>, url: String)
    requires url in Collected(links)
    ensures StartsWith(url, BaseUrl) && '#' !in url && '?' !in url && !HasBlockedExtension(url) && !IsAdminPath(url)
  {
    CollectedMembers(links, url);
    var k :| 0 <= k < |links| && LinkTarget(links[k]) == Some(url);
    LinkTargetShape(links[k]);
  }

  lemma BaseUrlHasNoSeparator()
    ensures '#' !in BaseUrl && '?' !in BaseUrl
  {
  }

  // ---------------------------------------------------------------- page text

  /** The position of the first selector, in priority order, that matches any element; `|selectors|` when none does. */
  function FirstMatch(select: String -> Option<String>, selectors: seq<String>): (i: nat)
    ensures i <= |selectors|
    ensures forall j :: 0 <= j < i ==> select(selectors[j]).None?
    ensures i < |selectors| ==> select(selectors[i]).Some?
  {
    if selectors == [] then 0
    else if select(selectors[0]).Some? then 0
    else 1 + FirstMatch(select, selectors[1..])
  }

  /** Each maximal run of whitespace replaced by one space: `replace(/\s+/g, ' ')`. */
  function CollapseWhitespace(s: String): (r: String)
    ensures forall i :: 0 <= i < |r| && IsWhitespace(r[i]) ==> r[i] == ' '
    ensures s != [] && !IsWhitespace(s[0]) ==> r != [] && r[0] == s[0]
    ensures s != [] && IsWhitespace(s[0]) ==> r != [] && r[0] == ' '
    ensures forall i :: 0 <= i < |r| - 1 ==> !(IsWhitespace(r[i]) && IsWhitespace(r[i + 1]))
    decreases |s|
  {
    if s == [] then []
    else if !IsWhitespace(s[0]) then [s[0]] + CollapseWhitespace(s[1..])
    else [' '] + CollapseWhitespace(s[LeadingWhitespace(s)..])
  }

  /** The characters of `s` that are not whitespace, in order. */
  function Words(s: String): String {
    if s == [] then []
    else if IsWhitespace(s[0]) then Words(s[1..])
    else [s[0]] + Words(s[1..])
  }

  lemma {:induction false} WordsOfWhitespace(s: String)
    requires AllWhitespace(s)
    ensures Words(s) == []
  {
    if s != [] {
      WordsOfWhitespace(s[1..]);
    }
  }

  lemma {:induction false} WordsAppend(a: String, b: String)
    ensures Words(a + b) == Words(a) + Words(b)
  {
    if a != [] {
      assert (a + b)[1..] == a[1..] + b;
      WordsAppend(a[1..], b);
    } else {
      assert a + b == b;
    }
  }

  /** Collapsing whitespace keeps every other character, in order. */
  lemma {:induction false} CollapseKeepsWords(s: String)
    ensures Words(CollapseWhitespace(s)) == Words(s)
    decreases |s|
  {
    if s != [] {
      if !IsWhitespace(s[0]) {
        CollapseKeepsWords(s[1..]);
        WordsAppend([s[0]], CollapseWhitespace(s[1..]));
      } else {
        var k := LeadingWhitespace(s);
        CollapseKeepsWords(s[k..]);
        WordsAppend([' '], CollapseWhitespace(s[k..]));
        assert s == s[..k] + s[k..];
        WordsOfWhitespace(s[..k]);
        WordsAppend(s[..k], s[k..]);
      }
    }
  }

  /** A string with only single spaces between its words is left as it is. */
  lemma {:induction false} CollapseIdempotent(s: String)
    requires forall i :: 0 <= i < |s| && IsWhitespace(s[i]) ==> s[i] == ' '
    requires forall i :: 0 <= i < |s| - 1 ==> !(IsWhitespace(s[i]) && IsWhitespace(s[i + 1]))
    ensures CollapseWhitespace(s) == s
  {
    if s != [] {
      CollapseIdempotent(s[1..]);
      if IsWhitespace(s[0]) {
        assert LeadingWhitespace(s) == 1;
      }
    }
  }

  /** A whitespace run of any length becomes exactly one space. */
  lemma {:induction false} CollapseRun(w: String)
    requires w != [] && AllWhitespace(w)
    ensures CollapseWhitespace(w) == " "
  {
    LeadingWhitespaceIs(w, |w|);
    assert w[|w|..] == [];
  }

  /** Collapsing works piece by piece when the cut does not fall inside a whitespace run. */
  lemma {:induction false} CollapseAppend(a: String, b: String)
    requires a == [] || b == [] || !IsWhitespace(a[|a| - 1]) || !IsWhitespace(b[0])
    ensures CollapseWhitespace(a + b) == CollapseWhitespace(a) + CollapseWhitespace(b)
    decreases |a|
  {
    if a == [] {
      assert a + b == b;
    } else if b == [] {
      assert a + b == a;
    } else if !IsWhitespace(a[0]) {
      assert a[1..] == [] || !IsWhitespace(a[1..][|a[1..]| - 1]) || !IsWhitespace(b[0]);
      CollapseAppend(a[1..], b);
      CollapseAfterWord(a, b);
    } else if LeadingWhitespace(a) == |a| {
      CollapseAfterRun(a, b);
    } else {
      var k := LeadingWhitespace(a);
      assert !IsWhitespace(a[k..][|a[k..]| - 1]) || !IsWhitespace(b[0]);
      CollapseAppend(a[k..], b);
      CollapseAfterLeadingRun(a, b);
    }
  }

  lemma {:induction false} CollapseAfterWord(a: String, b: String)
    requires a != [] && !IsWhitespace(a[0])
    requires CollapseWhitespace(a[1..] + b) == CollapseWhitespace(a[1..]) + CollapseWhitespace(b)
    ensures CollapseWhitespace(a + b) == CollapseWhitespace(a) + CollapseWhitespace(b)
  {
    var s := a + b;
    assert s[0] == a[0];
    SuffixOfAppend(a, b, 1);
    CollapseOfWord(s);
    CollapseOfWord(a);
    PrependAssociates(a[0], CollapseWhitespace(a[1..]), CollapseWhitespace(b));
  }

  lemma {:induction false} CollapseAfterRun(a: String, b: String)
    requires a != [] && LeadingWhitespace(a) == |a|
    requires b != [] && !IsWhitespace(b[0])
    ensures CollapseWhitespace(a + b) == CollapseWhitespace(a) + CollapseWhitespace(b)
  {
    var s := a + b;
    var k := |a|;
    assert LeadingWhitespace(s) == k by {
      assert forall i :: 0 <= i < k ==> s[i] == a[i];
      assert s[k] == b[0];
      LeadingWhitespaceIs(s, k);
    }
    assert s[k..] == b;
    assert a[k..] == [];
  }

  lemma {:induction false} CollapseAfterLeadingRun(a: String, b: String)
    requires a != [] && IsWhitespace(a[0]) && LeadingWhitespace(a) < |a|
    requires CollapseWhitespace(a[LeadingWhitespace(a)..] + b) == CollapseWhitespace(a[LeadingWhitespace(a)..]) + CollapseWhitespace(b)
    ensures CollapseWhitespace(a + b) == CollapseWhitespace(a) + CollapseWhitespace(b)
  {
    var k := LeadingWhitespace(a);
    var s := a + b;
    assert s[0] == a[0];
    LeadingRunInFirst(a, b);
    SuffixOfAppend(a, b, k);
    CollapseOfRun(s);
    CollapseOfRun(a);
    PrependAssociates(' ', CollapseWhitespace(a[k..]), CollapseWhitespace(b));
  }

  lemma {:induction false} CollapseOfWord(s: String)
    requires s != [] && !IsWhitespace(s[0])
    ensures CollapseWhitespace(s) == [s[0]] + CollapseWhitespace(s[1..])
  {
  }

  lemma {:induction false} CollapseOfRun(s: String)
    requires s != [] && IsWhitespace(s[0])
    ensures CollapseWhitespace(s) == [' '] + CollapseWhitespace(s[LeadingWhitespace(s)..])
  {
  }

  lemma PrependAssociates(c: char, x: String, y: String)
    ensures [c] + (x + y) == [c] + x + y
  {
  }

  /** Two pieces of text with a whitespace run between them come out with exactly one space between their collapsed forms: a run never vanishes. */
  lemma {:induction false} CollapseBetweenWords(a: String, w: String, b: String)
    requires a == [] || !IsWhitespace(a[|a| - 1])
    requires w != [] && AllWhitespace(w)
    requires b == [] || !IsWhitespace(b[0])
    ensures CollapseWhitespace(a + w + b) == CollapseWhitespace(a) + " " + CollapseWhitespace(b)
  {
    assert a + w + b == a + (w + b);
    CollapseRunBefore(w, b);
    CollapseAppend(a, w + b);
  }

  lemma {:induction false} CollapseRunBefore(w: String, b: String)
    requires w != [] && AllWhitespace(w)
    requires b == [] || !IsWhitespace(b[0])
    ensures CollapseWhitespace(w + b) == " " + CollapseWhitespace(b)
  {
    CollapseRun(w);
    CollapseAppend(w, b);
  }

  /** `content.replace(/\s+/g, ' ').trim()`. */
  function CleanText(s: String): (r: String)
    ensures IsTrimmed(r)
    ensures forall i :: 0 <= i < |r| && IsWhitespace(r[i]) ==> r[i] == ' '
    ensures forall i :: 0 <= i < |r| - 1 ==> !(IsWhitespace(r[i]) && IsWhitespace(r[i + 1]))
  {
    var c := CollapseWhitespace(s);
    TrimIsSlice(c);
    Trim(c)
  }

  /** Trimming removes only whitespace. */
  lemma {:induction false} WordsOfTrim(c: String)
    ensures Words(Trim(c)) == Words(c)
  {
    var a := LeadingWhitespace(c);
    var t := c[a..];
    var b := |t| - TrailingWhitespace(t);
    assert Trim(c) == t[..b];
    WordsAfterWhitespace(c, a);
    WordsBeforeWhitespace(t, b);
  }

  lemma {:induction false} WordsAfterWhitespace(c: String, a: nat)
    requires a <= |c| && forall i :: 0 <= i < a ==> IsWhitespace(c[i])
    ensures Words(c[a..]) == Words(c)
  {
    var w := c[..a];
    WhitespacePrefix(c, a);
    WordsOfWhitespace(w);
    SplitWords(c, a);
  }

  lemma {:induction false} WordsBeforeWhitespace(t: String, b: nat)
    requires b <= |t| && forall i :: b <= i < |t| ==> IsWhitespace(t[i])
    ensures Words(t[..b]) == Words(t)
  {
    var w := t[b..];
    WhitespaceSuffix(t, b);
    WordsOfWhitespace(w);
    SplitWords(t, b);
  }

  lemma {:induction false} WhitespacePrefix(c: String, a: nat)
    requires a <= |c| && forall i :: 0 <= i < a ==> IsWhitespace(c[i])
    ensures AllWhitespace(c[..a])
  {
  }

  lemma {:induction false} WhitespaceSuffix(t: String, b: nat)
    requires b <= |t| && forall i :: b <= i < |t| ==> IsWhitespace(t[i])
    ensures AllWhitespace(t[b..])
  {
    forall i | 0 <= i < |t| - b ensures IsWhitespace(t[b..][i]) { assert t[b..][i] == t[b + i]; }
  }

  lemma {:induction false} SplitWords(t: String, k: nat)
    requires k <= |t|
    ensures Words(t) == Words(t[..k]) + Words(t[k..])
  {
    assert t[..k] + t[k..] == t;
    WordsAppend(t[..k], t[k..]);
  }

  /** Collapsing keeps a final non-whitespace character at the end. */
  lemma {:induction false} CollapseKeepsLast(a: String)
    requires a != [] && !IsWhitespace(a[|a| - 1])
    ensures CollapseWhitespace(a) != [] && CollapseWhitespace(a)[|CollapseWhitespace(a)| - 1] == a[|a| - 1]
  {
    var init, c := a[..|a| - 1], a[|a| - 1];
    assert a == init + [c];
    CollapseAppend(init, [c]);
    assert CollapseWhitespace([c]) == [c];
  }

  /** Cleaning turns the whitespace run between two pieces of text into exactly one space. */
  lemma {:induction false} CleanTextBetweenWords(a: String, w: String, b: String)
    requires a != [] && !IsWhitespace(a[|a| - 1])
    requires w != [] && AllWhitespace(w)
    requires b != [] && !IsWhitespace(b[0])
    ensures CleanText(a + w + b) == CleanText(a) + " " + CleanText(b)
  {
    var ca, cb := CollapseWhitespace(a), CollapseWhitespace(b);
    assert CollapseWhitespace(a + w + b) == ca + " " + cb by {
      CollapseBetweenWords(a, w, b);
    }
    CollapseKeepsLast(a);
    TrimAround(ca, " ", cb);
  }

  /** Cleaning keeps every non-whitespace character of the page text, in order. */
  lemma CleanTextKeepsWords(s: String)
    ensures Words(CleanText(s)) == Words(s)
  {
    CollapseKeepsWords(s);
    WordsOfTrim(CollapseWhitespace(s));
  }

  /** The title: the `title` element's text, or the first `h1`'s when that is blank. */
  function PageTitle(page: Page): (t: String)
    ensures IsTrimmed(t)
    ensures t == [] <==> AllWhitespace(page.title) && AllWhitespace(page.firstH1)
  {
    if Trim(page.title) != [] then Trim(page.title) else Trim(page.firstH1)
  }

  /** The text taken from the first matching content selector, trimmed; empty when none matches. */
  function MainText(page: Page): (text: String)
    ensures IsTrimmed(text)
    ensures text != [] ==> FirstMatch(page.select, ContentSelectors) < |ContentSelectors|
  {
    var i := FirstMatch(page.select, ContentSelectors);
    if i < |ContentSelectors| then Trim(page.select(ContentSelectors[i]).value) else []
  }

  /** The cleaned content of a page: its main text, or the body's when that is empty. */
  function PageText(page: Page): (text: String)
    ensures IsTrimmed(text)
    ensures forall i :: 0 <= i < |text| - 1 ==> !(IsWhitespace(text[i]) && IsWhitespace(text[i + 1]))
  {
    CleanText(if MainText(page) != [] then MainText(page) else Trim(page.body))
  }

  /**
   * `scrapeUrl`: nothing for a failed fetch, a non-OK status, or cleaned
   * content shorter than 50 UTF-16 units (empty content included);
   * otherwise the url with the page's title and cleaned text.
   */
  method ScrapeUrl(url: String, response: Response) returns (r: Option<Scraped>)
    ensures r.None? <==> response.FetchFailed? || !response.ok || Utf16Length(PageText(response.page)) < MinContentLength
    ensures r.Some? ==> r.value == Scraped(url, PageTitle(response.page), PageText(response.page))
    ensures r.Some? ==> IsTrimmed(r.value.content) && Utf16Length(r.value.content) >= MinContentLength
    ensures r.Some? ==> forall i :: 0 <= i < |r.value.content| - 1 ==>
      !(IsWhitespace(r.value.content[i]) && IsWhitespace(r.value.content[i + 1]))
  {
    if response.FetchFailed? || !response.ok {
      return None;
    }
    var page := response.page;
    var title := Trim(page.title);
    if title == [] {
      title := Trim(page.firstH1);
    }
    var content := MainContent(page);
    if content == [] {
      content := Trim(page.body);
    }
    content := CleanText(content);
    if content == [] || Utf16Length(content) < MinContentLength {
      return None;
    }
    return Some(Scraped(url, title, content));
  }

  /**
   * The selector loop of `scrapeUrl`: the trimmed text of the first content
   * selector that matches any element, or the empty string when none does.
   */
  method MainContent(page: Page) returns (content: String)
    ensures content == MainText(page)
  {
    content := [];
    for i := 0 to |ContentSelectors|
      invariant content == [] && FirstMatch(page.select, ContentSelectors) == i + FirstMatch(page.select, ContentSelectors[i..])
    {
      var element := page.select(ContentSelectors[i]);
      if element.Some? {
        content := Trim(element.value);
        break;
      }
      assert ContentSelectors[i..][1..] == ContentSelectors[i + 1..];
    }
  }

  /**
   * The first selector that matches decides, even when its text is blank;
   * the body is used exactly when that text is blank or nothing matches.
   */
  lemma FirstSelectorDecides(page: Page, i: nat)
    requires i < |ContentSelectors| && page.select(ContentSelectors[i]).Some?
    requires forall j :: 0 <= j < i ==> page.select(ContentSelectors[j]).None?
    ensures MainText(page) == Trim(page.select(ContentSelectors[i]).value)
    ensures !AllWhitespace(page.select(ContentSelectors[i]).value) ==> PageText(page) == CleanText(MainText(page))
    ensures AllWhitespace(page.select(ContentSelectors[i]).value) ==> PageText(page) == CleanText(Trim(page.body))
  {
  }

  /** Without any matching selector the content comes from the body. */
  lemma NoSelectorUsesBody(page: Page)
    requires forall j :: 0 <= j < |ContentSelectors| ==> page.select(ContentSelectors[j]).None?
    ensures PageText(page) == CleanText(Trim(page.body))
  {
  }

  /** `saveContent`: the upsert of a scraped page; a failed write is caught, leaving the store as it was. */
  method SaveContent(store: Store, page: Scraped, now: int, writeFails: bool)
    requires store.Valid()
    modifies store
    ensures store.Valid()
    ensures writeFails ==> store.content == old(store.content) && store.nextContentId == old(store.nextContentId)
    ensures !writeFails ==>
      var u := Upsert(old(store.content), old(store.nextContentId), page.url, page.title, page.content, now);
      store.content == u.rows && store.nextContentId == u.nextId
    ensures store.embeddings == old(store.embeddings) && store.nextEmbeddingId == old(store.nextEmbeddingId)
  {
    if !writeFails {
      var _ := store.SaveContent(page.url, page.title, page.content, now);
    }
  }
}
