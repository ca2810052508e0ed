/** `get_page_childs` of the 404 crawler: the anchors of a page are turned into child
    pages, each carrying the target of its `href` (made absolute when it starts with
    `/`) and the URL of the page it was found on. */
module PageLinks {
  import opened Wrappers
  import opened Text

  /** A page to check: `{'link': ..., 'parent': ...}`. */
  datatype Child = Child(link: string, parent: string)

  /** An opened page: its HTTP code and the HTML of the anchors `SELECTOR` selects on it. */
  datatype Page = Page(code: int, anchors: seq<string>)

  /** A line `write_result` appends to the results file. */
  datatype Line =
    | Slow(url: string)                               // "It takes more then ... seconds to open '<url>'"
    | Broken(code: int, url: string, parent: string)  // "<code> <url> parent page: <parent>"

  /** What `get_page_childs` does: return the children and the lines it wrote, or raise. */
  datatype ChildsOutcome = Returned(children: seq<Child>, lines: seq<Line>) | ChildsRaised

  /** A character `\s` matches in Python 2's `re` without the `UNICODE` flag. */
  predicate IsSpace(c: char)
  {
    c == ' ' || '\t' <= c <= '\r'
  }

  /** `href=(\S+)` can match at `i`: `href=` followed by at least one non-space character. */
  predicate HrefAt(html: string, i: int)
  {
    OccursAt("href=", html, i) && i + 5 < |html| && !IsSpace(html[i + 5])
  }

  /** The least index at or after `from` where `href=(\S+)` matches, or `|html|`. */
  function HrefFrom(html: string, from: nat): (k: nat)
    requires from <= |html|
    ensures from <= k <= |html|
    ensures k < |html| ==> HrefAt(html, k)
    decreases |html| - from
  {
    if from == |html| || HrefAt(html, from) then from else HrefFrom(html, from + 1)
  }

  /** `HrefFrom` skips no match. */
  lemma {:induction false} HrefFromIsLeast(html: string, from: nat, i: int)
    requires from <= |html|
    requires from <= i < HrefFrom(html, from)
    ensures !HrefAt(html, i)
    decreases |html| - from
  {
    if i > from {
      HrefFromIsLeast(html, from + 1, i);
    }
  }

  /** A match with none before it is the one `HrefFrom` finds. */
  lemma {:induction false} HrefFromExact(html: string, from: nat, m: nat)
    requires from <= m && HrefAt(html, m)
    requires forall i :: from <= i < m ==> !HrefAt(html, i)
    ensures HrefFrom(html, from) == m
    decreases m - from
  {
    if from < m {
      HrefFromExact(html, from + 1, m);
    }
  }

  /** The end of the greedy run of non-space characters starting at `i`. */
  function RunEnd(s: string, i: nat): (e: nat)
    requires i <= |s|
    ensures i <= e <= |s|
    ensures e < |s| ==> IsSpace(s[e])
    decreases |s| - i
  {
    if i == |s| || IsSpace(s[i]) then i else RunEnd(s, i + 1)
  }

  /** The run holds no space. */
  lemma {:induction false} RunEndNoSpace(s: string, i: nat, t: int)
    requires i <= |s|
    requires i <= t < RunEnd(s, i)
    ensures !IsSpace(s[t])
    decreases |s| - i
  {
    if t > i {
      RunEndNoSpace(s, i + 1, t);
    }
  }

  /** The run reaches at least past a stretch without spaces. */
  lemma {:induction false} RunEndBeyond(s: string, i: nat, m: nat)
    requires i <= m <= |s|
    requires forall t :: i <= t < m ==> !IsSpace(s[t])
    ensures m <= RunEnd(s, i)
    decreases m - i
  {
    if i < m {
      RunEndBeyond(s, i + 1, m);
    }
  }

  /** `re.search('href=(\S+)', html).group(0)`: the whole leftmost match, or `None` when
      there is none. */
  function HrefToken(html: string): (r: Option<string>)
    ensures r.Some? ==> |r.value| > 5 && StartsWith(r.value, "href=") && Contains(html, r.value)
  {
    var i := HrefFrom(html, 0);
    if i == |html| then None
    else
      var e := RunEnd(html, i + 5);
      assert OccursAt(html[i..e], html, i);
      assert html[i..e][..5] == html[i..i + 5];
      Some(html[i..e])
  }

  /** `link.group(0).split('"')[1]`: the text after the first `"` of the match, up to the
      next one; `None` where the source raises (no match, or no `"` in it). */
  function HrefTarget(html: string): Option<string>
  {
    match HrefToken(html)
    case None => None
    case Some(token) =>
      var parts := Split(token, "\"");
      if |parts| < 2 then None else Some(parts[1])
  }

  /** A link starting with `/` is made absolute by prefixing `initial_url`. */
  function Normalise(link: string, initialUrl: string): (r: string)
    ensures |link| <= |r| && r[|r| - |link|..] == link
    ensures StartsWith(link, "/") ==> StartsWith(r, initialUrl) && |r| == |initialUrl| + |link|
    ensures !StartsWith(link, "/") ==> r == link
  {
    if StartsWith(link, "/") then initialUrl + link else link
  }

  /** The children the anchors of an opened page yield, one per anchor in order, or `None`
      when the extraction (`HrefTarget`, passed as `extract`) raises on one of them. */
  function AnchorChildren(anchors: seq<string>, extract: string -> Option<string>,
                          initialUrl: string, parentUrl: string): (r: Option<seq<Child>>)
    ensures r.None? <==> exists i :: 0 <= i < |anchors| && extract(anchors[i]).None?
    ensures r.Some? ==>
      |r.value| == |anchors| && (forall i :: 0 <= i < |anchors| ==> r.value[i].parent == parentUrl)
  {
    if forall i :: 0 <= i < |anchors| ==> extract(anchors[i]).Some? then
      Some(seq(|anchors|, i requires 0 <= i < |anchors| && extract(anchors[i]).Some? =>
                 Child(Normalise(extract(anchors[i]).value, initialUrl), parentUrl)))
    else None
  }

  /** What `get_page_childs(parent_url)` does, given the result of opening a page (`None`
      when `Grab` raised, which `open_page` turns into a logged line and `False`). */
  function ChildrenOf(open: string -> Option<Page>, initialUrl: string, parentUrl: string): ChildsOutcome
  {
    match open(parentUrl)
    case None => Returned([], [Slow(parentUrl)])
    case Some(page) =>
      match AnchorChildren(page.anchors, HrefTarget, initialUrl, parentUrl)
      case None => ChildsRaised
      case Some(children) => Returned(children, [])
  }

  /** Every character of the match is a non-space character. */
  lemma TokenNoSpace(html: string, c: char)
    requires HrefToken(html).Some?
    requires c in HrefToken(html).value
    ensures !IsSpace(c)
  {
    var i := HrefFrom(html, 0);
    var e := RunEnd(html, i + 5);
    var t := html[i..e];
    var m :| 0 <= m < |t| && t[m] == c;
    if m >= 5 {
      RunEndNoSpace(html, i + 5, i + m);
    } else {
      assert t[..5] == html[i..i + 5] == "href=";
      assert c == "href="[m];
    }
  }

  /** The target an anchor yields is free of `"` and of spaces, and follows a `"` in the
      anchor's HTML. */
  lemma HrefTargetShape(html: string, v: string)
    requires HrefTarget(html) == Some(v)
    ensures '"' !in v
    ensures forall c :: c in v ==> !IsSpace(c)
    ensures Contains(html, "\"" + v)
  {
    var t := HrefToken(html).value;
    var i := HrefFrom(html, 0);
    SplitPartFree(t, "\"", 1);
    forall m | 0 <= m < |v| ensures v[m] != '"' {
      assert !OccursAt("\"", v, m);
      assert v[m..m + 1] == [v[m]];
    }
    SplitPartChars(t, "\"", 1);
    forall c | c in v ensures !IsSpace(c) {
      TokenNoSpace(html, c);
    }
    SplitPartFollowsSep(t, "\"", 1, v);
    assert OccursAt(t, html, i);
    ContainsTransitive(html, t, "\"" + v);
  }

  /** An anchor without any `"` makes the extraction raise (`IndexError` or, with no match
      at all, `AttributeError`). */
  lemma UnquotedRaises(html: string)
    requires '"' !in html
    ensures HrefTarget(html) == None
  {
    if HrefToken(html).Some? {
      var i := HrefFrom(html, 0);
      var t := html[i..RunEnd(html, i + 5)];
      SliceChars(html, i, RunEnd(html, i + 5));
      forall j | 0 <= j < |t| ensures !OccursAt("\"", t, j) {
        if j + 1 <= |t| {
          assert t[j..j + 1][0] == t[j];
        }
      }
      SplitSecond(t, "\"");
    }
  }

  /** `href="v"` is `href=` followed by non-space characters when `v` holds no space. */
  lemma QuotedNoSpace(v: string)
    requires forall c :: c in v ==> !IsSpace(c)
    ensures forall k :: 5 <= k < 7 + |v| ==> !IsSpace(("href=\"" + v + "\"")[k])
  {
    var q := "href=\"" + v + "\"";
    forall k | 5 <= k < 7 + |v| ensures !IsSpace(q[k]) {
      if 6 <= k < 6 + |v| {
        assert q[k] == v[k - 6];
      }
    }
  }

  /** The match of `pre + 'href="v"' + rest`, when `href=` first occurs after `pre` and `v`
      holds no space, starts with `href="v"`. */
  lemma QuotedToken(pre: string, v: string, rest: string) returns (tok: string)
    requires forall i :: 0 <= i < |pre| ==> !OccursAt("href=", pre + "href=\"" + v + "\"" + rest, i)
    requires forall c :: c in v ==> !IsSpace(c)
    ensures HrefToken(pre + "href=\"" + v + "\"" + rest) == Some(tok)
    ensures |tok| >= 7 + |v| && tok[..7 + |v|] == "href=\"" + v + "\""
  {
    var q := "href=\"" + v + "\"";
    var html := pre + q + rest;
    var p := |pre|;
    assert html == pre + "href=\"" + v + "\"" + rest;
    assert html[p..p + |q|] == q;
    assert html[p..p + 5] == q[..5];
    HrefFromExact(html, 0, p);
    QuotedNoSpace(v);
    forall t | p + 5 <= t < p + |q| ensures !IsSpace(html[t]) {
      assert html[t] == q[t - p];
    }
    RunEndBeyond(html, p + 5, p + |q|);
    tok := html[p..RunEnd(html, p + 5)];
    assert tok[..|q|] == html[p..p + |q|];
  }

  /** `'href="v"...'.split('"')[1] == v` when `v` holds no `"`. */
  lemma SecondOfQuoted(tok: string, v: string)
    requires |tok| >= 7 + |v| && tok[..7 + |v|] == "href=\"" + v + "\""
    requires '"' !in v
    ensures |Split(tok, "\"")| >= 2 && Split(tok, "\"")[1] == v
  {
    var q := "href=\"" + v + "\"";
    assert tok[5] == q[5] == '"';
    assert tok[6 + |v|] == q[6 + |v|] == '"';
    forall i | 0 <= i < 5 ensures !OccursAt("\"", tok, i) {
      assert tok[i] == q[i];
    }
    IndexFromExact(tok, "\"", 0, 5);
    forall i | 6 <= i < 6 + |v| ensures !OccursAt("\"", tok, i) {
      assert tok[i] == q[i] == v[i - 6];
    }
    IndexFromExact(tok, "\"", 6, 6 + |v|);
    SplitSecond(tok, "\"");
    assert tok[6..6 + |v|] == q[6..6 + |v|] == v;
  }

  /** The usual anchor `<a ... href="v" ...>`: when `href=` first occurs right before `"v"`
      and `v` holds no `"` and no space, the target is `v`. */
  lemma QuotedAnchor(pre: string, v: string, rest: string)
    requires forall i :: 0 <= i < |pre| ==> !OccursAt("href=", pre + "href=\"" + v + "\"" + rest, i)
    requires '"' !in v && forall c :: c in v ==> !IsSpace(c)
    ensures HrefTarget(pre + "href=\"" + v + "\"" + rest) == Some(v)
  {
    var tok := QuotedToken(pre, v, rest);
    SecondOfQuoted(tok, v);
  }

  /** When the parent opens, it has one child per anchor, in the anchors' order; each has
      the parent's URL as parent, and as link the anchor's target, prefixed by
      `initial_url` exactly when the target starts with `/`. When it does not open, one
      line is written and there are no children. */
  lemma ChildrenShape(open: string -> Option<Page>, initialUrl: string, parentUrl: string)
    requires ChildrenOf(open, initialUrl, parentUrl).Returned?
    ensures var r := ChildrenOf(open, initialUrl, parentUrl);
      && (open(parentUrl).None? ==> r.children == [] && r.lines == [Slow(parentUrl)])
      && (open(parentUrl).Some? ==>
            && r.lines == []
            && |r.children| == |open(parentUrl).value.anchors|
            && forall i :: 0 <= i < |r.children| ==>
                 var v := HrefTarget(open(parentUrl).value.anchors[i]);
                 && v.Some?
                 && r.children[i].parent == parentUrl
                 && (StartsWith(v.value, "/") ==> r.children[i].link == initialUrl + v.value)
                 && (!StartsWith(v.value, "/") ==> r.children[i].link == v.value))
  {
  }

  /** An anchor whose target cannot be extracted makes the whole call raise, so the page
      yields no children at all. */
  lemma BadAnchorRaises(open: string -> Option<Page>, initialUrl: string, parentUrl: string, i: nat)
    requires open(parentUrl).Some? && i < |open(parentUrl).value.anchors|
    requires '"' !in open(parentUrl).value.anchors[i]
    ensures ChildrenOf(open, initialUrl, parentUrl) == ChildsRaised
  {
    UnquotedRaises(open(parentUrl).value.anchors[i]);
  }

  /** `get_page_childs`: open the parent; on failure return `[]` (after `open_page` has
      written its line); otherwise collect one child per anchor. */
  method GetPageChilds(open: string -> Option<Page>, initialUrl: string, parentUrl: string)
      returns (r: ChildsOutcome)
    ensures r == ChildrenOf(open, initialUrl, parentUrl)
  {
    var page := open(parentUrl);
    if page.None? {
      return Returned([], [Slow(parentUrl)]);
    }
    var found := CollectAnchors(page.value.anchors, HrefTarget, initialUrl, parentUrl);
    if found.None? {
      return ChildsRaised;
    }
    r := Returned(found.value, []);
  }

  /** The loop of lines 74-80: each anchor's target is extracted, prefixed with `initial_url`
      when it starts with `/`, and appended with its parent; an extraction that raises ends
      the call. */
  method CollectAnchors(anchors: seq<string>, extract: string -> Option<string>,
                        initialUrl: string, parentUrl: string)
      returns (found: Option<seq<Child>>)
    ensures found == AnchorChildren(anchors, extract, initialUrl, parentUrl)
  {
    var urls: seq<Child> := [];
    var i := 0;
    while i < |anchors|
      invariant 0 <= i <= |anchors|
      invariant forall j :: 0 <= j < i ==> extract(anchors[j]).Some?
      invariant |urls| == i
      invariant forall j :: 0 <= j < i ==> urls[j] == Child(Normalise(extract(anchors[j]).value, initialUrl), parentUrl)
    {
      var target := extract(anchors[i]);
      if target.None? {
        assert !(forall j :: 0 <= j < |anchors| ==> extract(anchors[j]).Some?);
        return None;
      }
      var link := target.value;
      if StartsWith(link, "/") {
        link := initialUrl + link;
      }
      urls := urls + [Child(link, parentUrl)];
      i := i + 1;
    }
    var expected := seq(|anchors|, j requires 0 <= j < |anchors| && extract(anchors[j]).Some? =>
                          Child(Normalise(extract(anchors[j]).value, initialUrl), parentUrl));
    assert urls == expected;
    found := Some(urls);
  }
}
