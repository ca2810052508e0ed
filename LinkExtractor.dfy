/** The link-extraction heuristic of the five-minute checker (`parse_all_links`): the page
    text is split on `http`; every piece that starts with `s://` or `://` is cut at the first
    delimiter, and the cut piece becomes the link `'http' + cut` unless it is too short, ends in
    `.` or `=`, or contains an entry of the ignore list. Found links are added to a set that
    only grows. Fetching the page is not modelled: its text is an input, `None` when the
    request raised. */
module LinkExtractor {
  import opened Wrappers
  import opened Text
  import Config

  /** The strings a piece is cut at, in the order the cuts are applied. */
  const Delimiters: seq<string> := ["\"", " ", "'", "&quot;", ")", "</a>", ","]

  /** The first characters of the delimiters. */
  const DelimiterStarts: set<char> := {'"', ' ', '\'', '&', ')', '<', ','}

  predicate NonEmpty(ds: seq<string>)
  {
    forall i :: 0 <= i < |ds| ==> ds[i] != []
  }

  /** Every string of `ds` starts with a character of `starts`, and no later character of
      any of them is in `starts`: an occurrence of one can never begin inside another. */
  predicate StartsOnlyAtHead(ds: seq<string>, starts: set<char>)
  {
    NonEmpty(ds)
    && (forall i :: 0 <= i < |ds| ==> ds[i][0] in starts)
    && (forall i, t :: 0 <= i < |ds| && 1 <= t < |ds[i]| ==> ds[i][t] !in starts)
  }

  /** The cut chain `s.split(ds[0])[0].split(ds[1])[0]...`. */
  function CutAll(s: string, ds: seq<string>): (r: string)
    requires NonEmpty(ds)
    ensures r <= s
    ensures forall i :: 0 <= i < |ds| ==> !Contains(r, ds[i])
    decreases |ds|
  {
    if ds == [] then s
    else
      var first := FirstPart(s, ds[0]);
      var r := CutAll(first, ds[1..]);
      assert !Contains(r, ds[0]) by {
        PrefixKeepsAbsence(ds[0], r, first);
      }
      assert forall i :: 1 <= i < |ds| ==> ds[i] == ds[1..][i - 1];
      r
  }

  /** The cut applied to a candidate piece (test5minutes.py, lines 93-95). */
  function CutLink(piece: string): string
  {
    CutAll(piece, Delimiters)
  }

  lemma DelimitersStartOnlyAtHead()
    ensures StartsOnlyAtHead(Delimiters, DelimiterStarts)
  {
    assert Delimiters[3] == "&quot;" && Delimiters[5] == "</a>";
  }

  /** The cut chain cuts at the EARLIEST occurrence of any delimiter: no delimiter occurs
      in `s` at an index before the end of the cut, and, unless nothing was cut, one
      occurs right where the cut ends. */
  lemma {:induction false} CutAllEarliest(s: string, ds: seq<string>, starts: set<char>)
    requires StartsOnlyAtHead(ds, starts)
    ensures forall i, k :: 0 <= i < |CutAll(s, ds)| && 0 <= k < |ds| ==> !OccursAt(ds[k], s, i)
    ensures |CutAll(s, ds)| < |s| ==> exists k :: 0 <= k < |ds| && OccursAt(ds[k], s, |CutAll(s, ds)|)
    decreases |ds|
  {
    if ds != [] {
      var first := FirstPart(s, ds[0]);
      var rest := ds[1..];
      var r := CutAll(first, rest);
      assert r == CutAll(s, ds);
      CutAllEarliest(first, rest, starts);
      forall i, k | 0 <= i < |r| && 0 <= k < |ds| ensures !OccursAt(ds[k], s, i) {
        if k == 0 {
          FirstPartIsLeast(s, ds[0], i);
        } else {
          assert ds[k] == rest[k - 1];
          NotAcrossCut(s, first, ds[0], ds[k], i, starts);
        }
      }
      if |r| < |s| {
        if |r| < |first| {
          var k :| 0 <= k < |rest| && OccursAt(rest[k], first, |r|);
          OccursInPrefix(rest[k], first, s, |r|);
          assert OccursAt(ds[k + 1], s, |r|);
        } else {
          assert OccursAt(ds[0], s, |r|);
        }
      }
    }
  }

  /** An occurrence of `d` that starts before the cut `first = FirstPart(s, sep)` and is not
      inside it is no occurrence in `s` either, when `sep` cannot begin inside `d`. */
  lemma NotAcrossCut(s: string, first: string, sep: string, d: string, i: int, starts: set<char>)
    requires sep != [] && first == FirstPart(s, sep)
    requires sep[0] in starts
    requires forall t :: 1 <= t < |d| ==> d[t] !in starts
    requires 0 <= i < |first| && !OccursAt(d, first, i)
    ensures !OccursAt(d, s, i)
  {
    if i + |d| <= |first| {
      assert first[i..i + |d|] == s[i..i + |d|];
    } else if |first| < |s| && i + |d| <= |s| {
      var t := |first| - i;
      assert s[|first|..|first| + |sep|][0] == sep[0];
      assert s[i..i + |d|][t] == s[|first|];
    }
  }

  /** `link.startswith('s://') or link.startswith('://')`. */
  predicate IsCandidate(piece: string)
  {
    StartsWith(piece, "s://") || StartsWith(piece, "://")
  }

  /** Some ignore-list entry is a substring of `link` (the loop at lines 97-100 clears
      `parse` for each such entry). */
  predicate IgnoredBy(link: string, ignore: seq<string>)
  {
    exists i :: 0 <= i < |ignore| && Contains(link, ignore[i])
  }

  /** The filter at lines 102-104. */
  predicate Accepted(cut: string, ignore: seq<string>)
  {
    !IgnoredBy(cut, ignore) && |cut| > 8 && !EndsWith(cut, '.') && !EndsWith(cut, '=')
  }

  /** The link one piece of the split text contributes, if any. */
  function LinkOf(piece: string, ignore: seq<string>): Option<string>
  {
    if IsCandidate(piece) && Accepted(CutLink(piece), ignore) then Some("http" + CutLink(piece))
    else None
  }

  /** The values `f` gives for the elements of `xs`, scanning them in order. */
  function Found<T>(xs: seq<T>, f: T -> Option<string>): set<string>
  {
    if xs == [] then {}
    else
      var last := f(xs[|xs| - 1]);
      Found(xs[..|xs| - 1], f) + (if last.Some? then {last.value} else {})
  }

  /** A value is found exactly when `f` gives it for some element. */
  lemma {:induction false} FoundExactly<T>(xs: seq<T>, f: T -> Option<string>, x: string)
    ensures x in Found(xs, f) <==> exists j :: 0 <= j < |xs| && f(xs[j]) == Some(x)
    decreases |xs|
  {
    if xs != [] {
      var init := xs[..|xs| - 1];
      FoundExactly(init, f, x);
      if x in Found(init, f) {
        var j :| 0 <= j < |init| && f(init[j]) == Some(x);
        assert xs[j] == init[j];
      }
      if exists j :: 0 <= j < |xs| && f(xs[j]) == Some(x) {
        var j :| 0 <= j < |xs| && f(xs[j]) == Some(x);
        if j < |init| {
          assert init[j] == xs[j];
        }
      }
    }
  }

  /** Scanning one more element adds what `f` gives for it. */
  lemma FoundSnoc<T>(xs: seq<T>, i: nat, f: T -> Option<string>)
    requires i < |xs|
    ensures Found(xs[..i + 1], f) == Found(xs[..i], f) + (if f(xs[i]).Some? then {f(xs[i]).value} else {})
  {
    assert xs[..i + 1][..i] == xs[..i];
  }

  /** The links the pieces of a split page text contribute. */
  function LinksOf(pieces: seq<string>, ignore: seq<string>): set<string>
  {
    Found(pieces, piece => LinkOf(piece, ignore))
  }

  /** The links `parse_all_links` finds in a page text. */
  function ExtractLinks(text: string, ignore: seq<string>): set<string>
  {
    LinksOf(Split(text, "http"), ignore)
  }

  /** A link is found exactly when some piece contributes it. */
  lemma LinksOfExactly(pieces: seq<string>, ignore: seq<string>, x: string)
    ensures x in LinksOf(pieces, ignore)
      <==> exists j :: 0 <= j < |pieces| && LinkOf(pieces[j], ignore) == Some(x)
  {
    FoundExactly(pieces, piece => LinkOf(piece, ignore), x);
  }

  /** What a contributed link looks like: `'http'` followed by the cut of a candidate
      piece; so it begins with `https://` or `http://`, is at least 13 characters long, holds
      no delimiter after its `http` and none of the ignore-list entries, and ends in neither
      `.` nor `=`. */
  lemma LinkOfShape(piece: string, ignore: seq<string>)
    requires LinkOf(piece, ignore).Some?
    ensures var x := LinkOf(piece, ignore).value;
      x == "http" + CutLink(piece) && IsCandidate(piece) && CutLink(piece) <= piece
      && |x| >= 13
      && (StartsWith(x, "https://") || StartsWith(x, "http://"))
      && (forall k :: 0 <= k < |Delimiters| ==> !Contains(x[4..], Delimiters[k]))
      && (forall e :: e in ignore ==> !Contains(x[4..], e))
      && !EndsWith(x, '.') && !EndsWith(x, '=')
  {
    var cut := CutLink(piece);
    var x := "http" + cut;
    assert x[4..] == cut;
    assert x[|x| - 1] == cut[|cut| - 1];
    if StartsWith(piece, "s://") {
      assert cut[..4] == piece[..4];
      assert x[..8] == "http" + cut[..4];
    } else {
      assert cut[..3] == piece[..3];
      assert x[..7] == "http" + cut[..3];
    }
    forall e | e in ignore ensures !Contains(x[4..], e) {
      var i :| 0 <= i < |ignore| && ignore[i] == e;
    }
  }

  /** Every link found in a page text has the shape `LinkOfShape` states. */
  lemma ExtractedLinkShape(text: string, ignore: seq<string>, x: string)
    requires x in ExtractLinks(text, ignore)
    ensures |x| >= 13 && (StartsWith(x, "https://") || StartsWith(x, "http://"))
    ensures forall e :: e in ignore ==> !Contains(x[4..], e)
    ensures !EndsWith(x, '.') && !EndsWith(x, '=')
    ensures exists piece :: piece in Split(text, "http") && IsCandidate(piece) && x == "http" + CutLink(piece)
  {
    var pieces := Split(text, "http");
    LinksOfExactly(pieces, ignore, x);
    var j :| 0 <= j < |pieces| && LinkOf(pieces[j], ignore) == Some(x);
    LinkOfShape(pieces[j], ignore);
  }

  /** Every link found in a page text occurs in that text, except that a candidate at the
      very start of the text (before any `http`) also gets `http` prepended: then the link
      without its `http` is a prefix of the text. */
  lemma ExtractedLinkInText(text: string, ignore: seq<string>, x: string)
    requires x in ExtractLinks(text, ignore)
    ensures |x| >= 4 && x[..4] == "http"
    ensures Contains(text, x) || x[4..] <= text
  {
    var pieces := Split(text, "http");
    LinksOfExactly(pieces, ignore, x);
    var j :| 0 <= j < |pieces| && LinkOf(pieces[j], ignore) == Some(x);
    LinkOfShape(pieces[j], ignore);
    var cut := CutLink(pieces[j]);
    assert x[4..] == cut;
    if j == 0 {
      SplitFirstPart(text, "http");
    } else {
      SplitPartFollowsSep(text, "http", j, cut);
    }
  }

  /** With the ignore list `['']` (what an empty `ignore_urls` setting gives) no link is ever
      found: the empty entry is a substring of every cut. */
  lemma EmptyIgnoreFindsNothing(text: string)
    ensures ExtractLinks(text, Config.ListParam([], [])) == {}
  {
    var ignore := Config.ListParam([], []);
    forall x | x in ExtractLinks(text, ignore) ensures false {
      ExtractedLinkShape(text, ignore, x);
      Config.EmptyListParam([], x[4..]);
    }
  }

  /** The links of the pages a collection pass visits: those in `total` whose text contains
      `mainDomain`, each parsed in turn. */
  function LinksOfPages(total: seq<string>, mainDomain: string, pages: string -> Option<string>,
                        ignore: seq<string>): set<string>
  {
    if total == [] then {}
    else
      var link := total[|total| - 1];
      var page := pages(link);
      LinksOfPages(total[..|total| - 1], mainDomain, pages, ignore)
        + (if Contains(link, mainDomain) && page.Some? then ExtractLinks(page.value, ignore) else {})
  }

  /** Visiting one more link of the snapshot adds the links of its page. */
  lemma LinksOfPagesSnoc(total: seq<string>, k: nat, mainDomain: string,
                         pages: string -> Option<string>, ignore: seq<string>)
    requires k < |total|
    ensures LinksOfPages(total[..k + 1], mainDomain, pages, ignore)
      == LinksOfPages(total[..k], mainDomain, pages, ignore)
         + (if Contains(total[k], mainDomain) && pages(total[k]).Some?
            then ExtractLinks(pages(total[k]).value, ignore) else {})
  {
    assert total[..k + 1][..k] == total[..k];
  }

  /** The global state of the five-minute checker's discovery phase: the set `LINKS` and the
      ignore list read from the configuration. */
  class LinkCollector {
    var links: set<string>
    const ignoreList: seq<string>

    /** `LINKS.add(start_url)` on an empty set. */
    constructor (startUrl: string, ignoreList: seq<string>)
      ensures links == {startUrl} && this.ignoreList == ignoreList
    {
      links := {startUrl};
      this.ignoreList := ignoreList;
    }

    /** `parse_all_links`: the text of the fetched page (`None` when the request raised,
        which the source catches and reports) is scanned and every link found is added. */
    method ParseAllLinks(page: Option<string>)
      modifies this
      ensures links == old(links) + (if page.Some? then ExtractLinks(page.value, ignoreList) else {})
    {
      if page.Some? {
        var pieces := Split(page.value, "http");
        var i := 0;
        while i < |pieces|
          invariant 0 <= i <= |pieces|
          invariant links == old(links) + LinksOf(pieces[..i], ignoreList)
        {
          FoundSnoc(pieces, i, piece => LinkOf(piece, ignoreList));
          var found := ScanPiece(pieces[i], ignoreList);
          if found.Some? {
            links := links + {found.value};
          }
          i := i + 1;
        }
        assert pieces[..|pieces|] == pieces;
      }
    }

    /** The collection pass (test5minutes.py, lines 185-191): every link of the snapshot
        `total = list(LINKS)` whose text contains `main_domain` is parsed in turn. */
    method CollectPass(total: seq<string>, mainDomain: string, pages: string -> Option<string>)
      requires forall x :: x in total <==> x in links
      modifies this
      ensures links == old(links) + LinksOfPages(total, mainDomain, pages, ignoreList)
    {
      var k := 0;
      while k < |total|
        invariant 0 <= k <= |total|
        invariant links == old(links) + LinksOfPages(total[..k], mainDomain, pages, ignoreList)
      {
        var link := total[k];
        LinksOfPagesSnoc(total, k, mainDomain, pages, ignoreList);
        if Contains(link, mainDomain) {
          ParseAllLinks(pages(link));
        }
        k := k + 1;
      }
      assert total[..|total|] == total;
    }
  }

  /** The body of the loop of `parse_all_links` for one piece: a candidate piece is cut at
      the first delimiter, checked against the ignore list and the length and ending rules. */
  method ScanPiece(link: string, ignore: seq<string>) returns (found: Option<string>)
    ensures found == LinkOf(link, ignore)
  {
    found := None;
    if StartsWith(link, "s://") || StartsWith(link, "://") {
      var clearLink := CutLink(link);
      var parse := IgnoreFlag(clearLink, ignore);
      if parse && |clearLink| > 8 && !EndsWith(clearLink, '.') && !EndsWith(clearLink, '=') {
        found := Some("http" + clearLink);
      }
    }
  }

  /** The ignore check of lines 97-100: `parse` starts true and is cleared by every entry
      that occurs in the link. */
  method IgnoreFlag(link: string, ignore: seq<string>) returns (parse: bool)
    ensures parse == !IgnoredBy(link, ignore)
  {
    parse := true;
    var k := 0;
    while k < |ignore|
      invariant 0 <= k <= |ignore|
      invariant parse == !exists i :: 0 <= i < k && Contains(link, ignore[i])
    {
      if Contains(link, ignore[k]) {
        parse := false;
      }
      k := k + 1;
    }
  }
}
