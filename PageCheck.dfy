/** The per-page work of the 404 crawler: `get_page_status` decides whether a page is
    expanded (and reports a visible broken link), `collect_childs` expands it or posts
    nothing new, and `threads_count` sizes each wave of workers. */
module PageCheck {
  import opened Wrappers
  import opened Text
  import opened PageLinks
  import Config

  /** The crawler's configuration and the outside world it consults: `open` is `Grab.go`
      (`None` when it raises) and `visible(parent, child)` is `check_with_selenium`
      (`None` when the browser raises). */
  datatype World = World(
    initialUrl: string,
    excludeUrls: seq<string>,
    maxThreads: int,
    maxRecursion: int,
    open: string -> Option<Page>,
    visible: (string, string) -> Option<bool>)

  /** What `get_page_status` does: decide whether to expand the page, having written
      `lines`, or raise (the visibility check raised). */
  datatype StatusOutcome = Decided(expand: bool, lines: seq<Line>) | StatusRaised

  /** Some `exclude_urls` entry is a substring of the link. */
  predicate Excluded(link: string, excludeUrls: seq<string>)
  {
    exists i :: 0 <= i < |excludeUrls| && Contains(link, excludeUrls[i])
  }

  /** `get_page_status(page)`, lines 84-102. */
  function PageStatus(w: World, page: Child): (r: StatusOutcome)
    ensures r.StatusRaised? ==> !Excluded(page.link, w.excludeUrls) && w.open(page.link).Some?
    ensures r.Decided? ==> |r.lines| <= 1
  {
    if Excluded(page.link, w.excludeUrls) then Decided(false, [])
    else
      match w.open(page.link)
      case None => Decided(true, [Slow(page.link)])
      case Some(check) =>
        if check.code == 200 then Decided(true, [])
        else
          match w.visible(page.parent, page.link)
          case None => StatusRaised
          case Some(isVisible) =>
            if isVisible then Decided(false, [Broken(check.code, page.link, page.parent)])
            else Decided(true, [])
  }

  /** An excluded link is rejected without being fetched or checked: whatever the network
      and the browser would answer, the page is not expanded and nothing is written. */
  lemma ExcludedNotFetched(w: World, page: Child, open: string -> Option<Page>,
                           visible: (string, string) -> Option<bool>)
    requires Excluded(page.link, w.excludeUrls)
    ensures PageStatus(w.(open := open, visible := visible), page) == Decided(false, [])
  {
  }

  /** An empty entry in `exclude_urls` (a blank line in the setting) excludes every page. */
  lemma EmptyEntryExcludesAll(w: World, page: Child)
    requires [] in w.excludeUrls
    ensures PageStatus(w, page) == Decided(false, [])
  {
    var i :| 0 <= i < |w.excludeUrls| && w.excludeUrls[i] == [];
    assert OccursAt([], page.link, 0);
  }

  /** With `exclude_urls` present but empty the default `'707'` applies, and every link containing
      `707` is excluded. */
  lemma DefaultExcludes(w: World, page: Child)
    requires w.excludeUrls == Config.ListParam([], "707")
    requires Contains(page.link, "707")
    ensures PageStatus(w, page) == Decided(false, [])
  {
    forall i | 0 <= i < 3 ensures !OccursAt("\n", "707", i) {
      assert "707"[i..i + 1][0] != '\n';
    }
    PartsSingle("707", "\n", 0);
    assert w.excludeUrls[0] == "707";
    assert OccursAt("707", "707", 0);
  }

  /** A page that is not excluded is expanded exactly when opening it fails, its code is
      200, or the browser does not see the link; a failed open writes one line. */
  lemma ExpandCases(w: World, page: Child)
    requires !Excluded(page.link, w.excludeUrls)
    ensures PageStatus(w, page).Decided? && PageStatus(w, page).expand
      <==> (|| w.open(page.link).None?
            || w.open(page.link).value.code == 200
            || w.visible(page.parent, page.link) == Some(false))
    ensures PageStatus(w, page).Decided? && PageStatus(w, page).expand ==>
      PageStatus(w, page).lines == (if w.open(page.link).None? then [Slow(page.link)] else [])
  {
  }

  /** A page that is not excluded is rejected exactly when its code is not 200 and the
      browser sees the link; then exactly one line is written, naming code, link and parent. */
  lemma RejectVisible(w: World, page: Child)
    requires !Excluded(page.link, w.excludeUrls)
    ensures PageStatus(w, page).Decided? && !PageStatus(w, page).expand
      <==> (&& w.open(page.link).Some?
            && w.open(page.link).value.code != 200
            && w.visible(page.parent, page.link) == Some(true))
    ensures PageStatus(w, page).Decided? && !PageStatus(w, page).expand ==>
      PageStatus(w, page).lines == [Broken(w.open(page.link).value.code, page.link, page.parent)]
  {
  }

  /** `collect_childs` for one dequeued page: the children it posts and the lines written,
      or `None` when the worker raises and posts nothing. */
  function Collect(w: World, page: Child): (r: Option<(seq<Child>, seq<Line>)>)
    ensures r.Some? ==> forall i :: 0 <= i < |r.value.0| ==> r.value.0[i].parent == page.link
  {
    match PageStatus(w, page)
    case StatusRaised => None
    case Decided(expand, lines) =>
      if !expand then Some(([], lines))
      else
        match ChildrenOf(w.open, w.initialUrl, page.link)
        case ChildsRaised => None
        case Returned(children, more) => Some((children, lines + more))
  }

  /** A page is expanded only when its status is true; a rejected page posts `[]`. */
  lemma CollectExpandsOnlyIfTrue(w: World, page: Child)
    ensures PageStatus(w, page).Decided? && !PageStatus(w, page).expand ==>
      Collect(w, page) == Some(([], PageStatus(w, page).lines))
    ensures Collect(w, page).Some? && Collect(w, page).value.0 != [] ==>
      PageStatus(w, page).Decided? && PageStatus(w, page).expand
      && ChildrenOf(w.open, w.initialUrl, page.link) == Returned(Collect(w, page).value.0, [])
  {
  }

  /** When a worker raises it has written nothing first: the visibility check raises
      before any line, and `get_page_childs` can only raise after the page opened, in which
      case the status check wrote nothing either. */
  lemma NoLineBeforeRaise(w: World, page: Child)
    requires Collect(w, page).None?
    ensures PageStatus(w, page) == StatusRaised || PageStatus(w, page) == Decided(true, [])
  {
  }

  /** A page that does not open is written up twice (once by each `open_page`) and
      expanded to nothing, unless it is excluded. */
  lemma UnreachablePage(w: World, page: Child)
    requires !Excluded(page.link, w.excludeUrls)
    requires w.open(page.link).None?
    ensures Collect(w, page) == Some(([], [Slow(page.link), Slow(page.link)]))
  {
    assert PageStatus(w, page) == Decided(true, [Slow(page.link)]);
    assert ChildrenOf(w.open, w.initialUrl, page.link) == Returned([], [Slow(page.link)]);
    assert [Slow(page.link)] + [Slow(page.link)] == [Slow(page.link), Slow(page.link)];
  }

  /** `threads_count` of lines 158-161: the smaller of `max_threads_count` and one more
      than half the pages still pending (integer division, which floors like `/` here
      since the divisor is positive). */
  function ThreadsCount(newPagesCount: int, done: int, maxThreads: int): (t: int)
    ensures t <= maxThreads && t <= 1 + (newPagesCount - done) / 2
    ensures t == maxThreads || t == 1 + (newPagesCount - done) / 2
  {
    var t := 1 + (newPagesCount - done) / 2;
    if t > maxThreads then maxThreads else t
  }

  /** While pages are pending and the cap is positive, a wave has at least one worker, no
      more than the cap, and no more than the pages pending, so no worker finds the queue
      empty. */
  lemma ThreadsCountBounds(newPagesCount: int, done: int, maxThreads: int)
    requires done < newPagesCount && maxThreads >= 1
    ensures 1 <= ThreadsCount(newPagesCount, done, maxThreads) <= maxThreads
    ensures ThreadsCount(newPagesCount, done, maxThreads) <= newPagesCount - done
  {
  }

  /** Fewer pending pages never mean more workers. */
  lemma ThreadsCountMonotone(newPagesCount: int, done1: int, done2: int, maxThreads: int)
    requires done1 <= done2
    ensures ThreadsCount(newPagesCount, done2, maxThreads) <= ThreadsCount(newPagesCount, done1, maxThreads)
  {
  }

  /** A cap below one starts no worker at all, so the wave loop never progresses. */
  lemma ThreadsCountNoCap(newPagesCount: int, done: int, maxThreads: int)
    requires maxThreads <= 0
    ensures ThreadsCount(newPagesCount, done, maxThreads) <= 0
  {
  }
}
