/**
 * The content script on one page (content.js): the start-up read of storage,
 * the nickname passes over the page's links, and the `strictModeUpdated` message.
 *
 * Every pass obeys one discipline: a link it rewrites is marked with
 * `data-nickname-injected`, and a marked link is skipped. From that alone,
 * running the passes again over a processed page changes nothing.
 */
module ContentPage {
  import opened JsCore
  import opened Storage
  import opened UrlFilter
  import opened Decoration
  import opened OrgMembers

  // ---------------------------------------------------------------------------
  // One link through each pass

  /** The general pass's callback (`a[href^="/"]:not([data-nickname-injected])`). */
  function GeneralStep(l: Link, mapping: map<string, string>): (r: Link)
    ensures r == l || r.injected
    ensures l.injected ==> r == l
    ensures r.href == l.href && r.userCard == l.userCard
  {
    if IsGeneralCandidate(l) && GeneralGuard(l.href.value, l.Text(), mapping) then GeneralPass(l, mapping)
    else l
  }

  /** The hovercard pass's callback, on the user-card links. */
  function CardStep(l: Link, mapping: map<string, string>): (r: Link)
    ensures r == l || r.injected
    ensures l.injected ==> r == l
    ensures r.href == l.href && r.userCard == l.userCard
  {
    if l.userCard then CardPass(l, mapping) else l
  }

  /** The org member pass's callback, on the links the org member selector picks. */
  function OrgStep(l: Link, mapping: map<string, string>): (r: Link)
    ensures r == l || r.injected
    ensures l.injected ==> r == l
  {
    if IsOrgCandidate(l) then OrgLinkPass(l, mapping) else l
  }

  /** `injectNicknames` then, on an org people or teams page, `processOrgMemberLinks`, on one link. */
  function LinkRun(l: Link, mapping: map<string, string>, orgPage: bool): (r: Link)
    ensures r == l || r.injected
    ensures l.injected ==> r == l
  {
    var c := CardStep(GeneralStep(l, mapping), mapping);
    if orgPage then OrgStep(c, mapping) else c
  }

  /** A second run over a link leaves it as the first run made it. */
  lemma LinkRunIdempotent(l: Link, mapping: map<string, string>, orgPage: bool)
    ensures LinkRun(LinkRun(l, mapping, orgPage), mapping, orgPage) == LinkRun(l, mapping, orgPage)
  {
    var once := LinkRun(l, mapping, orgPage);
    if once != l {
      assert once.injected;
    }
  }

  /** `removeAttribute('data-nickname-injected')`. */
  function Unmark(l: Link): (r: Link)
    ensures !r.injected && r.nodes == l.nodes && r.href == l.href && r.userCard == l.userCard
  {
    l.(injected := false)
  }

  // ---------------------------------------------------------------------------
  // The passes over the page's links, in document order

  /** Each pass's callback with the mapping bound, as handed to `forEach`. */
  function GeneralFn(mapping: map<string, string>): Link -> Link {
    l => GeneralStep(l, mapping)
  }

  function CardFn(mapping: map<string, string>): Link -> Link {
    l => CardStep(l, mapping)
  }

  function OrgFn(mapping: map<string, string>): Link -> Link {
    l => OrgStep(l, mapping)
  }

  function RunFn(mapping: map<string, string>, orgPage: bool): Link -> Link {
    l => LinkRun(l, mapping, orgPage)
  }

  function GeneralAll(links: seq<Link>, mapping: map<string, string>): (r: seq<Link>)
    ensures |r| == |links|
  {
    MapSeq(GeneralFn(mapping), links)
  }

  function CardAll(links: seq<Link>, mapping: map<string, string>): (r: seq<Link>)
    ensures |r| == |links|
  {
    MapSeq(CardFn(mapping), links)
  }

  function OrgAll(links: seq<Link>, mapping: map<string, string>): (r: seq<Link>)
    ensures |r| == |links|
  {
    MapSeq(OrgFn(mapping), links)
  }

  function UnmarkAll(links: seq<Link>): (r: seq<Link>)
    ensures |r| == |links|
  {
    MapSeq(Unmark, links)
  }

  /** One run of the passes over the page: the general pass, the hovercard pass, then the org pass. */
  function PageRun(links: seq<Link>, mapping: map<string, string>, orgPage: bool): (r: seq<Link>)
    ensures |r| == |links|
  {
    var injected := CardAll(GeneralAll(links, mapping), mapping);
    if orgPage then OrgAll(injected, mapping) else injected
  }

  /** The page run is the per-link run on every link. */
  lemma PageRunPerLink(links: seq<Link>, mapping: map<string, string>, orgPage: bool)
    ensures PageRun(links, mapping, orgPage) == MapSeq(RunFn(mapping, orgPage), links)
  {
    var g, c := GeneralFn(mapping), CardFn(mapping);
    if orgPage {
      var cg := l => CardStep(GeneralStep(l, mapping), mapping);
      MapSeqCompose(c, g, cg, links);
      MapSeqCompose(OrgFn(mapping), cg, RunFn(mapping, orgPage), links);
    } else {
      MapSeqCompose(c, g, RunFn(mapping, orgPage), links);
    }
  }

  /**
   * The mutation observer re-runs the passes whenever the page changes: over a
   * page they have already processed, they change nothing.
   */
  lemma PageRunIdempotent(links: seq<Link>, mapping: map<string, string>, orgPage: bool)
    ensures PageRun(PageRun(links, mapping, orgPage), mapping, orgPage) == PageRun(links, mapping, orgPage)
  {
    var run := RunFn(mapping, orgPage);
    forall l | true
      ensures run(run(l)) == run(l)
    {
      LinkRunIdempotent(l, mapping, orgPage);
    }
    PageRunPerLink(links, mapping, orgPage);
    PageRunPerLink(PageRun(links, mapping, orgPage), mapping, orgPage);
    MapSeqIdempotent(run, links);
  }

  // ---------------------------------------------------------------------------
  // The script

  /** The content script of one page: its links, the stored mapping and the strict-mode settings. */
  class ContentScript {
    const engine: RegexEngine
    const url: string
    const pathname: string
    const mapping: map<string, string>
    var strictModeSettings: StrictMode
    var links: seq<Link>

    /** Start-up: the mapping and strict mode are read once from storage. */
    constructor (engine: RegexEngine, url: string, pathname: string, stored: StoreState, links: seq<Link>)
      ensures this.engine == engine && this.url == url && this.pathname == pathname && this.links == links
      ensures mapping == stored.nameMapping
      ensures strictModeSettings == stored.strictMode.GetOr(DefaultStrictMode)
    {
      this.engine := engine;
      this.url := url;
      this.pathname := pathname;
      this.links := links;
      mapping := stored.nameMapping;
      strictModeSettings := stored.strictMode.GetOr(DefaultStrictMode);
    }

    function ShouldApply(): bool
      reads this`strictModeSettings
    {
      ShouldApplyNicknames(engine, strictModeSettings, url)
    }

    /** The initial run: both passes when nicknames apply on this page. */
    method Start()
      modifies this
      ensures strictModeSettings == old(strictModeSettings)
      ensures links == if ShouldApply() then PageRun(old(links), mapping, IsOrgMemberListPage(pathname))
                       else old(links)
    {
      if ShouldApply() {
        InjectNicknames();
        ProcessOrgMemberLinks();
      }
    }

    /** `injectNicknames`: the general pass, then the hovercard pass. */
    method InjectNicknames()
      modifies this
      ensures strictModeSettings == old(strictModeSettings)
      ensures links == if ShouldApply() then CardAll(GeneralAll(old(links), mapping), mapping) else old(links)
    {
      if !ShouldApply() {
        return;
      }
      var m := mapping;
      var start := links;
      var general := [];
      var i := 0;
      while i < |start|
        invariant 0 <= i <= |start|
        invariant unchanged(this)
        invariant general == MapSeq(GeneralFn(m), start[..i])
      {
        MapSeqStep(GeneralFn(m), start, i);
        general := general + [GeneralStep(start[i], m)];
        i := i + 1;
      }
      assert start[..i] == start;
      var cards := [];
      i := 0;
      while i < |general|
        invariant 0 <= i <= |general|
        invariant unchanged(this)
        invariant cards == MapSeq(CardFn(m), general[..i])
      {
        MapSeqStep(CardFn(m), general, i);
        cards := cards + [CardStep(general[i], m)];
        i := i + 1;
      }
      assert general[..i] == general;
      links := cards;
    }

    /** The callback of `processOrgMemberLinks` on one link. */
    method DecorateOrgLink(l: Link) returns (r: Link)
      ensures r == OrgStep(l, mapping)
    {
      r := l;
      if IsOrgCandidate(l) {
        var username := OrgPeopleUsername(l.href.value);
        if username.Some? && HasNickname(mapping, username.value) {
          var nickname := mapping[username.value];
          var nodes, modified := DecorateOrgChildren(l.nodes, nickname);
          if modified {
            r := l.(nodes := nodes, injected := true);
          } else {
            MapSeqUnchanged(n => OrgNode(n, nickname), n => OrgNodeChanges(n, nickname), l.nodes);
          }
        }
      }
    }

    /** `processOrgMemberLinks`: only on an org teams or people page. */
    method ProcessOrgMemberLinks()
      modifies this
      ensures strictModeSettings == old(strictModeSettings)
      ensures links == if ShouldApply() && IsOrgMemberListPage(pathname) then OrgAll(old(links), mapping)
                       else old(links)
    {
      if !ShouldApply() || !IsOrgMemberListPage(pathname) {
        return;
      }
      var m := mapping;
      var start := links;
      var result := [];
      var i := 0;
      while i < |start|
        invariant 0 <= i <= |start|
        invariant unchanged(this)
        invariant result == MapSeq(OrgFn(m), start[..i])
      {
        MapSeqStep(OrgFn(m), start, i);
        var l := DecorateOrgLink(start[i]);
        result := result + [l];
        i := i + 1;
      }
      assert start[..i] == start;
      links := result;
    }

    /**
     * The `strictModeUpdated` message: the new settings replace the old ones and,
     * when nicknames apply under them, every mark is cleared and the passes run again.
     */
    method OnStrictModeUpdated(settings: StrictMode)
      modifies this
      ensures strictModeSettings == settings
      ensures links == if ShouldApply() then PageRun(UnmarkAll(old(links)), mapping, IsOrgMemberListPage(pathname))
                       else old(links)
    {
      strictModeSettings := settings;
      if ShouldApply() {
        var start := links;
        var cleared := [];
        var i := 0;
        while i < |start|
          invariant 0 <= i <= |start|
          invariant strictModeSettings == settings && links == start
          invariant cleared == MapSeq(Unmark, start[..i])
        {
          MapSeqStep(Unmark, start, i);
          cleared := cleared + [Unmark(start[i])];
          i := i + 1;
        }
        assert start[..i] == start;
        links := cleared;
        Start();
      }
    }
  }
}
