/**
 * Strict mode's URL filter (`isUrlMatched`, `shouldApplyNicknames` and
 * `isOrgMemberListPage` in content.js).
 *
 * A pattern is one of three kinds, tested in this order:
 *   - `regex:<source>`: the source is compiled and tested against the URL;
 *   - a pattern containing `*`: every `*` matches any run of characters (other
 *     than line terminators) and every other character matches itself, over the
 *     whole URL;
 *   - anything else: the URL must equal the pattern.
 */
module UrlFilter {
  import opened JsCore
  import opened Storage

  /**
   * The two `RegExp` operations the source relies on, taken as given:
   * whether `new RegExp(source)` succeeds, and `new RegExp(source).test(text)`.
   */
  datatype RegexEngine = RegexEngine(compiles: string -> bool, test: (string, string) -> bool)

  const RegexPrefix := "regex:"

  predicate NoLineTerminator(s: string) {
    forall i :: 0 <= i < |s| ==> !IsLineTerminator(s[i])
  }

  // ---------------------------------------------------------------------------
  // Wildcard patterns

  /**
   * The wildcard pattern compiled to `^...$`, with `*` turned into `.*` and every
   * other character escaped: a backtracking matcher over the pattern and the URL.
   */
  function WildcardMatch(p: string, u: string): bool
    decreases |p| + |u|
  {
    if p == [] then u == []
    else if p[0] == '*' then
      WildcardMatch(p[1..], u) || (u != [] && !IsLineTerminator(u[0]) && WildcardMatch(p, u[1..]))
    else u != [] && u[0] == p[0] && WildcardMatch(p[1..], u[1..])
  }

  /**
   * Reference meaning of a wildcard pattern: the URL splits into pieces, one per
   * pattern character, where a literal character is itself and a `*` is any run
   * of characters without a line terminator.
   */
  ghost predicate GlobMatches(p: string, u: string)
    decreases |p|
  {
    if p == [] then u == []
    else if p[0] == '*' then
      exists k :: 0 <= k <= |u| && NoLineTerminator(u[..k]) && GlobMatches(p[1..], u[k..])
    else u != [] && u[0] == p[0] && GlobMatches(p[1..], u[1..])
  }

  lemma {:induction false} WildcardMatchSound(p: string, u: string)
    requires WildcardMatch(p, u)
    ensures GlobMatches(p, u)
    decreases |p| + |u|
  {
    if p == [] {
    } else if p[0] == '*' {
      if WildcardMatch(p[1..], u) {
        WildcardMatchSound(p[1..], u);
        assert u[0..] == u;
        assert NoLineTerminator(u[..0]);
      } else {
        WildcardMatchSound(p, u[1..]);
        var k :| 0 <= k <= |u[1..]| && NoLineTerminator(u[1..][..k]) && GlobMatches(p[1..], u[1..][k..]);
        assert u[..k + 1] == [u[0]] + u[1..][..k];
        assert u[k + 1..] == u[1..][k..];
        assert NoLineTerminator(u[..k + 1]);
      }
    } else {
      WildcardMatchSound(p[1..], u[1..]);
    }
  }

  lemma {:induction false} WildcardMatchComplete(p: string, u: string)
    requires GlobMatches(p, u)
    ensures WildcardMatch(p, u)
    decreases |p| + |u|
  {
    if p == [] {
    } else if p[0] == '*' {
      var k :| 0 <= k <= |u| && NoLineTerminator(u[..k]) && GlobMatches(p[1..], u[k..]);
      if k == 0 {
        assert u[0..] == u;
        WildcardMatchComplete(p[1..], u);
      } else {
        assert u[1..][..k - 1] == u[1..k];
        assert u[1..][k - 1..] == u[k..];
        assert NoLineTerminator(u[1..][..k - 1]);
        assert GlobMatches(p, u[1..]);
        WildcardMatchComplete(p, u[1..]);
        assert !IsLineTerminator(u[..k][0]);
      }
    } else {
      WildcardMatchComplete(p[1..], u[1..]);
    }
  }

  /** The matcher agrees with the reference meaning on every pattern and URL. */
  lemma WildcardMatchCorrect(p: string, u: string)
    ensures WildcardMatch(p, u) <==> GlobMatches(p, u)
  {
    if WildcardMatch(p, u) {
      WildcardMatchSound(p, u);
    }
    if GlobMatches(p, u) {
      WildcardMatchComplete(p, u);
    }
  }

  /** Without a `*`, every character, regular-expression metacharacters included, matches itself. */
  lemma {:induction false} WildcardWithoutStarIsEquality(p: string, u: string)
    requires '*' !in p
    ensures WildcardMatch(p, u) <==> u == p
  {
    if p != [] && u != [] {
      assert '*' !in p[1..];
      WildcardWithoutStarIsEquality(p[1..], u[1..]);
      if u == p {
        assert u[1..] == p[1..];
      }
      if u[0] == p[0] && u[1..] == p[1..] {
        assert u == [u[0]] + u[1..] && p == [p[0]] + p[1..];
      }
    }
  }

  /** A lone `*` matches every URL without a line terminator, the empty one included. */
  lemma {:induction false} StarMatchesEverything(p: string, u: string)
    requires p == "*"
    ensures WildcardMatch(p, u) <==> NoLineTerminator(u)
  {
    assert p[1..] == [];
    if u != [] {
      StarMatchesEverything(p, u[1..]);
      assert WildcardMatch(p, u) == (!IsLineTerminator(u[0]) && WildcardMatch(p, u[1..]));
      if NoLineTerminator(u) {
        assert NoLineTerminator(u[1..]);
      }
      if WildcardMatch(p, u) {
        forall i | 0 <= i < |u| ensures !IsLineTerminator(u[i]) {
          if i > 0 {
            assert u[i] == u[1..][i - 1];
          }
        }
      }
    }
  }

  /**
   * A pattern made of a literal text followed by one `*` matches exactly the URLs
   * that start with that text and continue without a line terminator.
   */
  lemma {:induction false} LiteralThenStar(lit: string, u: string)
    requires '*' !in lit
    ensures WildcardMatch(lit + "*", u) <==> lit <= u && NoLineTerminator(u[|lit|..])
  {
    if lit == [] {
      assert lit + "*" == "*";
      StarMatchesEverything(lit + "*", u);
    } else {
      var p := lit + "*";
      assert p[0] == lit[0];
      assert p[1..] == lit[1..] + "*";
      assert '*' !in lit[1..];
      if u != [] {
        LiteralThenStar(lit[1..], u[1..]);
        if |lit| <= |u| {
          assert u[1..][|lit[1..]|..] == u[|lit|..];
        }
        if lit <= u {
          assert lit[1..] <= u[1..];
        }
        if u[0] == lit[0] && lit[1..] <= u[1..] {
          assert lit == [lit[0]] + lit[1..];
          assert u[..|lit|] == [u[0]] + u[1..][..|lit| - 1];
        }
      }
    }
  }

  // ---------------------------------------------------------------------------
  // isUrlMatched

  function IsUrlMatched(engine: RegexEngine, url: string, pattern: string): (r: bool)
    ensures RegexPrefix <= pattern ==>
              (r <==> engine.compiles(pattern[6..]) && engine.test(pattern[6..], url))
    ensures !(RegexPrefix <= pattern) && '*' in pattern ==> (r <==> GlobMatches(pattern, url))
    ensures !(RegexPrefix <= pattern) && '*' !in pattern ==> (r <==> url == pattern)
  {
    if RegexPrefix <= pattern then
      var source := pattern[|RegexPrefix|..];
      engine.compiles(source) && engine.test(source, url)
    else if '*' in pattern then
      WildcardMatchCorrect(pattern, url);
      WildcardMatch(pattern, url)
    else url == pattern
  }

  /** A `regex:` pattern is never read as a wildcard, even when its source contains `*`. */
  lemma RegexBeforeWildcard(engine: RegexEngine, url: string, source: string)
    ensures IsUrlMatched(engine, url, RegexPrefix + source) ==
              (engine.compiles(source) && engine.test(source, url))
  {
    assert RegexPrefix <= RegexPrefix + source;
    assert (RegexPrefix + source)[6..] == source;
  }

  /** A regular expression that does not compile matches no URL. */
  lemma BrokenRegexMatchesNothing(engine: RegexEngine, url: string, source: string)
    requires !engine.compiles(source)
    ensures !IsUrlMatched(engine, url, RegexPrefix + source)
  {
    RegexBeforeWildcard(engine, url, source);
  }

  /** The facts about the example's literal texts that the example below needs. */
  lemma OrgWildcardTexts(pattern: string, good: string, bad: string)
    requires pattern == "https://github.com/orgs/*"
    requires good == "https://github.com/orgs/acme/people"
    requires bad == "https://gitlab.com/orgs/acme/people"
    ensures pattern == pattern[..24] + "*" && '*' !in pattern[..24] && !(RegexPrefix <= pattern)
    ensures pattern[..24] <= good && NoLineTerminator(good[24..])
    ensures !(pattern[..24] <= bad)
  {
    assert pattern[0] == 'h';
    assert bad[11] != pattern[11];
  }

  /** A wildcard after an organisation path admits that organisation's pages on that host only. */
  lemma OrgWildcardExample(engine: RegexEngine, pattern: string, good: string, bad: string)
    requires pattern == "https://github.com/orgs/*"
    requires good == "https://github.com/orgs/acme/people"
    requires bad == "https://gitlab.com/orgs/acme/people"
    ensures IsUrlMatched(engine, good, pattern)
    ensures !IsUrlMatched(engine, bad, pattern)
  {
    OrgWildcardTexts(pattern, good, bad);
    var lit := pattern[..24];
    assert '*' in pattern by {
      assert pattern[24] == '*';
    }
    LiteralThenStar(lit, good);
    LiteralThenStar(lit, bad);
  }

  // ---------------------------------------------------------------------------
  // shouldApplyNicknames

  /** `urlPatterns.some(pattern => isUrlMatched(url, pattern))`. */
  function AnyPatternMatches(engine: RegexEngine, url: string, patterns: seq<string>): (r: bool)
    ensures r <==> exists i :: 0 <= i < |patterns| && IsUrlMatched(engine, url, patterns[i])
  {
    if patterns == [] then false
    else if IsUrlMatched(engine, url, patterns[0]) then true
    else
      var r := AnyPatternMatches(engine, url, patterns[1..]);
      assert forall i :: 1 <= i < |patterns| ==> patterns[i] == patterns[1..][i - 1];
      r
  }

  /**
   * Whether nicknames are shown on the page at `url`: always when strict mode is
   * off, never when it is on with no pattern, otherwise when some pattern matches.
   */
  function ShouldApplyNicknames(engine: RegexEngine, settings: StrictMode, url: string): (r: bool)
    ensures !settings.enabled ==> r
    ensures settings.enabled && settings.urlPatterns == [] ==> !r
    ensures settings.enabled ==>
              (r <==> exists i :: 0 <= i < |settings.urlPatterns| &&
                                  IsUrlMatched(engine, url, settings.urlPatterns[i]))
  {
    if !settings.enabled then true
    else if |settings.urlPatterns| == 0 then false
    else AnyPatternMatches(engine, url, settings.urlPatterns)
  }

  /** Adding a pattern to an enabled strict mode can only admit more pages. */
  lemma MorePatternsAdmitMore(engine: RegexEngine, settings: StrictMode, extra: string, url: string)
    requires ShouldApplyNicknames(engine, settings, url)
    ensures ShouldApplyNicknames(engine, settings.(urlPatterns := settings.urlPatterns + [extra]), url)
  {
    var s' := settings.(urlPatterns := settings.urlPatterns + [extra]);
    if settings.enabled {
      var i :| 0 <= i < |settings.urlPatterns| && IsUrlMatched(engine, url, settings.urlPatterns[i]);
      assert s'.urlPatterns[i] == settings.urlPatterns[i];
    }
  }

  // ---------------------------------------------------------------------------
  // isOrgMemberListPage

  /** Length of the longest prefix without a `/`: what a greedy `[^/]+` can take. */
  function SegmentRun(s: string): (n: nat)
    ensures n <= |s|
    ensures '/' !in s[..n]
    ensures n < |s| ==> s[n] == '/'
  {
    if s == [] || s[0] == '/' then 0
    else
      var n := 1 + SegmentRun(s[1..]);
      assert s[..n] == [s[0]] + s[1..][..n - 1];
      n
  }

  /** A path segment: non-empty, without `/`. */
  predicate IsSegment(s: string) {
    s != [] && '/' !in s
  }

  /**
   * `[^/]+(\/?$|\?)` matches at the start of `s`: a segment that ends the text
   * (optionally with one `/`), or a segment prefix followed by `?`.
   */
  predicate SegmentTail(s: string) {
    var n := SegmentRun(s);
    n >= 1 && (s[n..] == "" || s[n..] == "/" || '?' in s[1..n])
  }

  /** What may follow `people`: `(\/?$|\/[^/]+)?(\/?$|\?)`. */
  predicate PeopleTail(q: string) {
    q == "" || q == "/" || (q != [] && q[0] == '?') || (q != [] && q[0] == '/' && SegmentTail(q[1..]))
  }

  /**
   * The path is an organisation's teams or people page:
   * `/orgs/<org>/teams/<team>` or `/orgs/<org>/people[/<user>]`, with an optional
   * trailing `/` or a `?` after it.
   */
  predicate IsOrgMemberListPage(path: string) {
    "/orgs/" <= path &&
    var rest := path[6..];
    var n := SegmentRun(rest);
    n >= 1 && n < |rest| &&
    OrgTail(rest[n + 1..])
  }

  /** What may follow `/orgs/<org>/`: `(teams\/[^/]+|people(\/?$|\/[^/]+)?)(\/?$|\?)`. */
  predicate OrgTail(t: string) {
    ("teams/" <= t && SegmentTail(t[6..])) || ("people" <= t && PeopleTail(t[6..]))
  }

  /** The run of a slash-free text followed by something starting with `/` is the text. */
  lemma SegmentRunOfConcat(seg: string, rest: string)
    requires '/' !in seg
    requires rest == [] || rest[0] == '/'
    ensures SegmentRun(seg + rest) == |seg|
    decreases |seg|
  {
    if seg != [] {
      assert (seg + rest)[1..] == seg[1..] + rest;
      assert '/' !in seg[1..];
      SegmentRunOfConcat(seg[1..], rest);
    } else {
      assert seg + rest == rest;
    }
  }

  /** Whatever the organisation's name, the decision rests on what follows it. */
  lemma OrgPagePath(org: string, t: string)
    requires IsSegment(org)
    ensures IsOrgMemberListPage("/orgs/" + org + "/" + t) <==> OrgTail(t)
  {
    var p := "/orgs/" + org + "/" + t;
    assert "/orgs/" <= p;
    assert p[6..] == org + ("/" + t);
    SegmentRunOfConcat(org, "/" + t);
    assert p[6..][|org| + 1..] == t;
  }

  /** A segment without `?` ends a match when followed by nothing or by `/`, and not otherwise. */
  lemma SegmentTailOfName(name: string, more: string)
    requires IsSegment(name) && '?' !in name && more != []
    ensures SegmentTail(name) && SegmentTail(name + "/")
    ensures !SegmentTail(name + "/" + more)
  {
    SegmentRunOfConcat(name, []);
    assert name + [] == name;
    SegmentRunOfConcat(name, "/");
    SegmentRunOfConcat(name, "/" + more);
    assert name + "/" + more == name + ("/" + more);
    assert (name + ("/" + more))[|name|..] == "/" + more;
    assert (name + "/")[|name|..] == "/";
    assert '?' !in name[1..];
    assert (name + "/")[1..|name|] == name[1..];
    assert (name + ("/" + more))[1..|name|] == name[1..];
  }

  /** The people list, with or without a trailing `/`, and one member's page are org member pages. */
  lemma OrgPeoplePages(org: string, name: string)
    requires IsSegment(org) && IsSegment(name) && '?' !in name
    ensures IsOrgMemberListPage("/orgs/" + org + "/" + "people")
    ensures IsOrgMemberListPage("/orgs/" + org + "/" + "people/")
    ensures IsOrgMemberListPage("/orgs/" + org + "/" + ("people/" + name))
  {
    OrgPagePath(org, "people");
    OrgPagePath(org, "people/");
    OrgPagePath(org, "people/" + name);
    SegmentTailOfName(name, "x");
    assert ("people/" + name)[6..] == "/" + name;
    assert ("/" + name)[1..] == name;
    assert "people/"[6..] == "/";
    assert "people"[6..] == [];
  }

  /** A team's page, with or without a trailing `/`, is an org member page. */
  lemma OrgTeamPages(org: string, name: string)
    requires IsSegment(org) && IsSegment(name) && '?' !in name
    ensures IsOrgMemberListPage("/orgs/" + org + "/" + ("teams/" + name))
    ensures IsOrgMemberListPage("/orgs/" + org + "/" + ("teams/" + name + "/"))
  {
    OrgPagePath(org, "teams/" + name);
    OrgPagePath(org, "teams/" + name + "/");
    SegmentTailOfName(name, "x");
    assert ("teams/" + name)[6..] == name;
    assert ("teams/" + name + "/")[6..] == name + "/";
  }

  /** The team list without a team, and a page below a member's page, are not. */
  lemma NotOrgMemberPages(org: string, name: string)
    requires IsSegment(org) && IsSegment(name) && '?' !in name
    ensures !IsOrgMemberListPage("/orgs/" + org + "/" + "teams")
    ensures !IsOrgMemberListPage("/orgs/" + org + "/" + ("people/" + name + "/x"))
  {
    OrgPagePath(org, "teams");
    OrgPagePath(org, "people/" + name + "/x");
    SegmentTailOfName(name, "x");
    assert ("people/" + name + "/x")[6..] == "/" + (name + "/" + "x");
    assert ("/" + (name + "/" + "x"))[1..] == name + "/" + "x";
  }
}
