/**
 * How the content script writes nicknames into GitHub pages (content.js).
 *
 * A page is modelled as an array of links. Each link has its `href`, its child
 * nodes, the `data-nickname-injected` mark and whether it is a user hovercard
 * link. Three passes decorate a username as `username ( nickname ) `:
 *   - the general pass over links whose `href` starts with `/` (`injectNicknames`);
 *   - the hovercard pass over user-card links (`injectNicknames`);
 *   - the org member pass over `/orgs/<org>/people/<user>` links (`processOrgMemberLinks`).
 */
module Decoration {
  import opened JsCore
  import opened Storage
  import opened UrlFilter

  // ---------------------------------------------------------------------------
  // Decoration text

  /** ` ( nickname ) `: the text that marks a username as decorated. */
  function Marker(nickname: string): string {
    " ( " + nickname + " ) "
  }

  /** `${username} ( ${nickname} ) `. */
  function Decorated(username: string, nickname: string): (r: string)
    ensures username <= r
    ensures Contains(r, Marker(nickname))
  {
    ContainsInfix(username, Marker(nickname), []);
    assert username + Marker(nickname) + [] == username + Marker(nickname);
    username + Marker(nickname)
  }

  /** `mapping[username]` is truthy: the key is present with a non-empty nickname. */
  predicate HasNickname(mapping: map<string, string>, username: string) {
    username in mapping && mapping[username] != ""
  }

  // ---------------------------------------------------------------------------
  // Usernames from hrefs

  /** `href.split('/')[1]`: the text between the first and the second `/`. */
  function HrefUsername(href: string): (r: Option<string>)
    ensures r.Some? <==> '/' in href
    ensures r.Some? ==> '/' !in r.value
  {
    match IndexOf(href, '/')
    case None => None
    case Some(i) =>
      var rest := href[i + 1..];
      Some(rest[..SegmentRun(rest)])
  }

  /** `/^\/[^/]+\/?$/`: the href is one path segment, with or without a trailing `/`. */
  predicate IsSingleSegmentPath(href: string) {
    "/" <= href &&
    var rest := href[1..];
    var n := SegmentRun(rest);
    n >= 1 && (rest[n..] == "" || rest[n..] == "/")
  }

  /** A single-segment href is `/<username>` or `/<username>/`, and that segment is its username. */
  lemma SingleSegmentPathUsername(href: string)
    requires IsSingleSegmentPath(href)
    ensures HrefUsername(href).Some?
    ensures var u := HrefUsername(href).value;
            IsSegment(u) && (href == "/" + u || href == "/" + u + "/")
  {
    assert href[0] == '/';
    var rest := href[1..];
    var n := SegmentRun(rest);
    assert href == "/" + rest[..n] + rest[n..];
  }

  /** Conversely, every `/<segment>` and `/<segment>/` is a single-segment href naming that segment. */
  lemma SegmentPathIsSingle(seg: string)
    requires IsSegment(seg)
    ensures IsSingleSegmentPath("/" + seg) && IsSingleSegmentPath("/" + seg + "/")
    ensures HrefUsername("/" + seg) == Some(seg) && HrefUsername("/" + seg + "/") == Some(seg)
  {
    SegmentRunOfConcat(seg, []);
    SegmentRunOfConcat(seg, "/");
    assert seg + [] == seg;
    assert ("/" + seg)[1..] == seg;
    assert ("/" + seg + "/")[1..] == seg + "/";
    assert (seg + "/")[..|seg|] == seg;
    assert (seg + "/")[|seg|..] == "/";
  }

  // ---------------------------------------------------------------------------
  // text.replace(new RegExp(`\\b${username}\\b`, 'g'), replacement)

  predicate WordCharAt(s: string, i: int) {
    0 <= i < |s| && IsWordChar(s[i])
  }

  /** `\b` holds at index `i`: a word character on exactly one side. */
  predicate IsBoundary(s: string, i: int) {
    WordCharAt(s, i - 1) != WordCharAt(s, i)
  }

  /** The word `w` occurs at index `i` with a word boundary on both sides. */
  predicate WordMatchAt(s: string, w: string, i: nat)
    requires i <= |s|
  {
    w <= s[i..] && IsBoundary(s, i) && IsBoundary(s, i + |w|)
  }

  /**
   * The second argument of `replace`: a replacement string is a template whose
   * `$` patterns are expanded at each match; the result of a replacement
   * function (`() => text`) is inserted as it stands.
   */
  datatype Replacement = Template(text: string) | Verbatim(text: string)

  /** What the replacement inserts for the match of `w` at index `j` of `s`. */
  function Inserted(rep: Replacement, s: string, w: string, j: nat): string
    requires j + |w| <= |s|
  {
    match rep
    case Template(t) => GetSubstitution(t, s[j..j + |w|], s[..j], s[j + |w|..])
    case Verbatim(t) => t
  }

  /**
   * The global replacement, scanning from index `i`: a match is replaced and the
   * scan resumes after it; boundaries are judged on the original text.
   */
  function ReplaceWordFrom(s: string, w: string, rep: Replacement, i: nat): string
    requires w != [] && i <= |s|
    decreases |s| - i
  {
    if i == |s| then []
    else if WordMatchAt(s, w, i) then Inserted(rep, s, w, i) + ReplaceWordFrom(s, w, rep, i + |w|)
    else [s[i]] + ReplaceWordFrom(s, w, rep, i + 1)
  }

  /** `s.replace(regex, rep)` over the whole text. */
  function ReplaceWord(s: string, w: string, rep: Replacement): string
    requires w != []
  {
    ReplaceWordFrom(s, w, rep, 0)
  }

  /** A text without a word-bounded match is left as it is. */
  lemma {:induction false} ReplaceWordFromUnchanged(s: string, w: string, rep: Replacement, i: nat)
    requires w != [] && i <= |s|
    requires forall j :: i <= j <= |s| ==> !WordMatchAt(s, w, j)
    ensures ReplaceWordFrom(s, w, rep, i) == s[i..]
    decreases |s| - i
  {
    if i < |s| {
      ReplaceWordFromUnchanged(s, w, rep, i + 1);
      assert s[i..] == [s[i]] + s[i + 1..];
    }
  }

  /** A text the replacement changed holds the inserted text, when it is inserted as it stands. */
  lemma {:induction false} ReplaceWordFromChanged(s: string, w: string, rep: Replacement, i: nat)
    requires w != [] && i <= |s| && rep.Verbatim?
    requires ReplaceWordFrom(s, w, rep, i) != s[i..]
    ensures Contains(ReplaceWordFrom(s, w, rep, i), rep.text)
    decreases |s| - i
  {
    var r := ReplaceWordFrom(s, w, rep, i);
    if WordMatchAt(s, w, i) {
      ContainsInfix([], rep.text, ReplaceWordFrom(s, w, rep, i + |w|));
      assert [] + rep.text + ReplaceWordFrom(s, w, rep, i + |w|) == r;
    } else {
      var rest := ReplaceWordFrom(s, w, rep, i + 1);
      assert s[i..] == [s[i]] + s[i + 1..];
      ReplaceWordFromChanged(s, w, rep, i + 1);
      assert r[1..] == rest;
    }
  }

  /** A replacement string without `$` inserts the same text as a replacement function. */
  lemma {:induction false} TemplateWithoutDollar(s: string, w: string, t: string, i: nat)
    requires w != [] && i <= |s| && '$' !in t
    ensures ReplaceWordFrom(s, w, Template(t), i) == ReplaceWordFrom(s, w, Verbatim(t), i)
    decreases |s| - i
  {
    if i < |s| {
      if WordMatchAt(s, w, i) {
        GetSubstitutionPlain(t, s[i..i + |w|], s[..i], s[i + |w|..]);
        TemplateWithoutDollar(s, w, t, i + |w|);
      } else {
        TemplateWithoutDollar(s, w, t, i + 1);
      }
    }
  }

  // ---------------------------------------------------------------------------
  // Links

  datatype Node = TextNode(value: string) | ElementNode(text: string)

  function NodeText(n: Node): string {
    match n
    case TextNode(v) => v
    case ElementNode(t) => t
  }

  /** `textContent`: the texts of the children, in order. */
  function TextContent(nodes: seq<Node>): string {
    if nodes == [] then "" else NodeText(nodes[0]) + TextContent(nodes[1..])
  }

  datatype Link = Link(href: Option<string>, nodes: seq<Node>, injected: bool, userCard: bool) {
    function Text(): string {
      TextContent(nodes)
    }

    /** Assigning `textContent` replaces all children by one text node. */
    function WithText(t: string): (r: Link)
      ensures r.Text() == t
    {
      assert TextContent([TextNode(t)]) == t + "";
      this.(nodes := [TextNode(t)])
    }
  }

  // ---------------------------------------------------------------------------
  // General pass: a[href^="/"]:not([data-nickname-injected])

  predicate IsGeneralCandidate(l: Link) {
    l.href.Some? && "/" <= l.href.value && !l.injected
  }

  /** A general link is decorated: its href names a mapped user and its text lacks the marker. */
  predicate GeneralGuard(href: string, text: string, mapping: map<string, string>) {
    var u := HrefUsername(href).GetOr("");
    u != "" && HasNickname(mapping, u) && IsSingleSegmentPath(href) &&
    !Contains(text, Marker(mapping[u]))
  }

  /**
   * The text a general link ends up with. The decoration reaches `replace` as a
   * replacement string (`verbatim` false, as written) or, as intended, as text
   * inserted unchanged (`verbatim` true).
   */
  function GeneralTextBy(href: string, text: string, mapping: map<string, string>, verbatim: bool): (r: string)
    ensures r != text ==> GeneralGuard(href, text, mapping)
    ensures GeneralGuard(href, text, mapping) && Trim(text) == HrefUsername(href).value ==>
              r == Decorated(Trim(text), mapping[Trim(text)])
    ensures verbatim && r != text ==> Contains(r, Marker(mapping[HrefUsername(href).value]))
  {
    if GeneralGuard(href, text, mapping) then
      var u := HrefUsername(href).value;
      var nick := mapping[u];
      if Trim(text) == u then Decorated(u, nick)
      else if Contains(text, u) then
        var d := Decorated(u, nick);
        var r := ReplaceWord(text, u, if verbatim then Verbatim(d) else Template(d));
        assert verbatim && r != text ==> Contains(r, Marker(nick)) by {
          if verbatim && r != text {
            assert text[0..] == text;
            ReplaceWordFromChanged(text, u, Verbatim(d), 0);
            ContainsTransitive(r, d, Marker(nick));
          }
        }
        r
      else text
    else text
  }

  /** `injectNicknames` as written: `$` patterns in the decoration are expanded. */
  function GeneralText(href: string, text: string, mapping: map<string, string>): string {
    GeneralTextBy(href, text, mapping, false)
  }

  /** The intended general rule: the decoration is inserted as it stands. */
  function GeneralTextIntended(href: string, text: string, mapping: map<string, string>): string {
    GeneralTextBy(href, text, mapping, true)
  }

  /** Neither a mapped username nor its nickname holds `$`. */
  predicate NoDollar(mapping: map<string, string>) {
    forall k :: k in mapping ==> '$' !in k && '$' !in mapping[k]
  }

  /** When no username or nickname holds `$`, the code as written does what was intended. */
  lemma GeneralTextWithoutDollar(href: string, text: string, mapping: map<string, string>)
    requires NoDollar(mapping)
    ensures GeneralText(href, text, mapping) == GeneralTextIntended(href, text, mapping)
  {
    if GeneralGuard(href, text, mapping) {
      var u := HrefUsername(href).value;
      var d := Decorated(u, mapping[u]);
      if Trim(text) != u && Contains(text, u) {
        assert '$' !in d;
        TemplateWithoutDollar(text, u, d, 0);
      }
    }
  }

  /** One general link through the pass: text rewritten and mark set when the guard holds. */
  function GeneralPass(l: Link, mapping: map<string, string>): (r: Link)
    requires l.href.Some?
    ensures r.Text() == GeneralText(l.href.value, l.Text(), mapping)
    ensures r.injected <==> l.injected || GeneralGuard(l.href.value, l.Text(), mapping)
    ensures r.href == l.href && r.userCard == l.userCard
  {
    var href := l.href.value;
    var text := l.Text();
    if GeneralGuard(href, text, mapping) then
      var u := HrefUsername(href).value;
      var marked := l.(injected := true);
      if Trim(text) == u || Contains(text, u) then marked.WithText(GeneralText(href, text, mapping))
      else marked
    else l
  }

  /**
   * With the intended rule, running the general pass again after the marks are
   * cleared leaves the text as the first run made it: a decorated text carries
   * the marker.
   */
  lemma GeneralTextIntendedIdempotent(href: string, text: string, mapping: map<string, string>)
    ensures GeneralTextIntended(href, GeneralTextIntended(href, text, mapping), mapping) ==
            GeneralTextIntended(href, text, mapping)
  {
    var once := GeneralTextIntended(href, text, mapping);
    if once != text {
      assert !GeneralGuard(href, once, mapping);
    }
  }

  /** As written, the same holds for a mapping without `$`. */
  lemma GeneralTextIdempotent(href: string, text: string, mapping: map<string, string>)
    requires NoDollar(mapping)
    ensures GeneralText(href, GeneralText(href, text, mapping), mapping) == GeneralText(href, text, mapping)
  {
    GeneralTextWithoutDollar(href, text, mapping);
    GeneralTextWithoutDollar(href, GeneralText(href, text, mapping), mapping);
    GeneralTextIntendedIdempotent(href, text, mapping);
  }

  /** A decoration whose nickname starts with `$$`, as a replacement string, inserts one `$` there. */
  lemma {:induction false} DoubleDollarExpands(u: string, x: string, matched: string, before: string, after: string)
    requires '$' !in u && '$' !in x
    ensures GetSubstitution(Decorated(u, "$$" + x), matched, before, after) == Decorated(u, "$" + x)
  {
    var head, tail := u + " ( ", x + " ) ";
    var rest := "$$" + tail;
    var g := GetSubstitution(head + rest, matched, before, after);
    assert g == head + ("$" + tail) by {
      assert '$' !in head && '$' !in tail;
      GetSubstitutionPrefix(head, rest, matched, before, after);
      GetSubstitutionDollar(tail, matched, before, after);
      GetSubstitutionPlain(tail, matched, before, after);
    }
    assert Decorated(u, "$$" + x) == head + rest;
    assert Decorated(u, "$" + x) == head + ("$" + tail);
  }


  /** Every character of `u` is a word character. */
  predicate IsWord(u: string) {
    u != [] && forall i :: 0 <= i < |u| ==> IsWordChar(u[i])
  }

  /** After `@<u>`, a text that lacks the username's first letter holds no match of it. */
  lemma NoMatchInTail(u: string, tail: string, rep: Replacement)
    requires u != [] && u[0] !in tail
    ensures var t := "@" + u + tail;
            ReplaceWordFrom(t, u, rep, 1 + |u|) == tail
  {
    var t := "@" + u + tail;
    var n := 1 + |u|;
    forall j | n <= j <= |t|
      ensures !WordMatchAt(t, u, j)
    {
      if j < |t| {
        assert t[j] == tail[j - n];
      }
    }
    ReplaceWordFromUnchanged(t, u, rep, n);
    assert t[n..] == tail;
  }

  /**
   * In a mention `@<u>` followed by a text that starts with no word character and
   * lacks the username's first letter, the username matches once, at index 1.
   */
  lemma MentionReplaced(u: string, tail: string, rep: Replacement)
    requires IsWord(u) && u[0] !in tail
    requires tail == [] || !IsWordChar(tail[0])
    ensures var t := "@" + u + tail;
            ReplaceWord(t, u, rep) == "@" + Inserted(rep, t, u, 1) + tail
  {
    var t := "@" + u + tail;
    var n := 1 + |u|;
    assert !WordMatchAt(t, u, 0) by {
      assert t[0] == '@' && IsWordChar(u[0]);
    }
    assert WordMatchAt(t, u, 1) by {
      assert t[1..][..|u|] == u;
      assert t[|u|] == u[|u| - 1];
      assert n < |t| ==> t[n] == tail[0];
    }
    NoMatchInTail(u, tail, rep);
    assert ReplaceWordFrom(t, u, rep, 1) == Inserted(rep, t, u, 1) + tail;
    assert ReplaceWordFrom(t, u, rep, 0) == [t[0]] + ReplaceWordFrom(t, u, rep, 1);
  }

  /** The guard of `/<u>` holds for a text without the marker of the nickname. */
  lemma MentionGuard(u: string, nick: string, text: string)
    requires IsWord(u) && nick != ""
    requires !Contains(text, Marker(nick))
    ensures HrefUsername("/" + u) == Some(u)
    ensures GeneralGuard("/" + u, text, map[u := nick])
  {
    assert '/' !in u by {
      forall i | 0 <= i < |u|
        ensures u[i] != '/'
      {
        assert IsWordChar(u[i]);
      }
    }
    SegmentPathIsSingle(u);
  }

  /** A mention `@<u>...` trims to a text that starts with `@`, so it is not the username. */
  lemma MentionTrim(u: string, tail: string)
    requires IsWord(u)
    ensures Trim("@" + u + tail) != u
  {
    TrimKeeps("@" + u + tail, 0);
    assert '@' !in u by {
      forall i | 0 <= i < |u|
        ensures u[i] != '@'
      {
        assert IsWordChar(u[i]);
      }
    }
    ContainsAt("@" + u + tail, u, 1);
  }

  /** In `@<u>` followed by `tail`, `$` occurs only where `tail` has it. */
  lemma MentionDollars(u: string, tail: string, p: nat)
    requires '$' !in u && p < |"@" + u + tail|
    ensures ("@" + u + tail)[p] == '$' ==> p >= 1 + |u| && tail[p - 1 - |u|] == '$'
  {
    var t := "@" + u + tail;
    if 1 <= p < 1 + |u| {
      assert t[p] == u[p - 1];
    } else if p >= 1 + |u| {
      assert t[p] == tail[p - 1 - |u|];
    }
  }

  /** The marker of `$<x>` holds `$` only at index 3. */
  lemma MarkerDollar(x: string, q: nat)
    requires '$' !in x && q < |Marker("$" + x)| && q != 3
    ensures Marker("$" + x)[q] != '$'
  {
    var tail := Marker("$" + x);
    if 4 <= q < 4 + |x| {
      assert tail[q] == x[q - 4];
    }
  }

  /** A decoration whose nickname starts with one `$` holds no marker of the nickname with two. */
  lemma OneDollarNoMarker(u: string, x: string)
    requires '$' !in u && '$' !in x
    ensures !Contains("@" + Decorated(u, "$" + x), Marker("$$" + x))
  {
    var tail := Marker("$" + x);
    var t := "@" + u + tail;
    var m := Marker("$$" + x);
    assert "@" + Decorated(u, "$" + x) == t;
    forall k: nat
      ensures !OccursAt(t, m, k)
    {
      if k + |m| <= |t| {
        assert t[k..k + |m|][3] == t[k + 3];
        MentionDollars(u, tail, k + 3);
        if k + 3 >= 1 + |u| {
          MarkerDollar(x, k + 3 - 1 - |u|);
        }
      }
    }
    NotContainsAnywhere(t, m);
  }

  /**
   * A mention `@<u>` followed by `tail` through the general rule: the guard
   * holds, and the username is replaced at index 1 only.
   */
  lemma MentionDecorated(u: string, nick: string, tail: string, verbatim: bool)
    requires IsWord(u) && nick != "" && u[0] !in tail
    requires tail == [] || !IsWordChar(tail[0])
    requires !Contains("@" + u + tail, Marker(nick))
    ensures var t := "@" + u + tail;
            var d := Decorated(u, nick);
            GeneralTextBy("/" + u, t, map[u := nick], verbatim) ==
            "@" + Inserted(if verbatim then Verbatim(d) else Template(d), t, u, 1) + tail
  {
    var t := "@" + u + tail;
    MentionGuard(u, nick, t);
    MentionTrim(u, tail);
    assert t[1..1 + |u|] == u;
    ContainsAt(t, u, 1);
    MentionReplaced(u, tail, if verbatim then Verbatim(Decorated(u, nick)) else Template(Decorated(u, nick)));
  }

  /** `@<u>` holds no `$`, so no marker of a nickname with `$`. */
  lemma MentionNoMarker(u: string, x: string)
    requires '$' !in u
    ensures !Contains("@" + u + [], Marker("$$" + x))
  {
    var t := "@" + u + [];
    forall k | 0 <= k < |t| - 1
      ensures t[k] != '$'
    {
      MentionDollars(u, [], k);
    }
    NotContainsByChar(t, Marker("$$" + x), '$', 3);
  }

  /** The marker of `$<x>` starts with no word character and lacks the first letter of `u`. */
  lemma MarkerAvoidsWord(u: string, x: string)
    requires IsWord(u) && u[0] !in x
    ensures var tail := Marker("$" + x);
            u[0] !in tail && !IsWordChar(tail[0])
  {
    var tail := Marker("$" + x);
    assert IsWordChar(u[0]);
    forall i | 0 <= i < |tail|
      ensures tail[i] != u[0]
    {
      if 4 <= i < 4 + |x| {
        assert tail[i] == x[i - 4];
      }
    }
  }

  /**
   * As written, a nickname starting with `$$` is decorated again on every run: a
   * mention link `@<u>` to `/<u>`, with `u` mapped to `$$<x>`, first reads
   * `@<u> ( $<x> ) `, which lacks the marker ` ( $$<x> ) `, so the next run adds
   * ` ( $<x> ) ` once more. `@alice` with `alice` mapped to `$$bob` is one such case.
   */
  lemma GeneralTemplateRedecorates(u: string, x: string)
    requires IsWord(u) && '$' !in u && '$' !in x && u[0] !in x
    ensures var m := map[u := "$$" + x];
            var once := "@" + Decorated(u, "$" + x);
            GeneralText("/" + u, "@" + u, m) == once &&
            GeneralText("/" + u, once, m) == once + Marker("$" + x)
  {
    var nick := "$$" + x;
    var tail := Marker("$" + x);
    var once := "@" + Decorated(u, "$" + x);
    assert "@" + u + [] == "@" + u;
    assert once == "@" + u + tail;
    MentionNoMarker(u, x);
    MentionDecorated(u, nick, [], false);
    DoubleDollarExpands(u, x, u, "@", []);

    MarkerAvoidsWord(u, x);
    OneDollarNoMarker(u, x);
    MentionDecorated(u, nick, tail, false);
    DoubleDollarExpands(u, x, u, "@", tail);
  }

  /** The intended rule decorates the same mention once, with the nickname as stored. */
  lemma GeneralVerbatimDecorates(u: string, x: string)
    requires IsWord(u) && '$' !in u
    ensures GeneralTextIntended("/" + u, "@" + u, map[u := "$$" + x]) == "@" + Decorated(u, "$$" + x)
  {
    assert "@" + u + [] == "@" + u;
    MentionNoMarker(u, x);
    MentionDecorated(u, "$$" + x, [], true);
  }

  // ---------------------------------------------------------------------------
  // Hovercard pass: a[data-hovercard-type="user"] and related selectors

  /** The link's trimmed text is the username; it is decorated unless the marker is there. */
  function CardText(text: string, mapping: map<string, string>): (r: string)
    ensures r != text ==> HasNickname(mapping, Trim(text)) && r == Decorated(Trim(text), mapping[Trim(text)])
  {
    var u := Trim(text);
    if HasNickname(mapping, u) && !Contains(text, Marker(mapping[u])) then Decorated(u, mapping[u])
    else text
  }

  function CardPass(l: Link, mapping: map<string, string>): (r: Link)
    ensures l.injected ==> r == l
    ensures !l.injected ==> r.Text() == CardText(l.Text(), mapping)
    ensures r.href == l.href && r.userCard == l.userCard
  {
    if l.injected then l
    else
      var text := l.Text();
      var u := Trim(text);
      if HasNickname(mapping, u) && !Contains(text, Marker(mapping[u])) then
        l.WithText(CardText(text, mapping)).(injected := true)
      else l
  }

  /** No mapping key contains `(`; GitHub usernames never do. */
  predicate PlainKeys(mapping: map<string, string>) {
    forall k :: k in mapping ==> '(' !in k
  }

  /**
   * Running the hovercard pass again leaves the text alone: the trimmed decorated
   * text contains `(`, so it is no username.
   */
  lemma CardTextIdempotent(text: string, mapping: map<string, string>)
    requires PlainKeys(mapping)
    ensures CardText(CardText(text, mapping), mapping) == CardText(text, mapping)
  {
    var once := CardText(text, mapping);
    if once != text {
      var u := Trim(text);
      assert once == u + (" ( " + mapping[u] + " ) ");
      assert once[|u| + 1] == '(';
      TrimKeeps(once, |u| + 1);
      assert Trim(once) !in mapping;
    }
  }
}
