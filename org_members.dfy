/**
 * The org member pass of the content script (`processOrgMemberLinks` in
 * content.js): on an organisation's people or teams page, the text nodes inside
 * `/orgs/<org>/people/<user>` links are decorated one by one.
 */
module OrgMembers {
  import opened JsCore
  import opened UrlFilter
  import opened Decoration

  /**
   * `href.match(/\/orgs\/[^/]+\/people\/([^/]+)/)` tried at index `i`: the
   * captured username when the match starts there.
   */
  function OrgPeopleMatchAt(href: string, i: nat): (r: Option<string>)
    requires i <= |href|
    ensures r.Some? ==> IsSegment(r.value)
  {
    var t := href[i..];
    if "/orgs/" <= t then
      var org := SegmentRun(t[6..]);
      var after := t[6 + org..];
      if org >= 1 && "/people/" <= after then
        var user := after[8..];
        var n := SegmentRun(user);
        if n >= 1 then Some(user[..n]) else None
      else None
    else None
  }

  /** The leftmost match, scanning from index `i`. */
  function OrgPeopleUsernameFrom(href: string, i: nat): (r: Option<string>)
    requires i <= |href|
    ensures r.Some? ==> IsSegment(r.value)
    ensures (forall j :: i <= j <= |href| ==> OrgPeopleMatchAt(href, j).None?) ==> r.None?
    decreases |href| - i
  {
    match OrgPeopleMatchAt(href, i)
    case Some(u) => Some(u)
    case None => if i == |href| then None else OrgPeopleUsernameFrom(href, i + 1)
  }

  function OrgPeopleUsername(href: string): (r: Option<string>)
    ensures r.Some? ==> IsSegment(r.value)
  {
    OrgPeopleUsernameFrom(href, 0)
  }

  /** The `/orgs/<org>` prefix: the segment run after `/orgs/` is the org name. */
  lemma OrgPrefix(org: string, after: string)
    requires IsSegment(org) && "/" <= after
    ensures var t := "/orgs/" + org + after;
            "/orgs/" <= t && SegmentRun(t[6..]) == |org| && t[6 + |org|..] == after
  {
    var t := "/orgs/" + org + after;
    assert t[6..] == org + after;
    SegmentRunOfConcat(org, after);
    assert t[6 + |org|..] == after;
  }

  /** The `/people/<user>` part: the segment run after `/people/` is the username. */
  lemma PeoplePart(user: string, tail: string)
    requires IsSegment(user) && (tail == [] || tail[0] == '/')
    ensures var after := "/people/" + user + tail;
            "/people/" <= after && after[8..] == user + tail &&
            SegmentRun(after[8..]) == |user| && after[8..][..|user|] == user
  {
    var after := "/people/" + user + tail;
    assert after[8..] == user + tail;
    SegmentRunOfConcat(user, tail);
    assert (user + tail)[..|user|] == user;
  }

  /** On a member's link, `/orgs/<org>/people/<user>[/...]`, the username is `<user>`. */
  lemma OrgPeopleUsernameOf(org: string, user: string, tail: string)
    requires IsSegment(org) && IsSegment(user) && (tail == [] || tail[0] == '/')
    ensures OrgPeopleUsername("/orgs/" + org + "/people/" + user + tail) == Some(user)
  {
    var after := "/people/" + user + tail;
    var href := "/orgs/" + org + after;
    assert href == "/orgs/" + org + "/people/" + user + tail;
    PeoplePart(user, tail);
    OrgPrefix(org, after);
    assert href[0..] == href;
    assert OrgPeopleMatchAt(href, 0) == Some(user);
  }

  /**
   * The org rule AS WRITTEN: the guard looks for ` ( nickname ) ` in the trimmed
   * text, which has lost the marker's trailing space, so it misses the text's own
   * decoration.
   */
  function OrgNodeTextAsWritten(value: string, nickname: string): (r: string)
    ensures r != value ==> Trim(value) != "" && r == Decorated(Trim(value), nickname)
    ensures r != value ==> Contains(r, Marker(nickname))
  {
    var current := Trim(value);
    if current != "" && !Contains(current, Marker(nickname)) then Decorated(current, nickname)
    else value
  }

  /** A trimmed text with a marker appended trims back to the text with the marker's last space cut. */
  lemma TrimDecorated(u: string, nickname: string)
    requires u != [] && Trim(u) == u
    ensures Trim(u + Marker(nickname)) == u + " ( " + nickname + " )"
  {
    var once := u + Marker(nickname);
    var cut := u + " ( " + nickname + " )";
    TrimEnds(u);
    assert once[0] == u[0] && !IsWhitespace(u[0]);
    assert TrimStart(once) == once;
    assert once[..|once| - 1] == cut;
    assert cut[|cut| - 1] == ')';
    assert TrimEnd(once) == TrimEnd(cut) == cut;
  }

  /** Every marker has `)` before its last character. */
  lemma MarkerParen(nickname: string)
    ensures var m := Marker(nickname); |m| >= 2 && m[|m| - 2] == ')'
  {
  }

  /** A text without `)` never holds a marker. */
  lemma NoParenNoMarker(u: string, nickname: string)
    requires ')' !in u
    ensures !Contains(u, Marker(nickname))
  {
    var m := Marker(nickname);
    MarkerParen(nickname);
    NotContainsByChar(u, m, ')', |m| - 2);
  }

  /** A decoration with its last space cut holds no marker when neither part has `)`. */
  lemma CutDecorationNoMarker(u: string, nickname: string)
    requires ')' !in u && ')' !in nickname
    ensures !Contains(u + " ( " + nickname + " )", Marker(nickname))
  {
    var m := Marker(nickname);
    var cut := u + " ( " + nickname + " )";
    forall k | 0 <= k < |cut| - 1
      ensures cut[k] != ')'
    {
      if k < |u| {
        assert cut[k] == u[k];
      } else if k >= |u| + 3 && k < |u| + 3 + |nickname| {
        assert cut[k] == nickname[k - |u| - 3];
      }
    }
    MarkerParen(nickname);
    NotContainsByChar(cut, m, ')', |m| - 2);
  }

  /**
   * As written, for every non-blank trimmed text and nickname without `)`, the
   * first run decorates the text and a second run, after the marks are cleared,
   * appends the nickname once more: the guard never sees its own decoration.
   */
  lemma OrgGuardMissesOwnDecoration(u: string, nickname: string)
    requires u != [] && Trim(u) == u
    requires ')' !in u && ')' !in nickname
    ensures OrgNodeTextAsWritten(u, nickname) == u + Marker(nickname)
    ensures OrgNodeTextAsWritten(u + Marker(nickname), nickname) == u + " ( " + nickname + " )" + Marker(nickname)
  {
    NoParenNoMarker(u, nickname);
    TrimDecorated(u, nickname);
    CutDecorationNoMarker(u, nickname);
  }

  /** The two guards differ only where trimming gains or loses a marker. */
  lemma AsWrittenAgrees(value: string, nickname: string)
    requires Contains(Trim(value), Marker(nickname)) == Contains(value, Marker(nickname))
    ensures OrgNodeTextAsWritten(value, nickname) == OrgNodeText(value, nickname)
  {
  }

  /** The intended org rule: the guard looks for the marker in the node's own text. */
  function OrgNodeText(value: string, nickname: string): (r: string)
    ensures r != value ==> Trim(value) != "" && r == Decorated(Trim(value), nickname)
    ensures r != value ==> Contains(r, Marker(nickname))
  {
    var current := Trim(value);
    if current != "" && !Contains(value, Marker(nickname)) then Decorated(current, nickname)
    else value
  }

  /** With the corrected guard, a second run leaves a decorated text alone. */
  lemma OrgNodeTextIdempotent(value: string, nickname: string)
    ensures OrgNodeText(OrgNodeText(value, nickname), nickname) == OrgNodeText(value, nickname)
  {
  }

  /**
   * The org rule, as written, enters its branch for the node: a non-blank text
   * node whose trimmed text lacks the marker. Only then is the text rewritten.
   */
  predicate OrgNodeChanges(n: Node, nickname: string)
    ensures !OrgNodeChanges(n, nickname) ==> OrgNode(n, nickname) == n
  {
    n.TextNode? && Trim(n.value) != "" && !Contains(Trim(n.value), Marker(nickname))
  }

  /** The org rule, as written, on one child node: text nodes only. */
  function OrgNode(n: Node, nickname: string): Node {
    match n
    case TextNode(v) => TextNode(OrgNodeTextAsWritten(v, nickname))
    case ElementNode(_) => n
  }

  /** The callback of the loop below on one child node; `changed` when it rewrote the text. */
  method DecorateOrgNode(node: Node, nickname: string) returns (result: Node, changed: bool)
    ensures result == OrgNode(node, nickname)
    ensures changed == OrgNodeChanges(node, nickname)
  {
    result, changed := node, false;
    if node.TextNode? && Trim(node.value) != "" {
      var current := Trim(node.value);
      if !Contains(current, Marker(nickname)) {
        result, changed := TextNode(Decorated(current, nickname)), true;
      }
    }
  }

  /**
   * `el.childNodes.forEach(...)`: every child through the org rule, in place;
   * `modified` records whether some text node was rewritten.
   */
  method DecorateOrgChildren(nodes: seq<Node>, nickname: string) returns (result: seq<Node>, modified: bool)
    ensures result == MapSeq(n => OrgNode(n, nickname), nodes)
    ensures modified == AnySeq(n => OrgNodeChanges(n, nickname), nodes)
  {
    ghost var f := n => OrgNode(n, nickname);
    ghost var p := n => OrgNodeChanges(n, nickname);
    result := [];
    modified := false;
    var i := 0;
    while i < |nodes|
      invariant 0 <= i <= |nodes|
      invariant result == MapSeq(f, nodes[..i])
      invariant modified == AnySeq(p, nodes[..i])
    {
      MapSeqStep(f, nodes, i);
      AnySeqStep(p, nodes, i);
      var node, changed := DecorateOrgNode(nodes[i], nickname);
      result := result + [node];
      modified := modified || changed;
      i := i + 1;
    }
    assert nodes[..i] == nodes;
  }

  /** The link is one the org member selector picks. */
  predicate IsOrgCandidate(l: Link) {
    l.userCard && l.href.Some? && "/orgs/" <= l.href.value &&
    Contains(l.href.value, "/people/") && !l.injected
  }

  /** One org member link through the pass; marked only when some text node changed. */
  function OrgLinkPass(l: Link, mapping: map<string, string>): (r: Link)
    requires l.href.Some?
    ensures r.href == l.href && r.userCard == l.userCard && |r.nodes| == |l.nodes|
    ensures r == l || r.injected
  {
    match OrgPeopleUsername(l.href.value)
    case None => l
    case Some(u) =>
      if HasNickname(mapping, u) then
        var nickname := mapping[u];
        var f := n => OrgNode(n, nickname);
        var p := n => OrgNodeChanges(n, nickname);
        if AnySeq(p, l.nodes) then l.(nodes := MapSeq(f, l.nodes), injected := true)
        else
          MapSeqUnchanged(f, p, l.nodes);
          l
      else l
  }
}
