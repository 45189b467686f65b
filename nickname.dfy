/**
 * Nickname validation and HTML escaping of the management popup
 * (`validateNickname` and `sanitizeNickname` in popup.js).
 *
 * Validation applies three rules in order: the name is not blank, it is at most
 * 100 UTF-16 code units long (measured on the raw input), and it contains none of
 * eleven dangerous patterns, compared case-insensitively. An accepted name is
 * stored in sanitised form: every `<...>` tag removed, then `&`, `<`, `>`, `"`
 * and `'` replaced by HTML entities.
 */
module Nickname {
  import opened JsCore

  const MaxNicknameLength: nat := 100

  // ---------------------------------------------------------------------------
  // Tag stripping: name.replace(/<[^>]*>/g, '')

  /** No `<` is followed, anywhere later, by a `>`: no tag is left. */
  predicate NoTag(s: string) {
    forall i, j :: 0 <= i < j < |s| && s[i] == '<' ==> s[j] != '>'
  }

  /**
   * Removes, scanning left to right, every `<` together with everything up to and
   * including the next `>`. A `<` with no later `>` is kept.
   */
  function StripTags(s: string): (r: string)
    ensures |r| <= |s|
    ensures forall c :: c in r ==> c in s
    ensures NoTag(r)
    ensures '<' !in s ==> r == s
  {
    if s == [] then []
    else if s[0] == '<' && '>' in s then StripTags(s[IndexOf(s, '>').value + 1..])
    else
      var rest := StripTags(s[1..]);
      assert s[0] == '<' ==> '>' !in rest;
      [s[0]] + rest
  }

  // ---------------------------------------------------------------------------
  // Escaping: the chain of five global replace calls

  /** The chain of five global replacements: `&` first, then `<`, `>`, `"` and `'`. */
  function EscapeHtml(s: string): string {
    var amp := ReplaceAllChar(s, '&', "&amp;");
    var lt := ReplaceAllChar(amp, '<', "&lt;");
    var gt := ReplaceAllChar(lt, '>', "&gt;");
    var quot := ReplaceAllChar(gt, '"', "&quot;");
    ReplaceAllChar(quot, '\'', "&#039;")
  }

  /** No raw `<` survives the escaper: the `<` step removes them and later steps insert none. */
  lemma EscapeHtmlNoLt(s: string)
    ensures '<' !in EscapeHtml(s)
  {
    var lt := ReplaceAllChar(ReplaceAllChar(s, '&', "&amp;"), '<', "&lt;");
    var gt := ReplaceAllChar(lt, '>', "&gt;");
    var quot := ReplaceAllChar(gt, '"', "&quot;");
    ReplaceKeepsOut(lt, '>', "&gt;", '<');
    ReplaceKeepsOut(gt, '"', "&quot;", '<');
    ReplaceKeepsOut(quot, '\'', "&#039;", '<');
  }

  lemma EscapeHtmlNoGt(s: string)
    ensures '>' !in EscapeHtml(s)
  {
    var lt := ReplaceAllChar(ReplaceAllChar(s, '&', "&amp;"), '<', "&lt;");
    var gt := ReplaceAllChar(lt, '>', "&gt;");
    var quot := ReplaceAllChar(gt, '"', "&quot;");
    ReplaceKeepsOut(gt, '"', "&quot;", '>');
    ReplaceKeepsOut(quot, '\'', "&#039;", '>');
  }

  lemma EscapeHtmlNoQuotes(s: string)
    ensures '"' !in EscapeHtml(s) && '\'' !in EscapeHtml(s)
  {
    var lt := ReplaceAllChar(ReplaceAllChar(s, '&', "&amp;"), '<', "&lt;");
    var quot := ReplaceAllChar(ReplaceAllChar(lt, '>', "&gt;"), '"', "&quot;");
    ReplaceKeepsOut(quot, '\'', "&#039;", '"');
  }

  /** `sanitizeNickname`: strip tags, then escape. No raw `<`, `>`, `"` or `'` survives. */
  function Sanitize(name: string): (r: string)
    ensures '<' !in r && '>' !in r && '"' !in r && '\'' !in r
  {
    var t := StripTags(name);
    EscapeHtmlNoLt(t);
    EscapeHtmlNoGt(t);
    EscapeHtmlNoQuotes(t);
    EscapeHtml(t)
  }

  /** The entity a single character is escaped to, or the character itself. */
  function EscapeChar(c: char): string {
    if c == '&' then "&amp;"
    else if c == '<' then "&lt;"
    else if c == '>' then "&gt;"
    else if c == '"' then "&quot;"
    else if c == '\'' then "&#039;"
    else [c]
  }

  /** Reference escaper: each character is looked at once and escaped once. */
  function EscapeEach(s: string): string {
    if s == [] then [] else EscapeChar(s[0]) + EscapeEach(s[1..])
  }

  lemma EscapeHtmlAppend(a: string, b: string)
    ensures EscapeHtml(a + b) == EscapeHtml(a) + EscapeHtml(b)
  {
    var amp := ReplaceAllChar(a, '&', "&amp;");
    var amp' := ReplaceAllChar(b, '&', "&amp;");
    ReplaceAllCharAppend(a, b, '&', "&amp;");
    var lt := ReplaceAllChar(amp, '<', "&lt;");
    var lt' := ReplaceAllChar(amp', '<', "&lt;");
    ReplaceAllCharAppend(amp, amp', '<', "&lt;");
    var gt := ReplaceAllChar(lt, '>', "&gt;");
    var gt' := ReplaceAllChar(lt', '>', "&gt;");
    ReplaceAllCharAppend(lt, lt', '>', "&gt;");
    var quot := ReplaceAllChar(gt, '"', "&quot;");
    var quot' := ReplaceAllChar(gt', '"', "&quot;");
    ReplaceAllCharAppend(gt, gt', '"', "&quot;");
    ReplaceAllCharAppend(quot, quot', '\'', "&#039;");
  }

  /** Replacing a character that does not occur changes nothing. */
  lemma ReplaceAbsent(s: string, c: char, rep: string)
    requires c !in s
    ensures ReplaceAllChar(s, c, rep) == s
  {
  }

  lemma ReplaceSingle(c: char, x: char, rep: string)
    ensures ReplaceAllChar([c], x, rep) == if c == x then rep else [c]
  {
    assert [c][1..] == [];
  }

  /** The five stages of the chain, one at a time. */
  lemma EscapeHtmlSteps(s0: string, s1: string, s2: string, s3: string, s4: string, s5: string)
    requires s1 == ReplaceAllChar(s0, '&', "&amp;")
    requires s2 == ReplaceAllChar(s1, '<', "&lt;")
    requires s3 == ReplaceAllChar(s2, '>', "&gt;")
    requires s4 == ReplaceAllChar(s3, '"', "&quot;")
    requires s5 == ReplaceAllChar(s4, '\'', "&#039;")
    ensures EscapeHtml(s0) == s5
  {
  }

  lemma EscapeHtmlCharAmp(c: char, e: string)
    requires c == '&' && e == EscapeChar(c)
    ensures EscapeHtml([c]) == e
  {
    ReplaceSingle(c, '&', e);
    ReplaceAbsent(e, '<', "&lt;");
    ReplaceAbsent(e, '>', "&gt;");
    ReplaceAbsent(e, '"', "&quot;");
    ReplaceAbsent(e, '\'', "&#039;");
    EscapeHtmlSteps([c], e, e, e, e, e);
  }

  lemma EscapeHtmlCharLt(c: char, e: string)
    requires c == '<' && e == EscapeChar(c)
    ensures EscapeHtml([c]) == e
  {
    ReplaceAbsent([c], '&', "&amp;");
    ReplaceSingle(c, '<', e);
    ReplaceAbsent(e, '>', "&gt;");
    ReplaceAbsent(e, '"', "&quot;");
    ReplaceAbsent(e, '\'', "&#039;");
    EscapeHtmlSteps([c], [c], e, e, e, e);
  }

  lemma EscapeHtmlCharGt(c: char, e: string)
    requires c == '>' && e == EscapeChar(c)
    ensures EscapeHtml([c]) == e
  {
    ReplaceAbsent([c], '&', "&amp;");
    ReplaceAbsent([c], '<', "&lt;");
    ReplaceSingle(c, '>', e);
    ReplaceAbsent(e, '"', "&quot;");
    ReplaceAbsent(e, '\'', "&#039;");
    EscapeHtmlSteps([c], [c], [c], e, e, e);
  }

  lemma EscapeHtmlCharQuot(c: char, e: string)
    requires c == '"' && e == EscapeChar(c)
    ensures EscapeHtml([c]) == e
  {
    ReplaceAbsent([c], '&', "&amp;");
    ReplaceAbsent([c], '<', "&lt;");
    ReplaceAbsent([c], '>', "&gt;");
    ReplaceSingle(c, '"', e);
    ReplaceAbsent(e, '\'', "&#039;");
    EscapeHtmlSteps([c], [c], [c], [c], e, e);
  }

  lemma EscapeHtmlCharApos(c: char, e: string)
    requires c == '\'' && e == EscapeChar(c)
    ensures EscapeHtml([c]) == e
  {
    ReplaceAbsent([c], '&', "&amp;");
    ReplaceAbsent([c], '<', "&lt;");
    ReplaceAbsent([c], '>', "&gt;");
    ReplaceAbsent([c], '"', "&quot;");
    ReplaceSingle(c, '\'', e);
    EscapeHtmlSteps([c], [c], [c], [c], [c], e);
  }

  lemma EscapeHtmlCharPlain(c: char)
    requires c != '&' && c != '<' && c != '>' && c != '"' && c != '\''
    ensures EscapeHtml([c]) == [c]
  {
    ReplaceAbsent([c], '&', "&amp;");
    ReplaceAbsent([c], '<', "&lt;");
    ReplaceAbsent([c], '>', "&gt;");
    ReplaceAbsent([c], '"', "&quot;");
    ReplaceAbsent([c], '\'', "&#039;");
    EscapeHtmlSteps([c], [c], [c], [c], [c], [c]);
  }

  /** The chain escapes a single character to its entity. */
  lemma EscapeHtmlChar(c: char)
    ensures EscapeHtml([c]) == EscapeChar(c)
  {
    if c == '&' {
      EscapeHtmlCharAmp(c, EscapeChar(c));
    } else if c == '<' {
      EscapeHtmlCharLt(c, EscapeChar(c));
    } else if c == '>' {
      EscapeHtmlCharGt(c, EscapeChar(c));
    } else if c == '"' {
      EscapeHtmlCharQuot(c, EscapeChar(c));
    } else if c == '\'' {
      EscapeHtmlCharApos(c, EscapeChar(c));
    } else {
      EscapeHtmlCharPlain(c);
    }
  }

  /**
   * The chained replacements escape every character exactly once: an `&` the
   * first replacement introduces is never escaped again by the later ones.
   */
  lemma {:induction false} EscapeHtmlIsSinglePass(s: string)
    ensures EscapeHtml(s) == EscapeEach(s)
  {
    if s != [] {
      assert s == [s[0]] + s[1..];
      EscapeHtmlAppend([s[0]], s[1..]);
      EscapeHtmlChar(s[0]);
      EscapeHtmlIsSinglePass(s[1..]);
    }
  }

  /** Decodes the five entities the escaper produces, scanning left to right. */
  function Unescape(s: string): string {
    if s == [] then []
    else if "&amp;" <= s then "&" + Unescape(s[5..])
    else if "&lt;" <= s then "<" + Unescape(s[4..])
    else if "&gt;" <= s then ">" + Unescape(s[4..])
    else if "&quot;" <= s then "\"" + Unescape(s[6..])
    else if "&#039;" <= s then "'" + Unescape(s[6..])
    else [s[0]] + Unescape(s[1..])
  }

  lemma UnescapeEscapeChar(c: char, rest: string)
    ensures Unescape(EscapeChar(c) + rest) == [c] + Unescape(rest)
  {
    var e := EscapeChar(c);
    var s := e + rest;
    assert s[|e|..] == rest;
    assert s[..|e|] == e;
    if c == '&' {
      assert "&amp;" <= s;
    } else if c == '<' {
      assert s[0] == '&' && s[1] == 'l';
      assert "&lt;" <= s;
    } else if c == '>' {
      assert s[0] == '&' && s[1] == 'g';
      assert "&gt;" <= s;
    } else if c == '"' {
      assert s[0] == '&' && s[1] == 'q';
      assert "&quot;" <= s;
    } else if c == '\'' {
      assert s[0] == '&' && s[1] == '#';
      assert "&#039;" <= s;
    } else {
      assert s[0] == c;
    }
  }

  /** Escaping is undone by exactly one decoding pass. */
  lemma {:induction false} UnescapeEscapeEach(s: string)
    ensures Unescape(EscapeEach(s)) == s
  {
    if s != [] {
      UnescapeEscapeChar(s[0], EscapeEach(s[1..]));
      UnescapeEscapeEach(s[1..]);
    }
  }

  /** The stored form of a nickname decodes, once, to the input with its tags removed. */
  lemma SanitizeRoundTrip(name: string)
    ensures Unescape(Sanitize(name)) == StripTags(name)
  {
    EscapeHtmlIsSinglePass(StripTags(name));
    UnescapeEscapeEach(StripTags(name));
  }

  /** A name with no tag and no character that needs escaping is stored unchanged. */
  lemma {:induction false} EscapeEachPlain(s: string)
    requires forall i :: 0 <= i < |s| ==> s[i] !in "&<>\"'"
    ensures EscapeEach(s) == s
  {
    if s != [] {
      assert s[0] !in "&<>\"'";
      EscapeEachPlain(s[1..]);
    }
  }

  lemma SanitizePlain(name: string)
    requires forall i :: 0 <= i < |name| ==> name[i] !in "&<>\"'"
    ensures Sanitize(name) == name
  {
    assert '<' !in name;
    EscapeHtmlIsSinglePass(name);
    EscapeEachPlain(name);
  }

  /** Escaping never shortens, and every `&` makes the result strictly longer. */
  lemma {:induction false} EscapeEachGrows(s: string)
    ensures |EscapeEach(s)| >= |s|
    ensures '&' in s ==> |EscapeEach(s)| > |s|
  {
    if s != [] {
      EscapeEachGrows(s[1..]);
      assert s == [s[0]] + s[1..];
    }
  }

  /**
   * Sanitising is not idempotent: sanitising a stored nickname again, as happens
   * when an exported file is imported, escapes each of its `&` a second time.
   */
  lemma SanitizeIsNotIdempotent(name: string)
    requires '&' in StripTags(name)
    ensures Sanitize(Sanitize(name)) != Sanitize(name)
  {
    var t := StripTags(name);
    var once := Sanitize(name);
    SanitizeRoundTrip(name);
    SanitizeRoundTrip(once);
    assert StripTags(once) == once;
    if Sanitize(once) == once {
      assert once == t;
      EscapeHtmlIsSinglePass(t);
      EscapeEachGrows(t);
      assert false;
    }
  }

  // ---------------------------------------------------------------------------
  // Dangerous patterns

  /**
   * One entry of the list of dangerous regular expressions. Literal texts are
   * kept in lower case and compared with the lower-cased name.
   */
  datatype DangerPattern =
    | Literal(text: string)   // a fixed text, e.g. /javascript:/i
    | EventHandler            // /on\w+=/i
    | Call(name: string)      // /eval\s*\(/i and /fetch\s*\(/i

  const DangerousPatterns: seq<DangerPattern> := [
    Literal("<script>"),
    Literal("javascript:"),
    Literal("data:"),
    Literal("vbscript:"),
    EventHandler,
    Call("eval"),
    Literal("document.cookie"),
    Literal("localstorage"),
    Literal("sessionstorage"),
    Literal("xmlhttprequest"),
    Call("fetch")
  ]

  /** Length of the longest prefix of word characters. */
  function WordRun(s: string): (n: nat)
    ensures n <= |s|
    ensures forall i :: 0 <= i < n ==> IsWordChar(s[i])
    ensures n < |s| ==> !IsWordChar(s[n])
  {
    if s != [] && IsWordChar(s[0]) then 1 + WordRun(s[1..]) else 0
  }

  /** Length of the longest prefix of whitespace. */
  function SpaceRun(s: string): (n: nat)
    ensures n <= |s|
    ensures forall i :: 0 <= i < n ==> IsWhitespace(s[i])
    ensures n < |s| ==> !IsWhitespace(s[n])
  {
    if s != [] && IsWhitespace(s[0]) then 1 + SpaceRun(s[1..]) else 0
  }

  /**
   * The pattern matches the lower-cased text `t` starting at index `i`. `\w+` and
   * `\s*` are followed by a character outside their class, so only the longest
   * run can be followed by it: backtracking never finds another match.
   */
  predicate MatchesAt(p: DangerPattern, t: string, i: nat)
    requires i <= |t|
  {
    match p
    case Literal(x) => x <= t[i..]
    case EventHandler =>
      "on" <= t[i..] &&
      var w := WordRun(t[i + 2..]);
      w >= 1 && i + 2 + w < |t| && t[i + 2 + w] == '='
    case Call(n) =>
      n <= t[i..] &&
      var k := SpaceRun(t[i + |n|..]);
      i + |n| + k < |t| && t[i + |n| + k] == '('
  }

  /** `pattern.test(name)` for a case-insensitive pattern. */
  predicate PatternMatches(p: DangerPattern, name: string) {
    var t := LowerAscii(name);
    exists i | 0 <= i <= |t| :: MatchesAt(p, t, i)
  }

  predicate IsDangerous(name: string) {
    exists k | 0 <= k < |DangerousPatterns| :: PatternMatches(DangerousPatterns[k], name)
  }

  /** Case does not matter: a name and its lower-cased form are equally dangerous. */
  lemma DangerIgnoresCase(name: string, name': string)
    requires LowerAscii(name) == LowerAscii(name')
    ensures IsDangerous(name) == IsDangerous(name')
  {
    forall k | 0 <= k < |DangerousPatterns|
      ensures PatternMatches(DangerousPatterns[k], name) == PatternMatches(DangerousPatterns[k], name')
    {
    }
  }

  /** A name that has a listed literal text at some index, in any letter case, is dangerous. */
  lemma LiteralAnywhereIsDangerous(name: string, k: nat, i: nat)
    requires k < |DangerousPatterns| && DangerousPatterns[k].Literal?
    requires i + |DangerousPatterns[k].text| <= |name|
    requires LowerAscii(name[i..i + |DangerousPatterns[k].text|]) == DangerousPatterns[k].text
    ensures IsDangerous(name)
  {
    var x := DangerousPatterns[k].text;
    var t := LowerAscii(name);
    assert t[i..i + |x|] == LowerAscii(name[i..i + |x|]);
    assert x <= t[i..];
    assert MatchesAt(DangerousPatterns[k], t, i);
  }

  /** A run of `n` word characters followed by a non-word character is the longest one. */
  lemma {:induction false} WordRunExact(s: string, n: nat)
    requires n < |s| && !IsWordChar(s[n])
    requires forall m :: 0 <= m < n ==> IsWordChar(s[m])
    ensures WordRun(s) == n
  {
    if n > 0 {
      WordRunExact(s[1..], n - 1);
    }
  }

  /** A run of `n` whitespace characters followed by another character is the longest one. */
  lemma {:induction false} SpaceRunExact(s: string, n: nat)
    requires n < |s| && !IsWhitespace(s[n])
    requires forall m :: 0 <= m < n ==> IsWhitespace(s[m])
    ensures SpaceRun(s) == n
  {
    if n > 0 {
      SpaceRunExact(s[1..], n - 1);
    }
  }

  /**
   * `/on\w+=/i`: a name holding `on` in any letter case, then one or more word
   * characters, then `=`, at any index, is dangerous.
   */
  lemma EventHandlerAnywhereIsDangerous(name: string, i: nat, n: nat)
    requires n >= 1 && i + 2 + n < |name|
    requires LowerAscii(name[i..i + 2]) == "on"
    requires forall m :: i + 2 <= m < i + 2 + n ==> IsWordChar(name[m])
    requires name[i + 2 + n] == '='
    ensures IsDangerous(name)
  {
    var t := LowerAscii(name);
    assert t[i..i + 2] == LowerAscii(name[i..i + 2]);
    assert "on" <= t[i..];
    var rest := t[i + 2..];
    forall m | 0 <= m < n
      ensures IsWordChar(rest[m])
    {
      assert rest[m] == ToLowerChar(name[i + 2 + m]);
    }
    WordRunExact(rest, n);
    assert MatchesAt(DangerousPatterns[4], t, i);
  }

  /** A function name, a run of white space and `(` in the lower-cased text make a call pattern match there. */
  lemma CallMatchesLowered(p: DangerPattern, t: string, i: nat, n: nat)
    requires p.Call? && i + |p.name| + n < |t|
    requires p.name <= t[i..]
    requires forall m :: i + |p.name| <= m < i + |p.name| + n ==> IsWhitespace(t[m])
    requires t[i + |p.name| + n] == '('
    ensures MatchesAt(p, t, i)
  {
    var rest := t[i + |p.name|..];
    forall m | 0 <= m < n
      ensures IsWhitespace(rest[m])
    {
      assert rest[m] == t[i + |p.name| + m];
    }
    assert rest[n] == '(';
    SpaceRunExact(rest, n);
  }

  /** The same, for the original text: lower-casing keeps the white space and the `(`. */
  lemma CallMatchesAt(p: DangerPattern, name: string, i: nat, n: nat)
    requires p.Call? && i + |p.name| + n < |name|
    requires LowerAscii(name[i..i + |p.name|]) == p.name
    requires forall m :: i + |p.name| <= m < i + |p.name| + n ==> IsWhitespace(name[m])
    requires name[i + |p.name| + n] == '('
    ensures MatchesAt(p, LowerAscii(name), i)
  {
    var x := p.name;
    var t := LowerAscii(name);
    assert x <= t[i..] by {
      assert t[i..i + |x|] == LowerAscii(name[i..i + |x|]);
    }
    forall m | i + |x| <= m < i + |x| + n
      ensures IsWhitespace(t[m])
    {
      LowerKeepsWhitespace(name[m]);
    }
    assert t[i + |x| + n] == '(';
    CallMatchesLowered(p, t, i, n);
  }

  /**
   * `/eval\s*\(/i` and `/fetch\s*\(/i`: a name holding the function name in any
   * letter case, then any white space, then `(`, at any index, is dangerous.
   */
  lemma CallAnywhereIsDangerous(name: string, k: nat, i: nat, n: nat)
    requires k < |DangerousPatterns| && DangerousPatterns[k].Call?
    requires i + |DangerousPatterns[k].name| + n < |name|
    requires LowerAscii(name[i..i + |DangerousPatterns[k].name|]) == DangerousPatterns[k].name
    requires forall m :: i + |DangerousPatterns[k].name| <= m < i + |DangerousPatterns[k].name| + n ==> IsWhitespace(name[m])
    requires name[i + |DangerousPatterns[k].name| + n] == '('
    ensures IsDangerous(name)
  {
    CallMatchesAt(DangerousPatterns[k], name, i, n);
    assert PatternMatches(DangerousPatterns[k], name);
  }

  // ---------------------------------------------------------------------------
  // validateNickname

  datatype NicknameError = EmptyNickname | TooLong | UnsafeContent

  datatype Validation = Accepted(sanitized: string) | Rejected(reason: NicknameError)

  function ValidateNickname(name: string): (r: Validation)
    ensures r.Accepted? ==> r.sanitized == Sanitize(name)
  {
    if IsBlank(name) then Rejected(EmptyNickname)
    else if JsLength(name) > MaxNicknameLength then Rejected(TooLong)
    else if IsDangerous(name) then Rejected(UnsafeContent)
    else Accepted(Sanitize(name))
  }

  /**
   * The three rules, in order: a blank name is refused first, then one over 100
   * UTF-16 units, then a dangerous one; every other name is accepted.
   */
  lemma ValidateNicknameRules(name: string)
    ensures ValidateNickname(name) == Rejected(EmptyNickname) <==> IsBlank(name)
    ensures ValidateNickname(name) == Rejected(TooLong) <==>
              !IsBlank(name) && JsLength(name) > MaxNicknameLength
    ensures ValidateNickname(name) == Rejected(UnsafeContent) <==>
              !IsBlank(name) && JsLength(name) <= MaxNicknameLength && IsDangerous(name)
    ensures ValidateNickname(name).Accepted? <==>
              !IsBlank(name) && JsLength(name) <= MaxNicknameLength && !IsDangerous(name)
  {
  }

  /**
   * What an accepted nickname is stored as: no raw `<`, `>`, `"` or `'`, and one
   * decoding pass gives back the input with its tags removed.
   */
  lemma AcceptedNicknameIsInert(name: string)
    requires ValidateNickname(name).Accepted?
    ensures var s := ValidateNickname(name).sanitized;
            '<' !in s && '>' !in s && '"' !in s && '\'' !in s && Unescape(s) == StripTags(name)
  {
    SanitizeRoundTrip(name);
  }

  /** The 100-unit limit is on the raw input: escaping may make the stored form longer. */
  lemma LengthLimitIsOnRawInput(name: string)
    requires !IsBlank(name) && !IsDangerous(name) && JsLength(name) <= MaxNicknameLength
    ensures ValidateNickname(name) == Accepted(Sanitize(name))
  {
  }

  /** A listed text anywhere in the name, in any letter case, gets it rejected. */
  lemma LiteralRejected(name: string, k: nat, i: nat)
    requires !IsBlank(name) && JsLength(name) <= MaxNicknameLength
    requires k < |DangerousPatterns| && DangerousPatterns[k].Literal?
    requires i + |DangerousPatterns[k].text| <= |name|
    requires LowerAscii(name[i..i + |DangerousPatterns[k].text|]) == DangerousPatterns[k].text
    ensures ValidateNickname(name) == Rejected(UnsafeContent)
  {
    LiteralAnywhereIsDangerous(name, k, i);
  }

  /**
   * The blank check runs before tags are stripped, so a name made only of a tag
   * is accepted and stored as the empty string.
   */
  lemma TagOnlyNameIsStoredEmpty(name: string)
    requires name == "<b>"
    ensures ValidateNickname(name) == Accepted("")
  {
    assert !IsWhitespace(name[0]);
    assert !IsBlank(name);
    var t := LowerAscii(name);
    assert t == name;
    forall k, i | 0 <= k < |DangerousPatterns| && 0 <= i <= |t|
      ensures !MatchesAt(DangerousPatterns[k], t, i)
    {
      var p := DangerousPatterns[k];
      if p.EventHandler? {
        assert t[i..] == [] || t[i..][0] != 'o';
      } else if p.Literal? {
        assert |p.text| > |t[i..]|;
      } else {
        assert |p.name| > |t[i..]|;
      }
    }
    assert StripTags(name) == StripTags([]);
  }
}
