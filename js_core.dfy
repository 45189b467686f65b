/**
 * The small part of JavaScript's string and value semantics that the extension's
 * logic relies on: truthiness of parsed JSON values, `String.prototype.trim`
 * and the regular-expression classes `\s` and `\w`, ASCII case folding (what a
 * non-unicode `/i` regular expression does to the extension's ASCII patterns),
 * substring search (`includes`), a global one-character `replace`, and
 * `length` measured in UTF-16 code units.
 */
module JsCore {

  datatype Option<+T> = None | Some(value: T) {
    function GetOr(default: T): T {
      match this
      case Some(v) => v
      case None => default
    }
  }

  datatype Result<+T, +E> = Ok(value: T) | Err(error: E)

  /** A value produced by `JSON.parse`. */
  datatype Json =
    | Null
    | Bool(b: bool)
    | Num(n: real)
    | Str(s: string)
    | Arr(items: seq<Json>)
    | Obj(fields: map<string, Json>)

  /** JavaScript truthiness; `{}` and `[]` are truthy, `""`, `0`, `false` and `null` are not. */
  predicate Truthy(j: Json) {
    match j
    case Null => false
    case Bool(b) => b
    case Num(n) => n != 0.0
    case Str(s) => s != ""
    case Arr(_) => true
    case Obj(_) => true
  }

  /** A string-valued property that may be missing: present means truthy. */
  predicate PresentString(o: Option<string>) {
    o.Some? && o.value != ""
  }

  // ---------------------------------------------------------------------------
  // Character classes

  /** ECMAScript WhiteSpace and LineTerminator: what `trim()` removes and `\s` matches. */
  predicate IsWhitespace(c: char) {
    || c == '\t' || c == '\n' || c == '\U{000B}' || c == '\U{000C}' || c == '\r'
    || c == ' ' || c == '\U{00A0}' || c == '\U{1680}'
    || ('\U{2000}' <= c <= '\U{200A}')
    || c == '\U{2028}' || c == '\U{2029}' || c == '\U{202F}' || c == '\U{205F}'
    || c == '\U{3000}' || c == '\U{FEFF}'
  }

  /** ECMAScript LineTerminator: the characters `.` does not match. */
  predicate IsLineTerminator(c: char) {
    c == '\n' || c == '\r' || c == '\U{2028}' || c == '\U{2029}'
  }

  /** `\w` of a regular expression without the `u` flag. */
  predicate IsWordChar(c: char) {
    ('a' <= c <= 'z') || ('A' <= c <= 'Z') || ('0' <= c <= '9') || c == '_'
  }

  predicate IsDigit(c: char) {
    '0' <= c <= '9'
  }

  /**
   * The decimal value of a run of digits, as `Number` converts it; leading zeros
   * do not count. Only ever applied to a run of digits.
   */
  function DigitsValue(d: string): int {
    if d == [] then 0 else DigitsValue(d[..|d| - 1]) * 10 + (d[|d| - 1] as int - '0' as int)
  }

  predicate AllWhitespace(s: string) {
    forall i :: 0 <= i < |s| ==> IsWhitespace(s[i])
  }

  // ---------------------------------------------------------------------------
  // trim()

  function TrimStart(s: string): (r: string)
    ensures |r| <= |s|
  {
    if s != [] && IsWhitespace(s[0]) then TrimStart(s[1..]) else s
  }

  /** `TrimStart` keeps a suffix that does not start with whitespace. */
  lemma {:induction false} TrimStartSpec(s: string)
    ensures var r := TrimStart(s); r == s[|s| - |r|..] && (r == [] || !IsWhitespace(r[0]))
  {
    if s != [] && IsWhitespace(s[0]) {
      TrimStartSpec(s[1..]);
    }
  }

  function TrimEnd(s: string): (r: string)
    ensures |r| <= |s|
  {
    if s != [] && IsWhitespace(s[|s| - 1]) then TrimEnd(s[..|s| - 1]) else s
  }

  /** `TrimEnd` keeps a prefix that does not end with whitespace. */
  lemma {:induction false} TrimEndSpec(s: string)
    ensures var r := TrimEnd(s); r == s[..|r|] && (r == [] || !IsWhitespace(r[|r| - 1]))
  {
    if s != [] && IsWhitespace(s[|s| - 1]) {
      TrimEndSpec(s[..|s| - 1]);
    }
  }

  /** `s.trim()`: the infix of `s` left after removing whitespace at both ends. */
  function Trim(s: string): (r: string)
    ensures |r| <= |s|
  {
    TrimEnd(TrimStart(s))
  }

  /** A trimmed string starts and ends with a character that is not whitespace. */
  lemma TrimEnds(s: string)
    ensures var r := Trim(s); r == [] || (!IsWhitespace(r[0]) && !IsWhitespace(r[|r| - 1]))
  {
    var t := TrimStart(s);
    var r := TrimEnd(t);
    TrimStartSpec(s);
    TrimEndSpec(t);
    if r != [] {
      assert r == t[..|r|];
      assert r[0] == t[0];
    }
  }

  /** What `TrimStart` drops is whitespace. */
  lemma {:induction false} TrimStartDropsWhitespace(s: string)
    ensures AllWhitespace(s[..|s| - |TrimStart(s)|])
  {
    if s != [] && IsWhitespace(s[0]) {
      TrimStartDropsWhitespace(s[1..]);
      assert s[..|s| - |TrimStart(s)|] == [s[0]] + s[1..][..|s[1..]| - |TrimStart(s[1..])|];
    }
  }

  /** What `TrimEnd` drops is whitespace. */
  lemma {:induction false} TrimEndDropsWhitespace(s: string)
    ensures AllWhitespace(s[|TrimEnd(s)|..])
  {
    if s != [] && IsWhitespace(s[|s| - 1]) {
      var init := s[..|s| - 1];
      TrimEndDropsWhitespace(init);
      assert s[|TrimEnd(s)|..] == init[|TrimEnd(init)|..] + [s[|s| - 1]];
    }
  }

  /** The trim is empty exactly when the string is all whitespace. */
  lemma TrimEmptyIff(s: string)
    ensures Trim(s) == [] <==> AllWhitespace(s)
  {
    var t := TrimStart(s);
    TrimStartSpec(s);
    TrimStartDropsWhitespace(s);
    TrimEndDropsWhitespace(t);
    assert s == s[..|s| - |t|] + t;
    if Trim(s) == [] {
      assert AllWhitespace(t[0..]);
    }
  }

  /** Trimming removes whitespace only: every other character survives. */
  lemma TrimKeeps(s: string, i: nat)
    requires i < |s| && !IsWhitespace(s[i])
    ensures s[i] in Trim(s)
  {
    var t := TrimStart(s);
    var a := |s| - |t|;
    var r := TrimEnd(t);
    TrimStartSpec(s);
    TrimEndSpec(t);
    TrimStartDropsWhitespace(s);
    TrimEndDropsWhitespace(t);
    assert i >= a;
    assert t[i - a] == s[i];
    assert i - a < |r|;
    assert r[i - a] == s[i];
  }

  /** A string with no whitespace at either end is its own trim. */
  lemma TrimOfTrimmed(s: string)
    requires s == [] || (!IsWhitespace(s[0]) && !IsWhitespace(s[|s| - 1]))
    ensures Trim(s) == s
  {
    if s != [] {
      assert TrimStart(s) == s;
      assert TrimEnd(s) == s;
    }
  }

  lemma TrimIdempotent(s: string)
    ensures Trim(Trim(s)) == Trim(s)
  {
    TrimEnds(s);
    TrimOfTrimmed(Trim(s));
  }

  /** `!s || s.trim() === ''`: the string is empty or all whitespace. */
  predicate IsBlank(s: string) {
    s == "" || Trim(s) == ""
  }

  // ---------------------------------------------------------------------------
  // Case folding (ASCII)

  function ToLowerChar(c: char): (r: char)
    ensures IsWordChar(r) == IsWordChar(c)
    ensures !('A' <= r <= 'Z')
  {
    if 'A' <= c <= 'Z' then (c as int + 32) as char else c
  }

  /** Lower-casing keeps white space as it is. */
  lemma LowerKeepsWhitespace(c: char)
    requires IsWhitespace(c)
    ensures ToLowerChar(c) == c
  {
  }

  function LowerAscii(s: string): (r: string)
    ensures |r| == |s|
    ensures forall i :: 0 <= i < |s| ==> r[i] == ToLowerChar(s[i])
  {
    seq(|s|, i requires 0 <= i < |s| => ToLowerChar(s[i]))
  }

  // ---------------------------------------------------------------------------
  // includes / startsWith / endsWith

  /** `s.includes(p)`. */
  predicate Contains(s: string, p: string) {
    p <= s || (s != [] && Contains(s[1..], p))
  }

  /** `Contains` holds exactly when `p` occurs at some index of `s`. */
  lemma {:induction false} ContainsAt(s: string, p: string, i: nat)
    requires i + |p| <= |s| && s[i..i + |p|] == p
    ensures Contains(s, p)
  {
    if i > 0 {
      assert s[1..][i - 1..i - 1 + |p|] == p;
      ContainsAt(s[1..], p, i - 1);
    }
  }

  lemma {:induction false} ContainsWitness(s: string, p: string) returns (i: nat)
    requires Contains(s, p)
    ensures i + |p| <= |s| && s[i..i + |p|] == p
  {
    if p <= s {
      i := 0;
    } else {
      var j := ContainsWitness(s[1..], p);
      i := j + 1;
      assert s[i..i + |p|] == s[1..][j..j + |p|];
    }
  }

  lemma ContainsInfix(a: string, p: string, b: string)
    ensures Contains(a + p + b, p)
  {
    assert (a + p + b)[|a|..|a| + |p|] == p;
    ContainsAt(a + p + b, p, |a|);
  }

  /** Containment is transitive: an occurrence inside an occurrence is an occurrence. */
  lemma ContainsTransitive(s: string, m: string, p: string)
    requires Contains(s, m) && Contains(m, p)
    ensures Contains(s, p)
  {
    var i := ContainsWitness(s, m);
    var j := ContainsWitness(m, p);
    forall k | 0 <= k < |p|
      ensures s[i + j + k] == p[k]
    {
      assert p[k] == m[j..j + |p|][k] == m[j + k];
      assert m[j + k] == s[i..i + |m|][j + k] == s[i + j + k];
    }
    assert s[i + j..i + j + |p|] == p;
    ContainsAt(s, p, i + j);
  }

  /** A needle longer than the haystack never occurs in it. */
  lemma NotContainsLonger(s: string, p: string)
    requires |s| < |p|
    ensures !Contains(s, p)
  {
    if Contains(s, p) {
      var i := ContainsWitness(s, p);
    }
  }

  /**
   * If the needle has the character `x` somewhere before its last position and `x`
   * occurs in the haystack at most as its last character, the needle does not occur.
   */
  lemma {:induction false} NotContainsByChar(s: string, p: string, x: char, j: nat)
    requires j + 1 < |p| && p[j] == x
    requires forall k :: 0 <= k < |s| - 1 ==> s[k] != x
    ensures !Contains(s, p)
  {
    if j + 1 < |s| {
      assert s[j] != p[j];
    }
    if s != [] {
      NotContainsByChar(s[1..], p, x, j);
    }
  }

  /** `p` occurs in `s` at index `k`. */
  predicate OccursAt(s: string, p: string, k: nat) {
    k + |p| <= |s| && s[k..k + |p|] == p
  }

  /** A needle that occurs at no index does not occur. */
  lemma NotContainsAnywhere(s: string, p: string)
    requires forall k: nat :: !OccursAt(s, p, k)
    ensures !Contains(s, p)
  {
    if Contains(s, p) {
      var i := ContainsWitness(s, p);
      assert OccursAt(s, p, i);
    }
  }

  /** `s.indexOf(c)`, when `c` occurs. */
  function IndexOf(s: string, c: char): (r: Option<nat>)
    ensures r.Some? ==> r.value < |s| && s[r.value] == c && c !in s[..r.value]
    ensures r.None? <==> c !in s
  {
    if s == [] then None
    else if s[0] == c then Some(0)
    else match IndexOf(s[1..], c) {
      case None => None
      case Some(i) => Some(i + 1)
    }
  }

  predicate EndsWith(s: string, suffix: string) {
    |suffix| <= |s| && s[|s| - |suffix|..] == suffix
  }

  // ---------------------------------------------------------------------------
  // s.replace(/c/g, rep)

  /** Replaces every occurrence of the character `c` by `rep`, left to right, in one pass. */
  function ReplaceAllChar(s: string, c: char, rep: string): (r: string)
    ensures c !in rep ==> c !in r
    ensures c !in s ==> r == s
  {
    if s == [] then []
    else (if s[0] == c then rep else [s[0]]) + ReplaceAllChar(s[1..], c, rep)
  }

  /** A character that is neither replaced nor inserted stays absent. */
  lemma {:induction false} ReplaceKeepsOut(s: string, c: char, rep: string, d: char)
    requires d != c && d !in rep && d !in s
    ensures d !in ReplaceAllChar(s, c, rep)
  {
    if s != [] {
      ReplaceKeepsOut(s[1..], c, rep, d);
    }
  }

  lemma {:induction false} ReplaceAllCharAppend(a: string, b: string, c: char, rep: string)
    ensures ReplaceAllChar(a + b, c, rep) == ReplaceAllChar(a, c, rep) + ReplaceAllChar(b, c, rep)
  {
    if a != [] {
      var head := if a[0] == c then rep else [a[0]];
      assert (a + b)[0] == a[0];
      assert (a + b)[1..] == a[1..] + b;
      calc {
        ReplaceAllChar(a + b, c, rep);
        head + ReplaceAllChar(a[1..] + b, c, rep);
        { ReplaceAllCharAppend(a[1..], b, c, rep); }
        head + (ReplaceAllChar(a[1..], c, rep) + ReplaceAllChar(b, c, rep));
        (head + ReplaceAllChar(a[1..], c, rep)) + ReplaceAllChar(b, c, rep);
      }
    } else {
      assert a + b == b;
    }
  }

  // ---------------------------------------------------------------------------
  // The replacement string of String.prototype.replace

  /**
   * GetSubstitution for a pattern without capture groups: in a replacement
   * string, `$$` inserts `$`, `$&` the matched text, `` $` `` the text before the
   * match and `$'` the text after it. Every other `$` (`$1`, `$<`, a lone `$`) is
   * copied as it stands.
   */
  function GetSubstitution(template: string, matched: string, before: string, after: string): string
    decreases |template|
  {
    if template == [] then []
    else if template[0] == '$' && |template| >= 2 && template[1] in "$&`'" then
      var inserted := match template[1]
        case '$' => "$"
        case '&' => matched
        case '`' => before
        case _ => after;
      inserted + GetSubstitution(template[2..], matched, before, after)
    else [template[0]] + GetSubstitution(template[1..], matched, before, after)
  }

  /** A replacement string without `$` is inserted as it stands. */
  lemma {:induction false} GetSubstitutionPlain(template: string, matched: string, before: string, after: string)
    requires '$' !in template
    ensures GetSubstitution(template, matched, before, after) == template
  {
    if template != [] {
      GetSubstitutionPlain(template[1..], matched, before, after);
      assert template == [template[0]] + template[1..];
    }
  }

  /** `$$` inserts one `$`. */
  lemma GetSubstitutionDollar(rest: string, matched: string, before: string, after: string)
    ensures GetSubstitution("$$" + rest, matched, before, after) == "$" + GetSubstitution(rest, matched, before, after)
  {
    var t := "$$" + rest;
    assert t[0] == '$' && t[1] == '$' && t[1] in "$&`'";
    assert t[2..] == rest;
  }

  /** A `$`-free head of a replacement string is copied, and the rest expanded after it. */
  lemma {:induction false} GetSubstitutionPrefix(head: string, rest: string, matched: string, before: string, after: string)
    requires '$' !in head
    ensures GetSubstitution(head + rest, matched, before, after) == head + GetSubstitution(rest, matched, before, after)
  {
    if head != [] {
      assert (head + rest)[0] == head[0];
      assert (head + rest)[1..] == head[1..] + rest;
      GetSubstitutionPrefix(head[1..], rest, matched, before, after);
      assert head == [head[0]] + head[1..];
    } else {
      assert head + rest == rest;
    }
  }

  // ---------------------------------------------------------------------------
  // forEach over a list, seen as a value

  /**
   * The list after `f` is applied to every element, in order. It is built from
   * the back, so the result for a prefix grows one element at a time.
   */
  function MapSeq<T>(f: T -> T, s: seq<T>): (r: seq<T>)
    ensures |r| == |s|
  {
    if s == [] then [] else MapSeq(f, s[..|s| - 1]) + [f(s[|s| - 1])]
  }

  lemma {:induction false} MapSeqAt<T>(f: T -> T, s: seq<T>, i: nat)
    requires i < |s|
    ensures MapSeq(f, s)[i] == f(s[i])
  {
    if i < |s| - 1 {
      MapSeqAt(f, s[..|s| - 1], i);
    }
  }

  /** One more element of the input adds one more element to the output. */
  lemma MapSeqStep<T>(f: T -> T, s: seq<T>, i: nat)
    requires i < |s|
    ensures MapSeq(f, s[..i + 1]) == MapSeq(f, s[..i]) + [f(s[i])]
  {
    assert s[..i + 1][..i] == s[..i];
  }

  /** Mapping twice with `g` then `f` is mapping once with their composition. */
  lemma {:induction false} MapSeqCompose<T>(f: T -> T, g: T -> T, h: T -> T, s: seq<T>)
    requires forall x :: h(x) == f(g(x))
    ensures MapSeq(f, MapSeq(g, s)) == MapSeq(h, s)
  {
    if s != [] {
      var init := s[..|s| - 1];
      MapSeqCompose(f, g, h, init);
      var gs := MapSeq(g, s);
      assert gs[..|gs| - 1] == MapSeq(g, init);
    }
  }

  /** An idempotent callback gives an idempotent map. */
  lemma {:induction false} MapSeqIdempotent<T>(f: T -> T, s: seq<T>)
    requires forall x :: f(f(x)) == f(x)
    ensures MapSeq(f, MapSeq(f, s)) == MapSeq(f, s)
  {
    if s != [] {
      var init := s[..|s| - 1];
      MapSeqIdempotent(f, init);
      var fs := MapSeq(f, s);
      assert fs[..|fs| - 1] == MapSeq(f, init);
    }
  }

  /** Some element of the list satisfies `p`; built from the back like `MapSeq`. */
  predicate AnySeq<T>(p: T -> bool, s: seq<T>) {
    s != [] && (AnySeq(p, s[..|s| - 1]) || p(s[|s| - 1]))
  }

  lemma {:induction false} AnySeqExists<T>(p: T -> bool, s: seq<T>)
    ensures AnySeq(p, s) <==> exists i :: 0 <= i < |s| && p(s[i])
  {
    if s != [] {
      var init := s[..|s| - 1];
      AnySeqExists(p, init);
      if exists i :: 0 <= i < |s| && p(s[i]) {
        var i :| 0 <= i < |s| && p(s[i]);
        if i < |s| - 1 {
          assert p(init[i]);
        }
      }
      if exists i :: 0 <= i < |init| && p(init[i]) {
        var i :| 0 <= i < |init| && p(init[i]);
        assert p(s[i]);
      }
    }
  }

  lemma AnySeqStep<T>(p: T -> bool, s: seq<T>, i: nat)
    requires i < |s|
    ensures AnySeq(p, s[..i + 1]) == (AnySeq(p, s[..i]) || p(s[i]))
  {
    assert s[..i + 1][..i] == s[..i];
  }
  /** When no element satisfies `p` and `f` fixes every element outside `p`, the map changes nothing. */
  lemma {:induction false} MapSeqUnchanged<T>(f: T -> T, p: T -> bool, s: seq<T>)
    requires forall x :: !p(x) ==> f(x) == x
    requires !AnySeq(p, s)
    ensures MapSeq(f, s) == s
  {
    if s != [] {
      MapSeqUnchanged(f, p, s[..|s| - 1]);
      assert s == s[..|s| - 1] + [s[|s| - 1]];
    }
  }


  // ---------------------------------------------------------------------------
  // length

  /** Number of UTF-16 code units of one character. */
  function Utf16Units(c: char): nat {
    if c as int > 0xFFFF then 2 else 1
  }

  /** `s.length`: UTF-16 code units, so a character outside the BMP counts twice. */
  function JsLength(s: string): (n: nat)
    ensures |s| <= n <= 2 * |s|
  {
    if s == [] then 0 else Utf16Units(s[0]) + JsLength(s[1..])
  }
}
