/** The JavaScript string built-ins the rewriters, `buildUrl` and the address bar rely on:
    `\s`, `trim`, `startsWith`, `indexOf`/`includes`, `split` and `String.prototype.replace` with a
    string pattern (including the `$` patterns of its replacement string, which ECMAScript's
    GetSubstitution expands). Strings are sequences of Unicode scalar values. */
module JsText {
  import opened Wrappers

  /** ECMAScript's WhiteSpace and LineTerminator code points: what the regular expression class `\s`
      matches and what `String.prototype.trim` removes. */
  predicate IsJsSpace(c: char) {
    c == '\t' || c == '\n' || c == '\U{000B}' || c == '\U{000C}' || c == '\r' || c == ' ' ||
    c == '\U{00A0}' || c == '\U{1680}' || ('\U{2000}' <= c <= '\U{200A}') ||
    c == '\U{2028}' || c == '\U{2029}' || c == '\U{202F}' || c == '\U{205F}' ||
    c == '\U{3000}' || c == '\U{FEFF}'
  }

  predicate IsDigit(c: char) {
    '0' <= c <= '9'
  }

  function DigitValue(c: char): (d: nat)
    requires IsDigit(c)
    ensures d < 10
  {
    c as int - '0' as int
  }

  /** Case folding of a non-unicode `/i` regular expression: only ASCII letters fold onto ASCII. */
  function AsciiLower(c: char): (l: char)
    ensures 'A' <= c <= 'Z' ==> l as int == c as int + 32
    ensures !('A' <= c <= 'Z') ==> l == c
  {
    if 'A' <= c <= 'Z' then (c as int + 32) as char else c
  }

  /** `pat` occurs in `s` at index `i`. */
  predicate StartsAt(s: string, i: nat, pat: string) {
    i + |pat| <= |s| && s[i..i + |pat|] == pat
  }

  predicate StartsWith(s: string, pat: string) {
    StartsAt(s, 0, pat)
  }

  /** `pat` (written in lower case) occurs at index `i` of `s` when letters are compared without case. */
  predicate StartsAtIgnoreCase(s: string, i: nat, pat: string) {
    i + |pat| <= |s| && forall k :: 0 <= k < |pat| ==> AsciiLower(s[i + k]) == pat[k]
  }

  /** `s.indexOf(pat, from)`: the first index at or after `from` where `pat` occurs. */
  function IndexOfFrom(s: string, pat: string, from: nat): (r: Option<nat>)
    requires from <= |s|
    ensures r.Some? ==> from <= r.value && StartsAt(s, r.value, pat)
    ensures r.Some? ==> forall j :: from <= j < r.value ==> !StartsAt(s, j, pat)
    ensures r.None? ==> forall j :: from <= j <= |s| ==> !StartsAt(s, j, pat)
    decreases |s| - from
  {
    if StartsAt(s, from, pat) then Some(from)
    else if from == |s| then None
    else IndexOfFrom(s, pat, from + 1)
  }

  function IndexOf(s: string, pat: string): Option<nat> {
    IndexOfFrom(s, pat, 0)
  }

  /** `s.includes(pat)`. */
  predicate Contains(s: string, pat: string) {
    IndexOf(s, pat).Some?
  }

  /** What GetSubstitution knows about one match: the matched text, the text before and after it,
      and the capture groups. */
  datatype Substitution = Substitution(matched: string, before: string, after: string, captures: seq<string>)

  /** ECMAScript's GetSubstitution: the replacement string `t` with `$$`, `$&`, `` $` ``, `$'` and
      `$n`/`$nn` expanded; any other `$` is copied as it stands. */
  function Expand(t: string, sub: Substitution): string
    decreases |t|
  {
    if t == [] then []
    else if t[0] != '$' || |t| == 1 then [t[0]] + Expand(t[1..], sub)
    else if t[1] == '$' then "$" + Expand(t[2..], sub)
    else if t[1] == '&' then sub.matched + Expand(t[2..], sub)
    else if t[1] == '`' then sub.before + Expand(t[2..], sub)
    else if t[1] == '\'' then sub.after + Expand(t[2..], sub)
    else if IsDigit(t[1]) then
      var twoDigits := |t| >= 3 && IsDigit(t[2]) && 10 * DigitValue(t[1]) + DigitValue(t[2]) <= |sub.captures|;
      var index := if twoDigits then 10 * DigitValue(t[1]) + DigitValue(t[2]) else DigitValue(t[1]);
      var width := if twoDigits then 3 else 2;
      if 1 <= index <= |sub.captures| then sub.captures[index - 1] + Expand(t[width..], sub)
      else "$" + Expand(t[1..], sub)
    else "$" + Expand(t[1..], sub)
  }

  /** A replacement string without `$` is inserted literally. */
  lemma {:induction false} ExpandLiteral(t: string, sub: Substitution)
    requires '$' !in t
    ensures Expand(t, sub) == t
  {
    if t != [] {
      assert '$' !in t[1..];
      ExpandLiteral(t[1..], sub);
    }
  }

  /** A literal prefix is copied and the expansion carries on after it. */
  lemma {:induction false} ExpandLiteralPrefix(p: string, t: string, sub: Substitution)
    requires '$' !in p
    ensures Expand(p + t, sub) == p + Expand(t, sub)
  {
    if p == [] {
      assert p + t == t;
    } else {
      assert p[0] in p;
      assert (p + t)[0] == p[0] && (p + t)[1..] == p[1..] + t;
      assert '$' !in p[1..];
      ExpandLiteralPrefix(p[1..], t, sub);
    }
  }

  /** With a single capture group, `$1` between two `$`-free texts expands to the capture. */
  lemma ExpandOneCapture(p: string, rest: string, sub: Substitution)
    requires '$' !in p && '$' !in rest && |sub.captures| == 1
    ensures Expand(p + ("$1" + rest), sub) == p + (sub.captures[0] + rest)
  {
    ExpandLiteralPrefix(p, "$1" + rest, sub);
    var t := "$1" + rest;
    assert t[0] == '$' && t[1] == '1' && IsDigit(t[1]) && DigitValue(t[1]) == 1;
    assert t[2..] == rest;
    ExpandLiteral(rest, sub);
  }

  /** `s.replace(pat, rep)` with a string pattern: only the first occurrence of `pat` is replaced, by
      `rep` with its `$` patterns expanded. */
  function ReplaceFirst(s: string, pat: string, rep: string): string {
    match IndexOf(s, pat)
    case None => s
    case Some(k) => s[..k] + Expand(rep, Substitution(pat, s[..k], s[k + |pat|..], [])) + s[k + |pat|..]
  }

  /** With a `$`-free replacement, `replace` splices `rep` in place of the first occurrence of `pat`
      and leaves everything before and after it as it was. */
  lemma ReplaceFirstLiteral(s: string, pat: string, rep: string)
    requires '$' !in rep
    ensures IndexOf(s, pat).None? ==> ReplaceFirst(s, pat, rep) == s
    ensures IndexOf(s, pat).Some? ==>
      var k := IndexOf(s, pat).value;
      && (forall j :: 0 <= j < k ==> !StartsAt(s, j, pat))
      && ReplaceFirst(s, pat, rep) == s[..k] + rep + s[k + |pat|..]
  {
    if IndexOf(s, pat).Some? {
      var k := IndexOf(s, pat).value;
      ExpandLiteral(rep, Substitution(pat, s[..k], s[k + |pat|..], []));
    }
  }

  /** Removes leading whitespace. */
  function TrimStart(s: string): (r: string)
    ensures |r| <= |s| && r == s[|s| - |r|..]
    ensures forall k :: 0 <= k < |s| - |r| ==> IsJsSpace(s[k])
    ensures r == [] || !IsJsSpace(r[0])
  {
    if s != [] && IsJsSpace(s[0]) then TrimStart(s[1..]) else s
  }

  /** Removes trailing whitespace. */
  function TrimEnd(s: string): (r: string)
    ensures |r| <= |s| && r == s[..|r|]
    ensures forall k :: |r| <= k < |s| ==> IsJsSpace(s[k])
    ensures r == [] || !IsJsSpace(r[|r| - 1])
  {
    if s != [] && IsJsSpace(s[|s| - 1]) then TrimEnd(s[..|s| - 1]) else s
  }

  /** A pattern whose first character does not occur in `pre` is first found right after it. */
  lemma IndexOfAfter(pre: string, pat: string, post: string)
    requires pat != [] && pat[0] !in pre
    ensures IndexOf(pre + pat + post, pat) == Some(|pre|)
  {
    var s := pre + pat + post;
    assert s[|pre|..|pre| + |pat|] == pat;
    assert StartsAt(s, |pre|, pat);
    forall j | 0 <= j < |pre| ensures !StartsAt(s, j, pat) {
      assert s[j] == pre[j] && pre[j] in pre;
      assert j + |pat| <= |s| ==> s[j..j + |pat|][0] == s[j];
    }
  }

  /** Then `replace` with a `$`-free replacement swaps that occurrence for the replacement. */
  lemma ReplaceFirstAfter(pre: string, pat: string, post: string, rep: string)
    requires pat != [] && pat[0] !in pre && '$' !in rep
    ensures ReplaceFirst(pre + pat + post, pat, rep) == pre + rep + post
  {
    var s := pre + pat + post;
    IndexOfAfter(pre, pat, post);
    ReplaceFirstLiteral(s, pat, rep);
    assert s[..|pre|] == pre && s[|pre| + |pat|..] == post;
  }

  /** `s.trim()`: a slice of `s` that neither starts nor ends with whitespace; it is empty exactly
      when `s` is all whitespace. */
  function Trim(s: string): (r: string)
    ensures r == [] || (!IsJsSpace(r[0]) && !IsJsSpace(r[|r| - 1]))
    ensures r == [] <==> forall k :: 0 <= k < |s| ==> IsJsSpace(s[k])
    ensures forall c :: c in r ==> c in s
  {
    TrimEndOfTrimStart(s);
    TrimEnd(TrimStart(s))
  }

  lemma TrimEndOfTrimStart(s: string)
    ensures var r := TrimEnd(TrimStart(s));
      && (r == [] || (!IsJsSpace(r[0]) && !IsJsSpace(r[|r| - 1])))
      && (r == [] <==> forall k :: 0 <= k < |s| ==> IsJsSpace(s[k]))
      && (forall c :: c in r ==> c in s)
  {
    var t := TrimStart(s);
    var r := TrimEnd(t);
    assert forall c :: c in r ==> c in t;
    assert forall c :: c in t ==> c in s;
    if r == [] {
      assert t == [];
    } else {
      assert r[0] == t[0];
      assert s[|s| - |t|] == t[0];
    }
  }

  /** `s.split(sep)` with a one-character separator: every piece between separators, empty pieces
      included; the pieces and separators spell out `s` again. */
  function SplitOn(s: string, sep: char): (r: seq<string>)
    ensures |r| >= 1
    ensures forall i :: 0 <= i < |r| ==> sep !in r[i]
    ensures forall i, c :: 0 <= i < |r| && c in r[i] ==> c in s
  {
    if s == [] then [""]
    else
      assert forall c :: c in s[1..] ==> c in s;
      var rest := SplitOn(s[1..], sep);
      if s[0] == sep then [""] + rest
      else [[s[0]] + rest[0]] + rest[1..]
  }

  /** `parts.join(sep)`. */
  function Join(parts: seq<string>, sep: string): string {
    if |parts| == 0 then ""
    else if |parts| == 1 then parts[0]
    else parts[0] + sep + Join(parts[1..], sep)
  }

  /** `s.split(/\s+/)`: the pieces between maximal runs of whitespace (a leading or trailing run
      yields an empty first or last piece). */
  function SplitOnWhitespace(s: string): (r: seq<string>)
    ensures |r| >= 1
    decreases |s|
  {
    if s == [] then [""]
    else if IsJsSpace(s[0]) then [""] + SplitOnWhitespace(TrimStart(s))
    else
      var rest := SplitOnWhitespace(s[1..]);
      [[s[0]] + rest[0]] + rest[1..]
  }

  /** Every piece of `s.split(/\s+/)` is whitespace-free and made of characters of `s`. */
  lemma {:induction false} SplitOnWhitespacePieces(s: string)
    ensures forall i :: 0 <= i < |SplitOnWhitespace(s)| ==> PieceOf(SplitOnWhitespace(s)[i], s)
    decreases |s|
  {
    var r := SplitOnWhitespace(s);
    if s == [] {
    } else if IsJsSpace(s[0]) {
      var t := TrimStart(s);
      SplitOnWhitespacePieces(t);
      forall i | 0 <= i < |r| ensures PieceOf(r[i], s) {
        if i > 0 {
          assert r[i] == SplitOnWhitespace(t)[i - 1];
          assert forall c :: c in t ==> c in s;
        }
      }
    } else {
      var rest := SplitOnWhitespace(s[1..]);
      SplitOnWhitespacePieces(s[1..]);
      assert forall c :: c in s[1..] ==> c in s;
      forall i | 0 <= i < |r| ensures PieceOf(r[i], s) {
        if i == 0 {
          assert r[0] == [s[0]] + rest[0];
          assert PieceOf(rest[0], s[1..]);
        } else {
          assert r[i] == rest[i];
          assert PieceOf(rest[i], s[1..]);
        }
      }
    }
  }

  /** `piece` contains no whitespace and only characters that occur in `s`. */
  ghost predicate PieceOf(piece: string, s: string) {
    forall c :: c in piece ==> c in s && !IsJsSpace(c)
  }

  /** A string without whitespace splits into itself alone. */
  lemma {:induction false} SplitOnWhitespaceOneToken(s: string)
    requires forall c :: c in s ==> !IsJsSpace(c)
    ensures SplitOnWhitespace(s) == [s]
  {
    if s != [] {
      assert s[0] in s;
      assert forall c :: c in s[1..] ==> c in s;
      SplitOnWhitespaceOneToken(s[1..]);
      assert [s[0]] + s[1..] == s;
    }
  }

  /** A leading non-space character joins the first piece of the rest. */
  lemma SplitOnWhitespaceCons(c: char, t: string)
    requires !IsJsSpace(c)
    ensures SplitOnWhitespace([c] + t) == [[c] + SplitOnWhitespace(t)[0]] + SplitOnWhitespace(t)[1..]
  {
    assert ([c] + t)[0] == c && ([c] + t)[1..] == t;
  }

  /** One space and a whitespace-free word split into an empty piece and the word. */
  lemma SplitOnWhitespaceSpaceThen(b: string)
    requires forall c :: c in b ==> !IsJsSpace(c)
    ensures SplitOnWhitespace(" " + b) == ["", b]
  {
    assert TrimStart(" " + b) == b by {
      assert (" " + b)[1..] == b;
      if b != [] { assert b[0] in b; }
    }
    SplitOnWhitespaceOneToken(b);
  }

  /** Two whitespace-free words joined by one space split back into the two words. */
  lemma {:induction false} SplitOnWhitespaceTwoTokens(a: string, b: string)
    requires a != [] && forall c :: c in a ==> !IsJsSpace(c)
    requires forall c :: c in b ==> !IsJsSpace(c)
    ensures SplitOnWhitespace(a + " " + b) == [a, b]
  {
    assert a[0] in a;
    if |a| == 1 {
      assert a + " " + b == [a[0]] + (" " + b);
      SplitOnWhitespaceCons(a[0], " " + b);
      SplitOnWhitespaceSpaceThen(b);
      assert [a[0]] + "" == a;
    } else {
      assert forall c :: c in a[1..] ==> c in a;
      assert a + " " + b == [a[0]] + (a[1..] + " " + b);
      SplitOnWhitespaceCons(a[0], a[1..] + " " + b);
      SplitOnWhitespaceTwoTokens(a[1..], b);
      assert [a[0]] + a[1..] == a;
    }
  }
}
