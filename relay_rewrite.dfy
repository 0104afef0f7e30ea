/** The relay's rewriting core (server/routes.ts): scheme normalisation of the target, the
    attribute, `srcset` and `<base>` passes over HTML, and the `url(...)` pass over CSS.

    The four regular expressions are explicit left-to-right scanners: `MatchAt` says what the
    expression matches at one index, `FindFrom` finds the leftmost match and `ReplaceAllFrom` is
    `String.prototype.replace` with a global expression and a replacer function (matches are
    leftmost and never overlap; the scan resumes right after each match). URL resolution is the
    parameter `parse`. */
module Relay {
  import opened Wrappers
  import opened JsText
  import UriCoding

  /** `new URL(input, base).toString()`: the serialised absolute URL, or None where the
      constructor throws. The second argument is the base, None where no base is given. */
  type UrlParser = (string, Option<string>) -> Option<string>

  const ProxyPrefix: string := "/api/proxy?url="

  // ---------------------------------------------------------------------------------------------
  // normalizeTargetUrl

  /** `/^https?:\/\//i` */
  predicate HasHttpScheme(s: string) {
    StartsAtIgnoreCase(s, 0, "http://") || StartsAtIgnoreCase(s, 0, "https://")
  }

  /** A target without an http(s) scheme is given `https://`; the result always has one. */
  function NormalizeTargetUrl(raw: string): (r: string)
    ensures HasHttpScheme(raw) ==> r == raw
    ensures !HasHttpScheme(raw) ==> r == "https://" + raw
    ensures HasHttpScheme(r)
  {
    if !HasHttpScheme(raw) then
      assert StartsAtIgnoreCase("https://" + raw, 0, "https://");
      "https://" + raw
    else raw
  }

  lemma NormalizeTargetUrlIdempotent(raw: string)
    ensures NormalizeTargetUrl(NormalizeTargetUrl(raw)) == NormalizeTargetUrl(raw)
  {
  }

  // ---------------------------------------------------------------------------------------------
  // rewriteAttribute

  /** Values the rewriter leaves as they are: fragments, `data:` and `mailto:` URLs. */
  predicate KeptAsIs(value: string) {
    StartsWith(value, "#") || StartsWith(value, "data:") || StartsWith(value, "mailto:")
  }

  /** The relay's address for an absolute URL. Percent-decoding what follows the prefix gives the
      URL back, and every character of the address is plain. */
  function ProxiedUrl(absolute: string): (r: string)
    ensures StartsWith(r, ProxyPrefix)
    ensures UriCoding.Decode(r[|ProxyPrefix|..]) == Some(absolute)
    ensures forall c :: c in r ==> Plain(c)
  {
    UriCoding.DecodeEncode(absolute);
    var r := ProxyPrefix + UriCoding.Encode(absolute);
    assert forall c :: c in ProxyPrefix ==> Plain(c);
    assert r[|ProxyPrefix|..] == UriCoding.Encode(absolute);
    r
  }

  /** The characters of a proxied address: those `encodeURIComponent` leaves alone, `%`, and the
      characters of the prefix. */
  predicate Plain(c: char) {
    UriCoding.Unreserved(c) || c == '%' || c == '/' || c == '?' || c == '='
  }

  /** A plain character means nothing to the `srcset` split, to `trim` or to GetSubstitution.
      (`'` and `)` are plain: `encodeURIComponent` leaves them alone.) */
  lemma PlainIsInert(c: char)
    requires Plain(c)
    ensures c != '$' && c != ',' && c != '"' && !IsJsSpace(c)
  {
  }

  /** `rewriteAttribute(value)` with `baseUrl` serialised as `base`. */
  function RewriteAttribute(parse: UrlParser, base: string, value: string): (r: string)
    ensures KeptAsIs(value) || parse(value, Some(base)).None? ==> r == value
    ensures !KeptAsIs(value) && parse(value, Some(base)).Some? ==>
      && StartsWith(r, ProxyPrefix)
      && UriCoding.Decode(r[|ProxyPrefix|..]) == parse(value, Some(base))
  {
    if KeptAsIs(value) then value
    else match parse(value, Some(base))
      case None => value
      case Some(absolute) => ProxiedUrl(absolute)
  }

  /** The rewritten value holds a character only if the value did or the character is plain; in
      particular it is never empty when the value is not. */
  lemma RewriteAttributeChars(parse: UrlParser, base: string, value: string)
    ensures forall c :: c in RewriteAttribute(parse, base, value) ==> c in value || Plain(c)
    ensures value != [] ==> RewriteAttribute(parse, base, value) != []
  {
  }

  // ---------------------------------------------------------------------------------------------
  // The regular expressions, as scanners

  /** Where a match lies in the subject: `[start, end)` is the whole match and
      `[groupStart, groupEnd)` its one capture group. */
  datatype Span = Span(start: nat, end: nat, groupStart: nat, groupEnd: nat)

  /** The four expressions of routes.ts (all with the `i` flag):
      Attribute `/\s(?:href|src|action)=["']([^"']+)["']/gi`, Srcset `/\ssrcset=["']([^"']+)["']/gi`,
      CssUrl `/url\(([^)]+)\)/gi` and HeadTag `/<head([^>]*)>/i`. */
  datatype Pattern = Attribute | Srcset | CssUrl | HeadTag

  predicate IsQuote(c: char) {
    c == '"' || c == '\''
  }

  predicate IsCloseParen(c: char) {
    c == ')'
  }

  predicate IsCloseAngle(c: char) {
    c == '>'
  }

  /** End of the greedy run `[^stop]*` starting at `k`: the first index at or after `k` where
      `stop` holds, or the end of `s`. */
  function RunEnd(s: string, k: nat, stop: char -> bool): (e: nat)
    requires k <= |s|
    ensures k <= e <= |s|
    ensures forall j :: k <= j < e ==> !stop(s[j])
    ensures e < |s| ==> stop(s[e])
    decreases |s| - k
  {
    if k == |s| || stop(s[k]) then k else RunEnd(s, k + 1, stop)
  }

  /** One alternative of a quoted-attribute expression, `\sNAME=["']([^"']+)["']`, tried at `i`. */
  function QuotedAttributeAt(s: string, i: nat, name: string): Option<Span>
    requires i <= |s|
  {
    var eq := i + 1 + |name|;
    if i < |s| && IsJsSpace(s[i]) && StartsAtIgnoreCase(s, i + 1, name)
       && eq + 1 < |s| && s[eq] == '=' && IsQuote(s[eq + 1]) then
      var e := RunEnd(s, eq + 2, IsQuote);
      if eq + 2 < e < |s| then Some(Span(i, e + 1, eq + 2, e)) else None
    else None
  }

  /** What the expression `p` matches at index `i`, alternatives tried in their written order;
      the match begins at `i` and its group lies inside it. */
  function MatchAt(p: Pattern, s: string, i: nat): (r: Option<Span>)
    requires i <= |s|
    ensures r.Some? ==>
      var sp := r.value;
      sp.start == i < sp.groupStart <= sp.groupEnd < sp.end == sp.groupEnd + 1 <= |s|
  {
    match p
    case Attribute =>
      var href := QuotedAttributeAt(s, i, "href");
      if href.Some? then href
      else
        var src := QuotedAttributeAt(s, i, "src");
        if src.Some? then src else QuotedAttributeAt(s, i, "action")
    case Srcset => QuotedAttributeAt(s, i, "srcset")
    case CssUrl =>
      if StartsAtIgnoreCase(s, i, "url(") then
        var e := RunEnd(s, i + 4, IsCloseParen);
        if i + 4 < e < |s| then Some(Span(i, e + 1, i + 4, e)) else None
      else None
    case HeadTag =>
      if StartsAtIgnoreCase(s, i, "<head") then
        var e := RunEnd(s, i + 5, IsCloseAngle);
        if e < |s| then Some(Span(i, e + 1, i + 5, e)) else None
      else None
  }

  /** `[from, to)` holds no `stop` character and `stop` holds at `to`: the group and the closing
      character of `[^x]+x` or `[^x]*x`. */
  ghost predicate ClosedRun(s: string, from: nat, to: nat, stop: char -> bool) {
    from <= to < |s| && (forall j :: from <= j < to ==> !stop(s[j])) && stop(s[to])
  }

  /** The regular expression `\sNAME=["']([^"']+)["']` read declaratively. */
  ghost predicate AttributeMatches(s: string, name: string, sp: Span) {
    && sp.start < |s| && IsJsSpace(s[sp.start])
    && StartsAtIgnoreCase(s, sp.start + 1, name)
    && sp.groupStart == sp.start + |name| + 3
    && sp.groupStart < sp.groupEnd && ClosedRun(s, sp.groupStart, sp.groupEnd, IsQuote)
    && s[sp.groupStart - 2] == '=' && IsQuote(s[sp.groupStart - 1])
    && sp.end == sp.groupEnd + 1
  }

  /** What it means for `sp` to be a match of `p`, independently of how the scanner finds it. */
  ghost predicate Matches(p: Pattern, s: string, sp: Span) {
    match p
    case Attribute =>
      AttributeMatches(s, "href", sp) || AttributeMatches(s, "src", sp) || AttributeMatches(s, "action", sp)
    case Srcset => AttributeMatches(s, "srcset", sp)
    case CssUrl =>
      && StartsAtIgnoreCase(s, sp.start, "url(") && sp.groupStart == sp.start + 4
      && sp.groupStart < sp.groupEnd && ClosedRun(s, sp.groupStart, sp.groupEnd, IsCloseParen)
      && sp.end == sp.groupEnd + 1
    case HeadTag =>
      && StartsAtIgnoreCase(s, sp.start, "<head") && sp.groupStart == sp.start + 5
      && ClosedRun(s, sp.groupStart, sp.groupEnd, IsCloseAngle)
      && sp.end == sp.groupEnd + 1
  }

  /** A greedy run stops at the first `stop` character, so a closed run is the one `RunEnd` finds. */
  lemma {:induction false} RunEndUnique(s: string, k: nat, e: nat, stop: char -> bool)
    requires ClosedRun(s, k, e, stop)
    ensures RunEnd(s, k, stop) == e
    decreases e - k
  {
    if k < e {
      RunEndUnique(s, k + 1, e, stop);
    }
  }

  lemma QuotedAttributeAtMatches(s: string, name: string, sp: Span)
    requires sp.start <= |s|
    ensures QuotedAttributeAt(s, sp.start, name) == Some(sp) <==> AttributeMatches(s, name, sp)
  {
    if AttributeMatches(s, name, sp) {
      RunEndUnique(s, sp.groupStart, sp.groupEnd, IsQuote);
    }
  }

  /** The scanner and the declarative reading agree, in both directions. */
  lemma MatchAtMatches(p: Pattern, s: string, sp: Span)
    requires sp.start <= |s|
    ensures MatchAt(p, s, sp.start) == Some(sp) <==> Matches(p, s, sp)
  {
    var i := sp.start;
    match p
    case Attribute =>
      QuotedAttributeAtMatches(s, "href", sp);
      QuotedAttributeAtMatches(s, "src", sp);
      QuotedAttributeAtMatches(s, "action", sp);
      // the three names begin with different letters, so at most one alternative can match at `i`
      FirstLetter(s, i, "href");
      FirstLetter(s, i, "src");
      FirstLetter(s, i, "action");
    case Srcset =>
      QuotedAttributeAtMatches(s, "srcset", sp);
    case CssUrl =>
      if Matches(p, s, sp) {
        RunEndUnique(s, sp.groupStart, sp.groupEnd, IsCloseParen);
      }
    case HeadTag =>
      if Matches(p, s, sp) {
        RunEndUnique(s, sp.groupStart, sp.groupEnd, IsCloseAngle);
      }
  }

  /** An alternative that matches at `i` has its name's first letter right after `i`. */
  lemma FirstLetter(s: string, i: nat, name: string)
    requires i <= |s| && name != []
    ensures QuotedAttributeAt(s, i, name).Some? ==> AsciiLower(s[i + 1]) == name[0]
    ensures StartsAtIgnoreCase(s, i + 1, name) ==> AsciiLower(s[i + 1]) == name[0]
  {
    if StartsAtIgnoreCase(s, i + 1, name) {
      assert AsciiLower(s[i + 1 + 0]) == name[0];
    }
  }

  /** ` srcset=` is never taken for ` src=`: after `src` the attribute expression needs `=`. */
  lemma SrcsetIsNoAttribute(s: string, i: nat)
    requires i < |s| && StartsAtIgnoreCase(s, i + 1, "srcset")
    ensures MatchAt(Attribute, s, i).None?
  {
    FirstLetter(s, i, "href");
    FirstLetter(s, i, "action");
    FirstLetter(s, i, "srcset");
    assert AsciiLower(s[i + 1 + 3]) == "srcset"[3];
  }

  /** A scanner: what an expression matches at index `i` of a subject, None past its end. */
  type Matcher = (string, nat) -> Option<Span>

  function Scanner(p: Pattern): Matcher {
    (s: string, i: nat) => if i <= |s| then MatchAt(p, s, i) else None
  }

  /** Every match a scanner reports begins where it was asked to look and lies inside the subject. */
  ghost predicate SpansWithin(m: Matcher) {
    forall s: string, i: nat ::
      m(s, i).Some? ==>
        (i == m(s, i).value.start < m(s, i).value.end <= |s|
         && i <= m(s, i).value.groupStart <= m(s, i).value.groupEnd <= m(s, i).value.end)
  }

  lemma ScannerSpans(p: Pattern)
    ensures SpansWithin(Scanner(p))
  {
  }

  lemma ScannerIsMatchAt(p: Pattern, s: string)
    ensures forall j :: 0 <= j <= |s| ==> Scanner(p)(s, j) == MatchAt(p, s, j)
  {
  }

  /** Where the leftmost match at or after `pos` begins (what `exec` finds from `lastIndex`). */
  function FindFrom(m: Matcher, s: string, pos: nat): (r: Option<nat>)
    requires pos <= |s|
    ensures r.Some? ==> pos <= r.value <= |s| && m(s, r.value).Some?
    ensures r.Some? ==> forall j :: pos <= j < r.value ==> m(s, j).None?
    ensures r.None? ==> forall j :: pos <= j <= |s| ==> m(s, j).None?
    decreases |s| - pos
  {
    if m(s, pos).Some? then Some(pos)
    else if pos == |s| then None
    else FindFrom(m, s, pos + 1)
  }

  /** A replacer: called with the whole match and its capture group. */
  type Replacer = (string, string) -> string

  /** `s.slice(pos).replace(re, f)` for a global `re` scanned by `m`: the text between matches is
      copied, each match is replaced by what `f` returns for it, and scanning resumes after the
      match. */
  function ReplaceAllFrom(m: Matcher, s: string, pos: nat, f: Replacer): string
    requires pos <= |s| && SpansWithin(m)
    decreases |s| - pos
  {
    match FindFrom(m, s, pos)
    case None => s[pos..]
    case Some(j) =>
      var sp := m(s, j).value;
      s[pos..j] + f(s[j..sp.end], s[sp.groupStart..sp.groupEnd]) + ReplaceAllFrom(m, s, sp.end, f)
  }

  function ReplaceAll(p: Pattern, s: string, f: Replacer): string {
    ScannerSpans(p);
    ReplaceAllFrom(Scanner(p), s, 0, f)
  }

  /** No match starts in `[pos, k)`, so the scan finds the same match from `k` as from `pos`. */
  lemma {:induction false} FindFromSkip(m: Matcher, s: string, pos: nat, k: nat)
    requires pos <= k <= |s|
    requires forall j :: pos <= j < k ==> m(s, j).None?
    ensures FindFrom(m, s, pos) == FindFrom(m, s, k)
    decreases k - pos
  {
    if pos < k {
      FindFromSkip(m, s, pos + 1, k);
    }
  }

  /** Text in which no match starts is copied to the output unchanged. */
  lemma ReplaceAllCopiesGap(m: Matcher, s: string, pos: nat, k: nat, f: Replacer)
    requires pos <= k <= |s| && SpansWithin(m)
    requires forall j :: pos <= j < k ==> m(s, j).None?
    ensures ReplaceAllFrom(m, s, pos, f) == s[pos..k] + ReplaceAllFrom(m, s, k, f)
  {
    FindFromSkip(m, s, pos, k);
    match FindFrom(m, s, pos)
    case None =>
      assert s[pos..] == s[pos..k] + s[k..];
    case Some(j) =>
      var sp := m(s, j).value;
      var tail := f(s[j..sp.end], s[sp.groupStart..sp.groupEnd]) + ReplaceAllFrom(m, s, sp.end, f);
      assert ReplaceAllFrom(m, s, pos, f) == s[pos..j] + tail;
      assert ReplaceAllFrom(m, s, k, f) == s[k..j] + tail;
      assert s[pos..j] == s[pos..k] + s[k..j];
  }

  /** A subject with no match at all comes out as it went in, stated for any subject. */
  lemma ReplaceAllUnmatched(p: Pattern, s: string, f: Replacer)
    ensures (forall j :: 0 <= j <= |s| ==> MatchAt(p, s, j).None?) ==> ReplaceAll(p, s, f) == s
  {
    if forall j :: 0 <= j <= |s| ==> MatchAt(p, s, j).None? {
      ReplaceAllNoMatch(p, s, f);
    }
  }

  /** A subject with no match at all comes out as it went in. */
  lemma ReplaceAllNoMatch(p: Pattern, s: string, f: Replacer)
    requires forall j :: 0 <= j <= |s| ==> MatchAt(p, s, j).None?
    ensures ReplaceAll(p, s, f) == s
  {
    ScannerSpans(p);
    ReplaceAllCopiesGap(Scanner(p), s, 0, |s|, f);
  }

  /** A replacer that gives every match back unchanged leaves the subject unchanged. */
  lemma {:induction false} ReplaceAllIdentity(m: Matcher, s: string, pos: nat, f: Replacer)
    requires pos <= |s| && SpansWithin(m)
    requires forall t, g :: f(t, g) == t
    ensures ReplaceAllFrom(m, s, pos, f) == s[pos..]
    decreases |s| - pos
  {
    match FindFrom(m, s, pos)
    case None =>
    case Some(j) =>
      var sp := m(s, j).value;
      ReplaceAllIdentity(m, s, sp.end, f);
      assert s[pos..] == s[pos..j] + s[j..sp.end] + s[sp.end..];
  }

  // ---------------------------------------------------------------------------------------------
  // The attribute pass

  /** `match.replace(value, rewriteAttribute(value))`: the FIRST occurrence of the value's text in
      the whole match is replaced, which need not be the value itself, and the replacement's `$`
      patterns are expanded. */
  function RewriteAttributeMatch(parse: UrlParser, base: string, m: string, value: string): (r: string)
    ensures IndexOf(m, value).None? ==> r == m
    ensures '$' !in value && IndexOf(m, value).Some? ==>
      var k := IndexOf(m, value).value;
      r == m[..k] + RewriteAttribute(parse, base, value) + m[k + |value|..]
  {
    var rewritten := RewriteAttribute(parse, base, value);
    if '$' in value then ReplaceFirst(m, value, rewritten)
    else
      RewriteAttributeDollarFree(parse, base, value);
      ReplaceFirstLiteral(m, value, rewritten);
      ReplaceFirst(m, value, rewritten)
  }

  /** The attribute pass; a document in which no attribute match starts is left as it is. */
  function AttributePass(parse: UrlParser, base: string, html: string): (r: string)
    ensures (forall j :: 0 <= j <= |html| ==> MatchAt(Attribute, html, j).None?) ==> r == html
  {
    var f: Replacer := (m, value) => RewriteAttributeMatch(parse, base, m, value);
    ReplaceAllUnmatched(Attribute, html, f);
    ReplaceAll(Attribute, html, f)
  }

  /** When the value's text does not occur earlier in the match and holds no `$`, the match keeps
      its name and quotes and only the value is replaced. */
  lemma AttributeValueReplaced(parse: UrlParser, base: string, s: string, sp: Span)
    requires sp.start <= |s| && MatchAt(Attribute, s, sp.start) == Some(sp)
    requires var m, value := s[sp.start..sp.end], s[sp.groupStart..sp.groupEnd];
      IndexOf(m, value) == Some(sp.groupStart - sp.start) && '$' !in value
    ensures RewriteAttributeMatch(parse, base, s[sp.start..sp.end], s[sp.groupStart..sp.groupEnd])
      == s[sp.start..sp.groupStart] + RewriteAttribute(parse, base, s[sp.groupStart..sp.groupEnd]) + s[sp.groupEnd..sp.end]
  {
    var m, value := s[sp.start..sp.end], s[sp.groupStart..sp.groupEnd];
    var rep := RewriteAttribute(parse, base, value);
    RewriteAttributeDollarFree(parse, base, value);
    SpliceInSlice(s, sp.start, sp.groupStart, sp.groupEnd, sp.end, rep);
  }

  /** A rewritten `$`-free value is `$`-free. */
  lemma RewriteAttributeDollarFree(parse: UrlParser, base: string, value: string)
    requires '$' !in value
    ensures '$' !in RewriteAttribute(parse, base, value)
  {
    RewriteAttributeChars(parse, base, value);
    forall c | c in RewriteAttribute(parse, base, value) ensures c != '$' {
      if c !in value { PlainIsInert(c); }
    }
  }

  /** Replacing the first occurrence of `s[b..c]` inside `s[a..d]`, when that occurrence is at
      `b`, splices `rep` between `s[a..b]` and `s[c..d]`. */
  lemma SpliceInSlice(s: string, a: nat, b: nat, c: nat, d: nat, rep: string)
    requires a <= b <= c <= d <= |s|
    requires IndexOf(s[a..d], s[b..c]) == Some(b - a) && '$' !in rep
    ensures ReplaceFirst(s[a..d], s[b..c], rep) == s[a..b] + rep + s[c..d]
  {
    var m := s[a..d];
    ReplaceFirstLiteral(m, s[b..c], rep);
    assert m[..b - a] == s[a..b];
    assert m[c - a..] == s[c..d];
  }

  /** ` src="s"` is a match of the attribute expression, with group `s`. */
  lemma SrcAttributeMatch()
    ensures MatchAt(Attribute, " src=\"s\"", 0) == Some(Span(0, 8, 6, 7))
  {
    var m := " src=\"s\"";
    FirstLetter(m, 0, "href");
    assert StartsAtIgnoreCase(m, 1, "src");
    assert RunEnd(m, 7, IsQuote) == 7;
  }

  /** The value `s` in ` src="s"` is first found inside the name `src`, so it is the name that
      is rewritten and the value stays. */
  lemma ValueFoundInName(parse: UrlParser, base: string)
    ensures RewriteAttributeMatch(parse, base, " src=\"s\"", "s")
      == " " + RewriteAttribute(parse, base, "s") + "rc=\"s\""
  {
    assert " src=\"s\"" == " " + "s" + "rc=\"s\"";
    RewriteAttributeDollarFree(parse, base, "s");
    ReplaceFirstAfter(" ", "s", "rc=\"s\"", RewriteAttribute(parse, base, "s"));
  }

  // ---------------------------------------------------------------------------------------------
  // The srcset pass

  /** One `srcset` entry: the trimmed entry's first whitespace-separated token is rewritten and a
      second token, when present, is kept after one space. */
  function RewriteSrcsetEntry(parse: UrlParser, base: string, part: string): (r: string)
    ensures ',' !in part ==> ',' !in r
    ensures '$' !in part ==> '$' !in r
  {
    var tokens := SplitOnWhitespace(Trim(part));
    EntryAvoids(parse, base, part, ',');
    EntryAvoids(parse, base, part, '$');
    var url := RewriteAttribute(parse, base, tokens[0]);
    if |tokens| >= 2 && tokens[1] != "" then url + " " + tokens[1] else url
  }

  /** A character that is not plain and not in an entry is neither in its rewritten URL nor in
      its descriptor. */
  lemma EntryAvoids(parse: UrlParser, base: string, part: string, x: char)
    requires x == ',' || x == '$'
    ensures var tokens := SplitOnWhitespace(Trim(part));
      x !in part ==> x !in RewriteAttribute(parse, base, tokens[0]) && (|tokens| >= 2 ==> x !in tokens[1])
  {
    if x !in part {
      var tokens := SplitOnWhitespace(Trim(part));
      EntryTokens(part);
      TrimChars(part);
      assert !Plain(x) by {
        if Plain(x) { PlainIsInert(x); }
      }
      RewriteAttributeAvoids(parse, base, tokens[0], x);
    }
  }

  /** `value.split(",").map(...).join(", ")`. The separator is `", "`, so a `$`-free value stays
      `$`-free. */
  function RewriteSrcset(parse: UrlParser, base: string, value: string): (r: string)
    ensures '$' !in value ==> '$' !in r
  {
    var parts := SplitOn(value, ',');
    var entries := SrcsetEntries(parse, base, parts);
    assert '$' !in value ==> '$' !in Join(entries, ", ") by {
      if '$' !in value {
        forall i | 0 <= i < |entries| ensures '$' !in entries[i] {
          assert '$' !in parts[i];
        }
        JoinAvoids(entries, ", ", '$');
      }
    }
    Join(entries, ", ")
  }

  /** `parts.map(...)` with the entry rewrite. */
  function SrcsetEntries(parse: UrlParser, base: string, parts: seq<string>): (r: seq<string>)
    ensures |r| == |parts|
    ensures forall i :: 0 <= i < |parts| ==> r[i] == RewriteSrcsetEntry(parse, base, parts[i])
  {
    seq(|parts|, i requires 0 <= i < |parts| => RewriteSrcsetEntry(parse, base, parts[i]))
  }

  /** The srcset rewrite keeps the number and the order of the entries: splitting its output on
      commas gives, entry by entry, the rewritten entries of the input. */
  lemma SrcsetEntriesPreserved(parse: UrlParser, base: string, value: string)
    ensures var parts := SplitOn(value, ',');
      var out := SplitOn(RewriteSrcset(parse, base, value), ',');
      && |out| == |parts|
      && out[0] == RewriteSrcsetEntry(parse, base, parts[0])
      && forall i :: 1 <= i < |parts| ==> out[i] == " " + RewriteSrcsetEntry(parse, base, parts[i])
  {
    var parts := SplitOn(value, ',');
    var entries := SrcsetEntries(parse, base, parts);
    forall i | 0 <= i < |parts| ensures ',' !in entries[i] {
      assert ',' !in parts[i];
    }
    SplitJoin("", entries);
    assert "" + Join(entries, ", ") == Join(entries, ", ");
  }

  /** `match.replace(value, rewrittenSrcset)`: as in the attribute pass, the first occurrence of
      the value's text in the whole match is the one replaced. */
  function RewriteSrcsetMatch(parse: UrlParser, base: string, m: string, value: string): (r: string)
    ensures IndexOf(m, value).None? ==> r == m
    ensures '$' !in value && IndexOf(m, value).Some? ==>
      var k := IndexOf(m, value).value;
      r == m[..k] + RewriteSrcset(parse, base, value) + m[k + |value|..]
  {
    var rewritten := RewriteSrcset(parse, base, value);
    if '$' in value then ReplaceFirst(m, value, rewritten)
    else
      ReplaceFirstLiteral(m, value, rewritten);
      ReplaceFirst(m, value, rewritten)
  }

  /** The srcset pass; a document in which no srcset match starts is left as it is. */
  function SrcsetPass(parse: UrlParser, base: string, html: string): (r: string)
    ensures (forall j :: 0 <= j <= |html| ==> MatchAt(Srcset, html, j).None?) ==> r == html
  {
    var f: Replacer := (m, value) => RewriteSrcsetMatch(parse, base, m, value);
    ReplaceAllUnmatched(Srcset, html, f);
    ReplaceAll(Srcset, html, f)
  }

  /** Every piece of a join avoids `x` when the pieces and the separator do. */
  lemma {:induction false} JoinAvoids(parts: seq<string>, sep: string, x: char)
    requires x !in sep && forall i :: 0 <= i < |parts| ==> x !in parts[i]
    ensures x !in Join(parts, sep)
    decreases |parts|
  {
    if |parts| >= 2 {
      JoinAvoids(parts[1..], sep, x);
    }
  }

  /** A bare URL is a srcset of one entry, rewritten as an attribute value would be. */
  lemma RewriteSrcsetBareUrl(parse: UrlParser, base: string, u: string)
    requires u != [] && ',' !in u && forall c :: c in u ==> !IsJsSpace(c)
    ensures RewriteSrcset(parse, base, u) == RewriteAttribute(parse, base, u)
  {
    SplitOnNoSep(u, ',');
    assert u[0] in u && u[|u| - 1] in u;
    TrimUnchanged(u);
    SplitOnWhitespaceOneToken(u);
    assert RewriteSrcsetEntry(parse, base, u) == RewriteAttribute(parse, base, u);
    var parts := SplitOn(u, ',');
    var entries := seq(|parts|, i requires 0 <= i < |parts| => RewriteSrcsetEntry(parse, base, parts[i]));
    assert entries == [RewriteAttribute(parse, base, u)];
  }

  /** ` srcset="s"` is a match of the srcset expression, with group `s`. */
  lemma SrcsetAttributeMatch()
    ensures MatchAt(Srcset, " srcset=\"s\"", 0) == Some(Span(0, 11, 9, 10))
  {
    var m := " srcset=\"s\"";
    assert StartsAtIgnoreCase(m, 1, "srcset");
    assert RunEnd(m, 10, IsQuote) == 10;
  }

  /** The value `s` in ` srcset="s"` is first found inside the name `srcset`, so it is the name
      that is rewritten and the value stays. */
  lemma SrcsetValueFoundInName(parse: UrlParser, base: string)
    ensures RewriteSrcsetMatch(parse, base, " srcset=\"s\"", "s")
      == " " + RewriteAttribute(parse, base, "s") + "rcset=\"s\""
  {
    var m := " srcset=\"s\"";
    assert m == " " + "s" + "rcset=\"s\"";
    IndexOfAfter(" ", "s", "rcset=\"s\"");
    assert m[..1] == " " && m[2..] == "rcset=\"s\"";
    RewriteSrcsetBareUrl(parse, base, "s");
  }

  /** The first two tokens of a trimmed entry are whitespace-free pieces of it, and the first is
      not empty when there is a second. */
  lemma EntryTokens(part: string)
    ensures var t := Trim(part); var tokens := SplitOnWhitespace(t);
      && PieceOf(tokens[0], t)
      && (|tokens| >= 2 ==> PieceOf(tokens[1], t) && tokens[0] != [])
  {
    var t := Trim(part);
    var tokens := SplitOnWhitespace(t);
    SplitOnWhitespacePieces(t);
    assert PieceOf(tokens[0], t);
    if |tokens| >= 2 {
      assert PieceOf(tokens[1], t);
      assert t != [];
      assert tokens[0] == [t[0]] + SplitOnWhitespace(t[1..])[0];
    }
  }

  /** The rewritten URL of an entry holds no whitespace. */
  lemma RewrittenTokenUnspaced(parse: UrlParser, base: string, token: string)
    requires forall c :: c in token ==> !IsJsSpace(c)
    ensures forall c :: c in RewriteAttribute(parse, base, token) ==> !IsJsSpace(c)
  {
    RewriteAttributeChars(parse, base, token);
    forall c | c in RewriteAttribute(parse, base, token) ensures !IsJsSpace(c) {
      if c !in token {
        PlainIsInert(c);
      }
    }
  }

  /** A rewritten entry reads back, split on whitespace, as the rewritten URL followed by the
      entry's own descriptor, if it had one. */
  lemma SrcsetEntryTokens(parse: UrlParser, base: string, part: string)
    ensures var tokens := SplitOnWhitespace(Trim(part));
      var url := RewriteAttribute(parse, base, tokens[0]);
      SplitOnWhitespace(RewriteSrcsetEntry(parse, base, part))
        == if |tokens| >= 2 && tokens[1] != "" then [url, tokens[1]] else [url]
  {
    var tokens := SplitOnWhitespace(Trim(part));
    EntryTokens(part);
    RewrittenTokenUnspaced(parse, base, tokens[0]);
    RewriteAttributeChars(parse, base, tokens[0]);
    var url := RewriteAttribute(parse, base, tokens[0]);
    if |tokens| >= 2 && tokens[1] != "" {
      SplitOnWhitespaceTwoTokens(url, tokens[1]);
    } else {
      SplitOnWhitespaceOneToken(url);
    }
  }

  /** Trimming only removes characters. */
  lemma TrimChars(s: string)
    ensures forall c :: c in Trim(s) ==> c in s
  {
  }

  /** The rewrite brings in no character that is not plain. */
  lemma RewriteAttributeAvoids(parse: UrlParser, base: string, value: string, x: char)
    requires x !in value && !Plain(x)
    ensures x !in RewriteAttribute(parse, base, value)
  {
    RewriteAttributeChars(parse, base, value);
  }

  lemma {:induction false} SplitOnNoSep(a: string, sep: char)
    requires sep !in a
    ensures SplitOn(a, sep) == [a]
  {
    if a != [] {
      assert a[0] in a;
      assert sep !in a[1..];
      SplitOnNoSep(a[1..], sep);
      assert [a[0]] + a[1..] == a;
    }
  }

  lemma {:induction false} SplitOnCons(a: string, sep: char, rest: string)
    requires sep !in a
    ensures SplitOn(a + [sep] + rest, sep) == [a] + SplitOn(rest, sep)
  {
    if a == [] {
      assert a + [sep] + rest == [sep] + rest;
      assert ([sep] + rest)[1..] == rest;
    } else {
      assert a[0] in a;
      assert sep !in a[1..];
      assert (a + [sep] + rest)[1..] == a[1..] + [sep] + rest;
      SplitOnCons(a[1..], sep, rest);
      assert [a[0]] + a[1..] == a;
    }
  }

  /** Joining comma-free entries with ", " and splitting on "," gives back the entries, every one
      after the first led by the space of the separator. */
  lemma {:induction false} SplitJoin(p: string, xs: seq<string>)
    requires |xs| >= 1 && ',' !in p
    requires forall i :: 0 <= i < |xs| ==> ',' !in xs[i]
    ensures var r := SplitOn(p + Join(xs, ", "), ',');
      && |r| == |xs| && r[0] == p + xs[0]
      && forall i :: 1 <= i < |xs| ==> r[i] == " " + xs[i]
    decreases |xs|
  {
    if |xs| == 1 {
      SplitOnNoSep(p + xs[0], ',');
    } else {
      var tail := Join(xs[1..], ", ");
      assert ',' !in xs[0];
      assert p + Join(xs, ", ") == (p + xs[0]) + [','] + (" " + tail);
      SplitOnCons(p + xs[0], ',', " " + tail);
      var r := SplitOn(p + Join(xs, ", "), ',');
      var r' := SplitOn(" " + tail, ',');
      assert r == [p + xs[0]] + r';
      SplitJoin(" ", xs[1..]);
      forall i | 1 <= i < |xs| ensures r[i] == " " + xs[i] {
        assert r[i] == r'[i - 1];
        if i > 1 {
          assert r'[i - 1] == " " + xs[1..][i - 1];
        }
      }
    }
  }

  // ---------------------------------------------------------------------------------------------
  // The <base> injection

  /** The replacement string of the head pass; `$1` stands for the tag's attributes. */
  function HeadTemplate(baseHref: string): string {
    "<head$1>" + BaseTag(baseHref)
  }

  function BaseTag(baseHref: string): string {
    "<base href=\"" + baseHref + "\">"
  }

  /** What a `<head…>` tag with attributes `attrs` becomes: `<head`, the attributes, `>` and the
      `<base>` tag. */
  function HeadWithBase(attrs: string, baseHref: string): string {
    "<head" + attrs + ">" + BaseTag(baseHref)
  }

  /** The first `<head…>` tag of a document, if any. */
  function FirstHead(html: string): (r: Option<Span>)
    ensures r.Some? ==> r.value.start <= |html| && MatchAt(HeadTag, html, r.value.start) == r
    ensures r.Some? ==> forall j :: 0 <= j < r.value.start ==> MatchAt(HeadTag, html, j).None?
    ensures r.None? ==> forall j :: 0 <= j <= |html| ==> MatchAt(HeadTag, html, j).None?
  {
    ScannerIsMatchAt(HeadTag, html);
    match FindFrom(Scanner(HeadTag), html, 0)
    case None => None
    case Some(j) => MatchAt(HeadTag, html, j)
  }

  /** `html.replace(/<head([^>]*)>/i, template)`: only the first match is replaced, by the
      template with its `$` patterns expanded against that match. */
  function InjectBase(html: string, baseHref: string): (r: string)
    ensures FirstHead(html).None? ==> r == html
    ensures '$' !in baseHref && FirstHead(html).Some? ==>
      var sp := FirstHead(html).value;
      r == html[..sp.start] + HeadWithBase(html[sp.groupStart..sp.groupEnd], baseHref) + html[sp.end..]
  {
    match FirstHead(html)
    case None => html
    case Some(sp) =>
      var sub := Substitution(html[sp.start..sp.end], html[..sp.start], html[sp.end..], [html[sp.groupStart..sp.groupEnd]]);
      assert '$' !in baseHref ==> Expand(HeadTemplate(baseHref), sub) == HeadWithBase(sub.captures[0], baseHref) by {
        if '$' !in baseHref { ExpandHeadTemplate(baseHref, sub); }
      }
      html[..sp.start] + Expand(HeadTemplate(baseHref), sub) + html[sp.end..]
  }

  /** With a `$`-free base URL the template expands to `<head`, the tag's attributes, `>` and the
      `<base>` tag. */
  lemma ExpandHeadTemplate(baseHref: string, sub: Substitution)
    requires '$' !in baseHref && |sub.captures| == 1
    ensures Expand(HeadTemplate(baseHref), sub) == HeadWithBase(sub.captures[0], baseHref)
  {
    var rest := ">" + BaseTag(baseHref);
    assert '$' !in rest;
    assert HeadTemplate(baseHref) == "<head" + ("$1" + rest);
    ExpandOneCapture("<head", rest, sub);
  }

  /** With a `$`-free base URL, a lower-case first `<head…>` tag is kept character for character
      and the `<base>` tag follows it; everything else stays. */
  lemma InjectBaseAfterLowerCaseHead(html: string, baseHref: string)
    requires '$' !in baseHref
    ensures FirstHead(html).Some? && html[FirstHead(html).value.start..FirstHead(html).value.groupStart] == "<head"
      ==> InjectBase(html, baseHref) == html[..FirstHead(html).value.end] + BaseTag(baseHref) + html[FirstHead(html).value.end..]
  {
    if FirstHead(html).Some? {
      var sp := FirstHead(html).value;
      if html[sp.start..sp.groupStart] == "<head" {
        HeadTagSplits(html, sp);
        Regroup(html[..sp.start], "<head", html[sp.groupStart..sp.groupEnd], ">", BaseTag(baseHref), html[sp.end..]);
      }
    }
  }

  lemma Regroup(a: string, h: string, g: string, c: string, t: string, z: string)
    ensures a + (h + g + c + t) + z == (a + h + g + c) + t + z
  {
  }

  /** A matched `<head…>` tag is its first five characters, its attributes and `>`. */
  lemma HeadTagSplits(html: string, sp: Span)
    requires sp.start <= |html| && MatchAt(HeadTag, html, sp.start) == Some(sp)
    ensures html[..sp.end]
      == html[..sp.start] + html[sp.start..sp.groupStart] + html[sp.groupStart..sp.groupEnd] + ">"
  {
    assert html[sp.groupEnd] == '>';
    assert html[..sp.end] == html[..sp.start] + html[sp.start..sp.groupStart] + html[sp.groupStart..sp.groupEnd] + html[sp.groupEnd..sp.end];
  }

  /** A document in which `<head` occurs nowhere (in any letter case) is left unchanged. */
  lemma InjectBaseWithoutHead(html: string, baseHref: string)
    requires forall i :: 0 <= i <= |html| ==> !StartsAtIgnoreCase(html, i, "<head")
    ensures InjectBase(html, baseHref) == html
  {
  }

  // ---------------------------------------------------------------------------------------------
  // rewriteHtml and rewriteCss

  /** The three passes of `rewriteHtml` composed: the attribute pass, then the srcset pass over
      its output, then the `<base>` injection, all against the serialised target URL. */
  function RewrittenHtml(parse: UrlParser, html: string, targetUrl: string): (r: string)
    requires parse(targetUrl, None).Some?
    ensures var base := parse(targetUrl, None).value;
      var mid := SrcsetPass(parse, base, AttributePass(parse, base, html));
      '$' !in base ==>
        match FirstHead(mid)
        case None => r == mid
        case Some(sp) => r == mid[..sp.start] + HeadWithBase(mid[sp.groupStart..sp.groupEnd], base) + mid[sp.end..]
  {
    var base := parse(targetUrl, None).value;
    InjectBase(SrcsetPass(parse, base, AttributePass(parse, base, html)), base)
  }

  /** `rewriteHtml(html, targetUrl)`. `new URL(targetUrl)` must not throw; its serialisation is the
      base of every resolution and the `href` of the injected tag. */
  method RewriteHtml(parse: UrlParser, html: string, targetUrl: string) returns (rewritten: string)
    requires parse(targetUrl, None).Some?
    ensures rewritten == RewrittenHtml(parse, html, targetUrl)
    ensures var base := parse(targetUrl, None).value;
      var mid := SrcsetPass(parse, base, AttributePass(parse, base, html));
      '$' !in base ==>
        match FirstHead(mid)
        case None => rewritten == mid
        case Some(sp) => rewritten == mid[..sp.start] + HeadWithBase(mid[sp.groupStart..sp.groupEnd], base) + mid[sp.end..]
  {
    var baseUrl := parse(targetUrl, None).value;
    rewritten := AttributePass(parse, baseUrl, html);
    rewritten := SrcsetPass(parse, baseUrl, rewritten);
    rewritten := InjectBase(rewritten, baseUrl);
  }

  /** A document with no attribute, `srcset` or `<head` to rewrite comes back unchanged. */
  lemma RewrittenHtmlUntouched(parse: UrlParser, html: string, targetUrl: string)
    requires parse(targetUrl, None).Some?
    requires forall j :: 0 <= j <= |html| ==> MatchAt(Attribute, html, j).None? && MatchAt(Srcset, html, j).None?
    requires forall j :: 0 <= j <= |html| ==> !StartsAtIgnoreCase(html, j, "<head")
    ensures RewrittenHtml(parse, html, targetUrl) == html
  {
    var base := parse(targetUrl, None).value;
    ReplaceAllNoMatch(Attribute, html, (m, value) => RewriteAttributeMatch(parse, base, m, value));
    ReplaceAllNoMatch(Srcset, html, (m, value) => RewriteSrcsetMatch(parse, base, m, value));
    InjectBaseWithoutHead(html, base);
  }

  /** `value.trim().replace(/^['"]|['"]$/g, "")` applied to an already trimmed value: one leading
      quote and then one trailing quote are removed. */
  function StripQuotes(t: string): (r: string)
    ensures |r| <= |t|
  {
    var t1 := if |t| > 0 && IsQuote(t[0]) then t[1..] else t;
    if |t1| > 0 && IsQuote(t1[|t1| - 1]) then t1[..|t1| - 1] else t1
  }

  /** The value inside `url(...)` with surrounding whitespace and quotes removed. */
  function CssTarget(value: string): string {
    StripQuotes(Trim(value))
  }

  /** The replacer of `rewriteCss`. Empty, `data:` and fragment targets, and targets that do not
      resolve, keep the whole match; any other becomes a double-quoted proxied `url()` whose
      encoded part decodes to the resolved URL. */
  function RewriteCssMatch(parse: UrlParser, base: string, m: string, value: string): (r: string)
    ensures var cleaned := CssTarget(value);
      cleaned == [] || StartsWith(cleaned, "data:") || StartsWith(cleaned, "#") || parse(cleaned, Some(base)).None?
      ==> r == m
    ensures var cleaned := CssTarget(value);
      !(cleaned == [] || StartsWith(cleaned, "data:") || StartsWith(cleaned, "#") || parse(cleaned, Some(base)).None?)
      ==> && |r| >= |CssUrlOpen| + 2
          && r[..|CssUrlOpen|] == CssUrlOpen
          && r[|r| - 2..] == "\")"
          && UriCoding.Decode(r[|CssUrlOpen|..|r| - 2]) == parse(cleaned, Some(base))
  {
    var cleaned := CssTarget(value);
    if cleaned == [] || StartsWith(cleaned, "data:") || StartsWith(cleaned, "#") then m
    else match parse(cleaned, Some(base))
      case None => m
      case Some(absolute) => ProxiedCssUrl(absolute)
  }

  /** What a rewritten `url()` starts with. */
  const CssUrlOpen := "url(\"" + ProxyPrefix

  /** `url("/api/proxy?url=...")` for a resolved address: the encoded part between the opening
      and the closing `")` decodes to the address. */
  function ProxiedCssUrl(absolute: string): (r: string)
    ensures |r| >= |CssUrlOpen| + 2
    ensures r[..|CssUrlOpen|] == CssUrlOpen && r[|r| - 2..] == "\")"
    ensures UriCoding.Decode(r[|CssUrlOpen|..|r| - 2]) == Some(absolute)
  {
    var proxied := ProxiedUrl(absolute);
    var r := "url(\"" + proxied + "\")";
    assert r[|CssUrlOpen|..|r| - 2] == proxied[|ProxyPrefix|..];
    r
  }

  /** `rewriteCss(css, targetUrl)`; `new URL(targetUrl)` must not throw. */
  function RewriteCss(parse: UrlParser, css: string, targetUrl: string): (r: string)
    requires parse(targetUrl, None).Some?
    ensures (forall j :: 0 <= j <= |css| ==> MatchAt(CssUrl, css, j).None?) ==> r == css
  {
    var base := parse(targetUrl, None).value;
    var f: Replacer := (m, value) => RewriteCssMatch(parse, base, m, value);
    ReplaceAllUnmatched(CssUrl, css, f);
    ReplaceAll(CssUrl, css, f)
  }

  lemma TrimUnchanged(s: string)
    requires s != [] && !IsJsSpace(s[0]) && !IsJsSpace(s[|s| - 1])
    ensures Trim(s) == s
  {
  }

  /** A bare target without whitespace or quotes is its own cleaned form. */
  lemma CssTargetBare(u: string)
    requires u != [] && forall c :: c in u ==> !IsJsSpace(c) && !IsQuote(c)
    ensures CssTarget(u) == u
  {
    assert u[0] in u && u[|u| - 1] in u;
    TrimUnchanged(u);
  }

  /** Quotes around such a target are removed. */
  lemma CssTargetQuoted(u: string, q: char)
    requires IsQuote(q)
    requires u != [] && forall c :: c in u ==> !IsJsSpace(c) && !IsQuote(c)
    ensures CssTarget([q] + u + [q]) == u
  {
    var t := [q] + u + [q];
    TrimUnchanged(t);
    assert t[1..] == u + [q];
    assert (u + [q])[..|u|] == u;
  }

  /** `url(x)`, `url('x')` and `url("x")` are rewritten alike. */
  lemma CssQuoteStyles(parse: UrlParser, base: string, m: string, u: string)
    requires u != [] && forall c :: c in u ==> !IsJsSpace(c) && !IsQuote(c)
    ensures RewriteCssMatch(parse, base, m, "'" + u + "'") == RewriteCssMatch(parse, base, m, u)
    ensures RewriteCssMatch(parse, base, m, "\"" + u + "\"") == RewriteCssMatch(parse, base, m, u)
  {
    CssTargetBare(u);
    CssTargetQuoted(u, '\'');
    CssTargetQuoted(u, '"');
    SameTargetSameRewrite(parse, base, m, "'" + u + "'", u);
    SameTargetSameRewrite(parse, base, m, "\"" + u + "\"", u);
  }

  /** The replacer looks only at the cleaned target. */
  lemma SameTargetSameRewrite(parse: UrlParser, base: string, m: string, v: string, w: string)
    requires CssTarget(v) == CssTarget(w)
    ensures RewriteCssMatch(parse, base, m, v) == RewriteCssMatch(parse, base, m, w)
  {
  }
}
