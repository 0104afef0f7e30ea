/** `buildUrl` of shared/routes.ts: fills the `:name` placeholders of a route path from a record of
    parameters, one parameter at a time in the record's entry order. */
module SharedRoutes {
  import opened Wrappers
  import opened JsText

  /** A parameter value: a string or an integer. */
  datatype ParamValue = Text(text: string) | Number(n: int)

  /** The digit character of `d`. */
  function Digit(d: nat): (c: char)
    requires d < 10
    ensures IsDigit(c) && DigitValue(c) == d
  {
    "0123456789"[d]
  }

  /** The decimal numeral of `n`, without leading zeros. */
  function NatDigits(n: nat): (r: string)
    decreases n
    ensures r != [] && forall c :: c in r ==> IsDigit(c)
  {
    if n < 10 then [Digit(n)] else NatDigits(n / 10) + [Digit(n % 10)]
  }

  /** The value of a string of decimal digits. */
  function ReadNat(s: string): nat
    requires forall c :: c in s ==> IsDigit(c)
  {
    if s == [] then 0 else 10 * ReadNat(s[..|s| - 1]) + DigitValue(s[|s| - 1])
  }

  /** `String(n)` for an integer: an optional minus sign and the decimal numeral. */
  function DecimalString(n: int): (r: string)
    ensures r != [] && '$' !in r && ':' !in r
    ensures forall k :: 1 <= k < |r| ==> IsDigit(r[k])
  {
    if n < 0 then "-" + NatDigits(-n) else NatDigits(n)
  }

  /** Reads back an optional minus sign and a decimal numeral. */
  function ReadDecimal(s: string): Option<int> {
    if s != [] && s[0] == '-' && forall c :: c in s[1..] ==> IsDigit(c) then Some(-(ReadNat(s[1..]) as int))
    else if forall c :: c in s ==> IsDigit(c) then Some(ReadNat(s))
    else None
  }

  lemma {:induction false} ReadNatDigits(n: nat)
    ensures ReadNat(NatDigits(n)) == n
    decreases n
  {
    if n >= 10 {
      var r := NatDigits(n);
      assert r[..|r| - 1] == NatDigits(n / 10);
      ReadNatDigits(n / 10);
    }
  }

  /** `String(n)` loses nothing: the numeral reads back as `n`. */
  lemma DecimalRoundTrip(n: int)
    ensures ReadDecimal(DecimalString(n)) == Some(n)
  {
    if n < 0 {
      ReadNatDigits(-n);
      assert DecimalString(n)[1..] == NatDigits(-n);
    } else {
      ReadNatDigits(n);
      assert DecimalString(n)[0] in DecimalString(n);
    }
  }

  /** `String(value)`. */
  function Render(v: ParamValue): string {
    match v
    case Text(t) => t
    case Number(n) => DecimalString(n)
  }

  /** The placeholder of parameter `key`. */
  function Placeholder(key: string): string {
    ":" + key
  }

  /** One step of the loop: when the URL contains the placeholder, its first occurrence is
      replaced by the rendered value (through `String.prototype.replace`, so `$` patterns in the
      value are expanded). */
  function Substitute(url: string, key: string, v: ParamValue): string {
    if Contains(url, Placeholder(key)) then ReplaceFirst(url, Placeholder(key), Render(v)) else url
  }

  /** What the loop has made of `path` after the given entries. */
  function SubstituteAll(path: string, entries: seq<(string, ParamValue)>): (r: string)
    ensures ':' !in path ==> r == path
  {
    if entries == [] then path
    else
      var last := entries[|entries| - 1];
      var url := SubstituteAll(path, entries[..|entries| - 1]);
      PlaceholderNeedsColon(url, last.0);
      Substitute(url, last.0, last.1)
  }

  /** Every placeholder starts with `:`, so a URL without one holds none. */
  lemma PlaceholderNeedsColon(url: string, key: string)
    ensures ':' !in url ==> !Contains(url, Placeholder(key))
  {
    if Contains(url, Placeholder(key)) {
      var k := IndexOf(url, Placeholder(key)).value;
      assert url[k] == Placeholder(key)[0];
    }
  }

  /** `buildUrl(path, params)`: the entries of `params` in order, each filling its placeholder. */
  method BuildUrl(path: string, params: Option<seq<(string, ParamValue)>>) returns (url: string)
    ensures url == SubstituteAll(path, params.GetOr([]))
    ensures params.None? ==> url == path
  {
    url := path;
    if params.Some? {
      var entries := params.value;
      var i := 0;
      while i < |entries|
        invariant 0 <= i <= |entries|
        invariant url == SubstituteAll(path, entries[..i])
      {
        var (key, value) := entries[i];
        if Contains(url, Placeholder(key)) {
          url := ReplaceFirst(url, Placeholder(key), Render(value));
        }
        assert entries[..i + 1][..i] == entries[..i];
        i := i + 1;
      }
      assert entries[..|entries|] == entries;
    }
  }

  /** The `includes` guard changes nothing: `replace` leaves a URL without the placeholder alone. */
  lemma SubstituteIsReplace(url: string, key: string, v: ParamValue)
    ensures Substitute(url, key, v) == ReplaceFirst(url, Placeholder(key), Render(v))
  {
    if !Contains(url, Placeholder(key)) {
      assert IndexOf(url, Placeholder(key)).None?;
    }
  }

  /** For a number, or a string without `$`, the step splices the value in place of the first
      placeholder occurrence and keeps the text around it. */
  lemma SubstituteLiteral(url: string, key: string, v: ParamValue)
    requires v.Number? || '$' !in v.text
    ensures IndexOf(url, Placeholder(key)).None? ==> Substitute(url, key, v) == url
    ensures IndexOf(url, Placeholder(key)).Some? ==>
      var k := IndexOf(url, Placeholder(key)).value;
      Substitute(url, key, v) == url[..k] + Render(v) + url[k + |Placeholder(key)|..]
  {
    ReplaceFirstLiteral(url, Placeholder(key), Render(v));
  }

  /** When no `:` comes before the placeholder, a number, or a string without `$`, takes the
      placeholder's place. */
  lemma SubstituteAfter(pre: string, key: string, post: string, v: ParamValue)
    requires ':' !in pre && (v.Number? || '$' !in v.text)
    ensures Substitute(pre + Placeholder(key) + post, key, v) == pre + Render(v) + post
  {
    IndexOfAfter(pre, Placeholder(key), post);
    ReplaceFirstAfter(pre, Placeholder(key), post, Render(v));
  }

  /** The loop over a one-entry record is one step. */
  lemma SubstituteOne(path: string, key: string, v: ParamValue)
    ensures SubstituteAll(path, [(key, v)]) == Substitute(path, key, v)
  {
    assert [(key, v)][..0] == [];
  }

  const SessionsPath := "/api/sessions/"

  /** `api.proxy.delete.path`. */
  const DeleteSessionPath := SessionsPath + ":id"

  /** The one call in the client, `buildUrl(api.proxy.delete.path, { id })`: the numeral of the id
      follows the collection path, and reads back as the id. */
  lemma DeleteSessionUrl(id: int)
    ensures SubstituteAll(DeleteSessionPath, [("id", Number(id))]) == SessionsPath + DecimalString(id)
    ensures ReadDecimal(SubstituteAll(DeleteSessionPath, [("id", Number(id))])[|SessionsPath|..]) == Some(id)
  {
    assert DeleteSessionPath == SessionsPath + Placeholder("id") + "";
    assert ':' !in SessionsPath;
    SubstituteAfter(SessionsPath, "id", "", Number(id));
    SubstituteOne(DeleteSessionPath, "id", Number(id));
    assert (SessionsPath + DecimalString(id))[|SessionsPath|..] == DecimalString(id);
    DecimalRoundTrip(id);
  }

  /** A placeholder is found by its text alone: when a longer placeholder such as `:idx` comes
      first, the key `id` fills its front and the rest of its name stays. */
  lemma PlaceholderPrefixOfLonger(pre: string, key: string, more: string, post: string, v: ParamValue)
    requires ':' !in pre && (v.Number? || '$' !in v.text)
    ensures SubstituteAll(pre + Placeholder(key + more) + post, [(key, v)]) == pre + Render(v) + (more + post)
  {
    assert pre + Placeholder(key + more) + post == pre + Placeholder(key) + (more + post);
    SubstituteAfter(pre, key, more + post, v);
    SubstituteOne(pre + Placeholder(key + more) + post, key, v);
  }

  /** A `$&` in a string value is expanded by `replace` to the placeholder itself, so the URL
      comes back unchanged. */
  lemma DollarInValue(pre: string, key: string, post: string)
    requires ':' !in pre
    ensures SubstituteAll(pre + Placeholder(key) + post, [(key, Text("$&"))]) == pre + Placeholder(key) + post
  {
    var url := pre + Placeholder(key) + post;
    IndexOfAfter(pre, Placeholder(key), post);
    SubstituteOne(url, key, Text("$&"));
    assert url[..|pre|] == pre && url[|pre| + |Placeholder(key)|..] == post;
    var sub := Substitution(Placeholder(key), pre, post, []);
    assert Expand("$&", sub) == Placeholder(key) + Expand("", sub);
    assert ReplaceFirst(url, Placeholder(key), "$&") == pre + Expand("$&", sub) + post;
    assert Substitute(url, key, Text("$&")) == ReplaceFirst(url, Placeholder(key), "$&");
  }
}
