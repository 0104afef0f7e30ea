/** The submit handler of the address bar (client/src/components/ui/address-bar.tsx): decides
    whether what the user typed is a web address or a search, and what to navigate to. */
module AddressBar {
  import opened Wrappers
  import opened JsText
  import UriCoding
  import Relay

  const SearchPrefix := "https://www.google.com/search?q="

  /** The heuristic for a search: the text has no dot, or it has a space. */
  predicate LooksLikeSearch(input: string) {
    '.' !in input || ' ' in input
  }

  /** What `handleSubmit` passes to `onNavigate`, or None when it does not call it (blank input).
      The untrimmed input is what is examined and used. */
  function SubmitTarget(input: string): (r: Option<string>)
    ensures r.None? <==> forall k :: 0 <= k < |input| ==> IsJsSpace(input[k])
    ensures r.Some? ==> StartsWith(r.value, "http")
  {
    if Trim(input) == [] then None
    else if LooksLikeSearch(input) then
      assert (SearchPrefix + UriCoding.Encode(input))[..4] == "http";
      Some(SearchPrefix + UriCoding.Encode(input))
    else if !StartsWith(input, "http") then
      assert ("https://" + input)[..4] == "http";
      Some("https://" + input)
    else Some(input)
  }

  /** A search sends the whole input, spaces included, as the `q` query parameter, and the
      parameter decodes back to exactly what was typed. */
  lemma SearchCarriesInput(input: string)
    requires Trim(input) != [] && LooksLikeSearch(input)
    ensures SubmitTarget(input).Some?
    ensures var t := SubmitTarget(input).value;
      StartsWith(t, SearchPrefix) && UriCoding.Decode(t[|SearchPrefix|..]) == Some(input)
  {
    var t := SubmitTarget(input).value;
    assert t == SearchPrefix + UriCoding.Encode(input);
    assert t[..|SearchPrefix|] == SearchPrefix && t[|SearchPrefix|..] == UriCoding.Encode(input);
    UriCoding.DecodeEncode(input);
  }

  /** Text with a dot and no space is an address: kept when it starts with `http`, else given
      `https://`. */
  lemma AddressKept(input: string)
    requires Trim(input) != [] && !LooksLikeSearch(input)
    ensures SubmitTarget(input) == Some(if StartsWith(input, "http") then input else "https://" + input)
  {
  }

  /** An address that starts with `http` and has a dot and no space is submitted as it is. */
  lemma AddressFixed(t: string)
    requires StartsWith(t, "http") && '.' in t && ' ' !in t
    ensures SubmitTarget(t) == Some(t)
  {
    assert t[0] == t[..4][0] == 'h';
    assert !IsJsSpace(t[0]);
  }

  /** Submitting a target again leads to the same target: an address bar that shows where it
      went can be resubmitted without change. */
  lemma SubmitTargetStable(input: string)
    requires SubmitTarget(input).Some?
    ensures SubmitTarget(SubmitTarget(input).value) == SubmitTarget(input)
  {
    var t := SubmitTarget(input).value;
    if LooksLikeSearch(input) {
      SearchTargetIsAddress(input);
    } else if !StartsWith(input, "http") {
      assert forall c :: c in input ==> c in t;
    }
    AddressFixed(t);
  }

  lemma SearchTargetIsAddress(input: string)
    ensures var t := SearchPrefix + UriCoding.Encode(input);
      StartsWith(t, "http") && '.' in t && ' ' !in t
  {
    var e := UriCoding.Encode(input);
    var t := SearchPrefix + e;
    assert t[..4] == "http" && t[11] == '.';
    assert ' ' !in e by {
      assert !UriCoding.Unreserved(' ');
    }
    NoSpaceConcat(SearchPrefix, e);
  }

  lemma NoSpaceConcat(a: string, b: string)
    requires ' ' !in a && ' ' !in b
    ensures ' ' !in a + b
  {
  }

  /** The bar and the server read `http` differently: a host such as `http.example.com` is sent
      as typed, and the proxy then puts `https://` in front of it. */
  lemma HttpHostPrefixed(h: string)
    requires StartsWith(h, "http.") && ' ' !in h
    ensures SubmitTarget(h) == Some(h)
    ensures Relay.NormalizeTargetUrl(h) == "https://" + h
  {
    assert h[..4] == h[..5][..4] && h[4] == h[..5][4];
    AddressFixed(h);
    NoSchemeWithDotAt4(h);
  }

  lemma NoSchemeWithDotAt4(h: string)
    requires |h| >= 5 && h[4] == '.'
    ensures !Relay.HasHttpScheme(h)
  {
    assert AsciiLower(h[4]) == '.';
    assert "http://"[4] == ':' && "https://"[4] == 's';
  }
}
