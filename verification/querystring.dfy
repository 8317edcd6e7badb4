/**
 * `getParameterByName(name, url)`: the value of a query parameter, found by
 * the pattern `[?&]name(=([^&#]*)|&|#|$)` at its leftmost match, with `+`
 * read as a space and then percent-decoded.
 */
module QueryString {
  import opened Outcomes
  import opened Decimal
  import opened UriComponent
  import opened Restaurants

  /** The characters that would make a parameter name a pattern rather than a literal. */
  predicate IsPatternSpecial(c: char)
  {
    c == '\\' || c == '^' || c == '$' || c == '.' || c == '|' || c == '?' || c == '*' ||
    c == '+' || c == '(' || c == ')' || c == '[' || c == '{' || c == '}'
  }

  /**
   * A name the pattern matches literally. (`]` is allowed: the source escapes
   * it before building the pattern.)
   */
  predicate PlainName(name: string)
  {
    forall i :: 0 <= i < |name| ==> !IsPatternSpecial(name[i])
  }

  /** Where the text after `?name` or `&name` at position `i` starts. */
  function AfterName(name: string, i: nat): nat
  {
    i + 1 + |name|
  }

  /** The pattern matches at position `i` of `u`: `?name` or `&name`, then `=`, `&`, `#` or the end. */
  predicate ParamAt(u: string, name: string, i: int)
  {
    0 <= i && AfterName(name, i) <= |u| && (u[i] == '?' || u[i] == '&') &&
    u[i + 1..AfterName(name, i)] == name &&
    (AfterName(name, i) == |u| || u[AfterName(name, i)] == '=' || u[AfterName(name, i)] == '&' || u[AfterName(name, i)] == '#')
  }

  /** `i` is the leftmost match of the pattern in `u`. */
  predicate FirstParamAt(u: string, name: string, i: int)
  {
    ParamAt(u, name, i) && forall j :: 0 <= j < i ==> !ParamAt(u, name, j)
  }

  /** The match at `i` takes the `=value` alternative. */
  predicate HasValue(u: string, name: string, i: int)
    requires ParamAt(u, name, i)
  {
    AfterName(name, i) < |u| && u[AfterName(name, i)] == '='
  }

  /** The leftmost match at or after `from`, as `RegExp.exec` scans. */
  function LeftmostFrom(u: string, name: string, from: nat): (r: Option<nat>)
    ensures r.None? <==> forall i :: from <= i ==> !ParamAt(u, name, i)
    ensures r.Some? ==> from <= r.value && ParamAt(u, name, r.value) && forall j :: from <= j < r.value ==> !ParamAt(u, name, j)
    decreases |u| - from
  {
    if from >= |u| then None
    else if ParamAt(u, name, from) then Some(from)
    else LeftmostFrom(u, name, from + 1)
  }

  /** `[^&#]*`: the longest prefix of `t` without `&` and `#`. */
  function ValuePrefix(t: string): (v: string)
    ensures v <= t
    ensures forall i :: 0 <= i < |v| ==> v[i] != '&' && v[i] != '#'
    ensures |v| == |t| || t[|v|] == '&' || t[|v|] == '#'
  {
    if t == [] || t[0] == '&' || t[0] == '#' then [] else [t[0]] + ValuePrefix(t[1..])
  }

  /** The captured value text of the match at `i` (group 2). */
  function RawValue(u: string, name: string, i: int): string
    requires ParamAt(u, name, i) && HasValue(u, name, i)
  {
    ValuePrefix(u[AfterName(name, i) + 1..])
  }

  /** `t.replace(/\+/g, ' ')`. */
  function PlusToSpace(t: string): (r: string)
    ensures |r| == |t|
    ensures forall i :: 0 <= i < |t| ==> r[i] == (if t[i] == '+' then ' ' else t[i])
  {
    if t == [] then [] else [if t[0] == '+' then ' ' else t[0]] + PlusToSpace(t[1..])
  }

  /** What `getParameterByName` returns, or that it throws a `URIError`. */
  datatype ParamResult = Null | Text(value: string) | Malformed

  /** The parameter `name` of the URL text `u`. */
  function ParameterIn(name: string, u: string): (r: ParamResult)
    requires PlainName(name)
    ensures r.Null? <==> forall i :: !ParamAt(u, name, i)
    ensures forall i :: FirstParamAt(u, name, i) && !HasValue(u, name, i) ==> r == Text("")
    ensures forall i :: FirstParamAt(u, name, i) && HasValue(u, name, i) ==>
              (r.Malformed? <==> Decode(PlusToSpace(RawValue(u, name, i))).None?) &&
              (r.Text? ==> Decode(PlusToSpace(RawValue(u, name, i))) == Some(r.value))
  {
    match LeftmostFrom(u, name, 0)
    case None => Null
    case Some(i) =>
      assert forall j :: FirstParamAt(u, name, j) ==> j == i by {
        forall j | FirstParamAt(u, name, j) ensures j == i {
          assert !(j < i) && !(i < j);
        }
      }
      if HasValue(u, name, i) then
        var raw := RawValue(u, name, i);
        if raw == "" then Text("")
        else
          match Decode(PlusToSpace(raw))
          case None => Malformed
          case Some(v) => Text(v)
      else Text("")
  }

  /** The URL text used: the page's own address when `url` is missing or empty. */
  function EffectiveUrl(url: Option<string>, href: string): (u: string)
    ensures url.None? ==> u == href
    ensures url.Some? ==> u == (if url.value == "" then href else url.value)
  {
    match url
    case None => href
    case Some(text) => if text == "" then href else text
  }

  /**
   * `getParameterByName(name, url)` on a page whose address is `href`: null
   * when no match, the empty text for a match without `=value`, and otherwise
   * the decoded value or the `URIError`, all read from the page's own address
   * when `url` is missing or empty.
   */
  function GetParameterByName(name: string, url: Option<string>, href: string): (r: ParamResult)
    requires PlainName(name)
    ensures var u := EffectiveUrl(url, href);
      r.Null? <==> forall i :: !ParamAt(u, name, i)
    ensures var u := EffectiveUrl(url, href);
      forall i :: FirstParamAt(u, name, i) && !HasValue(u, name, i) ==> r == Text("")
    ensures var u := EffectiveUrl(url, href);
      forall i :: FirstParamAt(u, name, i) && HasValue(u, name, i) ==>
        (r.Malformed? <==> Decode(PlusToSpace(RawValue(u, name, i))).None?) &&
        (r.Text? ==> Decode(PlusToSpace(RawValue(u, name, i))) == Some(r.value))
  {
    ParameterIn(name, EffectiveUrl(url, href))
  }

  /** The match needs a boundary after the name: `?idx=3` holds no parameter `id`. */
  lemma {:induction false} NameNeedsBoundary()
    ensures ParameterIn("id", "?idx=3") == Null
  {
  }

  /** A later `&id=` is found after other parameters, and its value ends at a fragment. */
  lemma {:induction false} LaterParameterFound()
    ensures ParameterIn("id", "?x=1&id=2#top") == Text("2")
  {
    var v := "?x=1&id=2#top";
    assert v[5..7] == "id";
    assert ParamAt(v, "id", 4) && HasValue(v, "id", 4);
    forall j | 0 <= j < 4 ensures !ParamAt(v, "id", j) {
      assert v[j] != '?' || v[j + 1] != 'i';
    }
    assert FirstParamAt(v, "id", 4);
    assert RawValue(v, "id", 4) == "2" by {
      assert v[8..] == "2#top";
      assert ValuePrefix("#top") == "";
    }
    DecodePlain("2");
  }

  /** A bare `?id` before `&` reads as the empty text, even when a value follows later. */
  lemma {:induction false} BareNameReadsEmpty()
    ensures ParameterIn("id", "?id&id=2") == Text("")
  {
    var w := "?id&id=2";
    assert ParamAt(w, "id", 0) && !HasValue(w, "id", 0);
    assert FirstParamAt(w, "id", 0);
  }

  /** Text in which neither `?` nor `&` occurs. */
  predicate NoQueryDelimiters(s: string)
  {
    forall i :: 0 <= i < |s| ==> s[i] != '?' && s[i] != '&'
  }

  /** A text after which a query value has ended: nothing, or another parameter, or a fragment. */
  predicate EndsValue(tail: string)
  {
    tail == [] || tail[0] == '&' || tail[0] == '#'
  }

  /** The leftmost match is the first `?name=` when nothing before it could start a match. */
  lemma {:induction false} FirstMatchAfterPrefix(prefix: string, name: string, value: string)
    requires NoQueryDelimiters(prefix)
    ensures FirstParamAt(prefix + "?" + name + "=" + value, name, |prefix|)
    ensures HasValue(prefix + "?" + name + "=" + value, name, |prefix|)
  {
    var u := prefix + "?" + name + "=" + value;
    var p := |prefix|;
    assert u[p] == '?';
    assert u[p + 1..AfterName(name, p)] == name;
    assert u[AfterName(name, p)] == '=';
    forall j | 0 <= j < p ensures !ParamAt(u, name, j) {
      assert u[j] == prefix[j];
    }
  }

  /** A value text without `+` is left as it is by the space replacement. */
  lemma {:induction false} PlusToSpaceWithoutPlus(t: string)
    requires forall i :: 0 <= i < |t| ==> t[i] != '+'
    ensures PlusToSpace(t) == t
  {
  }

  /**
   * Round trip: a parameter written as `?name=` followed by the encoded value
   * is read back as that value, whatever parameters or fragment follow.
   */
  lemma {:induction false} ParameterRoundTrip(prefix: string, name: string, v: string, tail: string)
    requires PlainName(name) && NoQueryDelimiters(prefix) && EndsValue(tail)
    ensures ParameterIn(name, prefix + "?" + name + "=" + Encode(v) + tail) == Text(v)
  {
    var e := Encode(v);
    var u := prefix + "?" + name + "=" + e + tail;
    assert u == prefix + "?" + name + "=" + (e + tail);
    FirstMatchAfterPrefix(prefix, name, e + tail);
    var p := |prefix|;
    assert u[AfterName(name, p) + 1..] == e + tail;
    EncodeHasNoDelimiters(v);
    assert ValuePrefix(e + tail) == e by {
      ValuePrefixStopsAt(e, tail);
    }
    PlusToSpaceWithoutPlus(e);
    DecodeEncode(v);
  }

  /** The value prefix of a delimiter-free text followed by an ending is that text. */
  lemma {:induction false} ValuePrefixStopsAt(e: string, tail: string)
    requires forall i :: 0 <= i < |e| ==> e[i] != '&' && e[i] != '#'
    requires EndsValue(tail)
    ensures ValuePrefix(e + tail) == e
    decreases |e|
  {
    if e == [] {
      assert e + tail == tail;
    } else {
      var t := e + tail;
      assert t[0] == e[0] && t[0] != '&' && t[0] != '#';
      assert t[1..] == e[1..] + tail;
      ValuePrefixStopsAt(e[1..], tail);
      assert ValuePrefix(t) == [e[0]] + ValuePrefix(t[1..]);
      assert [e[0]] + e[1..] == e;
    }
  }

  /** Text made only of unreserved characters is its own encoding. */
  lemma {:induction false} EncodeUnreserved(s: string)
    requires forall i :: 0 <= i < |s| ==> Unreserved(s[i])
    ensures Encode(s) == s
    decreases |s|
  {
    if s != [] {
      EncodeUnreserved(s[1..]);
      assert [s[0]] + s[1..] == s;
    }
  }

  /** The decimal text of an integer is made of unreserved characters. */
  lemma {:induction false} DecimalIsUnreserved(n: int)
    ensures forall i :: 0 <= i < |IntToString(n)| ==> Unreserved(IntToString(n)[i])
  {
  }

  /** A restaurant page URL is the page, `?id=` and the id's text. */
  lemma {:induction false} PageUrlShape(r: Restaurant)
    ensures UrlForRestaurant(r) == RestaurantPage + "?" + "id" + "=" + IntToString(r.id) + ""
    ensures NoQueryDelimiters(RestaurantPage)
  {
    var d := IntToString(r.id);
    assert RestaurantPage + "?" + "id" + "=" + d + "" == RestaurantPage + ("?" + "id" + "=") + d;
    assert "?" + "id" + "=" == "?id=";
  }

  /**
   * The id round trip: reading `id` from a restaurant's page URL gives the
   * decimal text of its id, which the lookup reads back as that id.
   */
  lemma {:induction false} IdRoundTrip(r: Restaurant, href: string)
    ensures GetParameterByName("id", Some(UrlForRestaurant(r)), href) == Text(IntToString(r.id))
    ensures ParseInteger(IntToString(r.id)) == Some(r.id)
  {
    var digits := IntToString(r.id);
    DecimalIsUnreserved(r.id);
    EncodeUnreserved(digits);
    PageUrlShape(r);
    ParameterRoundTrip(RestaurantPage, "id", digits, "");
    ParseIntToString(r.id);
  }
}
