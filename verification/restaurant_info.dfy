/**
 * The restaurant detail page: which restaurant it shows, taken from the `id`
 * parameter of its address and looked up through the data helper, and which
 * image it shows for it.
 */
module RestaurantInfo {
  import opened Outcomes
  import opened Seqs
  import opened Decimal
  import opened Restaurants
  import opened RestaurantCache
  import opened QueryString
  import opened UriComponent

  /** The image shown when the photograph path mentions `undefined`. */
  const Placeholder: string := "/img/icons/icon-placeholder.png"

  /** The text searched for in the image path (`/undefined/`). */
  const Undefined: string := "undefined"

  /** The error when the address carries no usable id. */
  const NoIdInUrl: string := "No restaurant id in URL"

  /** The image source `fillRestaurantHTML` sets. */
  function ImageSource(r: Restaurant): (src: string)
    ensures src == Placeholder <==> Contains(ImageUrlForRestaurant(r), Undefined)
    ensures src != Placeholder ==> src == ImageUrlForRestaurant(r)
  {
    var path := ImageUrlForRestaurant(r);
    assert path != Placeholder by {
      assert path[|path| - 3] == 'j' && Placeholder[|Placeholder| - 3] == 'p';
    }
    if Contains(path, Undefined) then Placeholder else path
  }

  /** An occurrence of `undefined` in the photograph text is one in the image path. */
  lemma {:induction false} UndefinedCarriedIntoPath(p: string, i: int)
    requires OccursAt(p, Undefined, i)
    ensures OccursAt("/img/" + p + ".jpg", Undefined, i + 5)
  {
    var path := "/img/" + p + ".jpg";
    assert path[i + 5..i + 5 + |Undefined|] == p[i..i + |Undefined|];
  }

  /** `undefined` cannot start inside `/img/`, which holds no `u`. */
  lemma {:induction false} UndefinedAfterImagePrefix(p: string, i: int)
    requires OccursAt("/img/" + p + ".jpg", Undefined, i)
    ensures i >= 5
  {
    var path := "/img/" + p + ".jpg";
    assert path[i] == path[i..i + |Undefined|][0] == 'u';
  }

  /** `undefined` cannot reach into `.jpg`, since it holds no `.`. */
  lemma {:induction false} UndefinedBeforeImageSuffix(p: string, i: int)
    requires OccursAt("/img/" + p + ".jpg", Undefined, i)
    ensures i + |Undefined| <= 5 + |p|
  {
    var path := "/img/" + p + ".jpg";
    assert path[5 + |p|] == '.';
  }

  /** An occurrence of `undefined` in the image path lies within the photograph text. */
  lemma {:induction false} UndefinedFromPath(p: string, i: int)
    requires OccursAt("/img/" + p + ".jpg", Undefined, i)
    ensures OccursAt(p, Undefined, i - 5)
  {
    var path := "/img/" + p + ".jpg";
    UndefinedAfterImagePrefix(p, i);
    UndefinedBeforeImageSuffix(p, i);
    assert p[i - 5..i - 5 + |Undefined|] == path[i..i + |Undefined|];
  }

  /** The image path mentions `undefined` exactly when the photograph text does. */
  lemma {:induction false} ImagePathMentionsUndefined(p: string)
    ensures Contains("/img/" + p + ".jpg", Undefined) <==> Contains(p, Undefined)
  {
    var path := "/img/" + p + ".jpg";
    if Contains(p, Undefined) {
      var i :| OccursAt(p, Undefined, i);
      UndefinedCarriedIntoPath(p, i);
    }
    if Contains(path, Undefined) {
      var i :| OccursAt(path, Undefined, i);
      UndefinedFromPath(p, i);
    }
  }

  /**
   * The placeholder is shown exactly when the restaurant has no photograph
   * (the path then reads `/img/undefined.jpg`) or its photograph text
   * contains `undefined`; otherwise the photograph's own path is shown.
   */
  lemma {:induction false} PlaceholderWhenNoPhotograph(r: Restaurant)
    ensures ImageSource(r) == Placeholder <==> r.photograph.None? || Contains(r.photograph.value, Undefined)
    ensures r.photograph.Some? && !Contains(r.photograph.value, Undefined) ==>
              ImageSource(r) == "/img/" + r.photograph.value + ".jpg"
  {
    ImagePathMentionsUndefined(PhotographText(r.photograph));
    if r.photograph.None? {
      assert OccursAt(Undefined, Undefined, 0);
    }
  }

  /**
   * `fetchRestaurantById(id, …)` with the id text from the address: the loose
   * comparison `r.id == id` reads the text as a number, so text that is not
   * an integer matches no restaurant.
   */
  function LookupByUrlId(idText: string, reply: Reply<seq<Restaurant>>): (r: Reply<Restaurant>)
    ensures reply.Err? ==> r == Err(reply.error)
    ensures reply.Ok? && ParseInteger(idText).None? ==> r == Err(NotFound)
    ensures r.Ok? ==> ParseInteger(idText) == Some(r.value.id) && r.value in reply.value
    ensures ParseInteger(idText).Some? ==> r == FetchRestaurantById(ParseInteger(idText).value, reply)
  {
    match ParseInteger(idText)
    case None =>
      (match reply
       case Err(e) => Err(e)
       case Ok(_) => Err(NotFound))
    case Some(id) =>
      var found := FetchRestaurantById(id, reply);
      assert found.Ok? ==> found.value.id == id && found.value in reply.value by {
        if found.Ok? {
          var i :| FirstWithId(reply.value, id, i) && reply.value[i] == found.value;
        }
      }
      found
  }

  /**
   * Following a restaurant's own page URL finds that restaurant, when the
   * fetched restaurants have distinct ids and include it.
   */
  lemma {:induction false} PageUrlFindsRestaurant(rs: seq<Restaurant>, k: nat, href: string)
    requires k < |rs|
    requires forall a, b :: 0 <= a < b < |rs| ==> rs[a].id != rs[b].id
    ensures GetParameterByName("id", Some(UrlForRestaurant(rs[k])), href) == Text(IntToString(rs[k].id))
    ensures LookupByUrlId(IntToString(rs[k].id), Ok(rs)) == Ok(rs[k])
  {
    IdRoundTrip(rs[k], href);
    FindsEveryRestaurant(rs, k);
    assert FirstWithId(rs, rs[k].id, k);
  }

  /** What `fetchRestaurantFromURL` does next when no restaurant is loaded yet. */
  datatype Step =
    | Deliver(reply: Reply<Restaurant>) // the callback is invoked at once
    | LookUp(idText: string)            // `fetchRestaurantById` is started with this id text
    | Threw                             // `decodeURIComponent` threw a `URIError`

  /** The branch on the `id` parameter: missing or empty, present, or malformed. */
  function StepForId(id: ParamResult): (s: Step)
    ensures s.Deliver? <==> id.Null? || id == Text("")
    ensures s.Deliver? ==> s.reply == Err(NoIdInUrl)
    ensures s.LookUp? <==> id.Text? && id.value != ""
    ensures s.LookUp? ==> s.idText == id.value
  {
    match id
    case Null => Deliver(Err(NoIdInUrl))
    case Text(t) => if t == "" then Deliver(Err(NoIdInUrl)) else LookUp(t)
    case Malformed => Threw
  }

  /**
   * A page whose address carries `?id=` and a restaurant's id, after a base
   * without query delimiters and before other parameters or a fragment, looks
   * up the text of that id.
   */
  lemma {:induction false} PageUrlStartsLookup(r: Restaurant, base: string, tail: string)
    requires NoQueryDelimiters(base) && EndsValue(tail)
    ensures StepForId(GetParameterByName("id", None, base + "?id=" + IntToString(r.id) + tail)) == LookUp(IntToString(r.id))
  {
    var digits := IntToString(r.id);
    var href := base + "?id=" + digits + tail;
    DecimalIsUnreserved(r.id);
    EncodeUnreserved(digits);
    assert href == base + "?" + "id" + "=" + Encode(digits) + tail by {
      assert "?" + "id" + "=" == "?id=";
      assert base + "?" + "id" + "=" + digits + tail == base + ("?" + "id" + "=") + digits + tail;
    }
    ParameterRoundTrip(base, "id", digits, tail);
    assert EffectiveUrl(None, href) == href;
  }

  /** What the page's restaurant is after one reply of the lookup (`self.restaurant = restaurant`). */
  function ShownAfter(reply: Reply<Restaurant>): (shown: Option<Restaurant>)
    ensures shown.Some? <==> reply.Ok?
    ensures shown.Some? ==> shown.value == reply.value
  {
    match reply
    case Ok(r) => Some(r)
    case Err(_) => None
  }

  /**
   * The page's restaurant after the lookup callback has run once for each
   * delivery of the fetch-all primitive: the last delivery decides.
   */
  function ShownAfterAll(idText: string, deliveries: seq<Reply<seq<Restaurant>>>, shown: Option<Restaurant>): (r: Option<Restaurant>)
    ensures deliveries == [] ==> r == shown
    ensures deliveries != [] ==> r == ShownAfter(LookupByUrlId(idText, deliveries[|deliveries| - 1]))
    decreases |deliveries|
  {
    if deliveries == [] then shown
    else ShownAfterAll(idText, deliveries[1..], ShownAfter(LookupByUrlId(idText, deliveries[0])))
  }

  /** The lookup's reply to each delivery, in delivery order. */
  function Lookups(idText: string, deliveries: seq<Reply<seq<Restaurant>>>): (l: seq<Reply<Restaurant>>)
    ensures |l| == |deliveries|
    ensures forall j :: 0 <= j < |deliveries| ==> l[j] == LookupByUrlId(idText, deliveries[j])
  {
    seq(|deliveries|, j requires 0 <= j < |deliveries| => LookupByUrlId(idText, deliveries[j]))
  }

  /** The lookup replies that carry a restaurant. */
  const Succeeded: Reply<Restaurant> -> bool := (x: Reply<Restaurant>) => x.Ok?

  /**
   * What the page's own callback receives: the successful lookup replies, in
   * delivery order (an error reply only resets the page's restaurant).
   */
  function CallbacksAfterAll(idText: string, deliveries: seq<Reply<seq<Restaurant>>>): (c: seq<Reply<Restaurant>>)
    ensures c == Filter(Lookups(idText, deliveries), Succeeded)
    ensures |c| <= |deliveries|
    ensures forall i :: 0 <= i < |c| ==> c[i].Ok?
    decreases |deliveries|
  {
    if deliveries == [] then []
    else
      var first := LookupByUrlId(idText, deliveries[0]);
      var rest := CallbacksAfterAll(idText, deliveries[1..]);
      var lookups := Lookups(idText, deliveries);
      assert lookups[0] == first;
      assert lookups[1..] == Lookups(idText, deliveries[1..]);
      assert Filter(lookups, Succeeded) == if Succeeded(first) then [first] + rest else rest;
      if first.Ok? then [first] + rest else rest
  }

  /**
   * A cached success followed by a failed request: the page's callback has
   * received the cached restaurant (when it is found), and then the error
   * delivery resets the page's restaurant to null.
   */
  lemma {:induction false} NetworkErrorAfterCacheHit(idText: string, cached: seq<Restaurant>, status: int, body: Option<seq<Restaurant>>, shown: Option<Restaurant>)
    requires |cached| > 0 && status != StatusOk
    ensures ShownAfterAll(idText, Deliveries(cached, Loaded(status, body)), shown) == None
    ensures CallbacksAfterAll(idText, Deliveries(cached, Loaded(status, body))) ==
              if LookupByUrlId(idText, Ok(cached)).Ok? then [LookupByUrlId(idText, Ok(cached))] else []
  {
    var d := Deliveries(cached, Loaded(status, body));
    var failure := Err(StatusMessage(status));
    assert d == [Ok(cached), failure];
    assert d[1..] == [failure];
    assert d[1..][1..] == [];
    var afterCache := ShownAfter(LookupByUrlId(idText, Ok(cached)));
    assert ShownAfterAll(idText, d, shown) == ShownAfterAll(idText, [failure], afterCache);
    assert ShownAfterAll(idText, [failure], afterCache) == ShownAfterAll(idText, [], None);
  }

  /** The restaurant detail page's state. */
  class RestaurantPage {
    /** `self.restaurant`. */
    var restaurant: Option<Restaurant>
    /** The `src` of the restaurant image, once set. */
    var imageSrc: Option<string>

    constructor ()
      ensures restaurant == None && imageSrc == None
    {
      restaurant := None;
      imageSrc := None;
    }

    /**
     * `fetchRestaurantFromURL` on a page whose address is `href`, up to the
     * point where it either answers or hands over to the lookup.
     */
    method FetchRestaurantFromUrl(href: string) returns (step: Step)
      ensures restaurant.Some? ==> step == Deliver(Ok(restaurant.value))
      ensures restaurant.None? ==> step == StepForId(GetParameterByName("id", None, href))
    {
      if restaurant.Some? {
        return Deliver(Ok(restaurant.value));
      }
      var id := GetParameterByName("id", None, href);
      match id
      case Null =>
        step := Deliver(Err(NoIdInUrl));
      case Text(t) =>
        if t == "" {
          step := Deliver(Err(NoIdInUrl));
        } else {
          step := LookUp(t);
        }
      case Malformed =>
        step := Threw;
    }

    /**
     * The lookup's callback: store what arrived as the page's restaurant; on
     * success fill in the image and pass the restaurant on, on failure stop.
     */
    method OnRestaurantById(reply: Reply<Restaurant>) returns (callback: Option<Reply<Restaurant>>)
      modifies this
      ensures restaurant == ShownAfter(reply)
      ensures reply.Ok? ==> imageSrc == Some(ImageSource(reply.value)) && callback == Some(Ok(reply.value))
      ensures reply.Err? ==> imageSrc == old(imageSrc) && callback == None
    {
      match reply
      case Err(_) =>
        restaurant := None;
        callback := None;
      case Ok(r) =>
        restaurant := Some(r);
        imageSrc := Some(ImageSource(r));
        callback := Some(Ok(r));
    }
  }
}
