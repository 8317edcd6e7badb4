/**
 * The restaurant record and the derived queries of the data helper: each
 * takes what the fetch-all primitive delivered to its callback and turns it
 * into what the query's own callback receives.
 */
module Restaurants {
  import opened Outcomes
  import opened Seqs
  import opened Decimal

  /**
   * A restaurant record. `photograph` is absent on some records; the
   * coordinates, opening hours and reviews are carried through untouched
   * and are not part of this model.
   */
  datatype Restaurant = Restaurant(
    id: int,
    name: string,
    address: string,
    cuisineType: string,
    neighborhood: string,
    photograph: Option<string>)

  /** The error of a lookup by id that finds nothing. */
  const NotFound: string := "Restaurant does not exist"

  /** The filter argument that stands for "no constraint". */
  const All: string := "all"

  /** `i` is the index of the first restaurant of `rs` whose id is `id`. */
  ghost predicate FirstWithId(rs: seq<Restaurant>, id: int, i: int)
  {
    0 <= i < |rs| && rs[i].id == id && forall j :: 0 <= j < i ==> rs[j].id != id
  }

  /** `restaurants.find(r => r.id == id)`. */
  function FindById(rs: seq<Restaurant>, id: int): (r: Option<Restaurant>)
    ensures r.None? <==> forall i :: 0 <= i < |rs| ==> rs[i].id != id
    ensures r.Some? ==> exists i :: FirstWithId(rs, id, i) && rs[i] == r.value
  {
    if rs == [] then None
    else if rs[0].id == id then
      assert FirstWithId(rs, id, 0);
      Some(rs[0])
    else
      var r := FindById(rs[1..], id);
      assert r.Some? ==> exists i :: FirstWithId(rs, id, i) && rs[i] == r.value by {
        if r.Some? {
          var i :| FirstWithId(rs[1..], id, i) && rs[1..][i] == r.value;
          assert FirstWithId(rs, id, i + 1);
        }
      }
      r
  }

  /** `fetchRestaurantById`: the first restaurant with the id, or `NotFound`. */
  function FetchRestaurantById(id: int, reply: Reply<seq<Restaurant>>): (r: Reply<Restaurant>)
    ensures reply.Err? ==> r == Err(reply.error)
    ensures reply.Ok? && (forall i :: 0 <= i < |reply.value| ==> reply.value[i].id != id) ==> r == Err(NotFound)
    ensures reply.Ok? ==> forall i :: FirstWithId(reply.value, id, i) ==> r == Ok(reply.value[i])
  {
    match reply
    case Err(e) => Err(e)
    case Ok(rs) =>
      var found := FindById(rs, id);
      assert found.Some? ==> forall i :: FirstWithId(rs, id, i) ==> found.value == rs[i] by {
        if found.Some? {
          forall i | FirstWithId(rs, id, i) ensures found.value == rs[i] {
            var k :| FirstWithId(rs, id, k) && rs[k] == found.value;
            assert !(k < i) && !(i < k);
          }
        }
      }
      match found
      case None => Err(NotFound)
      case Some(restaurant) => Ok(restaurant)
  }

  /** With distinct ids, every fetched restaurant is found by its own id. */
  lemma FindsEveryRestaurant(rs: seq<Restaurant>, k: nat)
    requires k < |rs|
    requires forall a, b :: 0 <= a < b < |rs| ==> rs[a].id != rs[b].id
    ensures FetchRestaurantById(rs[k].id, Ok(rs)) == Ok(rs[k])
  {
    assert FirstWithId(rs, rs[k].id, k);
  }

  /** `restaurants.filter(r => r.cuisine_type == cuisine)`. */
  function WithCuisine(rs: seq<Restaurant>, cuisine: string): (r: seq<Restaurant>)
    ensures forall x :: x in r <==> x in rs && x.cuisineType == cuisine
    ensures forall x :: multiset(r)[x] == if x.cuisineType == cuisine then multiset(rs)[x] else 0
    ensures IsSubsequence(r, rs)
  {
    Filter(rs, HasCuisine(cuisine))
  }

  /** The predicate of the cuisine filter. */
  function HasCuisine(cuisine: string): Restaurant -> bool
  {
    (x: Restaurant) => x.cuisineType == cuisine
  }

  /** The predicate of the neighborhood filter. */
  function InArea(neighborhood: string): Restaurant -> bool
  {
    (x: Restaurant) => x.neighborhood == neighborhood
  }

  /** `restaurants.filter(r => r.neighborhood == neighborhood)`. */
  function InNeighborhood(rs: seq<Restaurant>, neighborhood: string): (r: seq<Restaurant>)
    ensures forall x :: x in r <==> x in rs && x.neighborhood == neighborhood
    ensures forall x :: multiset(r)[x] == if x.neighborhood == neighborhood then multiset(rs)[x] else 0
    ensures IsSubsequence(r, rs)
  {
    Filter(rs, InArea(neighborhood))
  }

  /** `fetchRestaurantByCuisine`. */
  function FetchRestaurantByCuisine(cuisine: string, reply: Reply<seq<Restaurant>>): (r: Reply<seq<Restaurant>>)
    ensures reply.Err? ==> r == Err(reply.error)
    ensures reply.Ok? ==> r == Ok(WithCuisine(reply.value, cuisine))
    ensures reply.Ok? ==> r.Ok? && IsSubsequence(r.value, reply.value)
    ensures reply.Ok? ==> forall x :: x in r.value <==> x in reply.value && x.cuisineType == cuisine
  {
    match reply
    case Err(e) => Err(e)
    case Ok(rs) => Ok(WithCuisine(rs, cuisine))
  }

  /** `fetchRestaurantByNeighborhood`. */
  function FetchRestaurantByNeighborhood(neighborhood: string, reply: Reply<seq<Restaurant>>): (r: Reply<seq<Restaurant>>)
    ensures reply.Err? ==> r == Err(reply.error)
    ensures reply.Ok? ==> r == Ok(InNeighborhood(reply.value, neighborhood))
    ensures reply.Ok? ==> r.Ok? && IsSubsequence(r.value, reply.value)
    ensures reply.Ok? ==> forall x :: x in r.value <==> x in reply.value && x.neighborhood == neighborhood
  {
    match reply
    case Err(e) => Err(e)
    case Ok(rs) => Ok(InNeighborhood(rs, neighborhood))
  }

  /** A restaurant passes the combined filter; `All` leaves a field unconstrained. */
  predicate Matches(x: Restaurant, cuisine: string, neighborhood: string)
  {
    (cuisine == All || x.cuisineType == cuisine) && (neighborhood == All || x.neighborhood == neighborhood)
  }

  /** The filtering body of `fetchRestaurantByCuisineAndNeighborhood`. */
  function WithCuisineAndNeighborhood(rs: seq<Restaurant>, cuisine: string, neighborhood: string): (r: seq<Restaurant>)
    ensures cuisine == All && neighborhood == All ==> r == rs
    ensures forall x :: x in r <==> x in rs && Matches(x, cuisine, neighborhood)
    ensures forall x :: multiset(r)[x] == if Matches(x, cuisine, neighborhood) then multiset(rs)[x] else 0
    ensures IsSubsequence(r, rs)
  {
    CombinedIsOneFilter(rs, cuisine, neighborhood);
    CombinedSteps(rs, cuisine, neighborhood)
  }

  /** The two successive filters amount to one filter by `Matches`. */
  lemma CombinedIsOneFilter(rs: seq<Restaurant>, cuisine: string, neighborhood: string)
    ensures CombinedSteps(rs, cuisine, neighborhood) == Filter(rs, (x: Restaurant) => Matches(x, cuisine, neighborhood))
  {
    var m := (x: Restaurant) => Matches(x, cuisine, neighborhood);
    var c := HasCuisine(cuisine);
    var n := InArea(neighborhood);
    if cuisine != All && neighborhood != All {
      assert CombinedSteps(rs, cuisine, neighborhood) == Filter(Filter(rs, c), n);
      FilterFilter(rs, c, n, m);
    } else if cuisine != All {
      assert CombinedSteps(rs, cuisine, neighborhood) == Filter(rs, c);
      FilterSamePredicate(rs, c, m);
    } else if neighborhood != All {
      assert CombinedSteps(rs, cuisine, neighborhood) == Filter(rs, n);
      FilterSamePredicate(rs, n, m);
    } else {
      FilterAll(rs, m);
    }
  }

  /** The source's two steps: filter by cuisine unless `All`, then by neighborhood unless `All`. */
  function CombinedSteps(rs: seq<Restaurant>, cuisine: string, neighborhood: string): seq<Restaurant>
  {
    var byCuisine := if cuisine != All then WithCuisine(rs, cuisine) else rs;
    if neighborhood != All then InNeighborhood(byCuisine, neighborhood) else byCuisine
  }

  /** `fetchRestaurantByCuisineAndNeighborhood`. */
  function FetchRestaurantByCuisineAndNeighborhood(cuisine: string, neighborhood: string, reply: Reply<seq<Restaurant>>): (r: Reply<seq<Restaurant>>)
    ensures reply.Err? ==> r == Err(reply.error)
    ensures reply.Ok? ==> r == Ok(WithCuisineAndNeighborhood(reply.value, cuisine, neighborhood))
    ensures reply.Ok? && cuisine == All && neighborhood == All ==> r == reply
    ensures reply.Ok? ==> r.Ok? && IsSubsequence(r.value, reply.value)
    ensures reply.Ok? ==> forall x :: x in r.value <==> x in reply.value && Matches(x, cuisine, neighborhood)
  {
    match reply
    case Err(e) => Err(e)
    case Ok(rs) => Ok(WithCuisineAndNeighborhood(rs, cuisine, neighborhood))
  }

  /** `restaurants.map((v, i) => restaurants[i].neighborhood)`. */
  function NeighborhoodsOf(rs: seq<Restaurant>): (r: seq<string>)
    ensures |r| == |rs| && forall i :: 0 <= i < |rs| ==> r[i] == rs[i].neighborhood
  {
    seq(|rs|, i requires 0 <= i < |rs| => rs[i].neighborhood)
  }

  /** `restaurants.map((v, i) => restaurants[i].cuisine_type)`. */
  function CuisinesOf(rs: seq<Restaurant>): (r: seq<string>)
    ensures |r| == |rs| && forall i :: 0 <= i < |rs| ==> r[i] == rs[i].cuisineType
  {
    seq(|rs|, i requires 0 <= i < |rs| => rs[i].cuisineType)
  }

  /** `fetchNeighborhoods`: the neighborhoods present, each once, by first occurrence. */
  function FetchNeighborhoods(reply: Reply<seq<Restaurant>>): (r: Reply<seq<string>>)
    ensures reply.Err? ==> r == Err(reply.error)
    ensures reply.Ok? ==> r.Ok? && NoDuplicates(r.value)
    ensures reply.Ok? ==> forall v :: v in r.value <==> exists i :: 0 <= i < |reply.value| && reply.value[i].neighborhood == v
    ensures reply.Ok? ==> forall a, b :: 0 <= a < b < |r.value| ==>
              IndexOf(NeighborhoodsOf(reply.value), r.value[a]) < IndexOf(NeighborhoodsOf(reply.value), r.value[b])
  {
    match reply
    case Err(e) => Err(e)
    case Ok(rs) =>
      var names := NeighborhoodsOf(rs);
      assert forall v :: v in names <==> exists i :: 0 <= i < |rs| && rs[i].neighborhood == v by {
        forall v ensures v in names <==> exists i :: 0 <= i < |rs| && rs[i].neighborhood == v {
          if v in names {
            var i :| 0 <= i < |names| && names[i] == v;
            assert rs[i].neighborhood == v;
          }
        }
      }
      Ok(FirstOccurrences(names))
  }

  /** `fetchCuisines`: the cuisines present, each once, by first occurrence. */
  function FetchCuisines(reply: Reply<seq<Restaurant>>): (r: Reply<seq<string>>)
    ensures reply.Err? ==> r == Err(reply.error)
    ensures reply.Ok? ==> r.Ok? && NoDuplicates(r.value)
    ensures reply.Ok? ==> forall v :: v in r.value <==> exists i :: 0 <= i < |reply.value| && reply.value[i].cuisineType == v
    ensures reply.Ok? ==> forall a, b :: 0 <= a < b < |r.value| ==>
              IndexOf(CuisinesOf(reply.value), r.value[a]) < IndexOf(CuisinesOf(reply.value), r.value[b])
  {
    match reply
    case Err(e) => Err(e)
    case Ok(rs) =>
      var names := CuisinesOf(rs);
      assert forall v :: v in names <==> exists i :: 0 <= i < |rs| && rs[i].cuisineType == v by {
        forall v ensures v in names <==> exists i :: 0 <= i < |rs| && rs[i].cuisineType == v {
          if v in names {
            var i :| 0 <= i < |names| && names[i] == v;
            assert rs[i].cuisineType == v;
          }
        }
      }
      Ok(FirstOccurrences(names))
  }

  /** Prefix of every restaurant page URL. */
  const RestaurantPage: string := "./restaurant.html"

  /** `urlForRestaurant`: `./restaurant.html?id=<id>`. */
  function UrlForRestaurant(r: Restaurant): string
  {
    RestaurantPage + "?id=" + IntToString(r.id)
  }

  /** Restaurants with the same page URL have the same id: the URL identifies the restaurant. */
  lemma {:induction false} UrlsIdentifyRestaurants(a: Restaurant, b: Restaurant)
    requires UrlForRestaurant(a) == UrlForRestaurant(b)
    ensures a.id == b.id
  {
    var n := |RestaurantPage + "?id="|;
    assert UrlForRestaurant(a)[n..] == IntToString(a.id);
    assert UrlForRestaurant(b)[n..] == IntToString(b.id);
    IntToStringInjective(a.id, b.id);
  }

  /** What `${restaurant.photograph}` gives: the text, or `undefined` when absent. */
  function PhotographText(photograph: Option<string>): string
  {
    match photograph
    case None => "undefined"
    case Some(p) => p
  }

  /** `imageUrlForRestaurant`: `/img/<photograph>.jpg`. */
  function ImageUrlForRestaurant(r: Restaurant): string
  {
    "/img/" + PhotographText(r.photograph) + ".jpg"
  }

  /** Restaurants with the same image URL have the same photograph text between `/img/` and `.jpg`. */
  lemma {:induction false} ImageUrlsIdentifyPhotographs(a: Restaurant, b: Restaurant)
    requires ImageUrlForRestaurant(a) == ImageUrlForRestaurant(b)
    ensures PhotographText(a.photograph) == PhotographText(b.photograph)
  {
    var u := ImageUrlForRestaurant(a);
    assert u[5..|u| - 4] == PhotographText(a.photograph);
    assert ImageUrlForRestaurant(b)[5..|u| - 4] == PhotographText(b.photograph);
  }
}
