/**
 Result selection of the reverse-geocoding lookup. The HTTP request itself is
 not modelled; its outcome is an input. Every failure (network error,
 timeout, a 4xx or 5xx status, a body that is not JSON or not a JSON object)
 arrives as `Failed`, and the lookup then answers with two empty strings
 instead of raising.
 */
module Geocode {
  import opened Wrappers

  /** The `address` member of the response body. */
  datatype AddressField =
    | Missing                                   // no `address` member: treated as an empty object
    | Object(components: map<string, string>)   // a JSON object; a null member counts as absent
    | NotAnObject                               // present but null, a list, a string, ...

  /** A JSON object body: its `display_name` member, if any, and its `address` member. */
  datatype Body = Body(displayName: Option<string>, address: AddressField)

  /** The outcome of the one HTTP request the lookup makes. */
  datatype Response = Failed | Answered(body: Body)

  /** The lookup's answer, `(city, address)`; empty strings mean "unknown". */
  datatype Place = Place(city: string, address: string)

  /** Address components tried for the city, highest priority first. */
  const CityKeys: seq<string> := ["city", "town", "county", "state"]

  /** Python truthiness of `comp.get(key)`: the member is present and not the empty string. */
  predicate Truthy(comp: map<string, string>, key: string) {
    key in comp && comp[key] != ""
  }

  /**
   `city` is the value of the first truthy key of `keys`, or the empty string
   when no key is truthy: the meaning of Python's `a or b or ... or ""`.
   */
  ghost predicate SelectsFirstTruthy(comp: map<string, string>, keys: seq<string>, city: string) {
    || (city == "" && forall i :: 0 <= i < |keys| ==> !Truthy(comp, keys[i]))
    || exists i :: 0 <= i < |keys| && Truthy(comp, keys[i]) && comp[keys[i]] == city &&
                   forall j :: 0 <= j < i ==> !Truthy(comp, keys[j])
  }

  /** The first truthy component among `keys`, or "" when there is none. */
  function FirstTruthy(comp: map<string, string>, keys: seq<string>): (city: string)
    ensures SelectsFirstTruthy(comp, keys, city)
    ensures city == "" <==> forall i :: 0 <= i < |keys| ==> !Truthy(comp, keys[i])
  {
    if keys == [] then ""
    else if Truthy(comp, keys[0]) then comp[keys[0]]
    else
      var city := FirstTruthy(comp, keys[1..]);
      SelectsFirstTruthySkip(comp, keys, city);
      city
  }

  /** Skipping a falsy first key: a selection from the remaining keys is a selection from all of them. */
  lemma SelectsFirstTruthySkip(comp: map<string, string>, keys: seq<string>, city: string)
    requires keys != [] && !Truthy(comp, keys[0])
    requires SelectsFirstTruthy(comp, keys[1..], city)
    ensures SelectsFirstTruthy(comp, keys, city)
  {
    assert forall i :: 1 <= i < |keys| ==> keys[i] == keys[1..][i - 1];
    if city != "" || exists i :: 0 <= i < |keys[1..]| && Truthy(comp, keys[1..][i]) {
      var i :| 0 <= i < |keys[1..]| && Truthy(comp, keys[1..][i]) && comp[keys[1..][i]] == city &&
               forall j :: 0 <= j < i ==> !Truthy(comp, keys[1..][j]);
      assert Truthy(comp, keys[i + 1]) && comp[keys[i + 1]] == city;
      assert forall j :: 0 <= j < i + 1 ==> !Truthy(comp, keys[j]);
    }
  }

  /** The components of the `address` member; a missing member reads as an empty object. */
  function Components(field: AddressField): (comp: map<string, string>)
    requires !field.NotAnObject?
  {
    match field
    case Missing => map[]
    case Object(comp) => comp
  }

  /**
   The lookup's answer for a given outcome of its request. A failed request,
   or an `address` member that is not an object, gives two empty strings;
   otherwise the address is `display_name` (empty if absent) and the city is
   the first truthy one of `city`, `town`, `county`, `state`.
   */
  function ReverseGeocode(response: Response): (place: Place)
    ensures response.Failed? ==> place == Place("", "")
    ensures response.Answered? && response.body.address.NotAnObject? ==> place == Place("", "")
    ensures response.Answered? && !response.body.address.NotAnObject? ==>
      && place.address == response.body.displayName.GetOr("")
      && SelectsFirstTruthy(Components(response.body.address), CityKeys, place.city)
  {
    match response
    case Failed => Place("", "")
    case Answered(body) =>
      if body.address.NotAnObject? then Place("", "")
      else Place(FirstTruthy(Components(body.address), CityKeys), body.displayName.GetOr(""))
  }

  /** A non-empty `city` component wins over every other component. */
  lemma CityBeatsOthers(comp: map<string, string>, displayName: Option<string>)
    requires Truthy(comp, "city")
    ensures ReverseGeocode(Answered(Body(displayName, Object(comp)))).city == comp["city"]
  {
  }

  /** An empty `city` counts as missing: a non-empty `town` is used instead. */
  lemma EmptyCityCountsAsMissing(comp: map<string, string>, displayName: Option<string>)
    requires "city" in comp && comp["city"] == "" && Truthy(comp, "town")
    ensures ReverseGeocode(Answered(Body(displayName, Object(comp)))).city == comp["town"]
  {
    var city := ReverseGeocode(Answered(Body(displayName, Object(comp)))).city;
    assert CityKeys[0] == "city" && CityKeys[1] == "town";
    var i :| 0 <= i < |CityKeys| && Truthy(comp, CityKeys[i]) && comp[CityKeys[i]] == city &&
             forall j :: 0 <= j < i ==> !Truthy(comp, CityKeys[j]);
    assert i == 1;
  }

  /** With no non-empty `city` or `town`, a non-empty `county` is the city, whatever `state` says. */
  lemma CountyFallback(comp: map<string, string>, displayName: Option<string>)
    requires !Truthy(comp, "city") && !Truthy(comp, "town") && Truthy(comp, "county")
    ensures ReverseGeocode(Answered(Body(displayName, Object(comp)))).city == comp["county"]
  {
    var city := ReverseGeocode(Answered(Body(displayName, Object(comp)))).city;
    assert CityKeys[0] == "city" && CityKeys[1] == "town" && CityKeys[2] == "county";
    assert city != "";
    var i :| 0 <= i < |CityKeys| && Truthy(comp, CityKeys[i]) && comp[CityKeys[i]] == city &&
             forall j :: 0 <= j < i ==> !Truthy(comp, CityKeys[j]);
    assert i == 2;
  }

  /** The city is always one of the four components, or empty; it never comes from elsewhere. */
  lemma {:induction false} CityComesFromComponents(response: Response)
    ensures var place := ReverseGeocode(response);
      place.city == "" || (response.Answered? && exists k :: k in CityKeys && k in Components(response.body.address) &&
                                                             Components(response.body.address)[k] == place.city)
  {
    var place := ReverseGeocode(response);
    if place.city != "" {
      var comp := Components(response.body.address);
      var i :| 0 <= i < |CityKeys| && Truthy(comp, CityKeys[i]) && comp[CityKeys[i]] == place.city &&
               forall j :: 0 <= j < i ==> !Truthy(comp, CityKeys[j]);
      assert CityKeys[i] in CityKeys;
    }
  }
}
