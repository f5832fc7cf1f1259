/**
 * The request-building part of `controllers/hotelApi.controller.ts`: the query
 * defaults and the availability body `searchHotels` posts, and the input check
 * of `getHotelDetails`. The outbound HTTP calls and their signature are not modelled.
 */
module HotelApi {
  import opened Wrappers

  const ContentApi: string := "https://api.test.hotelbeds.com/hotel-content-api/1.0"

  const DefaultDestination: string := "PMI"
  const DefaultCheckIn: string := "2025-07-01"
  const DefaultCheckOut: string := "2025-07-03"
  const DefaultAdults: int := 2
  const DefaultChildren: int := 0
  const DefaultRooms: int := 1

  const AdultAge: int := 30
  const ChildAge: int := 8

  /**
   * The query of `GET /search`. A numeric field holds the value `Number()` gives
   * for the supplied text; an absent field is `None`.
   */
  datatype SearchQuery = SearchQuery(
    destinationCode: Option<string>,
    checkIn: Option<string>,
    checkOut: Option<string>,
    adults: Option<int>,
    children: Option<int>,
    rooms: Option<int>)

  /** One guest of a room: `{ type, age }`. */
  datatype Pax = Pax(paxType: string, age: int)

  datatype Occupancy = Occupancy(rooms: int, adults: int, children: int, paxes: seq<Pax>)

  /** The JSON body posted to the availability API. */
  datatype AvailabilityRequest = AvailabilityRequest(
    checkIn: string,
    checkOut: string,
    occupancies: seq<Occupancy>,
    destinationCode: string)

  /** The length `Array.from({ length: n })` produces for an integral `n`: negative lengths give none. */
  function ArrayLength(n: int): (len: nat)
    ensures n >= 0 ==> len == n
    ensures n < 0 ==> len == 0
  {
    if n < 0 then 0 else n
  }

  /** The `paxes` array: one adult of age 30 per adult, then one child of age 8 per child. */
  function Paxes(adults: int, children: int): (p: seq<Pax>)
    ensures |p| == ArrayLength(adults) + ArrayLength(children)
    ensures forall i :: 0 <= i < ArrayLength(adults) ==> p[i] == Pax("AD", AdultAge)
    ensures forall i :: ArrayLength(adults) <= i < |p| ==> p[i] == Pax("CH", ChildAge)
  {
    seq(ArrayLength(adults), _ => Pax("AD", AdultAge)) + seq(ArrayLength(children), _ => Pax("CH", ChildAge))
  }

  /** The availability body `searchHotels` builds from its query. */
  function AvailabilityBody(q: SearchQuery): (b: AvailabilityRequest)
    ensures b.destinationCode == GetOr(q.destinationCode, DefaultDestination)
    ensures b.checkIn == GetOr(q.checkIn, DefaultCheckIn)
    ensures b.checkOut == GetOr(q.checkOut, DefaultCheckOut)
    ensures |b.occupancies| == 1
    ensures b.occupancies[0].rooms == GetOr(q.rooms, DefaultRooms)
    ensures b.occupancies[0].adults == GetOr(q.adults, DefaultAdults)
    ensures b.occupancies[0].children == GetOr(q.children, DefaultChildren)
    ensures b.occupancies[0].paxes == Paxes(b.occupancies[0].adults, b.occupancies[0].children)
  {
    var adults := GetOr(q.adults, DefaultAdults);
    var children := GetOr(q.children, DefaultChildren);
    var rooms := GetOr(q.rooms, DefaultRooms);
    AvailabilityRequest(
      GetOr(q.checkIn, DefaultCheckIn),
      GetOr(q.checkOut, DefaultCheckOut),
      [Occupancy(rooms, adults, children, Paxes(adults, children))],
      GetOr(q.destinationCode, DefaultDestination))
  }

  /** With an empty query the body asks for two adults, no children, one room, in PMI, 1 to 3 July 2025. */
  lemma DefaultSearch()
    ensures var b := AvailabilityBody(SearchQuery(None, None, None, None, None, None));
      && b.destinationCode == "PMI" && b.checkIn == "2025-07-01" && b.checkOut == "2025-07-03"
      && b.occupancies == [Occupancy(1, 2, 0, [Pax("AD", 30), Pax("AD", 30)])]
  {
    var p := Paxes(2, 0);
    assert p[0] == Pax("AD", 30) && p[1] == Pax("AD", 30);
    assert p == [Pax("AD", 30), Pax("AD", 30)];
  }

  /** The number of guests of type `t`. */
  function CountOf(p: seq<Pax>, t: string): (n: nat)
    ensures n <= |p|
  {
    if |p| == 0 then 0 else (if p[|p| - 1].paxType == t then 1 else 0) + CountOf(p[..|p| - 1], t)
  }

  /** Counting guests of one type where every guest has type `t` or none has. */
  lemma {:induction false} CountUniform(p: seq<Pax>, t: string, all: bool)
    requires forall i :: 0 <= i < |p| ==> (p[i].paxType == t) == all
    ensures CountOf(p, t) == if all then |p| else 0
  {
    if |p| > 0 {
      CountUniform(p[..|p| - 1], t, all);
    }
  }

  /** Counting guests of a concatenation adds the counts. */
  lemma {:induction false} CountAppend(p: seq<Pax>, q: seq<Pax>, t: string)
    ensures CountOf(p + q, t) == CountOf(p, t) + CountOf(q, t)
  {
    if |q| == 0 {
      assert p + q == p;
    } else {
      assert (p + q)[..|p + q| - 1] == p + q[..|q| - 1];
      CountAppend(p, q[..|q| - 1], t);
    }
  }

  /**
   * With non-negative counts, the occupancy lists exactly `adults` guests of type
   * `AD` and `children` of type `CH`.
   */
  lemma PaxesMatchCounts(q: SearchQuery)
    requires GetOr(q.adults, DefaultAdults) >= 0 && GetOr(q.children, DefaultChildren) >= 0
    ensures var o := AvailabilityBody(q).occupancies[0];
      && |o.paxes| == o.adults + o.children
      && CountOf(o.paxes, "AD") == o.adults
      && CountOf(o.paxes, "CH") == o.children
  {
    var o := AvailabilityBody(q).occupancies[0];
    var ad := o.paxes[..o.adults];
    var ch := o.paxes[o.adults..];
    assert o.paxes == ad + ch;
    CountUniform(ad, "AD", true);
    CountUniform(ad, "CH", false);
    CountUniform(ch, "AD", false);
    CountUniform(ch, "CH", true);
    CountAppend(ad, ch, "AD");
    CountAppend(ad, ch, "CH");
  }

  /** A query parameter as Express parses it: absent, one string, or an array or object. */
  datatype QueryValue = Missing | Text(s: string) | Structured

  /** What `getHotelDetails` does: answer 400 without an outbound call, or fetch this URL. */
  datatype DetailsAction = BadRequest(status: int) | Fetch(url: string)

  /** `getHotelDetails`' input check: `hotelId` must be a non-empty string. */
  function HotelDetails(hotelId: QueryValue): (a: DetailsAction)
    ensures a.Fetch? <==> hotelId.Text? && hotelId.s != ""
    ensures a.BadRequest? ==> a.status == 400
    ensures a.Fetch? ==> a.url == ContentApi + "/hotels/" + hotelId.s
  {
    match hotelId
    case Text(s) => if s == "" then BadRequest(400) else Fetch(ContentApi + "/hotels/" + s)
    case _ => BadRequest(400)
  }
}
