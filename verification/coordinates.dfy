/** The geocoding of coordinates.py. The address is looked up once; when the
    answer lacks a latitude or a longitude, the street name alone (the words
    before the first word with a digit) followed by house number 1 is looked
    up in a manual table and, failing that, asked for again.

    The geocoding service is a parameter: a function from the query to its
    response, where a failed request (connection error, error status or a
    body that is not JSON) is `RequestFailed`. Coordinates are JSON values;
    the manual table's floating-point numbers are kept as their decimal text.
 */
module Coordinates {
  import opened Results
  import opened Text
  import opened Json

  datatype Coord = Coord(lat: Value, lng: Value)

  /** `(0, 0)`, the answer when nothing is found. */
  const Origin: Coord := Coord(Int(0), Int(0))

  datatype Response = RequestFailed | Body(data: Record)

  /** The table consulted for the street-name address. */
  const ManualCoordinatesSecond: map<string, Coord> := map[
    "Ørestads Boulevard 1" := Coord(Float("55.66752263915916"), Float("12.587827732846602")),
    "Valhøjs Alle 1" := Coord(Float("55.67367611300166"), Float("12.462472177004795")),
    "Islands Brygge 1" := Coord(Float("55.66917199942024"), Float("12.58031235967339")),
    "Richard Mortensens Vej 1" := Coord(Float("55.623590614685405"), Float("12.572957027213938")),
    "Robert Jacobsens Vej 1" := Coord(Float("55.623729501007716"), Float("12.57536419568169")),
    "Gyngmose Parkvej 1" := Coord(Float("55.72730576264755"), Float("12.474742999162634")),
    "Maglekæret 1" := Coord(Float("55.522554339623746"), Float("12.208119701551434")),
    "Gyngemose Parkvej 1" := Coord(Float("55.72736617930284"), Float("12.474785918617677")),
    "Blåfuglestræde 1" := Coord(Float("55.64425581034795"), Float("12.210666643437085")),
    "Rundholtsvej 1" := Coord(Float("55.65343921247853"), Float("12.565782944232227")),
    "Troldmands Allé 1" := Coord(Float("55.54545404431426"), Float("12.234007961672802"))
  ]

  /** The words before the first word holding a digit; all of them when no
      word holds one. */
  function StreetWords(parts: seq<string>): (r: seq<string>)
    ensures |r| <= |parts| && r == parts[..|r|]
    ensures forall i :: 0 <= i < |r| ==> !HasDigit(r[i])
    ensures |r| < |parts| ==> HasDigit(parts[|r|])
  {
    if |parts| == 0 || HasDigit(parts[0]) then []
    else [parts[0]] + StreetWords(parts[1..])
  }

  /** The address asked for on the second attempt. */
  function FallbackAddress(address: string): (r: string)
    ensures EndsWith(r, " 1")
  {
    Join(StreetWords(Split(address, ' ')), " ") + " 1"
  }

  /** `data["lat"], data["lng"]` when both are present. */
  function LatLng(data: Record): (o: Option<Coord>)
    ensures o.Some? <==> HasKey(data, "lat") && HasKey(data, "lng")
    ensures o.Some? ==> Get(data, "lat") == Some(o.value.lat) && Get(data, "lng") == Some(o.value.lng)
  {
    match (Get(data, "lat"), Get(data, "lng"))
    case (Some(lat), Some(lng)) => Some(Coord(lat, lng))
    case _ => None
  }

  /** The second attempt, with the street-name address. */
  function Retry(address: string, geo: string -> Response): (c: Coord)
    ensures FallbackAddress(address) in ManualCoordinatesSecond ==>
              c == ManualCoordinatesSecond[FallbackAddress(address)]
    ensures FallbackAddress(address) !in ManualCoordinatesSecond ==>
              match geo(FallbackAddress(address))
              case RequestFailed => c == Origin
              case Body(data) => LatLng(data).Some? ==> c == LatLng(data).value
    ensures FallbackAddress(address) !in ManualCoordinatesSecond && c != Origin ==>
              geo(FallbackAddress(address)).Body? && LatLng(geo(FallbackAddress(address)).data) == Some(c)
  {
    var fallback := FallbackAddress(address);
    if fallback in ManualCoordinatesSecond then ManualCoordinatesSecond[fallback]
    else
      match geo(fallback)
      case RequestFailed => Origin
      case Body(data) => LatLng(data).GetOr(Origin)
  }

  /** `get_coordinates`. */
  function GetCoordinates(address: string, geo: string -> Response): (c: Coord)
    ensures geo(address).RequestFailed? ==> c == Origin
    ensures geo(address).Body? && LatLng(geo(address).data).Some? ==>
              c == LatLng(geo(address).data).value
    ensures geo(address).Body? && LatLng(geo(address).data).None? &&
            FallbackAddress(address) in ManualCoordinatesSecond ==>
              c == ManualCoordinatesSecond[FallbackAddress(address)]
    ensures geo(address).Body? && LatLng(geo(address).data).None? &&
            FallbackAddress(address) !in ManualCoordinatesSecond ==>
              var second := geo(FallbackAddress(address));
              && (second.RequestFailed? ==> c == Origin)
              && (second.Body? && !HasKey(second.data, "lat") ==> c == Origin)
              && (second.Body? && !HasKey(second.data, "lng") ==> c == Origin)
              && (second.Body? && LatLng(second.data).Some? ==> c == LatLng(second.data).value)
  {
    match geo(address)
    case RequestFailed => Origin
    case Body(data) =>
      match LatLng(data)
      case Some(c) => c
      case None => Retry(address, geo)
  }

  /** An address found in the manual table needs no second request: any two
      services that answer the first request alike give the same result. */
  lemma ManualSkipsRetry(address: string, geo1: string -> Response, geo2: string -> Response)
    requires geo1(address) == geo2(address)
    requires FallbackAddress(address) in ManualCoordinatesSecond
    ensures GetCoordinates(address, geo1) == GetCoordinates(address, geo2)
  {
  }

  /** When the second answer lacks a coordinate, the result is `(0, 0)`. */
  lemma RetryWithoutCoordinates(address: string, geo: string -> Response)
    requires FallbackAddress(address) !in ManualCoordinatesSecond
    requires geo(FallbackAddress(address)).Body?
    requires !HasKey(geo(FallbackAddress(address)).data, "lat") ||
             !HasKey(geo(FallbackAddress(address)).data, "lng")
    ensures Retry(address, geo) == Origin
  {
  }

  /** The street-name address of a street followed by a house number and
      more: the street words are kept and the number becomes 1. */
  lemma {:induction false} FallbackOfStreet(street: seq<string>, number: string, rest: string)
    requires |street| > 0
    requires forall i :: 0 <= i < |street| ==> ' ' !in street[i] && !HasDigit(street[i])
    requires ' ' !in number && HasDigit(number)
    ensures FallbackAddress(Join(street, " ") + " " + number + rest) == Join(street, " ") + " 1"
  {
    var address := Join(street, " ") + " " + number + rest;
    SplitOfStreet(street, number + rest);
    assert address == Join(street, " ") + " " + (number + rest);
    var tail := Split(number + rest, ' ');
    SplitFirst(number + rest, ' ');
    FirstPieceDigit(number, rest, tail[0]);
    StreetWordsStop(street, tail);
  }

  /** `Join(ws, " ") + " " + t` splits into the words and then the pieces of `t`. */
  lemma {:induction false} SplitOfStreet(ws: seq<string>, t: string)
    requires |ws| > 0
    requires forall i :: 0 <= i < |ws| ==> ' ' !in ws[i]
    ensures Split(Join(ws, " ") + " " + t, ' ') == ws + Split(t, ' ')
  {
    if |ws| == 1 {
      assert Join(ws, " ") + " " + t == ws[0] + [' '] + t;
      SplitHead(ws[0], ' ', t);
    } else {
      SplitOfStreet(ws[1..], t);
      assert Join(ws, " ") + " " + t == ws[0] + [' '] + (Join(ws[1..], " ") + " " + t);
      SplitHead(ws[0], ' ', Join(ws[1..], " ") + " " + t);
      assert [ws[0]] + (ws[1..] + Split(t, ' ')) == ws + Split(t, ' ');
    }
  }

  /** The first piece of `number + rest` still holds the digit of `number`. */
  lemma FirstPieceDigit(number: string, rest: string, first: string)
    requires ' ' !in number && HasDigit(number)
    requires StartsWith(number + rest, first)
    requires |first| < |number + rest| ==> (number + rest)[|first|] == ' '
    ensures HasDigit(first)
  {
    var k :| 0 <= k < |number| && IsDigit(number[k]);
    forall j | 0 <= j <= k ensures (number + rest)[j] != ' ' {
      assert (number + rest)[j] == number[j];
    }
    assert first[k] == number[k];
  }

  /** The scan for the street words stops at the first word with a digit. */
  lemma {:induction false} StreetWordsStop(ws: seq<string>, tail: seq<string>)
    requires forall i :: 0 <= i < |ws| ==> !HasDigit(ws[i])
    requires |tail| > 0 && HasDigit(tail[0])
    ensures StreetWords(ws + tail) == ws
  {
    if |ws| == 0 {
      assert ws + tail == tail;
    } else {
      StreetWordsStop(ws[1..], tail);
      assert (ws + tail)[1..] == ws[1..] + tail;
      assert [ws[0]] + ws[1..] == ws;
    }
  }
}
