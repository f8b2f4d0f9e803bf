/**
 * The data-reshaping part of routes_fetcher.py: ordering a route's
 * geometry, extracting its stations, and assembling the record that is
 * written out for one route. Coordinates are only compared, swapped and
 * reordered, never computed with.
 */
module RoutesFetcher {
  import opened AdjacentDedup

  /** A coordinate value as decoded from JSON; only its equality matters. */
  type Coordinate = real

  /** A point of the geometry feed, in (longitude, latitude) order. */
  datatype LonLat = LonLat(lon: Coordinate, lat: Coordinate)

  /** A point of the output, in (latitude, longitude) order. */
  datatype LatLon = LatLon(lat: Coordinate, lon: Coordinate)

  /** One polyline fragment of the route geometry. */
  type Segment = seq<LonLat>

  /** The axis swap `(longitude, latitude) -> (latitude, longitude)`. */
  function ToLatLon(p: LonLat): LatLon {
    LatLon(p.lat, p.lon)
  }

  function Reverse<T>(s: seq<T>): seq<T> {
    seq(|s|, k requires 0 <= k < |s| => s[|s| - 1 - k])
  }

  /** The comprehension applied to one segment: its points last to first, each swapped. */
  function SegmentOrdered(segment: Segment): seq<LatLon> {
    seq(|segment|, k requires 0 <= k < |segment| => ToLatLon(segment[|segment| - 1 - k]))
  }

  /** The list after the `extend` loop has run over `segments`. */
  function Extended(segments: seq<Segment>): seq<LatLon> {
    if |segments| == 0 then []
    else Extended(segments[..|segments| - 1]) + SegmentOrdered(segments[|segments| - 1])
  }

  /** One segment with every point swapped, in its own point order. */
  function Swapped(segment: Segment): seq<LatLon> {
    seq(|segment|, k requires 0 <= k < |segment| => ToLatLon(segment[k]))
  }

  /** Reference shape: the segments taken last to first, each keeping its point order, swapped. */
  function SegmentsBackwards(segments: seq<Segment>): seq<LatLon> {
    if |segments| == 0 then []
    else Swapped(segments[|segments| - 1]) + SegmentsBackwards(segments[..|segments| - 1])
  }

  /** The number of points over all segments. */
  function TotalPoints(segments: seq<Segment>): nat {
    if |segments| == 0 then 0
    else TotalPoints(segments[..|segments| - 1]) + |segments[|segments| - 1]|
  }

  /** `q` is the swap of some point of some segment. */
  predicate IsSwapOfInputPoint(q: LatLon, segments: seq<Segment>) {
    exists i, j :: 0 <= i < |segments| && 0 <= j < |segments[i]| && q == ToLatLon(segments[i][j])
  }

  /** What `get_route_ordered_coordinates` returns. */
  function OrderedCoordinates(segments: seq<Segment>): seq<LatLon> {
    WithoutAdjacentIdentical(Reverse(Extended(segments)))
  }

  /** Reversing a concatenation reverses each part and exchanges their order. */
  lemma ReverseConcat<T>(a: seq<T>, b: seq<T>)
    ensures Reverse(a + b) == Reverse(b) + Reverse(a)
  {
  }

  /** Undoing the per-segment reversal leaves the segment in its own order, swapped. */
  lemma ReverseSegmentOrdered(segment: Segment)
    ensures Reverse(SegmentOrdered(segment)) == Swapped(segment)
  {
  }

  /**
   * Shape of the list just before deduplication (after `.reverse()`): the
   * segments last to first, each in its original point order, swapped; it
   * holds exactly as many points as the segments together.
   */
  lemma {:induction false} PreDedupShape(segments: seq<Segment>)
    ensures Reverse(Extended(segments)) == SegmentsBackwards(segments)
    ensures |Reverse(Extended(segments))| == TotalPoints(segments)
  {
    if |segments| > 0 {
      var init := segments[..|segments| - 1];
      var last := segments[|segments| - 1];
      PreDedupShape(init);
      ReverseConcat(Extended(init), SegmentOrdered(last));
      ReverseSegmentOrdered(last);
    }
  }

  /** The extended list holds exactly the swaps of the input points. */
  lemma {:induction false} ExtendedPoints(segments: seq<Segment>)
    ensures forall q :: q in Extended(segments) <==> IsSwapOfInputPoint(q, segments)
  {
    if |segments| > 0 {
      var n := |segments| - 1;
      var init := segments[..n];
      var last := segments[n];
      ExtendedPoints(init);
      forall q
        ensures q in Extended(segments) <==> IsSwapOfInputPoint(q, segments)
      {
        if q in SegmentOrdered(last) {
          var k :| 0 <= k < |last| && SegmentOrdered(last)[k] == q;
          assert q == ToLatLon(segments[n][|last| - 1 - k]);
        }
        if IsSwapOfInputPoint(q, init) {
          var i, j :| 0 <= i < |init| && 0 <= j < |init[i]| && q == ToLatLon(init[i][j]);
          assert q == ToLatLon(segments[i][j]);
        }
        if IsSwapOfInputPoint(q, segments) {
          var i, j :| 0 <= i < |segments| && 0 <= j < |segments[i]| && q == ToLatLon(segments[i][j]);
          if i < n {
            assert q == ToLatLon(init[i][j]);
          } else {
            assert q == SegmentOrdered(last)[|last| - 1 - j];
          }
        }
      }
    }
  }

  /** Reversal keeps the same values. */
  lemma ReverseSameItems<T>(s: seq<T>)
    ensures forall x :: x in Reverse(s) <==> x in s
  {
    forall x | x in s ensures x in Reverse(s) {
      var k :| 0 <= k < |s| && s[k] == x;
      assert Reverse(s)[|s| - 1 - k] == x;
    }
  }

  /**
   * The ordered route: no two neighbouring points equal, no more points
   * than the input, and its points are exactly the swaps of the input
   * points (none invented, none lost).
   */
  lemma OrderedCoordinatesProperties(segments: seq<Segment>)
    ensures NoAdjacentIdentical(OrderedCoordinates(segments))
    ensures |OrderedCoordinates(segments)| <= TotalPoints(segments)
    ensures forall q :: q in OrderedCoordinates(segments) <==> IsSwapOfInputPoint(q, segments)
  {
    PreDedupShape(segments);
    ExtendedPoints(segments);
    ReverseSameItems(Extended(segments));
    SameItems(Reverse(Extended(segments)));
  }

  /** `list.reverse()` on the accumulated list, in place. */
  method ReverseInPlace<T>(a: array<T>)
    modifies a
    ensures a[..] == Reverse(old(a[..]))
  {
    var n := a.Length;
    var i := 0;
    while i < n / 2
      invariant 0 <= i <= n / 2
      invariant forall k :: 0 <= k < i ==> a[k] == old(a[n - 1 - k]) && a[n - 1 - k] == old(a[k])
      invariant forall k :: i <= k < n - i ==> a[k] == old(a[k])
    {
      a[i], a[n - 1 - i] := a[n - 1 - i], a[i];
      i := i + 1;
    }
  }

  /**
   * `get_route_ordered_coordinates`: extend an accumulator with each
   * segment reversed and swapped, reverse the whole list, then remove
   * adjacent duplicates. No point is appended to close the loop.
   */
  method GetRouteOrderedCoordinates(source: seq<Segment>) returns (coordinates: seq<LatLon>)
    ensures coordinates == OrderedCoordinates(source)
    ensures NoAdjacentIdentical(coordinates)
    ensures |coordinates| <= TotalPoints(source)
    ensures forall q :: q in coordinates <==> IsSwapOfInputPoint(q, source)
  {
    var ordered: seq<LatLon> := [];
    for i := 0 to |source|
      invariant ordered == Extended(source[..i])
    {
      assert source[..i + 1][..i] == source[..i];
      ordered := ordered + SegmentOrdered(source[i]);
    }
    assert source[..|source|] == source;
    var buffer := new LatLon[|ordered|](k requires 0 <= k < |ordered| => ordered[k]);
    assert buffer[..] == ordered;
    ReverseInPlace(buffer);
    coordinates := RemoveAdjacentIdentical(buffer[..]);
    OrderedCoordinatesProperties(source);
  }

  /** A station record of the stations feed. */
  datatype StationRecord = StationRecord(lat: Coordinate, lon: Coordinate, name: string)

  /** A station of the output: `((lat, lon), name)`. */
  datatype Station = Station(position: LatLon, name: string)

  function EssentialInfo(r: StationRecord): Station {
    Station(LatLon(r.lat, r.lon), r.name)
  }

  /** The comprehension over the station records, in input order. */
  function EssentialInfos(records: seq<StationRecord>): seq<Station> {
    seq(|records|, k requires 0 <= k < |records| => EssentialInfo(records[k]))
  }

  /** `get_route_stations_essential_info`. */
  function StationsEssentialInfo(records: seq<StationRecord>): (stations: seq<Station>)
    ensures NoAdjacentIdentical(stations)
    ensures |stations| <= |records|
    ensures |records| == 0 <==> |stations| == 0
    ensures |records| > 0 ==> stations[0] == EssentialInfo(records[0])
  {
    WithoutAdjacentIdentical(EssentialInfos(records))
  }

  /**
   * The stations come out in input order: `idx` gives, strictly
   * increasing, the record each station comes from; a record is kept
   * exactly when it is the first or its `((lat, lon), name)` differs from
   * the record before it.
   */
  lemma StationsKeepOrder(records: seq<StationRecord>) returns (idx: seq<int>)
    ensures |idx| == |StationsEssentialInfo(records)|
    ensures forall k :: 0 <= k < |idx| ==>
      0 <= idx[k] < |records| && StationsEssentialInfo(records)[k] == EssentialInfo(records[idx[k]])
    ensures forall k, l :: 0 <= k < l < |idx| ==> idx[k] < idx[l]
    ensures forall j :: 0 <= j < |records| ==>
      (j in idx <==> j == 0 || EssentialInfo(records[j - 1]) != EssentialInfo(records[j]))
  {
    var infos := EssentialInfos(records);
    assert |infos| == |records|;
    assert forall k :: 0 <= k < |records| ==> infos[k] == EssentialInfo(records[k]);
    idx := KeptPositions(infos);
    forall j | 0 <= j < |records| && j in idx
      ensures j == 0 || EssentialInfo(records[j - 1]) != EssentialInfo(records[j])
    {
      var k :| 0 <= k < |idx| && idx[k] == j;
      assert StartsRun(infos, idx[k]);
    }
    forall j | 0 <= j < |records| && (j == 0 || EssentialInfo(records[j - 1]) != EssentialInfo(records[j]))
      ensures j in idx
    {
      assert StartsRun(infos, j);
    }
  }

  /** Two neighbouring stations at the same position with different names both stay, in order. */
  lemma SamePositionDifferentNamesKept(records: seq<StationRecord>, j: int) returns (k: int)
    requires 0 < j < |records|
    requires records[j - 1].lat == records[j].lat && records[j - 1].lon == records[j].lon
    requires records[j - 1].name != records[j].name
    ensures 0 <= k && k + 1 < |StationsEssentialInfo(records)|
    ensures StationsEssentialInfo(records)[k] == EssentialInfo(records[j - 1])
    ensures StationsEssentialInfo(records)[k + 1] == EssentialInfo(records[j])
  {
    k := DistinctNeighboursKept(EssentialInfos(records), j);
  }

  /** A station record equal, in `((lat, lon), name)`, to the one before it is dropped with no other effect. */
  lemma IdenticalNeighbourCollapsed(records: seq<StationRecord>, j: int)
    requires 0 < j < |records|
    requires EssentialInfo(records[j - 1]) == EssentialInfo(records[j])
    ensures StationsEssentialInfo(records[..j] + records[j + 1..]) == StationsEssentialInfo(records)
  {
    var infos := EssentialInfos(records);
    DropAdjacentCopy(infos, j);
    assert EssentialInfos(records[..j] + records[j + 1..]) == infos[..j] + infos[j + 1..];
  }

  /** The fields of a route description that the record assembly reads. */
  datatype RouteInfo = RouteInfo(
    name: string,
    stationStartName: string,
    stationStopName: string)

  /** The record saved for one route. */
  datatype ProcessedRoute = ProcessedRoute(
    name: string,
    stationStartName: string,
    stationStopName: string,
    coordinates: seq<LatLon>,
    stations: seq<Station>)

  /**
   * `get_processed_route_info`: the three names copied from the route
   * description, with the ordered geometry and the station list attached.
   */
  function ProcessedRouteInfo(
    info: RouteInfo,
    coordinatesInfo: seq<Segment>,
    stationsInfo: seq<StationRecord>): (r: ProcessedRoute)
    ensures r.name == info.name
    ensures r.stationStartName == info.stationStartName
    ensures r.stationStopName == info.stationStopName
    ensures r.coordinates == OrderedCoordinates(coordinatesInfo)
    ensures r.stations == StationsEssentialInfo(stationsInfo)
    ensures NoAdjacentIdentical(r.coordinates) && NoAdjacentIdentical(r.stations)
    ensures forall q :: q in r.coordinates <==> IsSwapOfInputPoint(q, coordinatesInfo)
  {
    OrderedCoordinatesProperties(coordinatesInfo);
    ProcessedRoute(
      info.name,
      info.stationStartName,
      info.stationStopName,
      OrderedCoordinates(coordinatesInfo),
      StationsEssentialInfo(stationsInfo))
  }

  /**
   * The route is not closed into a loop: for a single two-point segment
   * the first and last output points differ.
   */
  lemma RouteNotClosed()
    ensures var r := OrderedCoordinates([[LonLat(0.0, 0.0), LonLat(1.0, 2.0)]]);
      |r| == 2 && r[0] == LatLon(0.0, 0.0) && r[1] == LatLon(2.0, 1.0)
  {
    PreDedupShape([[LonLat(0.0, 0.0), LonLat(1.0, 2.0)]]);
  }
}
