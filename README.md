# moscow-bus-routes: route geometry and station reshaping

This project models the data-reshaping core of `routes_fetcher.py` of the
moscow-bus-routes scraper. For every bus route, the scraper downloads
three things:

- the route geometry, as a list of polyline segments of `(longitude, latitude)` points;
- the route's station records;
- the route's entry in the routes list.

It turns them into one record holding:

- the route name and the names of its start and stop stations;
- the route's points in `(latitude, longitude)` order, with adjacent repeats removed;
- the station list as `((lat, lon), name)` pairs, with adjacent repeats removed.

The model has two modules:

- `AdjacentDedup` (`adjacent_dedup.dfy`) is the generic adjacent-duplicate filter. `WithoutAdjacentIdentical` is the specification function. `RemoveAdjacentIdentical` is the loop that builds the output list by appends. The lemmas characterise the output exactly: it is the input's items at the starts of runs of equal items.
- `RoutesFetcher` (`routes_fetcher.dfy`) holds the coordinate ordering, station extraction and record assembly.
  - The coordinate ordering is a method. Its loop extends an accumulator segment by segment. It then reverses an array in place (the list's `.reverse()`) and runs the filter.
  - Station extraction and record assembly are functions, as in the source.

Coordinates are modelled as `real` values. The code never computes with
them; it only compares, swaps and reorders them, so only their equality
matters.

`routes_fetcher.py` takes the segments in the order given.
`test_routes_fetcher.py` imports a segment chainer,
`get_ordered_route_segments`, which `routes_fetcher.py` does not define, so
no chaining is modelled. The code appends no closing point:
`RoutesFetcher.RouteNotClosed` gives a route whose first and last points
differ. An empty segment list yields an empty coordinate list.

## Model

| member | source | states |
|---|---|---|
| `AdjacentDedup.WithoutAdjacentIdentical` | routes_fetcher.py:59-72 | The output is no longer than the input. It is empty exactly when the input is. It starts with the input's first item and ends with its last. No two neighbouring output items are equal. |
| `AdjacentDedup.RemoveAdjacentIdentical` | routes_fetcher.py:59-72 | The append/continue loop computes exactly the specification function, so its output has no adjacent duplicates. |
| `AdjacentDedup.KeptPositions` | routes_fetcher.py:62-70 | The output is the input's items at run starts (the first position, or one whose item differs from the previous item). They appear in strictly increasing input positions, and every run start is kept. So the output is an order-preserving subsequence that drops only adjacent repeats. |
| `AdjacentDedup.PrefixKeptFirst` | routes_fetcher.py:62-70 | Filtering a prefix of the input yields a prefix of the output: the pass never revisits what it has kept. |
| `AdjacentDedup.DistinctNeighboursKept` | routes_fetcher.py:67-70 | Two neighbouring input items that differ both appear in the output, next to each other and in the same order. |
| `AdjacentDedup.DropAdjacentCopy` | routes_fetcher.py:67-68 | Deleting one of two equal neighbours from the input leaves the output unchanged. |
| `AdjacentDedup.UnchangedWhenNoAdjacentIdentical` | routes_fetcher.py:59-72 | An input that has no adjacent duplicates is returned unchanged. |
| `AdjacentDedup.Idempotent` | routes_fetcher.py:59-72 | Applying the filter twice gives the same result as applying it once. |
| `AdjacentDedup.SameItems` | routes_fetcher.py:62-70 | A value occurs in the output if and only if it occurs in the input. |
| `RoutesFetcher.PreDedupShape` | routes_fetcher.py:78-84 | After the extend loop and `.reverse()`, the list is the segments taken last to first, each in its original point order, with every point swapped to `(lat, lon)`. Its length is the total number of points in all segments. |
| `RoutesFetcher.ExtendedPoints` | routes_fetcher.py:78-82 | A point occurs in the accumulated list if and only if it is the swap of some input point. |
| `RoutesFetcher.ReverseInPlace` | routes_fetcher.py:84 | The in-place reversal leaves the array holding its old contents in reverse order. |
| `RoutesFetcher.OrderedCoordinatesProperties` | routes_fetcher.py:75-86 | The ordered route has no adjacent duplicate points and no more points than the input. A point occurs in it if and only if it is the swap of an input point. |
| `RoutesFetcher.GetRouteOrderedCoordinates` | routes_fetcher.py:75-86 | The accumulate, reverse and filter method returns exactly the specified ordered route. Its output has no adjacent duplicates, has at most as many points as the input, and holds exactly the swaps of the input points. |
| `RoutesFetcher.RouteNotClosed` | routes_fetcher.py:84-86 | No closing point is appended. For one segment `(0,0),(1,2)` the result is `(0,0),(2,1)`, whose first and last points differ. |
| `RoutesFetcher.StationsEssentialInfo` | routes_fetcher.py:51-56 | The station list has no adjacent equal entries and is no longer than the input. It is empty exactly when the input is. It starts with the first record's `((lat, lon), name)`. |
| `RoutesFetcher.StationsKeepOrder` | routes_fetcher.py:51-56 | Each station comes from a record, at strictly increasing record positions. A record is kept if and only if it is the first record or its `((lat, lon), name)` differs from that of the record before it. |
| `RoutesFetcher.SamePositionDifferentNamesKept` | routes_fetcher.py:51-56 | Two neighbouring stations with the same coordinates but different names both stay, consecutively and in order. |
| `RoutesFetcher.IdenticalNeighbourCollapsed` | routes_fetcher.py:51-56 | Removing a record whose `((lat, lon), name)` equals that of the record before it does not change the station list. |
| `RoutesFetcher.ProcessedRouteInfo` | routes_fetcher.py:89-103 | `name`, `station_start_name` and `station_stop_name` are copied unchanged from the route description. `coordinates` and `stations` are the ordered route and the station list. Neither list has adjacent duplicates. A point occurs in `coordinates` if and only if it is the swap of an input point. |

## Left out

- `fetch_json_content`, `fetch_route_geometry_info`, `fetch_route_stations_info` (routes_fetcher.py:20-48): HTTP requests through an outside library. Their results are the parameters of the modelled functions.
- `save_route_info` (routes_fetcher.py:106-108): file output and JSON serialisation.
- `get_command_line_arguments` and `main` (routes_fetcher.py:111-186): argument parsing, directory creation, file-existence checks, printing and sleeping between requests.
- `ROUTE_TYPES` and `FETCHED_ROUTE_TYPES` (routes_fetcher.py:10-17): constant lookup tables with no behaviour to prove.
- `get_ordered_route_segments`, the segment chainer that test_routes_fetcher.py imports, is not part of this model. It is not defined in routes_fetcher.py.
- Malformed input is not modelled. The code would raise `KeyError` for a station record or route description missing a field, and `ValueError` for a geometry point that is not a pair. The model's typed records always have every field, and its points are always pairs.
- Floating-point equality is modelled as equality of reals. NaN coordinates, which Python compares as unequal even to themselves, are not modelled.
- `RoutesFetcher.GetRouteOrderedCoordinates`: the accumulated list is copied into an array before the in-place reversal. The Python list is growable, but a Dafny array has a fixed size.
