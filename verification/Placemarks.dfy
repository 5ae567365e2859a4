/** Parsed KML placemarks (scripts/import_fiber_kmz.py:44-49). */
module Placemarks {
  import opened Options

  datatype Coord = Coord(lon: real, lat: real)

  datatype Placemark = Placemark(name: string, properties: map<string, Option<string>>,
                                 geometry: string, coordinates: seq<Coord>)

  /** What `_extract_geometry` and `_iter_placemarks` let through (280-313). */
  predicate Parsed(pm: Placemark) {
    pm.geometry in {"Point", "LineString", "Polygon"} && pm.coordinates != []
  }

  predicate AllParsed(pms: seq<Placemark>) {
    forall pm :: pm in pms ==> Parsed(pm)
  }
}
