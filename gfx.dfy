/**
 * Bounding boxes (gfx.py). A box is the 4-tuple
 * (min_lon, min_lat, max_lon, max_lat) the map renderer takes as its extent.
 */
module Gfx {

  datatype BBox = BBox(minLon: real, minLat: real, maxLon: real, maxLat: real)

  /** The box spans no negative extent on either axis. */
  predicate WellFormed(b: BBox)
  {
    b.minLon <= b.maxLon && b.minLat <= b.maxLat
  }

  /** `outer` covers `inner` on both axes. */
  predicate Contains(outer: BBox, inner: BBox)
  {
    outer.minLon <= inner.minLon && outer.minLat <= inner.minLat &&
    inner.maxLon <= outer.maxLon && inner.maxLat <= outer.maxLat
  }

  function LonSpan(b: BBox): real { b.maxLon - b.minLon }
  function LatSpan(b: BBox): real { b.maxLat - b.minLat }

  /** Twice the centre of the box on each axis (kept doubled to stay exact). */
  function LonCentre2(b: BBox): real { b.minLon + b.maxLon }
  function LatCentre2(b: BBox): real { b.minLat + b.maxLat }

  /**
   * gfx.add_padding: widen the box by `paddingPct` percent of its span on
   * each side of each axis.
   */
  function AddPadding(bbox: BBox, paddingPct: real): (r: BBox)
    ensures LonCentre2(r) == LonCentre2(bbox) && LatCentre2(r) == LatCentre2(bbox)
    ensures LonSpan(r) == LonSpan(bbox) * (1.0 + 2.0 * paddingPct / 100.0)
    ensures LatSpan(r) == LatSpan(bbox) * (1.0 + 2.0 * paddingPct / 100.0)
    ensures r.minLon - bbox.minLon == bbox.maxLon - r.maxLon == -(LonSpan(bbox) / 100.0 * paddingPct)
    ensures r.minLat - bbox.minLat == bbox.maxLat - r.maxLat == -(LatSpan(bbox) / 100.0 * paddingPct)
    ensures paddingPct == 0.0 ==> r == bbox
    ensures paddingPct >= 0.0 && WellFormed(bbox) ==> Contains(r, bbox) && WellFormed(r)
  {
    var minLat := bbox.minLat;
    var maxLat := bbox.maxLat;
    var minLon := bbox.minLon;
    var maxLon := bbox.maxLon;
    var latPad := ((maxLat - minLat) / 100.0) * paddingPct;
    var lonPad := ((maxLon - minLon) / 100.0) * paddingPct;
    BBox(minLon - lonPad, minLat - latPad, maxLon + lonPad, maxLat + latPad)
  }
}
