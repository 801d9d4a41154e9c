/** Smoke detection over the telemetry already fetched and decoded: for each
    station, its readings of per-tile smoke probabilities in the lookback
    window. */
module Smoke {

  /** One reading: when it was taken and its tile probabilities. */
  datatype Reading = Reading(timestamp: int, tiles: seq<real>)

  /** All readings of one station, as grouped by station id. */
  datatype StationReadings = StationReadings(vsn: string, readings: seq<Reading>)

  /** The tile probability a detection must exceed at the workflow's call site. */
  const CallSiteThreshold: real := 0.7

  /** The default threshold of `get_smoke_data_from_sage`. */
  const DefaultThreshold: real := 0.5

  /** The tiles whose probability is strictly above the threshold, in
      increasing order (the indices logged with a detection). */
  function SmokeTiles(tiles: seq<real>, threshold: real): (idx: seq<nat>)
    ensures forall k :: 0 <= k < |idx| ==> idx[k] < |tiles| && tiles[idx[k]] > threshold
    ensures forall j :: 0 <= j < |tiles| && tiles[j] > threshold ==> j in idx
    ensures forall k, l :: 0 <= k < l < |idx| ==> idx[k] < idx[l]
  {
    if tiles == [] then []
    else
      var n := |tiles| - 1;
      var front := SmokeTiles(tiles[..n], threshold);
      assert forall j :: 0 <= j < n ==> tiles[..n][j] == tiles[j];
      if tiles[n] > threshold then front + [n] else front
  }

  /** Some tile of the reading is strictly above the threshold. */
  predicate ReadingShowsSmoke(r: Reading, threshold: real)
  {
    exists j :: 0 <= j < |r.tiles| && r.tiles[j] > threshold
  }

  /** Some reading of the station shows smoke. */
  predicate StationShowsSmoke(s: StationReadings, threshold: real)
  {
    exists i :: 0 <= i < |s.readings| && ReadingShowsSmoke(s.readings[i], threshold)
  }

  /** A reading is reported as smoke exactly when it has a tile above the threshold. */
  lemma SmokeTilesNonEmpty(r: Reading, threshold: real)
    ensures |SmokeTiles(r.tiles, threshold)| >= 1 <==> ReadingShowsSmoke(r, threshold)
  {
    var idx := SmokeTiles(r.tiles, threshold);
    if |idx| >= 1 {
      assert r.tiles[idx[0]] > threshold;
    }
  }

  /** Scans one station's readings in order; a station with a reading above
      the threshold is reported as a detection. */
  method ScanStation(readings: seq<Reading>, threshold: real) returns (detected: bool)
    ensures detected <==> exists q :: 0 <= q < |readings| && ReadingShowsSmoke(readings[q], threshold)
  {
    detected := false;
    var i := 0;
    while i < |readings|
      invariant 0 <= i <= |readings|
      invariant detected <==> exists q :: 0 <= q < i && ReadingShowsSmoke(readings[q], threshold)
    {
      var smoke := SmokeTiles(readings[i].tiles, threshold);
      SmokeTilesNonEmpty(readings[i], threshold);
      if |smoke| >= 1 {
        detected := true;
      }
      assert detected <==> exists q :: 0 <= q < i + 1 && ReadingShowsSmoke(readings[q], threshold);
      i := i + 1;
    }
  }

  /** Whether any station detected smoke, and for each station (in order)
      whether it did; a station with no detection is logged as such. */
  method GetSmokeData(stations: seq<StationReadings>, threshold: real)
    returns (ret: bool, detectedBy: seq<bool>)
    ensures |detectedBy| == |stations|
    ensures forall s :: 0 <= s < |stations| ==> (detectedBy[s] <==> StationShowsSmoke(stations[s], threshold))
    ensures ret <==> exists s :: 0 <= s < |stations| && StationShowsSmoke(stations[s], threshold)
  {
    ret := false;
    detectedBy := [];
    var s := 0;
    while s < |stations|
      invariant 0 <= s <= |stations|
      invariant |detectedBy| == s
      invariant forall t :: 0 <= t < s ==> (detectedBy[t] <==> StationShowsSmoke(stations[t], threshold))
      invariant ret <==> exists t :: 0 <= t < s && StationShowsSmoke(stations[t], threshold)
    {
      var detected := ScanStation(stations[s].readings, threshold);
      assert detected <==> StationShowsSmoke(stations[s], threshold);
      if detected {
        ret := true;
      }
      detectedBy := detectedBy + [detected];
      s := s + 1;
    }
  }

  /** A reading whose largest tile is 0.8 is smoke at threshold 0.7; one
      whose tiles are at most 0.6 is not. */
  lemma ThresholdExamples()
    ensures ReadingShowsSmoke(Reading(0, [0.1, 0.8, 0.3]), CallSiteThreshold)
    ensures !ReadingShowsSmoke(Reading(0, [0.1, 0.6, 0.6]), CallSiteThreshold)
    ensures !ReadingShowsSmoke(Reading(0, [0.7]), CallSiteThreshold)
  {
    assert Reading(0, [0.1, 0.8, 0.3]).tiles[1] > CallSiteThreshold;
  }
}
