/** `utils::misc::get_wind_direction`: the compass point a wind bearing
    falls in, for bearings already cast to whole degrees. */
module Compass {
  import opened Wrappers

  /** The eight names the table can produce, clockwise from north. */
  const POINTS: seq<string> :=
    ["North", "Northeast", "East", "Southeast", "South", "Southwest", "West", "Northwest"]

  /** The first degree of each sector after North, in the order of
      `POINTS[1..]`; a bearing from 336 up is North again. */
  const STARTS: seq<int> := [26, 71, 111, 156, 201, 251, 291, 336]

  /** The direction name for a bearing of `deg` whole degrees: `None` outside
      0 to 360, otherwise the name of the table arm the bearing falls in. */
  function WindDirection(deg: int): (r: Option<string>)
    ensures r.None? <==> deg < 0 || deg > 360
    ensures r.Some? ==> r.value in POINTS && r.value != ""
  {
    if 0 <= deg <= 360 then
      Some(
        if deg <= 25 || 336 <= deg then "North"
        else if deg <= 70 then "Northeast"
        else if deg <= 110 then "East"
        else if deg <= 155 then "Southeast"
        else if deg <= 200 then "South"
        else if deg <= 250 then "Southwest"
        else if deg <= 290 then "West"
        else "Northwest")
    else None
  }

  /** The sector a bearing of 0 to 360 degrees lies in, as an index into
      `POINTS`: the number of sector starts at or below it, with the final
      wrap back to North. */
  function Sector(deg: int): (i: nat)
    requires 0 <= deg <= 360
    ensures i < |POINTS|
  {
    var passed := CountAtMost(STARTS, deg);
    if passed == |STARTS| then 0 else passed
  }

  /** Number of entries of `starts` that are at most `deg`. */
  function CountAtMost(starts: seq<int>, deg: int): (n: nat)
    ensures n <= |starts|
  {
    if |starts| == 0 then 0
    else (if starts[0] <= deg then 1 else 0) + CountAtMost(starts[1..], deg)
  }

  /** On an ascending sequence the count is the length of the run of starts
      at or below `deg`: every start before index `n` is at most `deg`, every
      one from `n` on is above it. */
  lemma {:induction false} CountAtMostSplits(starts: seq<int>, deg: int)
    requires forall i, j :: 0 <= i < j < |starts| ==> starts[i] < starts[j]
    ensures var n := CountAtMost(starts, deg);
      (forall i :: 0 <= i < n ==> starts[i] <= deg) &&
      (forall i :: n <= i < |starts| ==> starts[i] > deg)
    decreases |starts|
  {
    if |starts| > 0 {
      var rest := starts[1..];
      CountAtMostSplits(rest, deg);
    }
  }

  /** The table agrees with the sector reference: a bearing in range is
      named after the sector whose start it has passed last. */
  lemma WindDirectionIsSector(deg: int)
    requires 0 <= deg <= 360
    ensures WindDirection(deg) == Some(POINTS[Sector(deg)])
  {
    StartsAscending();
    CountAtMostSplits(STARTS, deg);
    assert STARTS[0] == 26 && STARTS[1] == 71 && STARTS[2] == 111 && STARTS[3] == 156;
    assert STARTS[4] == 201 && STARTS[5] == 251 && STARTS[6] == 291 && STARTS[7] == 336;
  }

  lemma StartsAscending()
    ensures forall i, j :: 0 <= i < j < |STARTS| ==> STARTS[i] < STARTS[j]
  {
  }

  /** The sector index never decreases with the bearing until the final
      wrap to North at 336 degrees. */
  lemma SectorMonotone(a: int, b: int)
    requires 0 <= a <= b < 336
    ensures Sector(a) <= Sector(b)
  {
    StartsAscending();
    CountAtMostSplits(STARTS, b);
    assert STARTS[7] > b;
    CountAtMostMonotone(STARTS, a, b);
  }

  /** Raising the bearing never lowers the count of passed starts. */
  lemma {:induction false} CountAtMostMonotone(starts: seq<int>, a: int, b: int)
    requires a <= b
    ensures CountAtMost(starts, a) <= CountAtMost(starts, b)
    decreases |starts|
  {
    if |starts| > 0 {
      CountAtMostMonotone(starts[1..], a, b);
    }
  }

  /** Each arm at its two ends, and the values just outside the range. */
  lemma WindDirectionExamples()
    ensures WindDirection(-1) == None && WindDirection(361) == None
    ensures WindDirection(0) == Some("North") && WindDirection(360) == Some("North")
    ensures WindDirection(25) == Some("North") && WindDirection(26) == Some("Northeast")
    ensures WindDirection(181) == Some("South")
    ensures WindDirection(200) == Some("South") && WindDirection(201) == Some("Southwest")
    ensures WindDirection(335) == Some("Northwest") && WindDirection(336) == Some("North")
  {
  }
}
