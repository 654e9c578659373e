/** Day 15, "Beacon Exclusion Zone": each sensor knows its nearest beacon,
    so no other beacon lies within that Manhattan distance. The model
    counts the ruled-out positions in a row and searches a box for the one
    position no sensor covers. */
module Beacons {
  import opened Wrappers
  import opened Arith
  import Sorting

  datatype Point = Point(x: int, y: int)

  /** A sensor and the beacon nearest to it. */
  datatype Sensor = Sensor(pos: Point, nearest: Point)

  /** Boxes with at most this many squares are searched square by square. */
  const BruteForceThreshold := 1000

  const FrequencyScale := 4000000

  /** `manhattan_distance`: the taxicab distance. */
  function Manhattan(a: Point, b: Point): (d: nat)
    ensures d == 0 <==> a == b
    ensures d >= Abs(a.x - b.x) && d >= Abs(a.y - b.y)
  {
    Abs(a.x - b.x) + Abs(a.y - b.y)
  }

  /** The taxicab distance is a metric. */
  lemma ManhattanMetric(a: Point, b: Point, c: Point)
    ensures Manhattan(a, b) == Manhattan(b, a)
    ensures Manhattan(a, c) <= Manhattan(a, b) + Manhattan(b, c)
  {
  }

  /** `scan_distance`: how far the sensor sees, up to its nearest beacon. */
  function ScanDistance(s: Sensor): (d: nat)
    ensures d == 0 <==> s.pos == s.nearest
  {
    Manhattan(s.pos, s.nearest)
  }

  /** `scan_contains`: the point is no farther from the sensor than its
      nearest beacon, so the sensor and that beacon are always inside. */
  function ScanContains(s: Sensor, p: Point): (b: bool)
    ensures p == s.nearest ==> b
    ensures p == s.pos ==> b
  {
    Manhattan(s.pos, p) <= ScanDistance(s)
  }

  /** Some sensor sees the point. */
  predicate Covered(sensors: seq<Sensor>, p: Point)
  {
    exists s :: s in sensors && ScanContains(s, p)
  }

  /** A beacon cannot be at the point: some sensor sees it and it is not
      that sensor's own nearest beacon. */
  predicate RuledOut(sensors: seq<Sensor>, p: Point)
  {
    exists s :: s in sensors && ScanContains(s, p) && p != s.nearest
  }

  /** The loop `for x in lo..=hi`, skipping the square of `nearest`. */
  function RowRange(lo: int, hi: int, y: int, nearest: Point): (r: seq<int>)
    ensures forall x :: x in r <==> lo <= x <= hi && Point(x, y) != nearest
    ensures forall k :: 0 <= k < |r| ==> lo <= r[k]
    ensures Sorting.StrictlyAscending(r)
    decreases hi + 1 - lo
  {
    if lo > hi then []
    else
      var rest := RowRange(lo + 1, hi, y, nearest);
      if Point(lo, y) != nearest then [lo] + rest else rest
  }

  /** `hidden_beacon_impossible_positions_in_row`: the columns of row `y`
      the sensor sees, in increasing order, without its own beacon; none at
      all when the row is out of reach. */
  function ImpossibleInRow(s: Sensor, y: int): (r: seq<int>)
    ensures forall x :: x in r <==> ScanContains(s, Point(x, y)) && Point(x, y) != s.nearest
    ensures Abs(y - s.pos.y) > ScanDistance(s) ==> r == []
    ensures Sorting.StrictlyAscending(r)
  {
    var remaining := ScanDistance(s) - Abs(y - s.pos.y);
    RowRange(s.pos.x - remaining, s.pos.x + remaining, y, s.nearest)
  }

  /** Every sensor's impossible positions, appended in order. */
  function RowPositions(sensors: seq<Sensor>, y: int): (r: seq<int>)
    ensures forall x :: x in r <==> RuledOut(sensors, Point(x, y))
  {
    if |sensors| == 0 then []
    else
      var rest := RowPositions(sensors[1..], y);
      assert forall x :: RuledOut(sensors, Point(x, y)) <==>
        (ScanContains(sensors[0], Point(x, y)) && Point(x, y) != sensors[0].nearest)
        || RuledOut(sensors[1..], Point(x, y)) by {
        assert forall s :: s in sensors <==> s == sensors[0] || s in sensors[1..] by {
          assert sensors == [sensors[0]] + sensors[1..];
        }
      }
      ImpossibleInRow(sensors[0], y) + rest
  }

  /** `count_row`: after sorting and removing duplicates, the length is the
      number of columns of the row where a beacon cannot be. */
  function CountRow(sensors: seq<Sensor>, y: int): (n: nat)
    ensures n == |set x | x in RowPositions(sensors, y)|
  {
    Sorting.DistinctCount(RowPositions(sensors, y))
  }

  /** `tuning_frequency`: x times four million, plus y. */
  function TuningFrequency(p: Point): (f: int)
    ensures 0 <= p.y < FrequencyScale ==> f / FrequencyScale == p.x && f % FrequencyScale == p.y
  {
    FrequencyDecodes(p);
    p.x * FrequencyScale + p.y
  }

  lemma FrequencyDecodes(p: Point)
    ensures 0 <= p.y < FrequencyScale ==>
      (p.x * FrequencyScale + p.y) / FrequencyScale == p.x && (p.x * FrequencyScale + p.y) % FrequencyScale == p.y
  {
    if 0 <= p.y < FrequencyScale {
      DivModUnique(p.x * FrequencyScale + p.y, FrequencyScale, p.x, p.y);
    }
  }

  /** Within the puzzle's range the frequency identifies the position. */
  lemma TuningFrequencyInjective(p: Point, q: Point)
    requires 0 <= p.y < FrequencyScale && 0 <= q.y < FrequencyScale
    ensures TuningFrequency(p) == TuningFrequency(q) <==> p == q
  {
  }

  function Offset(top: Point, dx: int, dy: int): Point
  {
    Point(top.x + dx, top.y + dy)
  }

  /** `box_excluded`: the four corners of the box `width` wide and `height`
      tall at `top` are all within the sensor's scan. */
  function BoxExcluded(s: Sensor, top: Point, w: int, h: int): (b: bool)
    ensures b ==> ScanContains(s, top)
    ensures b ==> ScanContains(s, Offset(top, w - 1, h - 1))
  {
    ScanContains(s, top) && ScanContains(s, Offset(top, 0, h - 1))
    && ScanContains(s, Offset(top, w - 1, 0)) && ScanContains(s, Offset(top, w - 1, h - 1))
  }

  /** The square at `(dx, dy)` from the corner is in the box. */
  predicate InBox(dx: int, dy: int, w: int, h: int)
  {
    0 <= dx < w && 0 <= dy < h
  }

  /** Every square of the box is covered. */
  ghost predicate AllCovered(sensors: seq<Sensor>, top: Point, w: int, h: int)
  {
    forall dx, dy :: InBox(dx, dy, w, h) ==> Covered(sensors, Offset(top, dx, dy))
  }

  /** A scan is convex enough that its corners decide a whole box: the
      distance to any square of the box is at most the distance to the
      corner farthest in each direction. */
  lemma CornersDecide(s: Sensor, top: Point, w: int, h: int)
    requires w >= 1 && h >= 1
    ensures BoxExcluded(s, top, w, h) <==>
      forall dx, dy :: InBox(dx, dy, w, h) ==> ScanContains(s, Offset(top, dx, dy))
  {
    if BoxExcluded(s, top, w, h) {
      forall dx, dy | InBox(dx, dy, w, h) ensures ScanContains(s, Offset(top, dx, dy)) {
        var cx := if Abs(s.pos.x - top.x) >= Abs(s.pos.x - (top.x + w - 1)) then 0 else w - 1;
        var cy := if Abs(s.pos.y - top.y) >= Abs(s.pos.y - (top.y + h - 1)) then 0 else h - 1;
        assert ScanContains(s, Offset(top, cx, cy));
      }
    } else {
      assert !ScanContains(s, Offset(top, 0, 0)) || !ScanContains(s, Offset(top, 0, h - 1))
        || !ScanContains(s, Offset(top, w - 1, 0)) || !ScanContains(s, Offset(top, w - 1, h - 1));
    }
  }

  /** Some sensor's scan holds the whole box. */
  predicate AnyExcluded(sensors: seq<Sensor>, top: Point, w: int, h: int)
  {
    exists s :: s in sensors && BoxExcluded(s, top, w, h)
  }

  lemma ExcludedBoxCovered(sensors: seq<Sensor>, top: Point, w: int, h: int)
    requires w >= 1 && h >= 1 && AnyExcluded(sensors, top, w, h)
    ensures AllCovered(sensors, top, w, h)
  {
    var s :| s in sensors && BoxExcluded(s, top, w, h);
    CornersDecide(s, top, w, h);
  }

  /** The inner brute-force loop: columns `x..=hi` of row `y`, returning
      the first square no sensor covers. */
  function ScanColumns(sensors: seq<Sensor>, top: Point, y: int, x: int, hi: int): (r: Option<Point>)
    ensures r.Some? ==> !Covered(sensors, r.value)
    ensures r.Some? ==> r.value.y == top.y + y && x <= r.value.x - top.x <= hi
    ensures r.Some? ==> forall k :: x <= k < r.value.x - top.x ==> Covered(sensors, Offset(top, k, y))
    ensures r.None? ==> forall k :: x <= k <= hi ==> Covered(sensors, Offset(top, k, y))
    decreases hi + 1 - x
  {
    if x > hi then None
    else if !Covered(sensors, Offset(top, x, y)) then Some(Offset(top, x, y))
    else ScanColumns(sensors, top, y, x + 1, hi)
  }

  /** The outer brute-force loop: rows `y..=hi` of columns `0..=width`, in
      reading order. */
  function ScanRows(sensors: seq<Sensor>, top: Point, y: int, hi: int, width: int): (r: Option<Point>)
    ensures r.Some? ==> !Covered(sensors, r.value)
    ensures r.Some? ==> y <= r.value.y - top.y <= hi && 0 <= r.value.x - top.x <= width
    ensures r.None? ==> forall k, j :: y <= k <= hi && 0 <= j <= width ==> Covered(sensors, Offset(top, j, k))
    decreases hi + 1 - y
  {
    if y > hi then None
    else
      var found := ScanColumns(sensors, top, y, 0, width);
      if found.Some? then found else ScanRows(sensors, top, y + 1, hi, width)
  }

  /** `(n + 1) / 2` with Rust's truncating division. */
  function Half(n: int): (m: int)
    ensures n >= 1 ==> 1 <= m <= n && n - m < n && (n > 1 ==> m < n)
    ensures n <= -1 ==> m <= 0 && Abs(m) < Abs(n)
  {
    TruncDiv(n + 1, 2)
  }

  /** A box too large to brute-force has both sides positive, and they
      are not both 1. */
  lemma LargeBoxSides(h: nat, w: nat)
    ensures w * h <= BruteForceThreshold || (h >= 1 && w >= 1 && h + w > 2)
  {
    if h == 0 || w == 0 {
      assert w * h == 0;
    } else if h == 1 && w == 1 {
      assert w * h == 1;
    }
  }

  /** `find_in_box`, with its brute-force loops running `extra` rows and
      columns past the box: `None` if one sensor's scan holds the box; the
      corner itself for a 1 by 1 box; a scan in reading order for a box of
      at most 1000 squares; otherwise the quarters, largest first. */
  function Search(sensors: seq<Sensor>, top: Point, h: nat, w: nat, extra: nat): (r: Option<Point>)
    ensures r.Some? ==> !Covered(sensors, r.value)
    ensures r.Some? ==> 0 <= r.value.x - top.x < w + extra && 0 <= r.value.y - top.y < h + extra
    decreases h + w, 1
  {
    if AnyExcluded(sensors, top, w, h) then None
    else if h == 1 && w == 1 then
      UncoveredCorner(sensors, top);
      Some(top)
    else if w * h <= BruteForceThreshold then ScanRows(sensors, top, 0, h - 1 + extra, w - 1 + extra)
    else
      LargeBoxSides(h, w);
      SearchQuarters(sensors, top, h, w, extra)
  }

  /** The sub-boxes, tried in order until one answers: the top-left
      quarter, the bottom half, the top-right quarter and the bottom-right
      quarter, each present only when the box has the rows and columns to
      split. */
  function SearchQuarters(sensors: seq<Sensor>, top: Point, h: nat, w: nat, extra: nat): (r: Option<Point>)
    requires h >= 1 && w >= 1 && h + w > 2
    ensures r.Some? ==> !Covered(sensors, r.value)
    ensures r.Some? ==> 0 <= r.value.x - top.x < w + extra && 0 <= r.value.y - top.y < h + extra
    decreases h + w, 0
  {
    var mh, mw := Half(h), Half(w);
    var first := Search(sensors, top, mh, mw, extra);
    if first.Some? then first
    else
      var second := if h > 1 then Search(sensors, Offset(top, 0, mh), h - mh, w, extra) else None;
      if second.Some? then second
      else
        var third := if w > 1 then Search(sensors, Offset(top, mw, 0), mh, w - mw, extra) else None;
        if third.Some? then third
        else if h > 1 && w > 1 then Search(sensors, Offset(top, mw, mh), h - mh, w - mw, extra)
        else None
  }

  /** A 1 by 1 box no sensor excludes is a square no sensor covers. */
  lemma UncoveredCorner(sensors: seq<Sensor>, top: Point)
    requires !AnyExcluded(sensors, top, 1, 1)
    ensures !Covered(sensors, top)
  {
    forall s | s in sensors ensures !ScanContains(s, top) {
      assert !BoxExcluded(s, top, 1, 1);
      assert Offset(top, 0, 0) == top;
    }
  }

  /** The sub-boxes the search descends into each have a smaller area. */
  lemma SubBoxesSmaller(h: nat, w: nat)
    requires w * h > BruteForceThreshold
    ensures Half(h) * Half(w) < h * w
    ensures h > 1 ==> (h - Half(h)) * w < h * w
    ensures w > 1 ==> Half(h) * (w - Half(w)) < h * w
    ensures h > 1 && w > 1 ==> (h - Half(h)) * (w - Half(w)) < h * w
  {
    LargeBoxSides(h, w);
    var mh, mw := Half(h), Half(w);
    ProductSmaller(mh, mw, h, w);
    if h > 1 {
      ProductSmaller(h - mh, w, h, w);
    }
    if w > 1 {
      ProductSmaller(mh, w - mw, h, w);
    }
    if h > 1 && w > 1 {
      ProductSmaller(h - mh, w - mw, h, w);
    }
  }

  lemma ProductSmaller(a: int, b: int, c: int, d: int)
    requires 0 <= a <= c && 0 <= b <= d && (a < c || b < d) && c >= 1 && d >= 1
    ensures a * b < c * d
  {
    if a < c {
      assert a * b <= a * d;
      assert a * d < c * d;
    } else {
      assert a * b < a * d;
    }
  }

  /** A search that answers `None` leaves no square of the box uncovered,
      whatever the overshoot: the quarters it searches cover the box. */
  lemma {:induction false} SearchComplete(sensors: seq<Sensor>, top: Point, h: nat, w: nat, extra: nat)
    requires Search(sensors, top, h, w, extra).None?
    ensures AllCovered(sensors, top, w, h)
    decreases h + w, 1
  {
    if AnyExcluded(sensors, top, w, h) {
      if w >= 1 && h >= 1 {
        ExcludedBoxCovered(sensors, top, w, h);
      }
    } else if w * h <= BruteForceThreshold {
      assert !(h == 1 && w == 1);
      BruteForceCovers(sensors, top, h, w, h - 1 + extra, w - 1 + extra);
    } else {
      LargeBoxSides(h, w);
      assert Search(sensors, top, h, w, extra) == SearchQuarters(sensors, top, h, w, extra);
      QuartersComplete(sensors, top, h, w, extra);
    }
  }

  lemma {:induction false} QuartersComplete(sensors: seq<Sensor>, top: Point, h: nat, w: nat, extra: nat)
    requires h >= 1 && w >= 1 && h + w > 2
    requires SearchQuarters(sensors, top, h, w, extra).None?
    ensures AllCovered(sensors, top, w, h)
    decreases h + w, 0
  {
    var mh, mw := Half(h), Half(w);
    SearchComplete(sensors, top, mh, mw, extra);
    if h > 1 {
      SearchComplete(sensors, Offset(top, 0, mh), h - mh, w, extra);
    }
    if w > 1 {
      SearchComplete(sensors, Offset(top, mw, 0), mh, w - mw, extra);
    }
    QuartersCover(sensors, top, h, w, mh, mw);
  }

  /** A brute-force scan that found nothing leaves every square of the box
      covered, as long as its bounds reach the box's last row and column. */
  lemma BruteForceCovers(sensors: seq<Sensor>, top: Point, h: int, w: int, hi: int, width: int)
    requires h - 1 <= hi && w - 1 <= width
    requires ScanRows(sensors, top, 0, hi, width).None?
    ensures AllCovered(sensors, top, w, h)
  {
    forall dx, dy | InBox(dx, dy, w, h) ensures Covered(sensors, Offset(top, dx, dy)) {
    }
  }

  /** The top-left quarter, the bottom half and the top-right quarter
      together cover the box. */
  lemma QuartersCover(sensors: seq<Sensor>, top: Point, h: int, w: int, mh: int, mw: int)
    requires 1 <= mh <= h && 1 <= mw <= w
    requires AllCovered(sensors, top, mw, mh)
    requires h > 1 ==> AllCovered(sensors, Offset(top, 0, mh), w, h - mh)
    requires w > 1 ==> AllCovered(sensors, Offset(top, mw, 0), w - mw, mh)
    requires h == 1 ==> mh == 1
    requires w == 1 ==> mw == 1
    ensures AllCovered(sensors, top, w, h)
  {
    forall dx, dy | InBox(dx, dy, w, h) ensures Covered(sensors, Offset(top, dx, dy)) {
      if dy >= mh {
        assert Offset(Offset(top, 0, mh), dx, dy - mh) == Offset(top, dx, dy);
        assert InBox(dx, dy - mh, w, h - mh);
      } else if dx >= mw {
        assert Offset(Offset(top, mw, 0), dx - mw, dy) == Offset(top, dx, dy);
        assert InBox(dx - mw, dy, w - mw, mh);
      } else {
        assert InBox(dx, dy, mw, mh);
      }
    }
  }

  /** A square of a fully covered box is covered. */
  lemma CoveredInBox(sensors: seq<Sensor>, top: Point, w: int, h: int, p: Point)
    ensures AllCovered(sensors, top, w, h) && InBox(p.x - top.x, p.y - top.y, w, h) ==> Covered(sensors, p)
  {
    if AllCovered(sensors, top, w, h) && InBox(p.x - top.x, p.y - top.y, w, h) {
      assert Offset(top, p.x - top.x, p.y - top.y) == p;
    }
  }

  /** `find_in_box` as written: its brute-force loops run over `0..=height`
      and `0..=width`, one row and one column past the box. The square it
      reports is uncovered and lies within that widened range. */
  function FindInBox(sensors: seq<Sensor>, top: Point, h: nat, w: nat): (r: Option<Point>)
    ensures r.Some? ==> !Covered(sensors, r.value)
    ensures r.Some? ==> 0 <= r.value.x - top.x <= w && 0 <= r.value.y - top.y <= h
  {
    Search(sensors, top, h, w, 1)
  }

  /** When the as-written search answers `None`, every square of the box
      is covered. */
  lemma FindInBoxComplete(sensors: seq<Sensor>, top: Point, h: nat, w: nat)
    requires FindInBox(sensors, top, h, w).None?
    ensures AllCovered(sensors, top, w, h)
  {
    SearchComplete(sensors, top, h, w, 1);
  }

  /** Two sensors whose scans cover a 2 by 2 box but not the square just
      right of it. */
  const W0 := Sensor(Point(0, 0), Point(0, 1))
  const W1 := Sensor(Point(1, 1), Point(1, 0))
  const Witnesses: seq<Sensor> := [W0, W1]

  lemma WitnessFacts()
    ensures Covered(Witnesses, Point(0, 0)) && Covered(Witnesses, Point(1, 0))
    ensures Covered(Witnesses, Point(0, 1)) && Covered(Witnesses, Point(1, 1))
  {
    assert W0 in Witnesses && W1 in Witnesses;
    assert ScanContains(W0, Point(0, 0)) && ScanContains(W0, Point(1, 0)) && ScanContains(W0, Point(0, 1));
    assert ScanContains(W1, Point(1, 1));
  }

  lemma WitnessGap()
    ensures !Covered(Witnesses, Point(2, 0))
  {
    assert !ScanContains(W0, Point(2, 0)) && !ScanContains(W1, Point(2, 0));
    forall s | s in Witnesses ensures !ScanContains(s, Point(2, 0)) {
    }
  }

  lemma WitnessNotExcluded()
    ensures !AnyExcluded(Witnesses, Point(0, 0), 2, 2)
  {
    FirstWitnessNotExcluded();
    SecondWitnessNotExcluded();
  }

  lemma FirstWitnessNotExcluded()
    ensures !BoxExcluded(W0, Point(0, 0), 2, 2)
  {
    assert !ScanContains(W0, Point(1, 1));
  }

  lemma SecondWitnessNotExcluded()
    ensures !BoxExcluded(W1, Point(0, 0), 2, 2)
  {
    assert !ScanContains(W1, Point(0, 0));
  }

  lemma WitnessBoxCovered()
    ensures AllCovered(Witnesses, Point(0, 0), 2, 2)
  {
    var top := Point(0, 0);
    WitnessFacts();
    assert Offset(top, 0, 0) == Point(0, 0) && Offset(top, 1, 0) == Point(1, 0);
    assert Offset(top, 0, 1) == Point(0, 1) && Offset(top, 1, 1) == Point(1, 1);
    CoveredTwoByTwo(Witnesses, top);
  }

  /** A 2 by 2 box is covered when its four squares are. */
  lemma CoveredTwoByTwo(sensors: seq<Sensor>, top: Point)
    requires Covered(sensors, Offset(top, 0, 0)) && Covered(sensors, Offset(top, 1, 0))
    requires Covered(sensors, Offset(top, 0, 1)) && Covered(sensors, Offset(top, 1, 1))
    ensures AllCovered(sensors, top, 2, 2)
  {
    forall dx, dy | InBox(dx, dy, 2, 2) ensures Covered(sensors, Offset(top, dx, dy)) {
      if dx == 0 {
        assert dy == 0 || dy == 1;
      } else {
        assert dx == 1 && (dy == 0 || dy == 1);
      }
    }
  }

  /** The first row of the scan finds the square just right of the box. */
  lemma WitnessRowScan()
    ensures ScanRows(Witnesses, Point(0, 0), 0, 2, 2) == Some(Point(2, 0))
  {
    var top := Point(0, 0);
    WitnessFacts();
    WitnessGap();
    assert ScanColumns(Witnesses, top, 0, 2, 2) == Some(Point(2, 0)) by {
      assert Offset(top, 2, 0) == Point(2, 0);
    }
    assert ScanColumns(Witnesses, top, 0, 1, 2) == ScanColumns(Witnesses, top, 0, 2, 2) by {
      assert Offset(top, 1, 0) == Point(1, 0);
    }
    assert ScanColumns(Witnesses, top, 0, 0, 2) == ScanColumns(Witnesses, top, 0, 1, 2) by {
      assert Offset(top, 0, 0) == Point(0, 0);
    }
  }

  /** The as-written search reports a square outside the box it was asked
      to search, although every square of that box is covered. */
  lemma FindInBoxOvershoots()
    ensures AllCovered(Witnesses, Point(0, 0), 2, 2)
    ensures FindInBox(Witnesses, Point(0, 0), 2, 2) == Some(Point(2, 0))
  {
    WitnessBoxCovered();
    WitnessNotExcluded();
    WitnessRowScan();
    assert Search(Witnesses, Point(0, 0), 2, 2, 1) == ScanRows(Witnesses, Point(0, 0), 0, 2, 2);
  }

  /** The search as evidently intended: the brute-force loops stop at the
      box's last row and column, so an answer is a square of the box. */
  function FindInBoxCorrected(sensors: seq<Sensor>, top: Point, h: nat, w: nat): (r: Option<Point>)
    ensures r.Some? ==> !Covered(sensors, r.value)
    ensures r.Some? ==> InBox(r.value.x - top.x, r.value.y - top.y, w, h)
  {
    Search(sensors, top, h, w, 0)
  }

  /** The corrected search finds a square exactly when the box has one
      that no sensor covers. */
  lemma FindInBoxCorrectedExact(sensors: seq<Sensor>, top: Point, h: nat, w: nat)
    ensures FindInBoxCorrected(sensors, top, h, w).None? <==> AllCovered(sensors, top, w, h)
  {
    var r := FindInBoxCorrected(sensors, top, h, w);
    if r.None? {
      SearchComplete(sensors, top, h, w, 0);
    } else {
      CoveredInBox(sensors, top, w, h, r.value);
    }
  }

  /** On a fully covered box the corrected search answers `None`, and the
      as-written one answers `None` or a square on the row or column just
      past the box. */
  lemma CoveredBoxAnswers(sensors: seq<Sensor>, top: Point, h: nat, w: nat)
    requires AllCovered(sensors, top, w, h)
    ensures FindInBoxCorrected(sensors, top, h, w).None?
    ensures FindInBox(sensors, top, h, w).Some? ==>
      FindInBox(sensors, top, h, w).value.x - top.x == w || FindInBox(sensors, top, h, w).value.y - top.y == h
  {
    FindInBoxCorrectedExact(sensors, top, h, w);
    var r := FindInBox(sensors, top, h, w);
    if r.Some? {
      CoveredInBox(sensors, top, w, h, r.value);
    }
  }
}
