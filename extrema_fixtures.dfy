/**
 * The two unit tests of the extrema tracker, replayed on the model: the
 * wrap-around of the circular buffer in a window of 2, and the velocity
 * series of a window of 3.
 */
module ExtremaFixtures {
  import opened Extrema

  /** The price series of `test_insert_output`. */
  const Series: seq<real> := [1.0, 0.9, 0.8, 0.7, 0.6, 0.9, 0.6, 0.8, 0.5, 0.7, 0.6, 0.6, 0.5, 0.5, 0.4, 0.4, 0.4, 0.3, 0.2, 0.1]

  /** The velocities `test_insert_output` expects for a window of 3. */
  const Expected: seq<int> := [0, 1, 2, 3, 3, 0, 1, 2, 3, 2, 3, 2, 3, 3, 3, 3, 3, 3, 3, 3]

  /**
   * Feeds every time index of `data` to a fresh tracker in order, as both
   * tests do, and collects what each insert answers.
   */
  method VelocitySeries(data: seq<real>, window: nat, dir: Direction) returns (velocities: seq<int>)
    requires window >= 1
    ensures |velocities| == |data|
    ensures forall k :: 0 <= k < |data| ==> velocities[k] == k - OldestBest(data, dir, WindowStart(k, window), k)
    ensures forall k :: 0 <= k < |data| ==> 0 <= velocities[k] <= window
  {
    var t := new PossibleExtrema(data, window, dir);
    velocities := [];
    var i := 0;
    while i < |data|
      invariant 0 <= i <= |data| && t.Valid() && t.Newest == i - 1
      invariant t.data == data && t.window == window && t.dir == dir && fresh(t.indices)
      invariant |velocities| == i
      invariant forall k :: 0 <= k < i ==> velocities[k] == k - OldestBest(data, dir, WindowStart(k, window), k)
      invariant forall k :: 0 <= k < i ==> 0 <= velocities[k] <= window
    {
      var d := t.Insert(i);
      velocities := velocities + [d];
      i := i + 1;
    }
  }

  /** The first insert into a fresh tracker writes slot 0, answers 0 and leaves one live slot from slot 0. */
  method FirstInsert(data: seq<real>, window: nat, dir: Direction) returns (velocity: int, begin: nat, size: nat, slot0: int)
    requires window >= 1 && |data| > 0
    ensures velocity == 0 && begin == 0 && size == 1 && slot0 == 0
  {
    var t := new PossibleExtrema(data, window, dir);
    velocity := t.Insert(0);
    begin, size, slot0 := t.begin, t.size, t.indices[0];
  }

  /** The first three inserts of `test_insert_overflow`: falling highs fill the circle in order. */
  method FillFalling(data: seq<real>) returns (t: PossibleExtrema)
    requires data == [1.0, 0.9, 0.8, 0.7]
    ensures fresh(t) && fresh(t.indices) && t.Valid() && t.Newest == 2
    ensures t.data == data && t.window == 2 && t.dir == Up
    ensures t.begin == 0 && t.size == 3 && t.Contents == [0, 1, 2] && t.indices[..] == [0, 1, 2]
  {
    t := new PossibleExtrema(data, 2, Up);
    var d := t.Insert(0);
    assert t.Contents == [0];
    d := t.Insert(1);
    assert t.Contents == [0, 1];
    d := t.Insert(2);
  }

  /**
   * `test_insert_overflow`: four falling highs in a window of 2 fill all
   * three slots; the fourth insert expires index 0, moves the start of the
   * circle to slot 1 and wraps around to write into slot 0.
   */
  method OverflowFixture(data: seq<real>) returns (begin: nat, slots: seq<int>)
    requires data == [1.0, 0.9, 0.8, 0.7]
    ensures begin == 1 && slots == [3, 1, 2]
  {
    var t := FillFalling(data);
    var d := t.Insert(3);
    begin, slots := t.begin, t.indices[..];
  }

  /** `test_insert_output`: the tracker reproduces the expected velocity series. */
  method OutputFixture() returns (velocities: seq<int>)
    ensures velocities == Expected
  {
    velocities := VelocitySeries(Series, 3, Up);
    ExpectedFrom0();
    ExpectedFrom4();
    ExpectedFrom8();
    ExpectedFrom12();
    ExpectedFrom16();
  }

  // The brute-force specification gives the expected velocities, four steps at a time.

  lemma ExpectedFrom0()
    ensures forall k :: 0 <= k < 4 ==> k - OldestBest(Series, Up, WindowStart(k, 3), k) == Expected[k]
  {
    assert OldestBest(Series, Up, 0, 0) == 0;
    assert OldestBest(Series, Up, 0, 1) == 0;
    assert OldestBest(Series, Up, 0, 2) == 0;
    assert OldestBest(Series, Up, 0, 3) == 0;
  }

  lemma ExpectedFrom4()
    ensures forall k :: 4 <= k < 8 ==> k - OldestBest(Series, Up, WindowStart(k, 3), k) == Expected[k]
  {
    assert OldestBest(Series, Up, 1, 4) == 1;
    assert OldestBest(Series, Up, 2, 5) == 5;
    assert OldestBest(Series, Up, 3, 6) == 5;
    assert OldestBest(Series, Up, 4, 7) == 5;
  }

  lemma ExpectedFrom8()
    ensures forall k :: 8 <= k < 12 ==> k - OldestBest(Series, Up, WindowStart(k, 3), k) == Expected[k]
  {
    assert OldestBest(Series, Up, 5, 8) == 5;
    assert OldestBest(Series, Up, 6, 9) == 7;
    assert OldestBest(Series, Up, 7, 10) == 7;
    assert OldestBest(Series, Up, 8, 11) == 9;
  }

  lemma ExpectedFrom12()
    ensures forall k :: 12 <= k < 16 ==> k - OldestBest(Series, Up, WindowStart(k, 3), k) == Expected[k]
  {
    assert OldestBest(Series, Up, 9, 12) == 9;
    assert OldestBest(Series, Up, 10, 13) == 10;
    assert OldestBest(Series, Up, 11, 14) == 11;
    assert OldestBest(Series, Up, 12, 15) == 12;
  }

  lemma ExpectedFrom16()
    ensures forall k :: 16 <= k < 20 ==> k - OldestBest(Series, Up, WindowStart(k, 3), k) == Expected[k]
  {
    assert OldestBest(Series, Up, 13, 16) == 13;
    assert OldestBest(Series, Up, 14, 17) == 14;
    assert OldestBest(Series, Up, 15, 18) == 15;
    assert OldestBest(Series, Up, 16, 19) == 16;
  }
}
