/**
 * The sliding-window extremum tracker behind the velocity signal.
 *
 * A `PossibleExtrema` keeps, in a circular array of `window + 1` slots, the
 * time indices that can still become the extremum of the trailing window
 * (a monotonic deque). Each `Insert(ix)` evicts at most one expired front
 * candidate, binary-searches for the leftmost stored candidate that the new
 * value beats, writes `ix` into that slot and drops everything after it, and
 * answers how many steps ago the window's extremum occurred.
 *
 * The pure part of this module is the reference the tracker is proved
 * against: `OldestBest`, the brute-force oldest arg-max (or arg-min) of a
 * range, and `Candidates`, the invariant of the stored indices.
 */
module Extrema {

  /** The comparison passed as `compfn`: `Up` is operator.gt (highs), `Down` is operator.lt (lows). */
  datatype Direction = Up | Down

  /** `compfn(a, b)`: strict, so an equal value never beats an earlier one. */
  predicate Beats(dir: Direction, a: real, b: real)
  {
    match dir
    case Up => a > b
    case Down => a < b
  }

  /** First index of the trailing window that ends at `i`: the last `window + 1` positions. */
  function WindowStart(i: nat, window: nat): (lo: nat)
    ensures lo <= i && i - lo <= window
    ensures i >= window ==> i - lo == window
  {
    if i < window then 0 else i - window
  }

  /** `r` is the oldest position of the best value of `data[lo..hi]` (both ends included). */
  ghost predicate IsOldestBest(data: seq<real>, dir: Direction, lo: int, hi: int, r: int)
    requires 0 <= lo <= hi < |data|
  {
    && lo <= r <= hi
    && (forall j {:trigger Beats(dir, data[r], data[j])} :: lo <= j < r ==> Beats(dir, data[r], data[j]))
    && (forall j {:trigger Beats(dir, data[j], data[r])} :: r < j <= hi ==> !Beats(dir, data[j], data[r]))
  }

  /** Brute-force scan of `data[lo..hi]` that keeps the first best value it meets. */
  function OldestBest(data: seq<real>, dir: Direction, lo: nat, hi: nat): (r: nat)
    requires lo <= hi < |data|
    ensures lo <= r <= hi
    decreases hi - lo
  {
    if lo == hi then lo
    else
      var b := OldestBest(data, dir, lo, hi - 1);
      if Beats(dir, data[hi], data[b]) then hi else b
  }

  /** The scan answers the oldest best position: a later value only wins by beating the best so far. */
  lemma {:induction false} OldestBestIsOldestBest(data: seq<real>, dir: Direction, lo: nat, hi: nat)
    requires lo <= hi < |data|
    ensures IsOldestBest(data, dir, lo, hi, OldestBest(data, dir, lo, hi))
    decreases hi - lo
  {
    if lo < hi {
      OldestBestIsOldestBest(data, dir, lo, hi - 1);
      var b := OldestBest(data, dir, lo, hi - 1);
      if Beats(dir, data[hi], data[b]) {
        forall j | lo <= j < hi
          ensures Beats(dir, data[hi], data[j])
        {
          if j < b {
            assert Beats(dir, data[b], data[j]);
          } else if b < j {
            assert !Beats(dir, data[j], data[b]);
          }
        }
      }
    }
  }

  /** The oldest best position of a range is unique. */
  lemma OldestBestUnique(data: seq<real>, dir: Direction, lo: nat, hi: nat, r: int)
    requires lo <= hi < |data|
    requires IsOldestBest(data, dir, lo, hi, r)
    ensures r == OldestBest(data, dir, lo, hi)
  {
    OldestBestIsOldestBest(data, dir, lo, hi);
  }

  /** Every stored index is a valid position of `data`. */
  ghost predicate InData(data: seq<real>, L: seq<int>)
  {
    forall k :: 0 <= k < |L| ==> 0 <= L[k] < |data|
  }

  /** Candidate `a` is not beaten by candidate `b`. */
  ghost predicate NotBeatenBy(data: seq<real>, dir: Direction, L: seq<int>, a: int, b: int)
  {
    0 <= a < |L| && 0 <= b < |L| && 0 <= L[a] < |data| && 0 <= L[b] < |data|
    && !Beats(dir, data[L[b]], data[L[a]])
  }

  /** No stored candidate is beaten by one stored after it. */
  ghost predicate Monotone(data: seq<real>, dir: Direction, L: seq<int>)
  {
    forall a, b {:trigger NotBeatenBy(data, dir, L, a, b)} :: 0 <= a < b < |L| ==> NotBeatenBy(data, dir, L, a, b)
  }

  /**
   * The candidate list of a tracker whose window is `[lo, hi]`: the front is
   * the oldest best of the window, the rest is the candidate list of the
   * positions after the front, and the newest position `hi` is last.
   */
  ghost predicate Candidates(data: seq<real>, dir: Direction, lo: int, hi: int, L: seq<int>)
    decreases |L|
  {
    && 0 <= lo <= hi < |data|
    && |L| >= 1
    && IsOldestBest(data, dir, lo, hi, L[0])
    && (if |L| == 1 then L[0] == hi else L[0] < hi && Candidates(data, dir, L[0] + 1, hi, L[1..]))
  }

  /** The candidates are positions of the window, oldest first, and the newest position is last. */
  lemma {:induction false} CandidatesInData(data: seq<real>, dir: Direction, lo: int, hi: int, L: seq<int>)
    requires Candidates(data, dir, lo, hi, L)
    ensures InData(data, L)
    ensures forall k :: 0 <= k < |L| ==> lo <= L[k] <= hi
    ensures forall k :: 0 < k < |L| ==> L[0] < L[k]
    ensures L[|L| - 1] == hi
    decreases |L|
  {
    if |L| > 1 {
      CandidatesInData(data, dir, L[0] + 1, hi, L[1..]);
      forall k | 0 < k < |L|
        ensures L[0] < L[k] <= hi
      {
        assert L[k] == L[1..][k - 1];
      }
    }
  }

  /** The stored candidates are ordered best first, which is what makes the binary search sound. */
  lemma {:induction false} CandidatesMonotone(data: seq<real>, dir: Direction, lo: int, hi: int, L: seq<int>)
    requires Candidates(data, dir, lo, hi, L)
    ensures InData(data, L) && Monotone(data, dir, L)
    decreases |L|
  {
    CandidatesInData(data, dir, lo, hi, L);
    if |L| > 1 {
      var T := L[1..];
      CandidatesMonotone(data, dir, L[0] + 1, hi, T);
      forall a, b | 0 <= a < b < |L|
        ensures NotBeatenBy(data, dir, L, a, b)
      {
        if a == 0 {
          assert L[0] < L[b] <= hi;
        } else {
          assert NotBeatenBy(data, dir, T, a - 1, b - 1);
          assert T[a - 1] == L[a] && T[b - 1] == L[b];
        }
      }
    }
  }

  /** The front candidate is the brute-force answer for the window. */
  lemma CandidatesFront(data: seq<real>, dir: Direction, lo: int, hi: int, L: seq<int>)
    requires Candidates(data, dir, lo, hi, L)
    ensures L[0] == OldestBest(data, dir, lo, hi)
  {
    OldestBestUnique(data, dir, lo, hi, L[0]);
  }

  /** A window of `hi - lo + 1` positions never holds more candidates than that. */
  lemma {:induction false} CandidatesCount(data: seq<real>, dir: Direction, lo: int, hi: int, L: seq<int>)
    requires Candidates(data, dir, lo, hi, L)
    ensures |L| <= hi - lo + 1
    decreases |L|
  {
    if |L| > 1 {
      CandidatesCount(data, dir, L[0] + 1, hi, L[1..]);
    }
  }

  /**
   * The leftmost stored candidate that `data[x]` beats, or `|L|` when it
   * beats none: where the new index is written.
   */
  function FirstBeaten(data: seq<real>, dir: Direction, L: seq<int>, x: nat): (p: nat)
    requires x < |data| && InData(data, L)
    ensures p <= |L|
    ensures forall k {:trigger Beats(dir, data[x], data[L[k]])} :: 0 <= k < p ==> !Beats(dir, data[x], data[L[k]])
    ensures p < |L| ==> Beats(dir, data[x], data[L[p]])
    decreases |L|
  {
    if |L| == 0 then 0
    else if Beats(dir, data[x], data[L[0]]) then 0
    else 1 + FirstBeaten(data, dir, L[1..], x)
  }

  /** Step 1 of an insert: the front candidate leaves once it is `slots` or more steps old. */
  function Evict(L: seq<int>, ix: int, slots: nat): seq<int>
  {
    if |L| > 0 && ix - L[0] >= slots then L[1..] else L
  }

  /** Steps 2 to 4 of an insert: drop every candidate `ix` beats and put `ix` last. */
  function Append(data: seq<real>, dir: Direction, L: seq<int>, ix: nat): seq<int>
    requires ix < |data| && InData(data, L)
  {
    L[..FirstBeaten(data, dir, L, ix)] + [ix]
  }

  /** The candidate list after `Insert(ix)`. */
  function Advance(data: seq<real>, dir: Direction, window: nat, L: seq<int>, ix: nat): seq<int>
    requires ix < |data| && InData(data, L)
  {
    Append(data, dir, Evict(L, ix, window + 1), ix)
  }

  /** Eviction removes at most the front candidate, and removes it exactly when it is `slots` or more steps old. */
  lemma EvictShape(L: seq<int>, ix: int, slots: nat)
    ensures var E := Evict(L, ix, slots);
      && |L| - 1 <= |E| <= |L| && E == L[|L| - |E|..]
      && (|E| < |L| <==> |L| > 0 && ix - L[0] >= slots)
  {
  }

  /**
   * Appending keeps a prefix of the candidates, exactly those `data[ix]` does
   * not beat up to the first one it beats, and puts `ix` last.
   */
  lemma AppendShape(data: seq<real>, dir: Direction, L: seq<int>, ix: nat)
    requires ix < |data| && InData(data, L)
    ensures var A := Append(data, dir, L, ix);
      && 1 <= |A| <= |L| + 1 && A[|A| - 1] == ix && A[..|A| - 1] == L[..|A| - 1]
      && (forall k :: 0 <= k < |A| - 1 ==> !Beats(dir, data[ix], data[A[k]]))
      && (|A| <= |L| ==> Beats(dir, data[ix], data[L[|A| - 1]]))
  {
  }

  /** One insert leaves `ix` as the newest, last candidate, with at most one candidate more than before. */
  lemma AdvanceShape(data: seq<real>, dir: Direction, window: nat, L: seq<int>, ix: nat)
    requires ix < |data| && InData(data, L)
    ensures var A := Advance(data, dir, window, L, ix);
      && 1 <= |A| <= |L| + 1 && A[|A| - 1] == ix
  {
    var E := Evict(L, ix, window + 1);
    EvictShape(L, ix, window + 1);
    assert InData(data, E) by {
      forall k | 0 <= k < |E|
        ensures 0 <= E[k] < |data|
      {
        assert E[k] == L[|L| - |E| + k];
      }
    }
    AppendShape(data, dir, E, ix);
    assert Advance(data, dir, window, L, ix) == Append(data, dir, E, ix);
  }

  /**
   * Eviction moves the window one step: at most the front leaves, and it leaves
   * exactly when it fell out of the window; at most `window` candidates remain.
   */
  lemma EvictKeepsCandidates(data: seq<real>, dir: Direction, window: nat, L: seq<int>, ix: nat)
    requires window >= 1 && 1 <= ix < |data|
    requires Candidates(data, dir, WindowStart(ix - 1, window), ix - 1, L)
    ensures Candidates(data, dir, WindowStart(ix, window), ix - 1, Evict(L, ix, window + 1))
    ensures |Evict(L, ix, window + 1)| <= window
  {
    if ix - L[0] >= window + 1 {
      DropExpiredFront(data, dir, window, L, ix);
    } else {
      KeepLiveFront(data, dir, window, L, ix);
    }
    CandidatesCount(data, dir, WindowStart(ix, window), ix - 1, Evict(L, ix, window + 1));
  }

  /** The front is `window + 1` steps old: the rest of the list is the candidate list of the moved window. */
  lemma DropExpiredFront(data: seq<real>, dir: Direction, window: nat, L: seq<int>, ix: nat)
    requires window >= 1 && 1 <= ix < |data|
    requires Candidates(data, dir, WindowStart(ix - 1, window), ix - 1, L)
    requires ix - L[0] >= window + 1
    ensures |L| > 1 && Candidates(data, dir, WindowStart(ix, window), ix - 1, L[1..])
  {
    assert WindowStart(ix - 1, window) <= L[0];
    assert L[0] == ix - 1 - window;
    assert WindowStart(ix, window) == L[0] + 1;
  }

  /** The front is still inside the moved window: the list stays, the window start moves up. */
  lemma KeepLiveFront(data: seq<real>, dir: Direction, window: nat, L: seq<int>, ix: nat)
    requires window >= 1 && 1 <= ix < |data|
    requires Candidates(data, dir, WindowStart(ix - 1, window), ix - 1, L)
    requires ix - L[0] < window + 1
    ensures Candidates(data, dir, WindowStart(ix, window), ix - 1, L)
  {
    var lo, lo' := WindowStart(ix - 1, window), WindowStart(ix, window);
    assert lo <= lo' <= L[0] <= ix - 1;
    assert IsOldestBest(data, dir, lo', ix - 1, L[0]);
  }

  /** Writing `ix` at the first beaten candidate keeps the candidate invariant for the window grown by `ix`. */
  lemma {:induction false} AppendKeepsCandidates(data: seq<real>, dir: Direction, lo: int, L: seq<int>, ix: nat)
    requires 1 <= ix < |data|
    requires Candidates(data, dir, lo, ix - 1, L)
    ensures InData(data, L)
    ensures Candidates(data, dir, lo, ix, Append(data, dir, L, ix))
    decreases |L|
  {
    CandidatesInData(data, dir, lo, ix - 1, L);
    if Beats(dir, data[ix], data[L[0]]) {
      assert Append(data, dir, L, ix) == [ix];
      NewCandidate(data, dir, lo, ix, L[0]);
    } else {
      KeptCandidate(data, dir, lo, ix, L[0]);
      var A := AppendAfterKept(data, dir, L, ix);
      if |L| == 1 {
        assert A == [ix];
      } else {
        AppendKeepsCandidates(data, dir, L[0] + 1, L[1..], ix);
      }
    }
  }

  /** When the front is not beaten it stays, and the rest of the list is appended to on its own. */
  lemma AppendAfterKept(data: seq<real>, dir: Direction, L: seq<int>, ix: nat) returns (A: seq<int>)
    requires ix < |data| && InData(data, L) && |L| > 0
    requires !Beats(dir, data[ix], data[L[0]])
    ensures InData(data, L[1..]) && A == Append(data, dir, L[1..], ix)
    ensures Append(data, dir, L, ix) == [L[0]] + A && Append(data, dir, L, ix)[1..] == A
  {
    A := Append(data, dir, L[1..], ix);
    var p := FirstBeaten(data, dir, L[1..], ix);
    assert L[..1 + p] == [L[0]] + L[1..][..p];
  }

  /** A candidate that the new value does not beat stays the oldest best of its stretch. */
  lemma KeptCandidate(data: seq<real>, dir: Direction, g: nat, ix: nat, r: int)
    requires g < ix < |data|
    requires IsOldestBest(data, dir, g, ix - 1, r)
    requires !Beats(dir, data[ix], data[r])
    ensures IsOldestBest(data, dir, g, ix, r)
  {
  }

  /** A new value that beats the oldest best of a stretch beats all of it. */
  lemma NewCandidate(data: seq<real>, dir: Direction, g: nat, ix: nat, r: int)
    requires g < ix < |data|
    requires IsOldestBest(data, dir, g, ix - 1, r)
    requires Beats(dir, data[ix], data[r])
    ensures IsOldestBest(data, dir, g, ix, ix)
  {
    forall j | g <= j < ix
      ensures Beats(dir, data[ix], data[j])
    {
      if j < r {
        assert Beats(dir, data[r], data[j]);
      } else if r < j {
        assert !Beats(dir, data[j], data[r]);
      }
    }
  }

  /**
   * One insert on the candidate list: the invariant moves from the window
   * ending at `ix - 1` to the window ending at `ix`, the list never outgrows
   * the `window + 1` slots, and its front is the brute-force oldest best.
   */
  lemma AdvanceKeepsCandidates(data: seq<real>, dir: Direction, window: nat, L: seq<int>, ix: nat)
    requires window >= 1 && 1 <= ix < |data|
    requires Candidates(data, dir, WindowStart(ix - 1, window), ix - 1, L)
    ensures InData(data, L)
    ensures Candidates(data, dir, WindowStart(ix, window), ix, Advance(data, dir, window, L, ix))
    ensures |Advance(data, dir, window, L, ix)| <= window + 1
    ensures Advance(data, dir, window, L, ix)[0] == OldestBest(data, dir, WindowStart(ix, window), ix)
    ensures var E := Evict(L, ix, window + 1);
      1 <= |E| <= window && InData(data, E) && Monotone(data, dir, E)
  {
    CandidatesInData(data, dir, WindowStart(ix - 1, window), ix - 1, L);
    var E := Evict(L, ix, window + 1);
    EvictKeepsCandidates(data, dir, window, L, ix);
    CandidatesMonotone(data, dir, WindowStart(ix, window), ix - 1, E);
    AppendKeepsCandidates(data, dir, WindowStart(ix, window), E, ix);
    CandidatesFront(data, dir, WindowStart(ix, window), ix, Advance(data, dir, window, L, ix));
  }

  /** `AdvanceKeepsCandidates` together with the first insert, into an empty tracker. */
  lemma StepKeepsCandidates(data: seq<real>, dir: Direction, window: nat, L: seq<int>, ix: nat)
    requires window >= 1 && ix < |data|
    requires ix == 0 ==> L == []
    requires ix > 0 ==> Candidates(data, dir, WindowStart(ix - 1, window), ix - 1, L)
    ensures InData(data, L)
    ensures Candidates(data, dir, WindowStart(ix, window), ix, Advance(data, dir, window, L, ix))
    ensures |Advance(data, dir, window, L, ix)| <= window + 1
    ensures Advance(data, dir, window, L, ix)[0] == OldestBest(data, dir, WindowStart(ix, window), ix)
    ensures 0 <= ix - Advance(data, dir, window, L, ix)[0] <= window
    ensures var E := Evict(L, ix, window + 1);
      |E| <= window && InData(data, E) && Monotone(data, dir, E) && (ix > 0 <==> |E| > 0)
  {
    if ix == 0 {
      FirstCandidates(data, dir, window);
    } else {
      AdvanceKeepsCandidates(data, dir, window, L, ix);
    }
  }

  /** The candidate list after the very first insert. */
  lemma FirstCandidates(data: seq<real>, dir: Direction, window: nat)
    requires 0 < |data|
    ensures Advance(data, dir, window, [], 0) == [0]
    ensures Candidates(data, dir, 0, 0, [0])
  {
  }

  /** A strictly rising series keeps its newest value as the window high: every insert answers 0. */
  lemma {:induction false} RisingHighIsNewest(data: seq<real>, lo: nat, hi: nat)
    requires lo <= hi < |data|
    requires forall j :: lo <= j < hi ==> data[j] < data[j + 1]
    ensures OldestBest(data, Up, lo, hi) == hi
    decreases hi - lo
  {
    if lo < hi {
      RisingHighIsNewest(data, lo, hi - 1);
    }
  }

  /** A strictly falling series keeps the oldest value of the window as its high. */
  lemma {:induction false} FallingHighIsOldest(data: seq<real>, lo: nat, hi: nat)
    requires lo <= hi < |data|
    requires forall j :: lo <= j < hi ==> data[j] > data[j + 1]
    ensures OldestBest(data, Up, lo, hi) == lo
    decreases hi - lo
  {
    if lo < hi {
      FallingHighIsOldest(data, lo, hi - 1);
      assert forall j :: lo <= j < hi ==> data[lo] >= data[j] by {
        forall j | lo <= j < hi ensures data[lo] >= data[j] {
          StrictlyFallingFrom(data, lo, j);
        }
      }
    }
  }

  lemma {:induction false} StrictlyFallingFrom(data: seq<real>, lo: nat, j: nat)
    requires lo <= j < |data|
    requires forall i :: lo <= i < j ==> data[i] > data[i + 1]
    ensures data[lo] >= data[j]
    decreases j - lo
  {
    if lo < j {
      StrictlyFallingFrom(data, lo, j - 1);
    }
  }

  /** On a monotone list the candidates `data[x]` beats are exactly those from `FirstBeaten` on. */
  lemma BeatenFrom(data: seq<real>, dir: Direction, L: seq<int>, x: nat, j: nat)
    requires x < |data| && InData(data, L) && Monotone(data, dir, L) && j < |L|
    ensures Beats(dir, data[x], data[L[j]]) <==> FirstBeaten(data, dir, L, x) <= j
  {
    var p := FirstBeaten(data, dir, L, x);
    if p < j {
      assert NotBeatenBy(data, dir, L, p, j);
    }
  }

  /** `p` limited to the range `lo .. hi`. */
  function Clamp(p: int, lo: int, hi: int): int
  {
    if p < lo then lo else if p > hi then hi else p
  }

  /** The slot `k` places after slot `begin` in a ring of `slots` slots, for `0 <= begin, k < slots`. */
  function Wrap(begin: int, k: int, slots: int): int
  {
    if begin + k < slots then begin + k else begin + k - slots
  }

  /** Every slot of `buf` holds an index in `[0, n]`. */
  ghost predicate AtMost(buf: seq<int>, n: int)
  {
    forall k :: 0 <= k < |buf| ==> 0 <= buf[k] <= n
  }

  /** Every slot within `[0, n]` is within `[0, m]` for `n <= m`. */
  lemma AtMostWiden(buf: seq<int>, n: int, m: int)
    requires AtMost(buf, n) && n <= m
    ensures AtMost(buf, m)
  {
  }

  /** Writing an index no larger than `m >= n` into any slot keeps every slot within `[0, m]`. */
  lemma AtMostWrite(buf: seq<int>, n: int, at: nat, x: int, m: int)
    requires AtMost(buf, n) && n <= m && 0 <= x <= m && at < |buf|
    ensures AtMost(buf, m) && AtMost(buf[at := x], m)
  {
  }

  /** The ring `buf` holds `L`, in order, from slot `begin` on. */
  ghost predicate Holds(buf: seq<int>, begin: int, L: seq<int>)
  {
    && 0 <= begin < |buf|
    && |L| <= |buf|
    && forall k {:trigger Wrap(begin, k, |buf|)} :: 0 <= k < |L| ==> buf[Wrap(begin, k, |buf|)] == L[k]
  }

  /** Dropping the front candidate moves the ring's start one slot on. */
  lemma HoldsPop(buf: seq<int>, begin: int, L: seq<int>)
    requires Holds(buf, begin, L) && |L| > 0
    ensures buf[begin] == L[0]
    ensures Holds(buf, Wrap(begin, 1, |buf|), L[1..])
  {
    assert Wrap(begin, 0, |buf|) == begin;
    var b := Wrap(begin, 1, |buf|);
    forall k | 0 <= k < |L| - 1
      ensures buf[Wrap(b, k, |buf|)] == L[1..][k]
    {
      assert Wrap(b, k, |buf|) == Wrap(begin, k + 1, |buf|);
    }
  }

  /**
   * Writing `x` at the slot of position `p` keeps the first `p` candidates
   * and makes `x` the last one; the new size, counted from `begin` with the
   * wrap undone, is `p + 1`.
   */
  lemma HoldsWrite(buf: seq<int>, begin: int, L: seq<int>, p: nat, x: int)
    requires Holds(buf, begin, L) && p <= |L| && p < |buf|
    ensures Holds(buf[Wrap(begin, p, |buf|) := x], begin, L[..p] + [x])
    ensures var at := Wrap(begin, p, |buf|);
      0 <= at < |buf| && (if at < begin then at + |buf| else at) - begin + 1 == p + 1
  {
    var at := Wrap(begin, p, |buf|);
    var B, A := buf[at := x], L[..p] + [x];
    forall k | 0 <= k < |A|
      ensures B[Wrap(begin, k, |buf|)] == A[k]
    {
      if k < p {
        assert Wrap(begin, k, |buf|) != at;
      }
    }
  }

  lemma ModIsWrap(a: int, m: int)
    requires 0 < m && 0 <= a < 2 * m
    ensures a % m == if a < m then a else a - m
  {
  }

  class PossibleExtrema {
    /** The price data `_data`; read only. */
    const data: seq<real>
    const window: nat
    /** `_WINDOW`: one slot more than the window, so an insert can answer `window`. */
    const slots: nat
    /** `_compfn`. */
    const dir: Direction
    /** `_indices`. */
    const indices: array<int>
    /** `_begin`: the slot of the front candidate. */
    var begin: nat
    /** `_size`: how many slots from `begin` on hold live candidates. */
    var size: nat

    /** The live candidates, front first. */
    ghost var Contents: seq<int>
    /** The last index inserted, -1 before the first insert: the next insert must bring `Newest + 1`. */
    ghost var Newest: int

    /** Slot of logical position `k`. */
    ghost function Slot(k: int): int
      reads this
    {
      Wrap(begin, k, slots)
    }

    /** The array, `begin` and `size` hold `Contents`, in order, from slot `begin` on. */
    ghost predicate Stored()
      reads this, indices
    {
      && window >= 1
      && slots == window + 1
      && indices.Length == slots
      && size == |Contents|
      && Holds(indices[..], begin, Contents)
    }

    ghost predicate Valid()
      reads this, indices
    {
      && Stored()
      && -1 <= Newest < |data|
      && AtMost(indices[..], Newest + 1)
      && (Newest < 0 ==> Contents == [] && begin == 0)
      && (Newest >= 0 ==> Candidates(data, dir, WindowStart(Newest, window), Newest, Contents))
    }

    constructor (data: seq<real>, window: nat, dir: Direction)
      requires window >= 1
      ensures Valid() && fresh(indices)
      ensures this.data == data && this.window == window && this.dir == dir
      ensures slots == window + 1 && indices[..] == seq(window + 1, _ => 0)
      ensures begin == 0 && size == 0 && Contents == [] && Newest == -1
    {
      this.data := data;
      this.window := window;
      this.slots := window + 1;
      this.dir := dir;
      this.indices := new int[window + 1](_ => 0);
      this.begin := 0;
      this.size := 0;
      this.Contents := [];
      this.Newest := -1;
    }

    /** What the binary search for `ix` relies on: a well-formed, monotone buffer. */
    ghost predicate Searchable(ix: nat)
      reads this, indices
    {
      && Stored() && ix < |data| && InData(data, Contents) && Monotone(data, dir, Contents)
      && AtMost(indices[..], |data| - 1)
    }

    /** `_find`: the slot the new index `ix` goes to. */
    function Find(ix: nat): (at: nat)
      reads this, indices
      requires Searchable(ix) && 0 < size
      ensures at == Slot(FirstBeaten(data, dir, Contents, ix))
    {
      RecFindFindsFirstBeaten(ix, begin, size, 0);
      RecFind(ix, begin, size)
    }

    /**
     * `_rec_find`: binary search of the `length` slots from slot `b` on for
     * the first whose candidate `data[ix]` beats.
     */
    function RecFind(ix: nat, b: nat, length: nat): (at: nat)
      reads this, indices
      requires ix < |data| && indices.Length == slots && b < slots
      requires AtMost(indices[..], |data| - 1)
      ensures at < slots
      decreases length
    {
      if length <= 1 then
        if Beats(dir, data[ix], data[indices[b]]) then b else (b + 1) % slots
      else
        var halflen := length / 2;
        var middle := (b + halflen) % slots;
        if Beats(dir, data[ix], data[indices[middle]]) then RecFind(ix, b, halflen)
        else RecFind(ix, middle, length - halflen)
    }

    /**
     * Searching the `length` live slots from the slot of logical position
     * `offset` answers the slot of the first candidate `data[ix]` beats, kept
     * within the searched stretch.
     */
    lemma {:induction false} RecFindFindsFirstBeaten(ix: nat, b: nat, length: nat, offset: nat)
      requires Searchable(ix)
      requires 1 <= length && offset + length <= size && b == Slot(offset)
      ensures RecFind(ix, b, length) == Slot(Clamp(FirstBeaten(data, dir, Contents, ix), offset, offset + length))
      decreases length, 1
    {
      if length <= 1 {
        assert indices[b] == Contents[offset];
        BeatenFrom(data, dir, Contents, ix, offset);
        ModIsWrap(b + 1, slots);
      } else if Beats(dir, data[ix], data[Contents[offset + length / 2]]) {
        RecFindLeftHalf(ix, b, length, offset);
      } else {
        RecFindRightHalf(ix, b, length, offset);
      }
    }

    /** The recursive case of `RecFindFindsFirstBeaten`, when the middle candidate is beaten. */
    lemma {:induction false} RecFindLeftHalf(ix: nat, b: nat, length: nat, offset: nat)
      requires Searchable(ix)
      requires 2 <= length && offset + length <= size && b == Slot(offset)
      requires Beats(dir, data[ix], data[Contents[offset + length / 2]])
      ensures RecFind(ix, b, length) == Slot(Clamp(FirstBeaten(data, dir, Contents, ix), offset, offset + length))
      decreases length, 0
    {
      var halflen := length / 2;
      ModIsWrap(b + halflen, slots);
      var middle := (b + halflen) % slots;
      assert middle == Slot(offset + halflen);
      assert indices[middle] == Contents[offset + halflen];
      BeatenFrom(data, dir, Contents, ix, offset + halflen);
      assert RecFind(ix, b, length) == RecFind(ix, b, halflen);
      RecFindFindsFirstBeaten(ix, b, halflen, offset);
      var fb := FirstBeaten(data, dir, Contents, ix);
      assert Clamp(fb, offset, offset + halflen) == Clamp(fb, offset, offset + length);
    }

    /** The recursive case of `RecFindFindsFirstBeaten`, when the middle candidate is not beaten. */
    lemma {:induction false} RecFindRightHalf(ix: nat, b: nat, length: nat, offset: nat)
      requires Searchable(ix)
      requires 2 <= length && offset + length <= size && b == Slot(offset)
      requires !Beats(dir, data[ix], data[Contents[offset + length / 2]])
      ensures RecFind(ix, b, length) == Slot(Clamp(FirstBeaten(data, dir, Contents, ix), offset, offset + length))
      decreases length, 0
    {
      var halflen := length / 2;
      ModIsWrap(b + halflen, slots);
      var middle := (b + halflen) % slots;
      assert middle == Slot(offset + halflen);
      assert indices[middle] == Contents[offset + halflen];
      BeatenFrom(data, dir, Contents, ix, offset + halflen);
      assert RecFind(ix, b, length) == RecFind(ix, middle, length - halflen);
      RecFindFindsFirstBeaten(ix, middle, length - halflen, offset + halflen);
      var fb := FirstBeaten(data, dir, Contents, ix);
      assert Clamp(fb, offset + halflen, offset + halflen + (length - halflen)) == Clamp(fb, offset, offset + length);
    }

    /** Step 1 of `insert`: the front candidate leaves once it is `slots` steps old. */
    method EvictExpired(ix: nat)
      requires Stored() && 0 < size
      modifies this
      ensures Stored() && Contents == Evict(old(Contents), ix, slots)
      ensures begin == if ix - old(indices[begin]) >= slots then Wrap(old(begin), 1, slots) else old(begin)
      ensures unchanged(`Newest)
    {
      HoldsPop(indices[..], begin, Contents);
      if ix - indices[begin] >= slots {
        ModIsWrap(begin + 1, slots);
        begin, size, Contents := (begin + 1) % slots, size - 1, Contents[1..];
      }
    }

    /**
     * `insert`: records time index `ix` (indices arrive as 0, 1, 2, ...) and
     * answers how many steps ago the best value of the window
     * `data[ix - window .. ix]` first occurred.
     */
    method Insert(ix: nat) returns (daysSinceExtremum: int)
      requires Valid() && ix == Newest + 1 && ix < |data|
      modifies this, indices
      ensures Valid() && Newest == ix && 1 <= size <= slots
      ensures InData(data, old(Contents)) && Contents == Advance(data, dir, window, old(Contents), ix)
      ensures begin == if old(size) > 0 && ix - old(indices[begin]) >= slots
                       then Wrap(old(begin), 1, slots) else old(begin)
      ensures indices[..] == old(indices[..])[Slot(size - 1) := ix]
      ensures daysSinceExtremum == ix - OldestBest(data, dir, WindowStart(ix, window), ix)
      ensures 0 <= daysSinceExtremum <= window
    {
      ghost var L := Contents;
      StepKeepsCandidates(data, dir, window, L, ix);
      ghost var E := Evict(L, ix, window + 1);
      var insertAt := Locate(ix);
      ghost var p := FirstBeaten(data, dir, E, ix);
      AtMostWrite(indices[..], ix, insertAt, ix, ix + 1);
      daysSinceExtremum := Place(ix, insertAt, p);
      assert Contents == Advance(data, dir, window, L, ix);
      Newest := ix;
    }


    /** Step 1 of `insert` and the call of `_find`: the slot where `ix` goes once the expired front has left. */
    method Locate(ix: nat) returns (insertAt: nat)
      requires Stored() && ix < |data| && AtMost(indices[..], ix)
      requires InData(data, Evict(Contents, ix, slots)) && Monotone(data, dir, Evict(Contents, ix, slots))
      requires Contents != [] ==> Evict(Contents, ix, slots) != []
      modifies this
      ensures Stored() && Contents == Evict(old(Contents), ix, slots)
      ensures begin == if old(size) > 0 && ix - old(indices[begin]) >= slots
                       then Wrap(old(begin), 1, slots) else old(begin)
      ensures insertAt == Slot(FirstBeaten(data, dir, Contents, ix))
      ensures unchanged(`Newest)
    {
      insertAt := begin;
      if size > 0 {
        EvictExpired(ix);
        AtMostWiden(indices[..], ix, |data| - 1);
        insertAt := Find(ix);
      }
    }

    /**
     * Steps 2 to 4 of `insert`: writes `ix` into the slot of logical position
     * `p`, which drops every candidate after it, and answers how far back the
     * front candidate is.
     */
    method Place(ix: nat, insertAt: nat, ghost p: nat) returns (daysSinceExtremum: int)
      requires Stored() && p <= size && p < slots && insertAt == Slot(p)
      modifies this`size, this`Contents, indices
      ensures Stored() && Contents == old(Contents)[..p] + [ix]
      ensures indices[..] == old(indices[..])[insertAt := ix]
      ensures daysSinceExtremum == ix - Contents[0]
    {
      ghost var before := indices[..];
      HoldsWrite(before, begin, Contents, p, ix);
      indices[insertAt] := ix;
      assert indices[..] == before[insertAt := ix];
      daysSinceExtremum := ix - indices[begin];
      var at := insertAt;
      if at < begin {
        at := at + slots;
      }
      size, Contents := at - begin + 1, Contents[..p] + [ix];
      HoldsPop(indices[..], begin, Contents);
    }
  }
}
