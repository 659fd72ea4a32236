/**
 * Strike utilities of the option spreads: `straddle` picks the strike or
 * strikes nearest the underlying price, and `_matching` with
 * `_nextsynchronized` walks the call strikes and the put strikes of an
 * expiry in lock-step to collect the strikes they share. As written the walk
 * can stop on an unequal pair; `MatchingCorrected` is the walk that skips
 * until the two strikes are equal, proved to collect exactly the shared
 * strikes of strictly ascending lists.
 *
 * Strikes and prices are reals; rounding is not modelled.
 */
module Strike {

  function Abs(x: real): real
  {
    if x < 0.0 then -x else x
  }

  /** Ascending order, as the option chain lists its strikes. */
  ghost predicate Ascending(s: seq<real>)
  {
    forall a, b :: 0 <= a < b < |s| ==> s[a] <= s[b]
  }

  ghost predicate StrictlyAscending(s: seq<real>)
  {
    forall a, b :: 0 <= a < b < |s| ==> s[a] < s[b]
  }

  /** `x` is as close to `price` as any strike of `s`. */
  ghost predicate Nearest(s: seq<real>, price: real, x: real)
  {
    forall j :: 0 <= j < |s| ==> Abs(x - price) <= Abs(s[j] - price)
  }

  /**
   * `straddle`: the first strike at or above the price, or the one below it
   * when that is strictly closer, or both (lower first) when they are exactly
   * as far; the last strike when the price is above every strike.
   */
  method Straddle(allstrikes: seq<real>, eqprice: real) returns (r: seq<real>)
    ensures |allstrikes| == 0 ==> r == []
    ensures |allstrikes| > 0 ==> 1 <= |r| <= 2
    ensures forall k :: 0 <= k < |r| ==> r[k] in allstrikes
    ensures |allstrikes| > 0 && allstrikes[0] >= eqprice ==> r == [allstrikes[0]]
    ensures |allstrikes| > 0 && (forall j :: 0 <= j < |allstrikes| ==> allstrikes[j] < eqprice) ==>
              r == [allstrikes[|allstrikes| - 1]]
    ensures |r| == 2 ==>
              exists i :: 0 < i < |allstrikes| && r == [allstrikes[i - 1], allstrikes[i]]
                && allstrikes[i - 1] < eqprice <= allstrikes[i]
                && allstrikes[i] - eqprice == eqprice - allstrikes[i - 1]
    ensures forall i ::
              (&& 0 < i < |allstrikes|
               && (forall j :: 0 <= j < i ==> allstrikes[j] < eqprice)
               && allstrikes[i] >= eqprice
               && allstrikes[i] - eqprice == eqprice - allstrikes[i - 1])
              ==> r == [allstrikes[i - 1], allstrikes[i]]
    ensures Ascending(allstrikes) ==> forall k :: 0 <= k < |r| ==> Nearest(allstrikes, eqprice, r[k])
  {
    for i := 0 to |allstrikes|
      invariant forall j :: 0 <= j < i ==> allstrikes[j] < eqprice
    {
      if allstrikes[i] >= eqprice {
        if i == 0 || allstrikes[i] - eqprice < eqprice - allstrikes[i - 1] {
          NearestAbove(allstrikes, eqprice, i);
          return [allstrikes[i]];
        }
        if allstrikes[i] - eqprice == eqprice - allstrikes[i - 1] {
          NearestAbove(allstrikes, eqprice, i);
          NearestBelow(allstrikes, eqprice, i);
          return [allstrikes[i - 1], allstrikes[i]];
        }
        NearestBelow(allstrikes, eqprice, i);
        return [allstrikes[i - 1]];
      }
    }
    if |allstrikes| > 0 {
      NearestLast(allstrikes, eqprice);
      return [allstrikes[|allstrikes| - 1]];
    }
    return [];
  }

  /** In an ascending list, the first strike at or above the price is nearest unless the one before is closer. */
  lemma NearestAbove(s: seq<real>, price: real, i: nat)
    requires i < |s| && s[i] >= price && (forall j :: 0 <= j < i ==> s[j] < price)
    requires i > 0 ==> s[i] - price <= price - s[i - 1]
    ensures Ascending(s) ==> Nearest(s, price, s[i])
  {
    if Ascending(s) {
      forall j | 0 <= j < |s|
        ensures Abs(s[i] - price) <= Abs(s[j] - price)
      {
        if j < i {
          assert s[j] <= s[i - 1];
        } else {
          assert s[i] <= s[j];
        }
      }
    }
  }

  /** In an ascending list, the last strike below the price is nearest unless the one after is closer. */
  lemma NearestBelow(s: seq<real>, price: real, i: nat)
    requires 0 < i < |s| && s[i] >= price && (forall j :: 0 <= j < i ==> s[j] < price)
    requires price - s[i - 1] <= s[i] - price
    ensures Ascending(s) ==> Nearest(s, price, s[i - 1])
  {
    if Ascending(s) {
      forall j | 0 <= j < |s|
        ensures Abs(s[i - 1] - price) <= Abs(s[j] - price)
      {
        if j < i {
          assert s[j] <= s[i - 1];
        } else {
          assert s[i] <= s[j];
        }
      }
    }
  }

  /** When the price is above every strike of an ascending list, the last one is nearest. */
  lemma NearestLast(s: seq<real>, price: real)
    requires |s| > 0 && (forall j :: 0 <= j < |s| ==> s[j] < price)
    ensures Ascending(s) ==> Nearest(s, price, s[|s| - 1])
  {
    if Ascending(s) {
      forall j | 0 <= j < |s|
        ensures Abs(s[|s| - 1] - price) <= Abs(s[j] - price)
      {
        assert s[j] <= s[|s| - 1];
      }
    }
  }

  /** The first position from `k` on whose strike is at least `x`, or `|s|` when there is none. */
  function Skip(s: seq<real>, x: real, k: int): (r: int)
    requires k >= 0
    ensures k <= r <= |s| || (k > |s| && r == |s|)
    ensures forall j :: k <= j < r ==> s[j] < x
    ensures r < |s| ==> s[r] >= x
    decreases |s| - k
  {
    if k >= |s| then |s| else if s[k] >= x then k else Skip(s, x, k + 1)
  }

  /**
   * The pair `_nextsynchronized` answers, as a function: the calls below the
   * next put are skipped, then the puts below the call reached, and the
   * sentinel `(ncall, nput)` is answered once either list runs out.
   */
  function NextPair(callstrikes: seq<real>, putstrikes: seq<real>, icall: int, iput: int): (r: (int, int))
    requires -1 <= icall && -1 <= iput
    ensures r == (|callstrikes|, |putstrikes|) || (icall < r.0 < |callstrikes| && iput < r.1 < |putstrikes|)
  {
    var ncall, nput := |callstrikes|, |putstrikes|;
    if icall + 1 >= ncall || iput + 1 >= nput then (ncall, nput)
    else
      var c := Skip(callstrikes, putstrikes[iput + 1], icall + 1);
      if c >= ncall then (ncall, nput)
      else
        var p := Skip(putstrikes, callstrikes[c], iput + 1);
        if p >= nput then (ncall, nput) else (c, p)
  }

  /** What `_matching` collects from the state `(icall, iput)` on. */
  function MatchFrom(callstrikes: seq<real>, putstrikes: seq<real>, icall: int, iput: int): (r: seq<real>)
    requires -1 <= icall && -1 <= iput
    ensures forall k :: 0 <= k < |r| ==> r[k] in callstrikes
    decreases |callstrikes| - icall
  {
    var (c, p) := NextPair(callstrikes, putstrikes, icall, iput);
    if c < |callstrikes| then [callstrikes[c]] + MatchFrom(callstrikes, putstrikes, c, p) else []
  }

  /**
   * `_nextsynchronized`: from the pair after `(icall, iput)`, skips the calls
   * below the current put, then the puts below the call reached. It answers
   * the sentinel `(ncall, nput)` once either list runs out; otherwise a pair
   * strictly after its inputs whose put strike is at least its call strike.
   */
  method NextSynchronized(callstrikes: seq<real>, putstrikes: seq<real>, icall: int, iput: int)
    returns (c: int, p: int)
    requires -1 <= icall && -1 <= iput
    ensures (c, p) == (|callstrikes|, |putstrikes|) ||
            (icall < c < |callstrikes| && iput < p < |putstrikes| && putstrikes[p] >= callstrikes[c])
    ensures c < |callstrikes| ==>
              && callstrikes[c] >= putstrikes[iput + 1]
              && (forall k :: icall < k < c ==> callstrikes[k] < putstrikes[iput + 1])
              && (forall k :: iput < k < p ==> putstrikes[k] < callstrikes[c])
    ensures icall + 1 >= |callstrikes| || iput + 1 >= |putstrikes| ==>
              (c, p) == (|callstrikes|, |putstrikes|)
    ensures callstrikes == putstrikes && icall == iput && icall + 1 < |callstrikes| ==>
              (c, p) == (icall + 1, iput + 1)
    ensures (c, p) == NextPair(callstrikes, putstrikes, icall, iput)
  {
    var ncall, nput := |callstrikes|, |putstrikes|;
    c, p := icall + 1, iput + 1;
    if c >= ncall || p >= nput {
      return ncall, nput;
    }
    while callstrikes[c] < putstrikes[p]
      invariant icall < c < ncall && p == iput + 1
      invariant forall k :: icall < k < c ==> callstrikes[k] < putstrikes[p]
      invariant Skip(callstrikes, putstrikes[p], c) == Skip(callstrikes, putstrikes[p], icall + 1)
      decreases ncall - c
    {
      c := c + 1;
      if c >= ncall {
        return ncall, nput;
      }
    }
    while putstrikes[p] < callstrikes[c]
      invariant iput < p < nput && callstrikes[c] >= putstrikes[iput + 1]
      invariant forall k :: iput < k < p ==> putstrikes[k] < callstrikes[c]
      invariant c == Skip(callstrikes, putstrikes[iput + 1], icall + 1)
      invariant Skip(putstrikes, callstrikes[c], p) == Skip(putstrikes, callstrikes[c], iput + 1)
      decreases nput - p
    {
      p := p + 1;
      if p >= nput {
        return ncall, nput;
      }
    }
  }

  /** `idx` lists, in strictly increasing order, positions of `s` holding the elements of `r`. */
  ghost predicate PickedAt(r: seq<real>, s: seq<real>, idx: seq<int>)
  {
    && |idx| == |r|
    && (forall k :: 0 <= k < |idx| ==> 0 <= idx[k] < |s| && r[k] == s[idx[k]])
    && (forall a, b :: 0 <= a < b < |idx| ==> idx[a] < idx[b])
  }

  /** `r` is a subsequence of `s`. */
  ghost predicate Picked(r: seq<real>, s: seq<real>)
  {
    exists idx :: PickedAt(r, s, idx)
  }

  /** The strikes `MatchFrom` collects sit at strictly increasing positions of the calls after `icall`. */
  lemma {:induction false} MatchFromPicked(callstrikes: seq<real>, putstrikes: seq<real>, icall: int, iput: int)
    returns (idx: seq<int>)
    requires -1 <= icall && -1 <= iput
    ensures PickedAt(MatchFrom(callstrikes, putstrikes, icall, iput), callstrikes, idx)
    ensures forall k :: 0 <= k < |idx| ==> icall < idx[k]
    decreases |callstrikes| - icall
  {
    var (c, p) := NextPair(callstrikes, putstrikes, icall, iput);
    if c < |callstrikes| {
      var tail := MatchFromPicked(callstrikes, putstrikes, c, p);
      idx := [c] + tail;
    } else {
      idx := [];
    }
  }

  /** `MatchFrom` collects no more strikes than either list has left. */
  lemma {:induction false} MatchFromBounded(callstrikes: seq<real>, putstrikes: seq<real>, icall: int, iput: int)
    requires -1 <= icall < |callstrikes| && -1 <= iput < |putstrikes|
    ensures |MatchFrom(callstrikes, putstrikes, icall, iput)| <= |callstrikes| - icall - 1
    ensures |MatchFrom(callstrikes, putstrikes, icall, iput)| <= |putstrikes| - iput - 1
    decreases |callstrikes| - icall
  {
    var (c, p) := NextPair(callstrikes, putstrikes, icall, iput);
    if c < |callstrikes| {
      MatchFromBounded(callstrikes, putstrikes, c, p);
    }
  }

  /** On two identical lists, every strike after `i` is collected. */
  lemma {:induction false} MatchFromIdentical(s: seq<real>, i: int)
    requires -1 <= i < |s|
    ensures MatchFrom(s, s, i, i) == s[i + 1..]
    decreases |s| - i
  {
    if i + 1 < |s| {
      assert NextPair(s, s, i, i) == (i + 1, i + 1);
      MatchFromIdentical(s, i + 1);
      assert s[i + 1..] == [s[i + 1]] + s[i + 2..];
    }
  }

  /**
   * `_matching`: it collects exactly what `MatchFrom` says from the start.
   * So the result is call strikes taken at strictly increasing positions, no
   * more than either list has, none when either list is empty, and the whole
   * list when both lists are the same.
   */
  method Matching(callstrikes: seq<real>, putstrikes: seq<real>) returns (matching: seq<real>)
    ensures matching == MatchFrom(callstrikes, putstrikes, -1, -1)
    ensures Picked(matching, callstrikes)
    ensures |matching| <= |callstrikes| && |matching| <= |putstrikes|
    ensures |callstrikes| == 0 || |putstrikes| == 0 ==> matching == []
    ensures callstrikes == putstrikes ==> matching == callstrikes
  {
    var icall, iput := -1, -1;
    matching := [];
    var ncall, nput := |callstrikes|, |putstrikes|;
    ghost var all := MatchFrom(callstrikes, putstrikes, -1, -1);
    while true
      invariant -1 <= icall < ncall && -1 <= iput < nput
      invariant matching + MatchFrom(callstrikes, putstrikes, icall, iput) == all
      decreases ncall - icall
    {
      ghost var rest := MatchFrom(callstrikes, putstrikes, icall, iput);
      icall, iput := NextSynchronized(callstrikes, putstrikes, icall, iput);
      if icall < ncall {
        assert rest == [callstrikes[icall]] + MatchFrom(callstrikes, putstrikes, icall, iput);
        assert (matching + [callstrikes[icall]]) + MatchFrom(callstrikes, putstrikes, icall, iput) == matching + rest;
        matching := matching + [callstrikes[icall]];
      } else {
        assert rest == [];
        ghost var idx := MatchFromPicked(callstrikes, putstrikes, -1, -1);
        MatchFromBounded(callstrikes, putstrikes, -1, -1);
        if callstrikes == putstrikes {
          MatchFromIdentical(callstrikes, -1);
        }
        return matching;
      }
    }
  }

  /**
   * As written, `_matching` can stop on an unequal pair: on calls
   * `[1, 5, 6]` and puts `[3, 6]` it collects the call strike 5, which no put
   * has, and misses 6, which both lists have.
   */
  lemma MatchingMissesCommonStrike()
    ensures MatchFrom([1.0, 5.0, 6.0], [3.0, 6.0], -1, -1) == [5.0]
    ensures Common([1.0, 5.0, 6.0], [3.0, 6.0]) == [6.0]
  {
    var calls, puts := [1.0, 5.0, 6.0], [3.0, 6.0];
    assert Skip(calls, 3.0, 0) == 1;
    assert Skip(puts, 5.0, 0) == 1;
    assert NextPair(calls, puts, -1, -1) == (1, 1);
    assert NextPair(calls, puts, 1, 1) == (3, 2);
  }

  /** The call strikes that the puts list too, in the order of the calls. */
  ghost function Common(calls: seq<real>, puts: seq<real>): seq<real>
  {
    if |calls| == 0 then []
    else (if calls[0] in puts then [calls[0]] else []) + Common(calls[1..], puts)
  }

  /** A strike is shared exactly when both lists have it. */
  lemma {:induction false} CommonMembers(calls: seq<real>, puts: seq<real>, x: real)
    ensures x in Common(calls, puts) <==> x in calls && x in puts
    decreases |calls|
  {
    if |calls| > 0 {
      CommonMembers(calls[1..], puts, x);
      assert calls == [calls[0]] + calls[1..];
    }
  }

  /** The shared strikes are the strikes both lists have. */
  lemma CommonIsIntersection(calls: seq<real>, puts: seq<real>)
    ensures forall x :: x in Common(calls, puts) <==> x in calls && x in puts
  {
    forall x
      ensures x in Common(calls, puts) <==> x in calls && x in puts
    {
      CommonMembers(calls, puts, x);
    }
  }

  /** A strictly ascending list stays strictly ascending from any position on. */
  lemma AscendingSuffix(s: seq<real>, k: int)
    requires 0 <= k <= |s| && StrictlyAscending(s)
    ensures StrictlyAscending(s[k..])
  {
    forall a, b | 0 <= a < b < |s| - k
      ensures s[k..][a] < s[k..][b]
    {
      assert s[k..][a] == s[k + a] && s[k..][b] == s[k + b];
    }
  }

  /** No put lists a call strike below the first put. */
  lemma CommonDropCall(calls: seq<real>, puts: seq<real>)
    requires |calls| > 0 && |puts| > 0 && StrictlyAscending(puts) && calls[0] < puts[0]
    ensures Common(calls, puts) == Common(calls[1..], puts)
  {
    forall k | 0 <= k < |puts|
      ensures puts[k] != calls[0]
    {
      if k > 0 {
        assert puts[0] < puts[k];
      }
    }
  }

  /** A put strike that no call lists can be dropped. */
  lemma {:induction false} CommonDropPut(calls: seq<real>, puts: seq<real>)
    requires |puts| > 0 && forall k :: 0 <= k < |calls| ==> calls[k] != puts[0]
    ensures Common(calls, puts) == Common(calls, puts[1..])
    decreases |calls|
  {
    if |calls| > 0 {
      assert puts == [puts[0]] + puts[1..];
      assert calls[0] in puts <==> calls[0] in puts[1..];
      CommonDropPut(calls[1..], puts);
    }
  }

  /** On strictly ascending calls, a put strike below the first call can be dropped. */
  lemma CommonDropLowPut(calls: seq<real>, puts: seq<real>)
    requires |calls| > 0 && |puts| > 0 && StrictlyAscending(calls) && puts[0] < calls[0]
    ensures Common(calls, puts) == Common(calls, puts[1..])
  {
    forall k | 0 <= k < |calls|
      ensures calls[k] != puts[0]
    {
      if k > 0 {
        assert calls[0] < calls[k];
      }
    }
    CommonDropPut(calls, puts);
  }

  /** On strictly ascending calls, equal first strikes are shared, and the rest is shared from the next ones on. */
  lemma CommonMatch(calls: seq<real>, puts: seq<real>)
    requires |calls| > 0 && |puts| > 0 && StrictlyAscending(calls) && calls[0] == puts[0]
    ensures Common(calls, puts) == [calls[0]] + Common(calls[1..], puts[1..])
  {
    forall k | 0 <= k < |calls[1..]|
      ensures calls[1..][k] != puts[0]
    {
      assert calls[0] < calls[k + 1];
    }
    CommonDropPut(calls[1..], puts);
  }

  /** A synchronized pair of two strictly ascending lists is shared, and sharing goes on after it. */
  lemma CommonStep(callstrikes: seq<real>, putstrikes: seq<real>, c: int, p: int)
    requires 0 <= c < |callstrikes| && 0 <= p < |putstrikes| && callstrikes[c] == putstrikes[p]
    requires StrictlyAscending(callstrikes)
    ensures Common(callstrikes[c..], putstrikes[p..]) == [callstrikes[c]] + Common(callstrikes[c + 1..], putstrikes[p + 1..])
  {
    AscendingSuffix(callstrikes, c);
    CommonMatch(callstrikes[c..], putstrikes[p..]);
    assert callstrikes[c..][1..] == callstrikes[c + 1..];
    assert putstrikes[p..][1..] == putstrikes[p + 1..];
  }

  /** No call strike is shared with an empty list of puts. */
  lemma {:induction false} CommonNoPuts(calls: seq<real>)
    ensures Common(calls, []) == []
    decreases |calls|
  {
    if |calls| > 0 {
      CommonNoPuts(calls[1..]);
    }
  }

  /**
   * `_nextsynchronized` as evidently intended: from the pair after
   * `(icall, iput)`, the lower of the two strikes is skipped until they are
   * equal, and the sentinel `(ncall, nput)` is answered once either list runs
   * out. On strictly ascending lists no shared strike is skipped.
   */
  method NextSynchronizedCorrected(callstrikes: seq<real>, putstrikes: seq<real>, icall: int, iput: int)
    returns (c: int, p: int)
    requires -1 <= icall < |callstrikes| && -1 <= iput < |putstrikes|
    ensures (c, p) == (|callstrikes|, |putstrikes|) ||
            (icall < c < |callstrikes| && iput < p < |putstrikes| && callstrikes[c] == putstrikes[p])
    ensures StrictlyAscending(callstrikes) && StrictlyAscending(putstrikes) ==>
              Common(callstrikes[icall + 1..], putstrikes[iput + 1..])
              == if c < |callstrikes| then Common(callstrikes[c..], putstrikes[p..]) else []
  {
    var ncall, nput := |callstrikes|, |putstrikes|;
    ghost var ascending := StrictlyAscending(callstrikes) && StrictlyAscending(putstrikes);
    c, p := icall + 1, iput + 1;
    while c < ncall && p < nput && callstrikes[c] != putstrikes[p]
      invariant icall < c <= ncall && iput < p <= nput
      invariant ascending ==>
                  Common(callstrikes[icall + 1..], putstrikes[iput + 1..]) == Common(callstrikes[c..], putstrikes[p..])
      decreases ncall - c + nput - p
    {
      if callstrikes[c] < putstrikes[p] {
        if ascending {
          AscendingSuffix(putstrikes, p);
          CommonDropCall(callstrikes[c..], putstrikes[p..]);
          assert callstrikes[c..][1..] == callstrikes[c + 1..];
        }
        c := c + 1;
      } else {
        if ascending {
          AscendingSuffix(callstrikes, c);
          CommonDropLowPut(callstrikes[c..], putstrikes[p..]);
          assert putstrikes[p..][1..] == putstrikes[p + 1..];
        }
        p := p + 1;
      }
    }
    if c >= ncall || p >= nput {
      if ascending && c < ncall {
        CommonNoPuts(callstrikes[c..]);
      }
      return ncall, nput;
    }
  }

  /**
   * `_matching` over the corrected `_nextsynchronized`: every collected
   * strike is listed by both the calls and the puts, and on strictly
   * ascending lists exactly the shared strikes are collected, in order.
   */
  method MatchingCorrected(callstrikes: seq<real>, putstrikes: seq<real>) returns (matching: seq<real>)
    ensures forall k :: 0 <= k < |matching| ==> matching[k] in callstrikes && matching[k] in putstrikes
    ensures StrictlyAscending(callstrikes) && StrictlyAscending(putstrikes) ==>
              matching == Common(callstrikes, putstrikes)
    ensures StrictlyAscending(callstrikes) && StrictlyAscending(putstrikes) ==>
              forall x :: x in matching <==> x in callstrikes && x in putstrikes
  {
    var icall, iput := -1, -1;
    matching := [];
    var ncall, nput := |callstrikes|, |putstrikes|;
    ghost var ascending := StrictlyAscending(callstrikes) && StrictlyAscending(putstrikes);
    assert callstrikes[0..] == callstrikes && putstrikes[0..] == putstrikes;
    while true
      invariant -1 <= icall < ncall && -1 <= iput < nput
      invariant forall k :: 0 <= k < |matching| ==> matching[k] in callstrikes && matching[k] in putstrikes
      invariant ascending ==>
                  matching + Common(callstrikes[icall + 1..], putstrikes[iput + 1..]) == Common(callstrikes, putstrikes)
      decreases ncall - icall
    {
      ghost var rest := Common(callstrikes[icall + 1..], putstrikes[iput + 1..]);
      icall, iput := NextSynchronizedCorrected(callstrikes, putstrikes, icall, iput);
      if icall < ncall {
        if ascending {
          CommonStep(callstrikes, putstrikes, icall, iput);
          assert (matching + [callstrikes[icall]]) + Common(callstrikes[icall + 1..], putstrikes[iput + 1..])
                 == matching + rest;
        }
        matching := matching + [callstrikes[icall]];
      } else {
        if ascending {
          CommonIsIntersection(callstrikes, putstrikes);
        }
        return matching;
      }
    }
  }

  /** On strictly ascending call strikes, the matched strikes are strictly ascending too. */
  lemma PickedAscending(r: seq<real>, s: seq<real>, idx: seq<int>)
    requires StrictlyAscending(s) && PickedAt(r, s, idx)
    ensures StrictlyAscending(r)
  {
    forall a, b | 0 <= a < b < |r|
      ensures r[a] < r[b]
    {
      assert idx[a] < idx[b];
    }
  }
}
