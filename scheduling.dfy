/** What the two schedulers (`src/bin/blinkd.rs` and `src/app.rs`) share in
    `update_timer`: each timer's remaining time, the stable `sort_by` on
    (remaining time ascending, weight descending), and the decline
    multiplier applied to the winner's wait. */
module Scheduling {
  import opened Wrappers
  import opened Config
  import Numerals

  /** `Duration::MAX`, the schedulers' "no deadline yet" sentinel (whole
      seconds). */
  const DURATION_MAX: nat := Numerals.U64_LIMIT - 1

  /** `Instant::elapsed`: the time since `earlier`, never negative. */
  function Since(earlier: nat, now: nat): nat
  {
    if now >= earlier then now - earlier else 0
  }

  // ---------------------------------------------------------------------
  // Remaining time of one timer

  /** Whether a timer is past its optional initial delay: only then does its
      interval matter. */
  predicate Periodic(delay: Option<nat>, elapsed: nat)
  {
    delay.None? || elapsed > delay.value
  }

  /** `time_left` of a timer: what is left of the initial delay while it
      lasts (up to and including its last second), afterwards what is left
      of the current interval, counted from elapsed time zero. */
  function TimeLeft(delay: Option<nat>, interval: nat, elapsed: nat): nat
    requires Periodic(delay, elapsed) ==> interval > 0
  {
    if !Periodic(delay, elapsed) then delay.value - elapsed
    else interval - elapsed % interval
  }

  /** The two branches, and the bounds of the periodic one: never zero and
      never more than the interval, and exactly the interval on a multiple
      of it. */
  lemma TimeLeftBounds(delay: Option<nat>, interval: nat, elapsed: nat)
    requires Periodic(delay, elapsed) ==> interval > 0
    ensures !Periodic(delay, elapsed) ==> elapsed + TimeLeft(delay, interval, elapsed) == delay.value
    ensures Periodic(delay, elapsed) ==>
      1 <= TimeLeft(delay, interval, elapsed) <= interval
      && (elapsed % interval == 0 <==> TimeLeft(delay, interval, elapsed) == interval)
  {
  }

  // ---------------------------------------------------------------------
  // The decline multiplier

  function Pow(b: real, n: nat): real
  {
    if n == 0 then 1.0 else b * Pow(b, n - 1)
  }

  /** `(1 / (1 + decline)) ^ prompts`, the factor by which the winner's wait
      shrinks after it has been prompted `prompts` times. */
  function Mult(decline: Decline, prompts: nat): real
  {
    Pow(1.0 / (1.0 + decline), prompts)
  }

  /** The multiplier is 1 for a timer never prompted or without decline;
      always positive; at most 1 for a non-negative decline, and then it
      strictly shrinks with every prompt when the decline is positive. */
  lemma {:induction false} MultBounds(decline: Decline, prompts: nat)
    ensures prompts == 0 || decline == 0.0 ==> Mult(decline, prompts) == 1.0
    ensures Mult(decline, prompts) > 0.0
    ensures decline >= 0.0 ==> Mult(decline, prompts) <= 1.0
    ensures decline > 0.0 ==> Mult(decline, prompts + 1) < Mult(decline, prompts)
  {
    var b := 1.0 / (1.0 + decline);
    assert b * (1.0 + decline) == 1.0;
    assert b > 0.0;
    assert decline >= 0.0 ==> b <= 1.0;
    assert decline > 0.0 ==> b < 1.0;
    assert decline == 0.0 ==> b == 1.0;
    if prompts > 0 {
      MultBounds(decline, prompts - 1);
      assert Mult(decline, prompts) == b * Mult(decline, prompts - 1);
    }
    assert Mult(decline, prompts + 1) == b * Mult(decline, prompts);
  }

  /** The least whole number of seconds at or above `x`. */
  function Ceil(x: real): (n: nat)
    requires x >= 0.0
    ensures n as real >= x && (n as real) - 1.0 < x
  {
    if x.Floor as real == x then x.Floor else x.Floor + 1
  }

  /** The winner's effective wait: its remaining time scaled by the decline
      multiplier, rounded up to a whole second (with ticks of whole seconds,
      the first tick at or past a fractional deadline is the one that fires). */
  function ScaledWait(timeLeft: nat, decline: Decline, prompts: nat): nat
  {
    MultBounds(decline, prompts);
    Ceil(timeLeft as real * Mult(decline, prompts))
  }

  /** The wait is the remaining time itself when nothing declines; it is
      never more than the remaining time for a non-negative decline; and it
      is zero only when the remaining time is. */
  lemma ScaledWaitBounds(timeLeft: nat, decline: Decline, prompts: nat)
    ensures prompts == 0 || decline == 0.0 ==> ScaledWait(timeLeft, decline, prompts) == timeLeft
    ensures decline >= 0.0 ==> ScaledWait(timeLeft, decline, prompts) <= timeLeft
    ensures ScaledWait(timeLeft, decline, prompts) == 0 <==> timeLeft == 0
  {
    var x := timeLeft as real * Mult(decline, prompts);
    MultBounds(decline, prompts);
    if prompts == 0 || decline == 0.0 {
      assert x == timeLeft as real;
    }
    if decline >= 0.0 {
      CeilAtMost(x, Mult(decline, prompts), timeLeft);
    }
    if timeLeft > 0 {
      ProductPositive(timeLeft as real, Mult(decline, prompts));
    }
  }

  lemma ProductPositive(a: real, b: real)
    requires a > 0.0 && b > 0.0
    ensures a * b > 0.0
  {
  }

  /** The hourly default break (decline 0.5): a full hour the first time,
      two thirds of it after one prompt. */
  lemma HalfDeclineExample()
    ensures ScaledWait(3600, 0.5, 0) == 3600
    ensures ScaledWait(3600, 0.5, 1) == 2400
  {
    assert Mult(0.5, 1) == 1.0 / 1.5;
    assert 3600.0 * (1.0 / 1.5) == 2400.0;
  }

  lemma CeilAtMost(x: real, m: real, n: nat)
    requires 0.0 < m <= 1.0 && x == n as real * m
    ensures Ceil(x) <= n
  {
    assert x <= n as real * 1.0;
  }

  // ---------------------------------------------------------------------
  // The stable sort

  /** The sort key of `update_timer`: remaining time, then weight. */
  datatype Rank = Rank(timeLeft: nat, weight: nat)

  /** `a` may come before `b`: less time left, or as much and at least the
      weight (a higher weight wins a tie). */
  predicate RankLe(a: Rank, b: Rank)
  {
    a.timeLeft < b.timeLeft || (a.timeLeft == b.timeLeft && a.weight >= b.weight)
  }

  /** The key order is total and antisymmetric: two keys that may each come
      first are the same key. */
  lemma RankOrder(a: Rank, b: Rank, c: Rank)
    ensures RankLe(a, b) || RankLe(b, a)
    ensures RankLe(a, b) && RankLe(b, a) ==> a == b
    ensures RankLe(a, b) && RankLe(b, c) ==> RankLe(a, c)
  {
  }

  ghost predicate Sorted<T>(s: seq<T>, rank: T -> Rank)
  {
    forall i, j :: 0 <= i < j < |s| ==> RankLe(rank(s[i]), rank(s[j]))
  }

  /** The entries of `s` whose key is `k`, in their order in `s`. */
  function Filter<T>(s: seq<T>, rank: T -> Rank, k: Rank): seq<T>
  {
    if s == [] then []
    else (if rank(s[0]) == k then [s[0]] else []) + Filter(s[1..], rank, k)
  }

  /** Stability: every key's entries come out in the order they went in. */
  ghost predicate SameOrderPerKey<T>(s: seq<T>, t: seq<T>, rank: T -> Rank)
  {
    forall k :: Filter(s, rank, k) == Filter(t, rank, k)
  }

  /** Put `x` before the first entry it may precede. */
  function Insert<T>(x: T, s: seq<T>, rank: T -> Rank): seq<T>
  {
    if s == [] then [x]
    else if RankLe(rank(x), rank(s[0])) then [x] + s
    else [s[0]] + Insert(x, s[1..], rank)
  }

  /** `slice::sort_by` with the comparator of `update_timer`, as an insertion
      sort: stable, like the library's merge sort. */
  function SortBy<T>(s: seq<T>, rank: T -> Rank): seq<T>
  {
    if s == [] then [] else Insert(s[0], SortBy(s[1..], rank), rank)
  }

  lemma {:induction false} InsertPermutes<T>(x: T, s: seq<T>, rank: T -> Rank)
    ensures multiset(Insert(x, s, rank)) == multiset(s) + multiset{x}
    ensures |Insert(x, s, rank)| == |s| + 1
  {
    if s != [] && !RankLe(rank(x), rank(s[0])) {
      InsertPermutes(x, s[1..], rank);
      assert s == [s[0]] + s[1..];
    }
  }

  lemma {:induction false} InsertSorted<T>(x: T, s: seq<T>, rank: T -> Rank)
    requires Sorted(s, rank)
    ensures Sorted(Insert(x, s, rank), rank)
  {
    if s == [] {
    } else if RankLe(rank(x), rank(s[0])) {
      var t := Insert(x, s, rank);
      assert t == [x] + s;
      forall i, j | 0 <= i < j < |t| ensures RankLe(rank(t[i]), rank(t[j]))
      {
        if i == 0 && j > 1 { RankOrder(rank(x), rank(s[0]), rank(s[j - 1])); }
      }
    } else {
      InsertSorted(x, s[1..], rank);
      InsertPermutes(x, s[1..], rank);
      var r := Insert(x, s[1..], rank);
      var t := [s[0]] + r;
      assert Insert(x, s, rank) == t;
      forall i, j | 0 <= i < j < |t| ensures RankLe(rank(t[i]), rank(t[j]))
      {
        if i == 0 {
          var y := r[j - 1];
          assert y in multiset(r);
          if y == x {
            RankOrder(rank(x), rank(s[0]), rank(x));
          } else {
            assert y in multiset(s[1..]);
            var m :| 0 <= m < |s[1..]| && s[1..][m] == y;
            assert s[m + 1] == y;
          }
        }
      }
    }
  }

  lemma {:induction false} InsertFilter<T>(x: T, s: seq<T>, rank: T -> Rank, k: Rank)
    ensures Filter(Insert(x, s, rank), rank, k) ==
      (if rank(x) == k then [x] else []) + Filter(s, rank, k)
  {
    var t := Insert(x, s, rank);
    if s == [] {
      assert t[1..] == [];
    } else if RankLe(rank(x), rank(s[0])) {
      assert t == [x] + s;
      assert t[1..] == s;
    } else {
      InsertFilter(x, s[1..], rank, k);
      var r := Insert(x, s[1..], rank);
      assert t == [s[0]] + r;
      assert t[1..] == r;
      assert rank(s[0]) != rank(x) by { RankOrder(rank(x), rank(s[0]), rank(x)); }
      assert s == [s[0]] + s[1..];
    }
  }

  lemma {:induction false} SortByPermutes<T>(s: seq<T>, rank: T -> Rank)
    ensures multiset(SortBy(s, rank)) == multiset(s)
    ensures |SortBy(s, rank)| == |s|
  {
    if s != [] {
      var r := SortBy(s[1..], rank);
      SortByPermutes(s[1..], rank);
      InsertPermutes(s[0], r, rank);
      assert s == [s[0]] + s[1..];
    }
  }

  lemma {:induction false} SortByOrders<T>(s: seq<T>, rank: T -> Rank)
    ensures Sorted(SortBy(s, rank), rank)
  {
    if s != [] {
      SortByOrders(s[1..], rank);
      InsertSorted(s[0], SortBy(s[1..], rank), rank);
    }
  }

  lemma {:induction false} SortByStable<T>(s: seq<T>, rank: T -> Rank)
    ensures SameOrderPerKey(SortBy(s, rank), s, rank)
  {
    if s != [] {
      var r := SortBy(s[1..], rank);
      SortByStable(s[1..], rank);
      assert SortBy(s, rank) == Insert(s[0], r, rank);
      forall k ensures Filter(SortBy(s, rank), rank, k) == Filter(s, rank, k)
      {
        InsertFilter(s[0], r, rank, k);
        assert Filter(r, rank, k) == Filter(s[1..], rank, k);
      }
    }
  }

  /** The sort returns a sorted permutation of its input that keeps the
      order of entries with equal keys. */
  lemma SortByCorrect<T>(s: seq<T>, rank: T -> Rank)
    ensures Sorted(SortBy(s, rank), rank)
    ensures multiset(SortBy(s, rank)) == multiset(s)
    ensures |SortBy(s, rank)| == |s|
    ensures SameOrderPerKey(SortBy(s, rank), s, rank)
  {
    SortByOrders(s, rank);
    SortByPermutes(s, rank);
    SortByStable(s, rank);
  }

  /** An input already in order is left as it is. */
  lemma {:induction false} SortBySorted<T>(s: seq<T>, rank: T -> Rank)
    requires Sorted(s, rank)
    ensures SortBy(s, rank) == s
  {
    if s != [] {
      assert Sorted(s[1..], rank);
      SortBySorted(s[1..], rank);
      if |s| > 1 {
        assert RankLe(rank(s[0]), rank(s[1]));
      }
      assert s == [s[0]] + s[1..];
    }
  }

  /** The first entry of the sorted sequence has the least key of all: no
      entry has less time left, and none with as little has a greater
      weight. */
  lemma SortByFirst<T>(s: seq<T>, rank: T -> Rank)
    requires s != []
    ensures SortBy(s, rank) != []
    ensures forall x :: x in s ==> RankLe(rank(SortBy(s, rank)[0]), rank(x))
  {
    SortByCorrect(s, rank);
    var r := SortBy(s, rank);
    forall x | x in s ensures RankLe(rank(r[0]), rank(x))
    {
      assert x in multiset(r);
      var j :| 0 <= j < |r| && r[j] == x;
      if j > 0 { assert RankLe(rank(r[0]), rank(r[j])); }
    }
  }

  // ---------------------------------------------------------------------
  // What a permutation keeps

  /** The image of every entry under `f`, in order (for the schedulers: the
      timer definitions behind their runtime states). */
  function Project<S, T>(s: seq<S>, f: S -> T): seq<T>
  {
    seq(|s|, i requires 0 <= i < |s| => f(s[i]))
  }

  lemma ProjectAppend<S, T>(a: seq<S>, b: seq<S>, f: S -> T)
    ensures Project(a + b, f) == Project(a, f) + Project(b, f)
  {
  }

  lemma ProjectRemoveAt<S, T>(b: seq<S>, j: nat, f: S -> T)
    requires j < |b|
    ensures multiset(b) == multiset(b[..j] + b[j + 1..]) + multiset{b[j]}
    ensures multiset(Project(b, f)) == multiset(Project(b[..j] + b[j + 1..], f)) + multiset{f(b[j])}
  {
    var l, x, r := b[..j], b[j], b[j + 1..];
    assert b == l + [x] + r;
    ProjectAppend(l, r, f);
    ProjectAppend(l + [x], r, f);
    ProjectAppend(l, [x], f);
    assert Project([x], f) == [f(x)];
  }

  lemma Cancel<S>(p: multiset<S>, q: multiset<S>, x: S)
    requires p + multiset{x} == q + multiset{x}
    ensures p == q
  {
    assert p == (p + multiset{x}) - multiset{x};
    assert q == (q + multiset{x}) - multiset{x};
  }

  /** Reordering the entries reorders their images: a permutation keeps the
      multiset of images. */
  lemma {:induction false} ProjectPermutation<S, T>(a: seq<S>, b: seq<S>, f: S -> T)
    requires multiset(a) == multiset(b)
    ensures multiset(Project(a, f)) == multiset(Project(b, f))
  {
    if a == [] {
      assert b == [] by { assert |multiset(b)| == 0; }
    } else {
      var x, ra := a[0], a[1..];
      assert x in multiset(b);
      var j :| 0 <= j < |b| && b[j] == x;
      var rb := b[..j] + b[j + 1..];
      ProjectRemoveAt(b, j, f);
      ProjectRemoveAt(a, 0, f);
      assert a[..0] + a[1..] == ra;
      Cancel(multiset(ra), multiset(rb), x);
      ProjectPermutation(ra, rb, f);
    }
  }
}
