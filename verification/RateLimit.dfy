/** internal/security/crypto.go: the sliding-window limiter, against its full history. */
module RateLimit {
  import opened Prelude

  type Key = string

  ghost predicate Sorted(h: seq<int>) {
    forall i, j :: 0 <= i < j < |h| ==> h[i] <= h[j]
  }

  /** The times after `cut`. */
  function After(h: seq<int>, cut: int): seq<int> {
    if h == [] then []
    else if h[|h| - 1] > cut then After(h[..|h| - 1], cut) + [h[|h| - 1]]
    else After(h[..|h| - 1], cut)
  }

  /** The times in the interval (a, b]. */
  function Between(h: seq<int>, a: int, b: int): seq<int> {
    Keep(h, (t: int) => a < t <= b)
  }

  /** Any accepted call comes at least a window after the one `max` calls before it. */
  ghost predicate Spaced(h: seq<int>, max: int, window: int) {
    (max <= 0 ==> h == []) && forall i :: 0 <= i < |h| ==> SpacedAt(h, i, max, window)
  }

  ghost predicate SpacedAt(h: seq<int>, i: int, max: int, window: int) {
    0 < max <= i < |h| ==> h[i] - h[i - max] >= window
  }

  ghost predicate Allowed(h: seq<int>, max: int, window: int, now: int) {
    |After(h, now - window)| < max
  }

  function Times(m: map<Key, seq<int>>, key: Key): seq<int> {
    if key in m then m[key] else []
  }

  /** The first `n` times are no later than `cut`, the others are. */
  ghost predicate Split(h: seq<int>, n: nat, cut: int) {
    n <= |h| && (forall i :: 0 <= i < n ==> h[i] <= cut) && (forall i :: n <= i < |h| ==> h[i] > cut)
  }

  /** `kept` is what is left of `h` after dropping times no later than `last - window`. */
  ghost predicate Pruned(kept: seq<int>, h: seq<int>, last: int, window: int) {
    |kept| <= |h| && IsTail(kept, h) && forall i :: 0 <= i < |h| - |kept| ==> h[i] <= last - window
  }

  ghost predicate IsTail(kept: seq<int>, h: seq<int>) {
    exists front :: h == front + kept
  }

  ghost predicate Past(h: seq<int>, last: int) {
    forall i :: 0 <= i < |h| ==> h[i] <= last
  }

  ghost predicate KeyOk(kept: seq<int>, h: seq<int>, last: int, max: int, window: int) {
    Sorted(h) && Spaced(h, max, window) && Pruned(kept, h, last, window) && Past(h, last)
  }

  ghost predicate AllOk(attempts: map<Key, seq<int>>, accepted: map<Key, seq<int>>, last: int, max: int, window: int) {
    forall key :: KeyOk(Times(attempts, key), Times(accepted, key), last, max, window)
  }

  class RateLimiter {
    const max: int
    const window: nat
    var attempts: map<Key, seq<int>>
    ghost var accepted: map<Key, seq<int>>
    ghost var last: int

    ghost predicate Valid()
      reads this
    {
      AllOk(attempts, accepted, last, max, window)
    }

    constructor (max: int, window: nat, start: int)
      ensures Valid() && this.max == max && this.window == window && accepted == map[] && last == start
    {
      this.max, this.window := max, window;
      attempts, accepted, last := map[], map[], start;
      NothingYet(start, max, window);
    }

    /** Accepts exactly when fewer than `max` calls of the whole history fall in the window that ends now. */
    method Allow(key: Key, now: int) returns (ok: bool)
      requires Valid() && last <= now
      modifies this
      ensures Valid() && last == now
      ensures ok <==> Allowed(Times(old(accepted), key), max, window, now)
      ensures accepted == if ok then old(accepted)[key := Times(old(accepted), key) + [now]] else old(accepted)
    {
      var kept := Recent(Times(attempts, key), now - window);
      ok := |kept| < max;
      Decide(attempts, accepted, last, max, window, key, now, ok);
      if ok {
        kept := kept + [now];
        accepted := accepted[key := Times(accepted, key) + [now]];
      }
      attempts := attempts[key := kept];
      last := now;
    }

    /** The loop that rebuilds the list of one key. */
    method Recent(times: seq<int>, cut: int) returns (kept: seq<int>)
      ensures kept == After(times, cut)
    {
      kept := [];
      for i := 0 to |times|
        invariant kept == After(times[..i], cut)
      {
        TakeNext(times, i);
        KeepNext(times[..i], times[i], cut);
        if times[i] > cut {
          kept := kept + [times[i]];
        }
      }
      TakeAll(times);
    }
  }

  lemma KeepNext(h: seq<int>, t: int, cut: int)
    ensures After(h + [t], cut) == if t > cut then After(h, cut) + [t] else After(h, cut)
  {
    assert (h + [t])[..|h|] == h;
  }

  lemma {:induction false} AfterIsTail(h: seq<int>, n: nat, cut: int)
    requires Split(h, n, cut)
    ensures After(h, cut) == h[n..]
  {
    if h != [] {
      var k := |h| - 1;
      var front := h[..k];
      assert h == front + [h[k]];
      KeepNext(front, h[k], cut);
      AfterIsTail(front, if n <= k then n else k, cut);
    }
  }

  /** The first `n` times are no later than `cut`, for the largest such n. */
  lemma {:induction false} SplitExists(h: seq<int>, cut: int) returns (n: nat)
    requires Sorted(h)
    ensures Split(h, n, cut)
  {
    n := 0;
    while n < |h| && h[n] <= cut
      invariant n <= |h| && forall i :: 0 <= i < n ==> h[i] <= cut
    {
      n := n + 1;
    }
  }

  lemma TailSplit(front: seq<int>, kept: seq<int>, n: nat, cut: int)
    requires Split(front + kept, n, cut) && |front| <= n
    ensures Split(kept, n - |front|, cut) && kept[n - |front|..] == (front + kept)[n..]
  {
    var h, d := front + kept, |front|;
    forall i | 0 <= i < |kept| ensures kept[i] <= cut <==> i < n - d {
      assert kept[i] == h[d + i];
    }
  }

  lemma NothingYet(start: int, max: int, window: nat)
    ensures AllOk(map[], map[], start, max, window)
  {
    var none: seq<int> := [];
    assert none == none + none;
    assert IsTail(none, none);
  }

  lemma AfterTail(front: seq<int>, kept: seq<int>, cut: int)
    requires Sorted(front + kept) && Past(front, cut)
    ensures After(kept, cut) == After(front + kept, cut)
  {
    var h := front + kept;
    var n := SplitExists(h, cut);
    forall i | 0 <= i < |front| ensures h[i] <= cut {
      assert h[i] == front[i];
    }
    assert n < |h| ==> h[n] > cut;
    TailSplit(front, kept, n, cut);
    AfterIsTail(h, n, cut);
    AfterIsTail(kept, n - |front|, cut);
  }

  /** What the window keeps is a tail of the history. */
  lemma AfterIsPruned(h: seq<int>, window: nat, now: int)
    requires Sorted(h)
    ensures Pruned(After(h, now - window), h, now, window)
  {
    var n := SplitExists(h, now - window);
    AfterIsTail(h, n, now - window);
    assert h == h[..n] + h[n..];
  }

  /** Counting in the pruned list is counting in the history. */
  lemma PrunedCount(kept: seq<int>, h: seq<int>, last: int, window: nat, now: int)
    requires Sorted(h) && Pruned(kept, h, last, window) && last <= now
    ensures After(kept, now - window) == After(h, now - window)
    ensures Pruned(After(h, now - window), h, now, window)
  {
    var front :| h == front + kept;
    forall i | 0 <= i < |front| ensures front[i] <= now - window {
      assert front[i] == h[i];
    }
    AfterTail(front, kept, now - window);
    AfterIsPruned(h, window, now);
  }

  /** An acceptance keeps the spacing: the call `max` places earlier has left the window. */
  lemma SpacedNext(h: seq<int>, max: int, window: nat, now: int)
    requires Sorted(h) && Spaced(h, max, window) && Allowed(h, max, window, now)
    ensures Spaced(h + [now], max, window)
  {
    var cut := now - window;
    var n := SplitExists(h, cut);
    AfterIsTail(h, n, cut);
    var more := h + [now];
    forall i | 0 <= i < |more| ensures SpacedAt(more, i, max, window) {
      if i < |h| { assert SpacedAt(h, i, max, window); }
    }
  }

  lemma SortedNext(h: seq<int>, last: int, now: int)
    requires Sorted(h) && Past(h, last) && last <= now
    ensures Sorted(h + [now]) && Past(h + [now], now)
  {
  }

  lemma PrunedNext(kept: seq<int>, h: seq<int>, window: nat, now: int)
    requires Pruned(kept, h, now, window)
    ensures Pruned(kept + [now], h + [now], now, window)
  {
    var front :| h == front + kept;
    assert h + [now] == front + (kept + [now]);
  }

  lemma AcceptKeeps(kept: seq<int>, h: seq<int>, last: int, max: int, window: nat, now: int)
    requires KeyOk(kept, h, last, max, window) && last <= now && Allowed(h, max, window, now)
    ensures KeyOk(After(kept, now - window) + [now], h + [now], now, max, window)
  {
    PrunedCount(kept, h, last, window, now);
    SpacedNext(h, max, window, now);
    SortedNext(h, last, now);
    PrunedNext(After(h, now - window), h, window, now);
  }

  /** Time passing drops nothing that counts. */
  lemma Later(kept: seq<int>, h: seq<int>, last: int, now: int, max: int, window: nat)
    requires KeyOk(kept, h, last, max, window) && last <= now
    ensures KeyOk(kept, h, now, max, window)
  {
  }

  /** The decision on the pruned list is the decision on the history, and keeps every key's list in step. */
  lemma Decide(attempts: map<Key, seq<int>>, accepted: map<Key, seq<int>>, last: int, max: int, window: nat, key: Key,
               now: int, ok: bool)
    requires AllOk(attempts, accepted, last, max, window) && last <= now
    requires ok <==> |After(Times(attempts, key), now - window)| < max
    ensures ok <==> Allowed(Times(accepted, key), max, window, now)
    ensures ok ==> AllOk(attempts[key := After(Times(attempts, key), now - window) + [now]],
                         accepted[key := Times(accepted, key) + [now]], now, max, window)
    ensures !ok ==> AllOk(attempts[key := After(Times(attempts, key), now - window)], accepted, now, max, window)
  {
    var times, h := Times(attempts, key), Times(accepted, key);
    assert KeyOk(times, h, last, max, window);
    PrunedCount(times, h, last, window, now);
    var kept := After(times, now - window);
    if ok {
      AcceptKeeps(times, h, last, max, window, now);
      OneKey(attempts, accepted, last, max, window, key, now, kept + [now], accepted[key := h + [now]]);
    } else {
      Later(times, h, last, now, max, window);
      OneKey(attempts, accepted, last, max, window, key, now, kept, accepted);
    }
  }

  lemma OneKey(attempts: map<Key, seq<int>>, accepted: map<Key, seq<int>>, last: int, max: int, window: nat, key: Key,
               now: int,
               kept: seq<int>, accepted': map<Key, seq<int>>)
    requires AllOk(attempts, accepted, last, max, window) && last <= now
    requires accepted' == accepted || accepted' == accepted[key := Times(accepted', key)]
    requires KeyOk(kept, Times(accepted', key), now, max, window)
    ensures AllOk(attempts[key := kept], accepted', now, max, window)
  {
    forall k ensures KeyOk(Times(attempts[key := kept], k), Times(accepted', k), now, max, window) {
      if k != key {
        assert KeyOk(Times(attempts, k), Times(accepted, k), last, max, window);
        Later(Times(attempts, k), Times(accepted, k), last, now, max, window);
        assert Times(attempts[key := kept], k) == Times(attempts, k) && Times(accepted', k) == Times(accepted, k);
      }
    }
  }

  lemma Apart(h: seq<int>, i: nat, j: nat, max: nat, window: nat)
    requires Sorted(h) && Spaced(h, max, window) && max > 0 && i + max <= j < |h|
    ensures h[j] - h[i] >= window
  {
    assert SpacedAt(h, j, max, window);
    assert i < j - max ==> h[i] <= h[j - max];
  }

  /**
   Over the whole life of a limiter, no interval of one window's length holds more than
   `max` accepted calls for a key.
   */
  lemma NoBurst(h: seq<int>, max: int, window: nat, a: int)
    requires Sorted(h) && Spaced(h, max, window)
    ensures |Between(h, a, a + window)| <= if max > 0 then max else 0
  {
    if max > 0 && |Between(h, a, a + window)| > max {
      var i, j := KeepOrder(h, (t: int) => a < t <= a + window, 0, max);
      Apart(h, i, j, max, window);
    }
  }

  /** The same of a limiter in use. */
  lemma NoIntervalExceedsTheLimit(r: RateLimiter, key: Key, a: int)
    requires r.Valid()
    ensures |Between(Times(r.accepted, key), a, a + r.window)| <= if r.max > 0 then r.max else 0
  {
    assert KeyOk(Times(r.attempts, key), Times(r.accepted, key), r.last, r.max, r.window);
    NoBurst(Times(r.accepted, key), r.max, r.window, a);
  }
}
