/** internal/relay/relay.go: the expiring set of message ids, against its full history. */
module Dedup {
  type MessageId = string

  /** `id` was accepted at most `ttl` before `now`. */
  ghost predicate AcceptedWithin(history: set<(MessageId, int)>, id: MessageId, ttl: int, now: int) {
    exists t :: (id, t) in history && now - t <= ttl
  }

  /** Any two acceptances of one id are more than `ttl` apart. */
  ghost predicate Apart(history: set<(MessageId, int)>, ttl: int) {
    forall id, t, u :: (id, t) in history && (id, u) in history && t < u ==> u - t > ttl
  }

  class Deduper {
    const ttl: int
    var seen: map<MessageId, int>
    ghost var history: set<(MessageId, int)>
    ghost var last: int

    /** Entries are real acceptances, the latest of their id; whatever is missing has expired. */
    ghost predicate Valid()
      reads this
    {
      && (forall id :: id in seen ==> (id, seen[id]) in history)
      && (forall id, t :: (id, t) in history ==> t <= last)
      && (forall id, t :: (id, t) in history && last - t <= ttl ==> id in seen && t <= seen[id])
      && Apart(history, ttl)
    }

    constructor (ttl: int, start: int)
      ensures Valid() && this.ttl == ttl && history == {} && last == start
    {
      this.ttl := ttl;
      seen, history, last := map[], {}, start;
    }

    /** Reports a duplicate exactly when the id was accepted at most ttl ago; otherwise accepts it now. */
    method Seen(id: MessageId, now: int) returns (dup: bool)
      requires Valid() && last <= now
      modifies this
      ensures Valid() && last == now
      ensures dup <==> AcceptedWithin(old(history), id, ttl, now)
      ensures history == if dup then old(history) else old(history) + {(id, now)}
    {
      Prune(now);
      if id in seen {
        return true;
      }
      seen := seen[id := now];
      history := history + {(id, now)};
      return false;
    }

    /** The loop that deletes expired entries, in any order. */
    method Prune(now: int)
      requires Valid() && last <= now
      modifies this`seen, this`last
      ensures Valid() && last == now
      ensures seen == map k | k in old(seen) && now - old(seen)[k] <= ttl :: old(seen)[k]
    {
      var todo := seen.Keys;
      while todo != {}
        invariant todo <= old(seen).Keys && last == old(last)
        invariant seen == map k | k in old(seen) && (k in todo || now - old(seen)[k] <= ttl) :: old(seen)[k]
        decreases todo
      {
        var k :| k in todo;
        if now - seen[k] > ttl {
          seen := seen - {k};
        }
        todo := todo - {k};
      }
      last := now;
    }
  }

  /**
   A duplicate does not extend the window: an id stored at `t` is refused up to `t + ttl` and
   accepted at every later time, however often it was seen in between.
   */
  lemma WindowIsNotRefreshed(history: set<(MessageId, int)>, id: MessageId, ttl: nat, t: int, now: int)
    requires (id, t) in history && (forall u :: (id, u) in history ==> u <= t)
    ensures AcceptedWithin(history, id, ttl, now) <==> now <= t + ttl
  {
    if now <= t + ttl {
      assert (id, t) in history && now - t <= ttl;
    }
  }
}
