/**
 Decaying items: four buckets are visited in turn, one every quarter of a second, and each item waits
 in the bucket whose visit comes nearest to the end of its duration.
 */
module DecayWheel {

  const INTERVAL := 250
  const BUCKETS := 4
  // the milliseconds between two visits to the same bucket
  const TURN := 1000

  /** What an item becomes when its time is up: nothing, a type that does not decay, or a type that does. */
  datatype Future = Vanish | Stay | Then(duration: nat, next: Future)

  ghost predicate Proper(f: Future) {
    f.Then? ==> f.duration > 0 && Proper(f.next)
  }

  /** How many visits after this one an item that has d milliseconds left when the visit starts will end. */
  ghost function Rest(d: nat): nat {
    if d <= TURN then 0
    else if d - TURN < TURN then (d - TURN + INTERVAL / 2) / 1000
    else BUCKETS + Rest(d - TURN)
  }

  /** The visit, counted from the one after which it is placed, that ends an item with d milliseconds. */
  ghost function Tick(d: nat): nat {
    if d < TURN then 1 else 4 * (d / 1000) + if d % 1000 >= 875 then 1 else 0
  }

  lemma {:induction false} RestIsTick(d: nat)
    requires d >= TURN
    ensures BUCKETS + Rest(d) == Tick(d)
    decreases d
  {
    if d - TURN >= TURN {
      RestIsTick(d - TURN);
      assert d / 1000 == (d - TURN) / 1000 + 1 && d % 1000 == (d - TURN) % 1000;
    }
  }

  /** An item ends less than a quarter of a second late and less than seven eighths of a second early. */
  lemma {:induction false} TickBound(d: nat)
    requires d > 0
    ensures d - 875 < INTERVAL * Tick(d) < d + 250
  {
    assert d == 1000 * (d / 1000) + d % 1000;
  }

  /** The visits the rest of an item's life takes. */
  ghost function Total(f: Future): nat {
    if f.Then? then Tick(f.duration) + Total(f.next) else 0
  }

  /** The first visit after visit t that is to bucket b. */
  ghost function NextVisit(b: nat, t: nat): nat {
    t + 1 + (b - (t + 1)) % BUCKETS
  }

  lemma {:induction false} NextVisits(b: nat, t: nat)
    requires b < BUCKETS && t > 0
    ensures NextVisit(b, t - 1) == if b == t % BUCKETS then t else NextVisit(b, t)
    ensures b == t % BUCKETS ==> NextVisit(b, t) == t + BUCKETS
  {
    var q, r := t / BUCKETS, t % BUCKETS;
    assert t == 4 * q + r;
    assert (b - t) % 4 == (b - r) % 4 && (b - (t + 1)) % 4 == (b - r - 1) % 4;
  }

  /** The visits still to come before and after visit t, for an item that has d milliseconds left. */
  lemma {:induction false} OneVisitLess(bucket: nat, t: nat, d: nat)
    requires bucket == t % BUCKETS && d > 0
    ensures var left := d - if INTERVAL * BUCKETS < d then INTERVAL * BUCKETS else d;
            var newBucket := (bucket + (left + INTERVAL / 2) / 1000) % BUCKETS;
            if left == 0 then Rest(d) == 0
            else if left < INTERVAL * BUCKETS then
              if newBucket == bucket then Rest(d) == 0
              else Rest(d) == 1 && NextVisit(newBucket, t) == t + 1 && Rest(left) == 0
            else Rest(d) == BUCKETS + Rest(left)
  {
    if TURN < d < 2 * TURN {
      var moved := (d - TURN + INTERVAL / 2) / 1000;
      assert moved == 0 || moved == 1;
      if moved == 1 {
        NextBucket(bucket, t);
      }
    }
  }

  lemma {:induction false} NextBucket(bucket: nat, t: nat)
    requires bucket == t % BUCKETS
    ensures (bucket + 1) % BUCKETS != bucket && NextVisit((bucket + 1) % BUCKETS, t) == t + 1
  {
  }

  /** An item put into a bucket after visit t ends with visit t + Tick of its duration. */
  lemma {:induction false} FirstDeadline(lastBucket: nat, t: nat, dur: nat)
    requires lastBucket == t % BUCKETS
    ensures var bucket := if dur >= INTERVAL * BUCKETS then lastBucket else (lastBucket + 1 + dur / 1000) % BUCKETS;
            t + Tick(dur) == NextVisit(bucket, t) + Rest(dur)
  {
    if dur >= TURN {
      RestIsTick(dur);
      NextVisits(lastBucket, t + 1);
    } else {
      assert dur / 1000 == 0;
    }
  }

  // where an item is queued: in a bucket, among the items just started, or nowhere
  const STARTED := 4
  const NOWHERE := -1

  class DecayItem {
    var duration: nat
    var decaying: bool
    var canDecay: bool
    var references: int
    var future: Future
    ghost var place: int
    // references taken by others than the wheel
    ghost var held: int
    // the next visit to its bucket, the visit that ends it, and the one that has ended it
    ghost var nextVisit: int
    ghost var deadline: int
    ghost var endedAt: int

    constructor (duration: nat, future: Future)
      ensures this.duration == duration && this.future == future && !decaying && canDecay
      ensures references == held && place == NOWHERE
    {
      this.duration, this.future, decaying, canDecay := duration, future, false, true;
      // the parent's reference
      references, held := 1, 1;
      place, nextVisit, deadline, endedAt := NOWHERE, 0, 0, 0;
    }

    /**
      At visit t: what is queued is marked as decaying, has time left and holds one reference, and so does
      each of n releases still to come; the deadline follows from the next visit and the time left, and the
      next visit is the first one to the item's bucket, unless that is the bucket just visited.
      */
    ghost predicate Settled(n: nat, visited: int, t: nat)
      reads this
    {
      && Proper(future) && (place != NOWHERE ==> decaying && duration > 0)
      && references == held + (if place != NOWHERE then 1 else 0) + n
      && (0 <= place < BUCKETS ==> deadline == nextVisit + Rest(duration))
      && (0 <= place < BUCKETS && place != visited ==> nextVisit == NextVisit(place, t))
    }

    /** Item::setID: another type with its own duration. */
    method SetID(duration: nat, future: Future)
      modifies this`duration, this`decaying, this`future
      ensures this.duration == duration && !decaying && this.future == future
    {
      this.duration, decaying, this.future := duration, false, future;
    }
  }

  /** The list holds exactly the items queued at place b, once each. */
  ghost predicate Listed(items: set<DecayItem>, list: seq<DecayItem>, b: int)
    reads items`place
  {
    && (forall i, j :: 0 <= i < j < |list| ==> list[i] != list[j])
    && (forall x :: x in list ==> x in items && x.place == b)
    && forall x :: x in items && x.place == b ==> x in list
  }

  lemma {:induction false} ListedWithout(items: set<DecayItem>, list: seq<DecayItem>, it: nat, b: int)
    requires it < |list| && list[it].place != b
    requires forall i, j :: 0 <= i < j < |list| ==> list[i] != list[j]
    requires forall x :: x in list && x != list[it] ==> x in items && x.place == b
    requires forall x :: x in items && x.place == b ==> x in list
    ensures Listed(items, list[..it] + list[it + 1..], b)
  {
    assert forall x :: x in list && x != list[it] ==> x in list[..it] + list[it + 1..];
  }

  lemma {:induction false} Spliced(list: seq<DecayItem>, it: nat)
    requires it < |list| && forall i, j :: 0 <= i < j < |list| ==> list[i] != list[j]
    ensures (list[..it] + list[it + 1..])[..it] == list[..it] && (list[..it] + list[it + 1..])[it..] == list[it + 1..]
    ensures list[it] !in list[..it] && list[it] !in list[it + 1..]
    ensures forall x :: x in list[it + 1..] ==> x in list[it..]
  {
    assert list[it..] == [list[it]] + list[it + 1..];
  }

  lemma {:induction false} SameTail(a: seq<DecayItem>, i: nat, b: seq<DecayItem>, j: nat)
    requires i < |a| && j <= |b| && a[i..] == b[j..]
    ensures j < |b| && a[i] == b[j] && a[i + 1..] == b[j + 1..]
  {
    assert |b[j..]| > 0;
    assert a[i] == a[i..][0] && a[i + 1..] == a[i..][1..];
    assert b[j] == b[j..][0] && b[j + 1..] == b[j..][1..];
  }

  lemma {:induction false} NextOf(list: seq<DecayItem>, n: nat)
    requires n < |list| && forall i, j :: 0 <= i < j < |list| ==> list[i] != list[j]
    ensures list[n] !in list[..n] && forall x :: x in list[..n + 1] <==> x in list[..n] || x == list[n]
  {
    assert list[..n + 1] == list[..n] + [list[n]];
  }

  class Game {
    var decayItems: seq<seq<DecayItem>>
    var toDecayItems: seq<DecayItem>
    var toReleaseItems: seq<DecayItem>
    var lastBucket: nat
    ghost var items: set<DecayItem>
    ghost var now: nat

    /** Every queue holds the items that are to be there. */
    ghost predicate Queued()
      reads this`decayItems, this`toDecayItems, this`items, items`place
    {
      && |decayItems| == BUCKETS
      && (forall b :: 0 <= b < BUCKETS ==> Listed(items, decayItems[b], b))
      && Listed(items, toDecayItems, STARTED)
      && forall x :: x in items ==> NOWHERE <= x.place <= STARTED
    }

    /** Every item's own fields agree, and nothing else is still to be released. */
    ghost predicate Settled(releases: multiset<DecayItem>, visited: int, t: nat)
      reads this`items, items
    {
      && (forall x :: x in releases ==> x in items)
      && forall x :: x in items ==> x.Settled(releases[x], visited, t)
    }

    ghost predicate Valid()
      reads this, items
    {
      Queued() && Settled(multiset(toReleaseItems), NOWHERE, now) && lastBucket == now % BUCKETS
    }

    constructor ()
      ensures Valid() && items == {} && now == 0
    {
      decayItems, toDecayItems, toReleaseItems, lastBucket := [[], [], [], []], [], [], 0;
      items, now := {}, 0;
    }

    /** A new item of the world, not yet decaying. */
    method CreateItem(duration: nat, future: Future) returns (x: DecayItem)
      requires Valid() && Proper(future)
      modifies this`items
      ensures Valid() && fresh(x) && items == old(items) + {x}
      ensures x.canDecay && !x.decaying && x.duration == duration && x.future == future && x.place == NOWHERE
    {
      x := new DecayItem(duration, future);
      ListedToo(x);
      items := items + {x};
    }

    lemma {:induction false} ListedToo(x: DecayItem)
      requires Queued() && x.place == NOWHERE
      ensures forall b :: 0 <= b < BUCKETS ==> Listed(items + {x}, decayItems[b], b)
      ensures Listed(items + {x}, toDecayItems, STARTED)
    {
    }

    method ReleaseItem(x: DecayItem)
      modifies this`toReleaseItems
      ensures toReleaseItems == old(toReleaseItems) + [x]
    {
      toReleaseItems := toReleaseItems + [x];
    }

    /** Game::startDecay; t is the visit going on or last made, and visited the bucket it goes through, if any. */
    method StartDecay(x: DecayItem, ghost visited: int, ghost t: nat, ghost releases: multiset<DecayItem>)
      requires Queued() && Settled(releases, visited, t) && x in items
      modifies this`toDecayItems, x`references, x`decaying, x`place, x`duration, x`future, x`canDecay, x`endedAt
      ensures Queued() && Settled(releases, visited, t)
      ensures !old(x.canDecay) || old(x.decaying) ==> Same(x) && x.place == old(x.place)
      ensures old(x.canDecay) && !old(x.decaying) && old(x.duration) > 0 ==>
                x.place == STARTED && x.canDecay
                && x.duration == old(x.duration) && x.future == old(x.future) && x.endedAt == old(x.endedAt)
      ensures old(x.canDecay) && !old(x.decaying) && old(x.duration) == 0 ==> Ended(x, t)
      decreases x.future, 1
    {
      if !x.canDecay {
        return;
      }
      if x.decaying {
        return;
      }
      if x.duration > 0 {
        x.references := x.references + 1;
        x.decaying := true;
        x.place := STARTED;
        toDecayItems := [x] + toDecayItems;
      } else {
        InternalDecayItem(x, visited, t, releases);
      }
    }

    twostate predicate Same(x: DecayItem)
      reads x
    {
      && x.duration == old(x.duration) && x.decaying == old(x.decaying) && x.canDecay == old(x.canDecay)
      && x.references == old(x.references) && x.future == old(x.future) && x.endedAt == old(x.endedAt)
    }

    /** The item went on to its next type, if any. */
    twostate predicate Ended(x: DecayItem, t: nat)
      reads x
    {
      if old(x.future).Then? then
        x.place == STARTED && x.canDecay
        && x.duration == old(x.future).duration && x.future == old(x.future).next && x.endedAt == old(x.endedAt)
      else
        x.place == NOWHERE && !x.canDecay && x.endedAt == t
    }

    /** Game::internalDecayItem. */
    method InternalDecayItem(x: DecayItem, ghost visited: int, ghost t: nat, ghost releases: multiset<DecayItem>)
      requires Queued() && Settled(releases, visited, t) && x in items && x.canDecay && x.place == NOWHERE
      modifies this`toDecayItems, x`references, x`decaying, x`place, x`duration, x`future, x`canDecay, x`endedAt
      ensures Queued() && Settled(releases, visited, t)
      ensures Ended(x, t)
      decreases x.future, 0
    {
      match x.future
      case Then(duration, next) =>
        x.SetID(duration, next);
        StartDecay(x, visited, t, releases);
      case _ =>
        x.canDecay, x.endedAt := false, t;
    }

    /** Game::cleanup: references are given back, and the items just started are put into buckets. */
    method Cleanup()
      requires Valid()
      modifies this`decayItems, this`toDecayItems, this`toReleaseItems
      modifies items`references, items`place, items`deadline, items`nextVisit
      ensures Valid() && toDecayItems == [] && toReleaseItems == []
      ensures forall x :: x in items ==> Placed(x)
    {
      GiveAllBack();
      PutAllInBuckets();
    }

    method GiveAllBack()
      requires Valid()
      modifies this`toReleaseItems, items`references
      ensures Valid() && toReleaseItems == []
    {
      while toReleaseItems != []
        invariant Valid()
        decreases |toReleaseItems|
      {
        assert toReleaseItems[0] in multiset(toReleaseItems);
        GiveBack();
      }
    }

    method PutAllInBuckets()
      requires Valid()
      modifies this`decayItems, this`toDecayItems, items`place, items`deadline, items`nextVisit
      ensures Valid() && toDecayItems == []
      ensures forall x :: x in items ==> Placed(x)
    {
      while toDecayItems != []
        invariant Valid()
        invariant forall x :: x in items ==> PlacedSoFar(x)
        decreases |toDecayItems|
      {
        ghost var x := toDecayItems[0];
        assert x in toDecayItems && x.place == STARTED;
        PutInBucket();
        assert Placed(x);
      }
    }

    twostate predicate PlacedSoFar(x: DecayItem)
      reads this`now, x`place, x`deadline, x`duration
    {
      if x.place == STARTED then old(x.place) == STARTED else Placed(x)
    }

    twostate predicate Placed(x: DecayItem)
      reads this`now, x`place, x`deadline, x`duration
    {
      if old(x.place) == STARTED then 0 <= x.place < BUCKETS && x.deadline == now + Tick(x.duration)
      else x.place == old(x.place) && x.deadline == old(x.deadline)
    }

    method GiveBack()
      requires Valid() && toReleaseItems != []
      modifies this`toReleaseItems, {toReleaseItems[0]}`references
      ensures Valid() && toReleaseItems == old(toReleaseItems)[1..]
    {
      var x := toReleaseItems[0];
      ghost var releases := multiset(toReleaseItems[1..]);
      assert toReleaseItems == [x] + toReleaseItems[1..];
      assert multiset(toReleaseItems) == releases + multiset{x};
      toReleaseItems := toReleaseItems[1..];
      Release(x, releases);
    }

    method Release(x: DecayItem, ghost releases: multiset<DecayItem>)
      requires Settled(releases + multiset{x}, NOWHERE, now)
      modifies x`references
      ensures Settled(releases, NOWHERE, now)
    {
      assert x in releases + multiset{x};
      x.references := x.references - 1;
    }

    method PutInBucket()
      requires Valid() && toDecayItems != []
      modifies this`decayItems, this`toDecayItems, {toDecayItems[0]}`place, {toDecayItems[0]}`deadline,
               {toDecayItems[0]}`nextVisit
      ensures Valid() && toDecayItems == old(toDecayItems)[1..]
      ensures var x := old(toDecayItems)[0];
              0 <= x.place < BUCKETS && x.deadline == now + Tick(x.duration) && old(x.place) == STARTED
    {
      var x := toDecayItems[0];
      var dur := x.duration;
      var bucket := if dur >= INTERVAL * BUCKETS then lastBucket else (lastBucket + 1 + dur / 1000) % BUCKETS;
      FirstDeadline(lastBucket, now, dur);
      PlaceStarted(bucket, now + Tick(dur), multiset(toReleaseItems));
    }

    method PlaceStarted(bucket: nat, ghost deadline: int, ghost releases: multiset<DecayItem>)
      requires Queued() && Settled(releases, NOWHERE, now) && toDecayItems != [] && bucket < BUCKETS
      requires deadline == NextVisit(bucket, now) + Rest(toDecayItems[0].duration)
      modifies this`decayItems, this`toDecayItems, {toDecayItems[0]}`place, {toDecayItems[0]}`deadline,
               {toDecayItems[0]}`nextVisit
      ensures Queued() && Settled(releases, NOWHERE, now) && toDecayItems == old(toDecayItems)[1..]
      ensures var x := old(toDecayItems)[0]; x.place == bucket && x.deadline == deadline && old(x.place) == STARTED
    {
      var x := toDecayItems[0];
      PopStarted(releases, NOWHERE, now);
      Enqueue(bucket, x, deadline, releases, NOWHERE, now);
    }

    /** Puts an item that is in no queue into a bucket, to end at the given visit. */
    method Enqueue(bucket: nat, x: DecayItem, ghost deadline: int, ghost releases: multiset<DecayItem>,
                   ghost visited: int, ghost t: nat)
      requires Queued() && Settled(releases + multiset{x}, visited, t)
      requires bucket < BUCKETS && bucket != visited && x in items && x.place == NOWHERE && x.decaying && x.duration > 0
      requires deadline == NextVisit(bucket, t) + Rest(x.duration)
      modifies this`decayItems, x`place, x`deadline, x`nextVisit
      ensures Queued() && decayItems == old(decayItems)[bucket := old(decayItems)[bucket] + [x]]
      ensures Settled(releases, visited, t) && x.place == bucket && x.deadline == deadline
    {
      Schedule(x, deadline, NextVisit(bucket, t), releases + multiset{x}, visited, t);
      PushBack(bucket, x, releases, visited, t);
    }

    /** Takes the first item just started out of its queue, which leaves its reference to the caller. */
    method PopStarted(ghost releases: multiset<DecayItem>, ghost visited: int, ghost t: nat)
      requires Queued() && toDecayItems != [] && Settled(releases, visited, t)
      modifies this`toDecayItems, {toDecayItems[0]}`place
      ensures Queued() && toDecayItems == old(toDecayItems)[1..] && old(toDecayItems)[0] in items
      ensures old(toDecayItems)[0].place == NOWHERE && old(toDecayItems[0].place) == STARTED
      ensures old(toDecayItems[0].decaying) && old(toDecayItems[0].duration) > 0
      ensures Settled(releases + multiset{old(toDecayItems)[0]}, visited, t)
    {
      ghost var x := toDecayItems[0];
      assert x in toDecayItems;
      assert forall y :: y in toDecayItems && y != x ==> y in toDecayItems[1..];
      toDecayItems := toDecayItems[1..];
      Leave(x, releases, visited, t);
    }

    method PushBack(bucket: nat, x: DecayItem, ghost releases: multiset<DecayItem>, ghost visited: int, ghost t: nat)
      requires Queued() && Settled(releases + multiset{x}, visited, t)
      requires bucket < BUCKETS && bucket != visited && x in items && x.place == NOWHERE && x.decaying && x.duration > 0
      requires x.deadline == x.nextVisit + Rest(x.duration) && x.nextVisit == NextVisit(bucket, t)
      modifies this`decayItems, x`place
      ensures Queued() && decayItems == old(decayItems)[bucket := old(decayItems)[bucket] + [x]] && x.place == bucket
      ensures Settled(releases, visited, t)
    {
      decayItems := decayItems[bucket := decayItems[bucket] + [x]];
      Enter(x, bucket, releases, visited, t);
    }

    ghost method Schedule(x: DecayItem, deadline: int, nextVisit: int, releases: multiset<DecayItem>,
                          visited: int, t: nat)
      requires Settled(releases, visited, t) && x in items && x.place == NOWHERE
      modifies x`deadline, x`nextVisit
      ensures Settled(releases, visited, t) && x.deadline == deadline && x.nextVisit == nextVisit
    {
      x.deadline, x.nextVisit := deadline, nextVisit;
    }

    method Shorten(x: DecayItem, duration: nat, ghost releases: multiset<DecayItem>, ghost visited: int, ghost t: nat)
      requires Settled(releases, visited, t) && x in items && x.place == NOWHERE
      modifies x`duration
      ensures Settled(releases, visited, t) && x.duration == duration
    {
      x.duration := duration;
    }

    ghost method Leave(x: DecayItem, releases: multiset<DecayItem>, visited: int, t: nat)
      requires Settled(releases, visited, t) && x in items && x.place != NOWHERE
      modifies x`place
      ensures Settled(releases + multiset{x}, visited, t) && x.place == NOWHERE
    {
      x.place := NOWHERE;
    }

    ghost method Enter(x: DecayItem, bucket: nat, releases: multiset<DecayItem>, visited: int, t: nat)
      requires Settled(releases + multiset{x}, visited, t)
      requires bucket < BUCKETS && bucket != visited && x in items && x.place == NOWHERE && x.decaying && x.duration > 0
      requires x.deadline == x.nextVisit + Rest(x.duration) && x.nextVisit == NextVisit(bucket, t)
      modifies x`place
      ensures Settled(releases, visited, t) && x.place == bucket
    {
      x.place := bucket;
    }

    // ----- one visit

    /** At visit t, the first it items of the bucket have been seen. */
    ghost predicate Turning(bucket: nat, it: nat, t: nat)
      reads this, items
    {
      && Queued() && Settled(multiset(toReleaseItems), bucket, t)
      && bucket == t % BUCKETS && HalfSeen(decayItems[bucket], it, t)
    }

    /** The items of the bucket that have been seen wait for its next visit, and the others for this one. */
    static ghost predicate HalfSeen(list: seq<DecayItem>, it: nat, t: nat)
      reads list`nextVisit
    {
      it <= |list| && NextIs(list[..it], t + BUCKETS) && NextIs(list[it..], t)
    }

    static ghost predicate NextIs(list: seq<DecayItem>, v: nat)
      reads list`nextVisit
    {
      forall x :: x in list ==> x.nextVisit == v
    }

    /** Takes an item out of the bucket that is visited, which leaves its reference to the caller. */
    method Erase(bucket: nat, it: nat, ghost releases: multiset<DecayItem>, ghost t: nat)
      requires bucket < BUCKETS && Queued() && it < |decayItems[bucket]| && Settled(releases, bucket, t)
      modifies this`decayItems, {decayItems[bucket][it]}`place
      ensures Queued() && old(decayItems[bucket][it]) in items && old(decayItems[bucket][it]).place == NOWHERE
      ensures decayItems == old(decayItems)[bucket := old(decayItems[bucket][..it]) + old(decayItems[bucket][it + 1..])]
      ensures Settled(releases + multiset{old(decayItems[bucket][it])}, bucket, t)
    {
      var list := decayItems[bucket];
      ghost var x := list[it];
      assert x in list;
      decayItems := decayItems[bucket := list[..it] + list[it + 1..]];
      Leave(x, releases, bucket, t);
      ListedWithout(items, list, it, bucket);
    }

    method TakeOut(bucket: nat, it: nat, ghost t: nat)
      requires Turning(bucket, it, t) && it < |decayItems[bucket]|
      modifies this`decayItems, {decayItems[bucket][it]}`place
      ensures Queued() && HalfSeen(decayItems[bucket], it, t)
      ensures Settled(multiset(toReleaseItems) + multiset{old(decayItems[bucket][it])}, bucket, t)
      ensures old(decayItems[bucket][it]) in items && old(decayItems[bucket][it]).place == NOWHERE
      ensures old(decayItems[bucket][it]) !in decayItems[bucket]
      ensures decayItems[bucket][it..] == old(decayItems[bucket][it + 1..])
    {
      Spliced(decayItems[bucket], it);
      Erase(bucket, it, multiset(toReleaseItems), t);
    }

    /** What visit t does to an item of its bucket. */
    static ghost predicate Fate(x: DecayItem, could: bool, deadline: int, future: Future, t: nat)
      reads x
    {
      if !could then x.place == NOWHERE && !x.decaying && x.future == future
      else if deadline == t then
        if future.Then? then x.place == STARTED && x.canDecay && x.duration == future.duration
          && x.future == future.next
        else x.place == NOWHERE && !x.canDecay && x.endedAt == t
      else deadline > t && 0 <= x.place < BUCKETS && x.canDecay && x.deadline == deadline && x.future == future
    }

    /** The loop body of Game::checkDecay. */
    method Visit(bucket: nat, it: nat, ghost t: nat) returns (it': nat)
      requires Turning(bucket, it, t) && it < |decayItems[bucket]|
      modifies this`decayItems, this`toDecayItems, this`toReleaseItems, {decayItems[bucket][it]}
      ensures Turning(bucket, it', t)
      ensures decayItems[bucket][it'..] == old(decayItems[bucket][it + 1..])
      ensures var x := old(decayItems[bucket][it]); Fate(x, old(x.canDecay), old(x.deadline), old(x.future), t)
    {
      it' := it;
      if !decayItems[bucket][it].canDecay {
        Drop(bucket, it, t);
      } else {
        it' := Wear(bucket, it, t);
      }
    }

    /** The visit of an item that can decay. */
    method Wear(bucket: nat, it: nat, ghost t: nat) returns (it': nat)
      requires Turning(bucket, it, t) && it < |decayItems[bucket]| && decayItems[bucket][it].canDecay
      modifies this`decayItems, this`toDecayItems, this`toReleaseItems, {decayItems[bucket][it]}
      ensures Turning(bucket, it', t)
      ensures decayItems[bucket][it'..] == old(decayItems[bucket][it + 1..])
      ensures var x := old(decayItems[bucket][it]); Fate(x, true, old(x.deadline), old(x.future), t)
    {
      var item := decayItems[bucket][it];
      it' := it;
      assert item in decayItems[bucket][it..] && item in decayItems[bucket];
      var duration := item.duration;
      var decreaseTime := if INTERVAL * BUCKETS < duration then INTERVAL * BUCKETS else duration;
      OneVisitLess(bucket, t, duration);
      duration := duration - decreaseTime;
      if duration <= 0 {
        Expire(bucket, it, t);
      } else if duration < INTERVAL * BUCKETS {
        var newBucket := (bucket + (duration + INTERVAL / 2) / 1000) % BUCKETS;
        if newBucket == bucket {
          Expire(bucket, it, t);
        } else {
          Move(bucket, it, newBucket, duration, t);
        }
      } else {
        Keep(bucket, it, duration, t);
        it' := it + 1;
      }
    }

    method Keep(bucket: nat, it: nat, duration: nat, ghost t: nat)
      requires Turning(bucket, it, t) && it < |decayItems[bucket]|
      requires duration > 0 && decayItems[bucket][it].deadline == t + BUCKETS + Rest(duration)
      modifies {decayItems[bucket][it]}`duration, {decayItems[bucket][it]}`nextVisit
      ensures Turning(bucket, it + 1, t)
    {
      var item := decayItems[bucket][it];
      assert item in decayItems[bucket];
      assert decayItems[bucket][..it + 1] == decayItems[bucket][..it] + [item];
      assert decayItems[bucket][it..] == [item] + decayItems[bucket][it + 1..];
      item.duration, item.nextVisit := duration, t + BUCKETS;
    }

    method Drop(bucket: nat, it: nat, ghost t: nat)
      requires Turning(bucket, it, t) && it < |decayItems[bucket]|
      modifies this`decayItems, this`toReleaseItems, {decayItems[bucket][it]}`place, {decayItems[bucket][it]}`decaying
      ensures Turning(bucket, it, t) && decayItems[bucket][it..] == old(decayItems[bucket][it + 1..])
      ensures var x := old(decayItems[bucket][it]); x.place == NOWHERE && !x.decaying
    {
      var item := decayItems[bucket][it];
      TakeOut(bucket, it, t);
      LetGo(item, bucket, t);
    }

    method LetGo(item: DecayItem, ghost visited: int, ghost t: nat)
      requires Settled(multiset(toReleaseItems) + multiset{item}, visited, t) && item in items && item.place == NOWHERE
      modifies this`toReleaseItems, item`decaying
      ensures Settled(multiset(toReleaseItems), visited, t) && !item.decaying
    {
      ghost var releases := multiset(toReleaseItems);
      item.decaying := false;
      ReleaseItem(item);
      assert multiset(toReleaseItems) == releases + multiset{item};
    }

    /** The item is over: it goes on to its next type, and the wheel lets go of it. */
    method Expire(bucket: nat, it: nat, ghost t: nat)
      requires Turning(bucket, it, t) && it < |decayItems[bucket]| && decayItems[bucket][it].canDecay
      modifies this`decayItems, this`toDecayItems, this`toReleaseItems, {decayItems[bucket][it]}
      ensures Turning(bucket, it, t) && decayItems[bucket][it..] == old(decayItems[bucket][it + 1..])
      ensures var x := old(decayItems[bucket][it]); Fate(x, true, t, old(x.future), t)
    {
      var item := decayItems[bucket][it];
      TakeOut(bucket, it, t);
      Fire(item, bucket, t);
    }

    method Fire(item: DecayItem, ghost visited: int, ghost t: nat)
      requires Queued() && Settled(multiset(toReleaseItems) + multiset{item}, visited, t)
      requires item in items && item.canDecay && item.place == NOWHERE
      modifies this`toDecayItems, this`toReleaseItems, item
      ensures Queued() && Settled(multiset(toReleaseItems), visited, t)
      ensures Fate(item, true, t, old(item.future), t) && item.nextVisit == old(item.nextVisit)
    {
      ghost var releases := multiset(toReleaseItems) + multiset{item};
      InternalDecayItem(item, visited, t, releases);
      ReleaseItem(item);
      assert multiset(toReleaseItems) == releases;
    }

    method Move(bucket: nat, it: nat, newBucket: nat, duration: nat, ghost t: nat)
      requires Turning(bucket, it, t) && it < |decayItems[bucket]| && newBucket < BUCKETS && newBucket != bucket
      requires duration > 0 && decayItems[bucket][it].deadline == NextVisit(newBucket, t) + Rest(duration)
      modifies this`decayItems, {decayItems[bucket][it]}`place, {decayItems[bucket][it]}`duration
      modifies {decayItems[bucket][it]}`deadline, {decayItems[bucket][it]}`nextVisit
      ensures Turning(bucket, it, t) && decayItems[bucket][it..] == old(decayItems[bucket][it + 1..])
      ensures var x := old(decayItems[bucket][it]);
              x.place == newBucket && x.deadline == old(x.deadline)
    {
      var item := decayItems[bucket][it];
      ghost var releases := multiset(toReleaseItems);
      assert item in decayItems[bucket];
      TakeOut(bucket, it, t);
      Requeue(newBucket, item, duration, releases, bucket, t);
    }

    method Requeue(newBucket: nat, item: DecayItem, duration: nat, ghost releases: multiset<DecayItem>,
                   ghost visited: int, ghost t: nat)
      requires Queued() && Settled(releases + multiset{item}, visited, t) && item in items && item.place == NOWHERE
      requires newBucket < BUCKETS && newBucket != visited && item.decaying && duration > 0
      requires item.deadline == NextVisit(newBucket, t) + Rest(duration)
      modifies this`decayItems, item`place, item`duration, item`deadline, item`nextVisit
      ensures Queued() && decayItems == old(decayItems)[newBucket := old(decayItems)[newBucket] + [item]]
      ensures Settled(releases, visited, t) && item.place == newBucket && item.deadline == old(item.deadline)
    {
      Shorten(item, duration, releases + multiset{item}, visited, t);
      Enqueue(newBucket, item, item.deadline, releases, visited, t);
    }

    /** Game::checkDecay. */
    method CheckDecay()
      requires Valid()
      modifies this`decayItems, this`toDecayItems, this`toReleaseItems, this`lastBucket, this`now, items
      ensures Valid() && now == old(now) + 1 && toDecayItems == [] && toReleaseItems == []
      ensures forall x :: x in items ==> Turned(x)
    {
      TurnBucket();
      label Visited:
      Cleanup();
      forall x | x in items
        ensures Turned(x)
      {
        assert Placed@Visited(x);
      }
    }

    /** The visit itself. */
    method TurnBucket()
      requires Valid()
      modifies this`decayItems, this`toDecayItems, this`toReleaseItems, this`lastBucket, this`now, items
      ensures Valid() && now == old(now) + 1
      ensures forall x :: x in items ==> Halfway(x, now)
    {
      ghost var t := now + 1;
      var bucket := (lastBucket + 1) % BUCKETS;
      VisitBucket(bucket, t);
      lastBucket := bucket;
      now := t;
    }

    method VisitBucket(bucket: nat, ghost t: nat)
      requires Valid() && t == now + 1 && bucket == (lastBucket + 1) % BUCKETS
      modifies this`decayItems, this`toDecayItems, this`toReleaseItems, items
      ensures Queued() && Settled(multiset(toReleaseItems), NOWHERE, t) && bucket == t % BUCKETS
      ensures forall x :: x in items ==> Halfway(x, t)
    {
      StartsTurning(bucket, t);
      VisitAll(bucket, t);
      StopsTurning(bucket, t);
    }

    lemma {:induction false} StartsTurning(bucket: nat, t: nat)
      requires Valid() && t == now + 1 && bucket == (lastBucket + 1) % BUCKETS
      ensures Turning(bucket, 0, t)
    {
      forall b | 0 <= b < BUCKETS
        ensures NextVisit(b, now) == if b == bucket then t else NextVisit(b, t)
      {
        NextVisits(b, t);
      }
    }

    lemma {:induction false} StopsTurning(bucket: nat, t: nat)
      requires |decayItems| == BUCKETS && bucket < BUCKETS && Turning(bucket, |decayItems[bucket]|, t) && t > 0
      ensures Settled(multiset(toReleaseItems), NOWHERE, t)
    {
      NextVisits(bucket, t);
      assert decayItems[bucket][..|decayItems[bucket]|] == decayItems[bucket];
    }

    /** The loop of Game::checkDecay over its bucket. */
    method VisitAll(bucket: nat, ghost t: nat)
      requires Turning(bucket, 0, t)
      modifies this`decayItems, this`toDecayItems, this`toReleaseItems, items
      ensures |decayItems| == BUCKETS && bucket < BUCKETS && Turning(bucket, |decayItems[bucket]|, t)
      ensures forall x :: x in items ==> Halfway(x, t)
    {
      var it: nat := 0;
      ghost var list: seq<DecayItem>, seen: nat := decayItems[bucket], 0;
      assert list[0..] == list;
      while it < |decayItems[bucket]|
        invariant Turning(bucket, it, t) && seen <= |list| && decayItems[bucket][it..] == list[seen..]
        invariant forall x :: x in items ==> if x in list[..seen] then FateOf(x, t) else Untouched(x)
        decreases |decayItems[bucket]| - it
      {
        ghost var x := decayItems[bucket][it];
        SameTail(decayItems[bucket], it, list, seen);
        NextOf(list, seen);
        it := Visit(bucket, it, t);
        seen := seen + 1;
      }
      assert list[..seen] == list;
    }

    twostate predicate Halfway(x: DecayItem, t: nat)
      reads x
    {
      if old(x.place) == t % BUCKETS then FateOf(x, t)
      else Untouched(x) && (0 <= x.place < BUCKETS ==> x.deadline > t)
    }

    twostate predicate FateOf(x: DecayItem, t: nat)
      reads x
    {
      Fate(x, old(x.canDecay), old(x.deadline), old(x.future), t)
    }

    twostate predicate Untouched(x: DecayItem)
      reads x
    {
      && x.duration == old(x.duration) && x.decaying == old(x.decaying) && x.canDecay == old(x.canDecay)
      && x.future == old(x.future) && x.place == old(x.place) && x.deadline == old(x.deadline)
      && x.endedAt == old(x.endedAt)
    }

    /** What one call of checkDecay does to any item. */
    twostate predicate Turned(x: DecayItem)
      reads this`now, x
    {
      if old(x.place) == NOWHERE then Untouched(x)
      else if old(x.place) == STARTED then
        0 <= x.place < BUCKETS && x.deadline == now + Tick(old(x.duration)) && x.future == old(x.future)
          && x.canDecay == old(x.canDecay)
      else if old(x.place) == now % BUCKETS && !old(x.canDecay) then
        x.place == NOWHERE && !x.decaying && x.future == old(x.future)
      else if old(x.deadline) > now then
        0 <= x.place < BUCKETS && x.deadline == old(x.deadline) && x.future == old(x.future)
          && x.canDecay == old(x.canDecay)
      else
        old(x.deadline) == now &&
        if old(x.future).Then? then
          0 <= x.place < BUCKETS && x.deadline == now + Tick(old(x.future).duration) && x.future == old(x.future).next
            && x.canDecay
        else x.place == NOWHERE && !x.canDecay && x.endedAt == now
    }

    // ----- whole runs

    /** The visit at which the item's last type will be over. */
    static ghost function EndsAt(x: DecayItem): int
      reads x`deadline, x`future
    {
      x.deadline + Total(x.future)
    }

    static ghost predicate Waiting(x: DecayItem)
      reads x`place, x`canDecay
    {
      0 <= x.place < BUCKETS && x.canDecay
    }

    /**
     However many visits are made, and however often an item changes its type on the way, it is over
     exactly at the visit that was fixed when it was put into its first bucket.
     */
    method Run(n: nat)
      requires Valid()
      modifies this`decayItems, this`toDecayItems, this`toReleaseItems, this`lastBucket, this`now, items
      ensures Valid() && now == old(now) + n
      ensures forall x :: x in items && old(Waiting(x)) ==>
                if old(EndsAt(x)) <= now then x.place == NOWHERE && !x.canDecay && x.endedAt == old(EndsAt(x))
                else Waiting(x) && EndsAt(x) == old(EndsAt(x))
    {
      for i := 0 to n
        invariant Valid() && now == old(now) + i
        invariant forall x :: x in items && old(Waiting(x)) ==> OnTime(x)
      {
        CheckDecay();
      }
    }

    twostate predicate OnTime(x: DecayItem)
      reads this`now, x
    {
      if old(EndsAt(x)) <= now then x.place == NOWHERE && !x.canDecay && x.endedAt == old(EndsAt(x))
      else Waiting(x) && EndsAt(x) == old(EndsAt(x))
    }

    /** The references the wheel holds are the occurrences in its lists. */
    lemma {:induction false} ReferencesAreOccurrences(x: DecayItem)
      requires Valid() && x in items
      ensures multiset(toDecayItems)[x] + Sum(decayItems)[x] <= 1
      ensures x.references == x.held + multiset(toDecayItems)[x] + Sum(decayItems)[x] + multiset(toReleaseItems)[x]
    {
      OnceIn(toDecayItems, x);
      forall b | 0 <= b < BUCKETS
        ensures multiset(decayItems[b])[x] == if x.place == b then 1 else 0
      {
        OnceIn(decayItems[b], x);
      }
    }
  }

  /** How often the four buckets list an item. */
  ghost function Sum(buckets: seq<seq<DecayItem>>): multiset<DecayItem>
    requires |buckets| == BUCKETS
  {
    multiset(buckets[0]) + multiset(buckets[1]) + multiset(buckets[2]) + multiset(buckets[3])
  }

  lemma {:induction false} OnceIn(list: seq<DecayItem>, x: DecayItem)
    requires forall i, j :: 0 <= i < j < |list| ==> list[i] != list[j]
    ensures multiset(list)[x] == if x in list then 1 else 0
    decreases |list|
  {
    if list != [] {
      assert list == [list[0]] + list[1..];
      OnceIn(list[1..], x);
      assert list[0] == x ==> x !in list[1..];
    }
  }
}
