/**
 * The collision bookkeeping of PhysicsSystem, on values: the persistent set
 * of contacts with its frame countdown and the Begin/End callbacks it fires,
 * purging an object's contacts, the broadphase's canonical pairs, and the
 * positional separation of a resolved contact.
 *
 * A std::set<CollisionInfo> is a sequence with at most one entry per key
 * (a, b), in the order the entries went in.
 */
module Contacts {
  import opened Common

  /** CollisionDetection::ContactPoint, as ObjectIntersection reports it. */
  datatype ContactPoint = ContactPoint(localA: Vec3, localB: Vec3, normal: Vec3, penetration: real)

  /** CollisionDetection::CollisionInfo: a contact between a and b, and the frames it has left in the set. */
  datatype CollisionInfo = CollisionInfo(a: ObjId, b: ObjId, point: ContactPoint, framesLeft: int)

  /** A collision callback: OnCollisionBegin or OnCollisionEnd called on self with other. */
  datatype Event = Begin(self: ObjId, other: ObjId) | End(self: ObjId, other: ObjId)

  type Pair = (ObjId, ObjId)

  /** What identifies an entry of the set. */
  function Key(c: CollisionInfo): Pair
  {
    (c.a, c.b)
  }

  /** The set holds at most one entry per key. */
  predicate UniqueKeys(cs: seq<CollisionInfo>)
  {
    forall i, j :: 0 <= i < j < |cs| ==> Key(cs[i]) != Key(cs[j])
  }

  /** The first entry with key k, if any. */
  function Find(cs: seq<CollisionInfo>, k: Pair): (r: Option<CollisionInfo>)
    ensures r.Some? ==> r.value in cs && Key(r.value) == k
    ensures r.None? <==> forall i :: 0 <= i < |cs| ==> Key(cs[i]) != k
  {
    if cs == [] then None
    else
      var f := Find(cs[..|cs| - 1], k);
      if f.Some? then f
      else if Key(cs[|cs| - 1]) == k then Some(cs[|cs| - 1])
      else None
  }

  /** An entry whose key the set lacks can be appended without repeating a key. */
  lemma SnocUnique(cs: seq<CollisionInfo>, c: CollisionInfo)
    requires UniqueKeys(cs) && Find(cs, Key(c)).None?
    ensures UniqueKeys(cs + [c])
  {
  }

  /** Appending an entry: keys it does not carry are found as before. */
  lemma {:induction false} FindSnoc(cs: seq<CollisionInfo>, c: CollisionInfo, k: Pair)
    ensures Find(cs + [c], k) == if Find(cs, k).None? && Key(c) == k then Some(c) else Find(cs, k)
  {
    assert (cs + [c])[..|cs|] == cs;
  }

  /** In a set with unique keys, an entry is what its key finds. */
  lemma FindUnique(cs: seq<CollisionInfo>, i: int)
    requires UniqueKeys(cs) && 0 <= i < |cs|
    ensures Find(cs, Key(cs[i])) == Some(cs[i])
  {
    var f := Find(cs, Key(cs[i]));
    var j :| 0 <= j < |cs| && cs[j] == f.value;
    assert Key(cs[j]) == Key(cs[i]);
  }

  // ------------------------------------------------- std::set::insert

  /**
   * std::set::insert: a new key goes in; an entry already there stays as it
   * is, countdown and all. Afterwards the key is present, and every other
   * key finds what it found before.
   */
  function SetInsert(cs: seq<CollisionInfo>, c: CollisionInfo): (r: seq<CollisionInfo>)
    ensures Find(r, Key(c)) == if Find(cs, Key(c)).Some? then Find(cs, Key(c)) else Some(c)
    ensures forall k :: k != Key(c) ==> Find(r, k) == Find(cs, k)
  {
    if Find(cs, Key(c)).Some? then cs
    else
      assert forall k :: Find(cs + [c], k) == if Find(cs, k).None? && Key(c) == k then Some(c) else Find(cs, k) by {
        forall k {
          FindSnoc(cs, c, k);
        }
      }
      cs + [c]
  }

  /** Insertion keeps the keys unique, adds c only under a key that was missing, and leaves every other key alone. */
  lemma InsertFind(cs: seq<CollisionInfo>, c: CollisionInfo)
    requires UniqueKeys(cs)
    ensures UniqueKeys(SetInsert(cs, c))
    ensures forall k :: Find(SetInsert(cs, c), k) == if k == Key(c) && Find(cs, k).None? then Some(c) else Find(cs, k)
  {
    if Find(cs, Key(c)).None? {
      SnocUnique(cs, c);
      forall k {
        FindSnoc(cs, c, k);
      }
    }
  }

  /** A pair detected again while its entry is in the set does not restart the entry's countdown. */
  lemma {:induction false} InsertKeepsCountdown(cs: seq<CollisionInfo>, c: CollisionInfo, held: CollisionInfo)
    requires UniqueKeys(cs) && held in cs && Key(held) == Key(c)
    ensures Find(SetInsert(cs, c), Key(c)) == Some(held)
  {
    var i :| 0 <= i < |cs| && cs[i] == held;
    FindUnique(cs, i);
    InsertFind(cs, c);
  }

  // ------------------------------------------------- UpdateCollisionList

  /** An entry counted down by one frame. */
  function Tick(c: CollisionInfo): CollisionInfo
  {
    c.(framesLeft := c.framesLeft - 1)
  }

  /** What one UpdateCollisionList pass leaves of an entry: counted down, gone once the count is negative. */
  function AgeOne(f: Option<CollisionInfo>): Option<CollisionInfo>
  {
    match f
    case None => None
    case Some(c) => if c.framesLeft - 1 < 0 then None else Some(Tick(c))
  }

  /** The set after an UpdateCollisionList pass, in the order of the pass: never larger, no countdown left negative. */
  function Aged(cs: seq<CollisionInfo>): (r: seq<CollisionInfo>)
    ensures |r| <= |cs|
    ensures forall i :: 0 <= i < |r| ==> r[i].framesLeft >= 0
  {
    if cs == [] then []
    else
      var c := cs[|cs| - 1];
      Aged(cs[..|cs| - 1]) + (if c.framesLeft - 1 < 0 then [] else [Tick(c)])
  }

  /**
   * The callbacks one entry fires in a pass: Begin on both objects when its
   * count stands at frames (it was just inserted), End on both when the
   * counted-down value is negative.
   */
  function EntryEvents(c: CollisionInfo, frames: int): seq<Event>
  {
    (if c.framesLeft == frames then [Begin(c.a, c.b), Begin(c.b, c.a)] else [])
    + (if c.framesLeft - 1 < 0 then [End(c.a, c.b), End(c.b, c.a)] else [])
  }

  /** The same callback with its two objects swapped: the call on the other object of the entry. */
  function Mirror(e: Event): Event
  {
    match e
    case Begin(x, y) => Begin(y, x)
    case End(x, y) => End(y, x)
  }

  /** Callbacks in pairs: each call on one object of an entry is followed by the same call on the other. */
  ghost predicate Mirrored(r: seq<Event>)
    decreases |r|
  {
    r == [] || (|r| >= 2 && r[1] == Mirror(r[0]) && Mirrored(r[2..]))
  }

  lemma {:induction false} MirroredAppend(a: seq<Event>, b: seq<Event>)
    requires Mirrored(a) && Mirrored(b)
    ensures Mirrored(a + b)
    decreases |a|
  {
    if a == [] {
      assert a + b == b;
    } else {
      MirroredAppend(a[2..], b);
      assert (a + b)[2..] == a[2..] + b;
    }
  }

  lemma EntryEventsMirrored(c: CollisionInfo, frames: int)
    ensures Mirrored(EntryEvents(c, frames))
  {
    var begins: seq<Event> := if c.framesLeft == frames then [Begin(c.a, c.b), Begin(c.b, c.a)] else [];
    var ends: seq<Event> := if c.framesLeft - 1 < 0 then [End(c.a, c.b), End(c.b, c.a)] else [];
    assert Mirrored(begins) by {
      if begins != [] {
        assert begins[2..] == [];
      }
    }
    assert Mirrored(ends) by {
      if ends != [] {
        assert ends[2..] == [];
      }
    }
    MirroredAppend(begins, ends);
  }

  /**
   * The callbacks of a whole pass, in the order of the pass: they come in
   * pairs, the same call on both objects of an entry, at most two pairs per
   * entry.
   */
  function AgeEvents(cs: seq<CollisionInfo>, frames: int): (r: seq<Event>)
    ensures |r| <= 4 * |cs| && Mirrored(r)
  {
    if cs == [] then []
    else
      var before := AgeEvents(cs[..|cs| - 1], frames);
      var last := EntryEvents(cs[|cs| - 1], frames);
      EntryEventsMirrored(cs[|cs| - 1], frames);
      MirroredAppend(before, last);
      before + last
  }

  /** A pass counts every entry down by exactly one and drops exactly those that go negative; keys stay unique. */
  lemma {:induction false} AgedFind(cs: seq<CollisionInfo>, k: Pair)
    requires UniqueKeys(cs)
    ensures UniqueKeys(Aged(cs))
    ensures Find(Aged(cs), k) == AgeOne(Find(cs, k))
  {
    if cs != [] {
      var p := cs[..|cs| - 1];
      var c := cs[|cs| - 1];
      assert cs == p + [c];
      assert UniqueKeys(p);
      AgedFind(p, k);
      AgedFind(p, Key(c));
      FindSnoc(p, c, k);
      assert Find(p, Key(c)).None?;
      if c.framesLeft - 1 >= 0 {
        assert Aged(cs) == Aged(p) + [Tick(c)];
        assert Key(Tick(c)) == Key(c);
        SnocUnique(Aged(p), Tick(c));
        FindSnoc(Aged(p), Tick(c), k);
      } else {
        assert Aged(cs) == Aged(p);
      }
    }
  }

  /** The callbacks of one entry, as the two tests of a pass decide them. */
  lemma EntryEventsHas(c: CollisionInfo, frames: int, x: ObjId, y: ObjId)
    ensures Begin(x, y) in EntryEvents(c, frames) <==> c.framesLeft == frames && (Key(c) == (x, y) || Key(c) == (y, x))
    ensures End(x, y) in EntryEvents(c, frames) <==> c.framesLeft < 1 && (Key(c) == (x, y) || Key(c) == (y, x))
  {
    var begins: seq<Event> := if c.framesLeft == frames then [Begin(c.a, c.b), Begin(c.b, c.a)] else [];
    var ends: seq<Event> := if c.framesLeft - 1 < 0 then [End(c.a, c.b), End(c.b, c.a)] else [];
    assert EntryEvents(c, frames) == begins + ends;
    assert End(x, y) !in begins && Begin(x, y) !in ends;
  }

  /** An object is told a contact began exactly when an entry for it stands at frames. */
  lemma {:induction false} BeginFired(cs: seq<CollisionInfo>, frames: int, x: ObjId, y: ObjId)
    ensures Begin(x, y) in AgeEvents(cs, frames) <==>
            exists i :: 0 <= i < |cs| && cs[i].framesLeft == frames && (Key(cs[i]) == (x, y) || Key(cs[i]) == (y, x))
  {
    if cs != [] {
      var p, c := cs[..|cs| - 1], cs[|cs| - 1];
      BeginFired(p, frames, x, y);
      assert AgeEvents(cs, frames) == AgeEvents(p, frames) + EntryEvents(c, frames);
      EntryEventsHas(c, frames, x, y);
      if exists i :: 0 <= i < |p| && p[i].framesLeft == frames && (Key(p[i]) == (x, y) || Key(p[i]) == (y, x)) {
        var i :| 0 <= i < |p| && p[i].framesLeft == frames && (Key(p[i]) == (x, y) || Key(p[i]) == (y, x));
        assert cs[i] == p[i];
      }
      if exists i :: 0 <= i < |cs| && cs[i].framesLeft == frames && (Key(cs[i]) == (x, y) || Key(cs[i]) == (y, x)) {
        var i :| 0 <= i < |cs| && cs[i].framesLeft == frames && (Key(cs[i]) == (x, y) || Key(cs[i]) == (y, x));
        if i < |p| {
          assert p[i] == cs[i];
        }
      }
    }
  }


  /** An object is told a contact ended exactly when an entry for it runs out in this pass. */
  lemma {:induction false} EndFired(cs: seq<CollisionInfo>, frames: int, x: ObjId, y: ObjId)
    ensures End(x, y) in AgeEvents(cs, frames) <==>
            exists i :: 0 <= i < |cs| && cs[i].framesLeft < 1 && (Key(cs[i]) == (x, y) || Key(cs[i]) == (y, x))
  {
    if cs != [] {
      var p, c := cs[..|cs| - 1], cs[|cs| - 1];
      EndFired(p, frames, x, y);
      assert AgeEvents(cs, frames) == AgeEvents(p, frames) + EntryEvents(c, frames);
      EntryEventsHas(c, frames, x, y);
      if exists i :: 0 <= i < |p| && p[i].framesLeft < 1 && (Key(p[i]) == (x, y) || Key(p[i]) == (y, x)) {
        var i :| 0 <= i < |p| && p[i].framesLeft < 1 && (Key(p[i]) == (x, y) || Key(p[i]) == (y, x));
        assert cs[i] == p[i];
      }
      if exists i :: 0 <= i < |cs| && cs[i].framesLeft < 1 && (Key(cs[i]) == (x, y) || Key(cs[i]) == (y, x)) {
        var i :| 0 <= i < |cs| && cs[i].framesLeft < 1 && (Key(cs[i]) == (x, y) || Key(cs[i]) == (y, x));
        if i < |p| {
          assert p[i] == cs[i];
        }
      }
    }
  }

  /** The set after n passes. */
  function AgedTimes(cs: seq<CollisionInfo>, n: nat): seq<CollisionInfo>
  {
    if n == 0 then cs else Aged(AgedTimes(cs, n - 1))
  }

  /**
   * The lifetime of an entry: one that stands at f >= 0 is still in the set,
   * at f - n, after n <= f passes, and is gone after pass f + 1, the pass
   * that fires its End callbacks.
   */
  lemma {:induction false} Lifetime(cs: seq<CollisionInfo>, c: CollisionInfo, n: nat)
    requires UniqueKeys(cs) && c in cs && c.framesLeft >= 0
    ensures UniqueKeys(AgedTimes(cs, n))
    ensures n <= c.framesLeft ==> Find(AgedTimes(cs, n), Key(c)) == Some(c.(framesLeft := c.framesLeft - n))
    ensures n > c.framesLeft ==> Find(AgedTimes(cs, n), Key(c)).None?
  {
    if n == 0 {
      var i :| 0 <= i < |cs| && cs[i] == c;
      FindUnique(cs, i);
    } else {
      var before := AgedTimes(cs, n - 1);
      Lifetime(cs, c, n - 1);
      AgedFind(before, Key(c));
      assert AgedTimes(cs, n) == Aged(before);
      if n <= c.framesLeft {
        var prev := c.(framesLeft := c.framesLeft - (n - 1));
        assert Find(before, Key(c)) == Some(prev);
        assert Tick(prev) == c.(framesLeft := c.framesLeft - n);
      }
    }
  }

  // ------------------------------------------------- RemoveObject

  /** The entries that involve neither side o, in order. */
  function Without(cs: seq<CollisionInfo>, o: ObjId): (r: seq<CollisionInfo>)
    ensures forall i :: 0 <= i < |r| ==> r[i] in cs && r[i].a != o && r[i].b != o
  {
    if cs == [] then []
    else
      var c := cs[|cs| - 1];
      Without(cs[..|cs| - 1], o) + (if c.a != o && c.b != o then [c] else [])
  }

  /** Purging keeps every entry that does not involve o, and keeps the keys unique. */
  lemma {:induction false} WithoutKeeps(cs: seq<CollisionInfo>, o: ObjId)
    requires UniqueKeys(cs)
    ensures UniqueKeys(Without(cs, o))
    ensures forall c :: c in cs && c.a != o && c.b != o ==> c in Without(cs, o)
  {
    if cs != [] {
      var p := cs[..|cs| - 1];
      var c := cs[|cs| - 1];
      assert cs == p + [c];
      WithoutKeeps(p, o);
      if c.a != o && c.b != o {
        WithoutSnoc(p, c, o);
      }
    }
  }

  /** Appending a kept entry whose key is new keeps the purged set's keys unique. */
  lemma WithoutSnoc(p: seq<CollisionInfo>, c: CollisionInfo, o: ObjId)
    requires UniqueKeys(p + [c]) && UniqueKeys(Without(p, o))
    ensures Find(Without(p, o), Key(c)).None?
    ensures UniqueKeys(Without(p, o) + [c])
  {
    var w := Without(p, o);
    forall i | 0 <= i < |w|
      ensures Key(w[i]) != Key(c)
    {
      var j :| 0 <= j < |p| && p[j] == w[i];
      assert (p + [c])[j] == p[j] && (p + [c])[|p|] == c;
    }
    SnocUnique(w, c);
  }

  // ------------------------------------------------- BroadPhase

  /** std::min and std::max of the two objects: the order BroadPhase gives a pair, whichever came first. */
  function Canon(x: ObjId, y: ObjId): (r: Pair)
    ensures r.0 <= r.1
    ensures (r.0 == x && r.1 == y) || (r.0 == y && r.1 == x)
  {
    if x <= y then (x, y) else (y, x)
  }

  /** (A, B) and (B, A) give one broadphase entry. */
  lemma CanonSymmetric(x: ObjId, y: ObjId)
    ensures Canon(x, y) == Canon(y, x)
  {
  }

  /** A broadphase set: no pair twice, every pair in (min, max) order. */
  predicate PairSet(ps: seq<Pair>)
  {
    NoDup(ps) && forall k :: 0 <= k < |ps| ==> ps[k].0 <= ps[k].1
  }

  /** The pair (i, j) of a leaf's list, i before j, that BroadPhase keeps: not both asleep. */
  predicate LeafPair(l: seq<ObjId>, asleep: set<ObjId>, i: int, j: int)
  {
    0 <= i < j < |l| && !(l[i] in asleep && l[j] in asleep)
  }

  /** std::set::insert on the broadphase set. */
  function AddPair(ps: seq<Pair>, p: Pair): (r: seq<Pair>)
    requires PairSet(ps) && p.0 <= p.1
    ensures PairSet(r)
    ensures forall q :: q in r <==> q in ps || q == p
  {
    if p in ps then ps else ps + [p]
  }

  /**
   * The body BroadPhase hands OperateOnContents: every pair of the leaf's
   * list, in list order, that is not asleep on both sides, added as (min, max).
   */
  method AddLeafPairs(ps0: seq<Pair>, l: seq<ObjId>, asleep: set<ObjId>) returns (ps: seq<Pair>)
    requires PairSet(ps0)
    ensures PairSet(ps)
    ensures forall p :: p in ps <==> p in ps0 || exists i, j :: LeafPair(l, asleep, i, j) && p == Canon(l[i], l[j])
  {
    ps := ps0;
    for i := 0 to |l|
      invariant PairSet(ps)
      invariant forall p :: p in ps <==> p in ps0 || exists a, b :: a < i && LeafPair(l, asleep, a, b) && p == Canon(l[a], l[b])
    {
      for j := i + 1 to |l|
        invariant PairSet(ps)
        invariant forall p :: p in ps <==> p in ps0 || exists a, b :: (a < i || (a == i && b < j)) && LeafPair(l, asleep, a, b) && p == Canon(l[a], l[b])
      {
        if !(l[i] in asleep && l[j] in asleep) {
          assert LeafPair(l, asleep, i, j);
          ps := AddPair(ps, Canon(l[i], l[j]));
        }
      }
    }
  }

  // ------------------------------------------------- ImpulseResolveCollision, the projection

  /** The two shares of the push add up to 1 and are in the ratio of the inverse masses. */
  lemma Shares(invA: real, invB: real, t: real)
    requires t == invA + invB && t != 0.0
    ensures invA / t + invB / t == 1.0
    ensures (invA / t) * invB == (invB / t) * invA
  {
    assert (invA / t) * invB == (invA * invB) / t;
    assert (invB / t) * invA == (invA * invB) / t;
  }

  /**
   * One axis of the projection, with shares sa and sb of the push x: the gap
   * grows by exactly x, and the inverse-mass-weighted sum of the two
   * coordinates is unchanged.
   */
  lemma AxisProjection(a: real, b: real, x: real, invA: real, invB: real, sa: real, sb: real, na: real, nb: real)
    requires sa + sb == 1.0 && sa * invB == sb * invA
    requires na == a - x * sa && nb == b + x * sb
    ensures nb - na == b - a + x
    ensures na * invB + nb * invA == a * invB + b * invA
  {
    assert x * sa + x * sb == x * (sa + sb);
    assert na * invB == a * invB - x * (sa * invB);
    assert nb * invA == b * invA + x * (sb * invA);
  }

  /** On all three axes, the gap grows by exactly push. */
  lemma ProjectionGap(posA: Vec3, posB: Vec3, push: Vec3, invA: real, invB: real, sa: real, sb: real, newA: Vec3, newB: Vec3)
    requires sa + sb == 1.0 && sa * invB == sb * invA
    requires newA == Sub(posA, Scale(push, sa)) && newB == Add(posB, Scale(push, sb))
    ensures Sub(newB, newA) == Add(Sub(posB, posA), push)
  {
    AxisProjection(posA.x, posB.x, push.x, invA, invB, sa, sb, newA.x, newB.x);
    AxisProjection(posA.y, posB.y, push.y, invA, invB, sa, sb, newA.y, newB.y);
    AxisProjection(posA.z, posB.z, push.z, invA, invB, sa, sb, newA.z, newB.z);
  }

  /** On all three axes, the weighted centre stays put. */
  lemma ProjectionCentre(posA: Vec3, posB: Vec3, push: Vec3, invA: real, invB: real, sa: real, sb: real, newA: Vec3, newB: Vec3)
    requires sa + sb == 1.0 && sa * invB == sb * invA
    requires newA == Sub(posA, Scale(push, sa)) && newB == Add(posB, Scale(push, sb))
    ensures Weighted(newA, invA, newB, invB) == Weighted(posA, invA, posB, invB)
  {
    AxisProjection(posA.x, posB.x, push.x, invA, invB, sa, sb, newA.x, newB.x);
    AxisProjection(posA.y, posB.y, push.y, invA, invB, sa, sb, newA.y, newB.y);
    AxisProjection(posA.z, posB.z, push.z, invA, invB, sa, sb, newA.z, newB.z);
  }

  /** The point invB p + invA q: the centre of mass of the two bodies, scaled by invA invB. */
  function Weighted(p: Vec3, invA: real, q: Vec3, invB: real): Vec3
  {
    Add(Scale(p, invB), Scale(q, invA))
  }

  /**
   * The positional part of PhysicsSystem::ImpulseResolveCollision: nothing
   * moves when both inverse masses are 0; otherwise the bodies are pushed
   * apart along the normal by exactly the penetration, shared in proportion
   * to their inverse masses, so the centre of mass stays put and a body of
   * inverse mass 0 does not move.
   */
  method ImpulseResolveCollision(posA: Vec3, posB: Vec3, invA: real, invB: real, p: ContactPoint)
    returns (newA: Vec3, newB: Vec3)
    ensures invA + invB == 0.0 ==> newA == posA && newB == posB
    ensures invA + invB != 0.0 ==> Sub(newB, newA) == Add(Sub(posB, posA), Scale(p.normal, p.penetration))
    ensures invA + invB != 0.0 ==> Weighted(newA, invA, newB, invB) == Weighted(posA, invA, posB, invB)
    ensures invA + invB != 0.0 && invA == 0.0 ==> newA == posA
    ensures invA + invB != 0.0 && invB == 0.0 ==> newB == posB
  {
    var totalMass := invA + invB;
    if totalMass == 0.0 {
      return posA, posB;
    }
    var push := Scale(p.normal, p.penetration);
    var shareA, shareB := invA / totalMass, invB / totalMass;
    newA := Sub(posA, Scale(push, shareA));
    newB := Add(posB, Scale(push, shareB));
    Shares(invA, invB, totalMass);
    ProjectionGap(posA, posB, push, invA, invB, shareA, shareB, newA, newB);
    ProjectionCentre(posA, posB, push, invA, invB, shareA, shareB, newA, newB);
  }
}
