/**
 * Goat: the player's object, scoring one point per distinct civilian it
 * runs into. In a networked game the game itself decides what a hit means.
 */
module Goats {
  import opened Common

  /** A networked game, by handle. */
  type GameId = nat

  /** What OnCollisionBegin sees of the other object: its address, whether it is a StateGameObject, and its name. */
  datatype Other = Other(address: ObjId, isStateObject: bool, name: string)

  /** A civilian: a StateGameObject named "Civilian". */
  predicate IsCivilian(other: Other)
  {
    other.isStateObject && other.name == "Civilian"
  }

  class Goat {
    const name: string
    var hitCivilians: set<ObjId>
    /** The networked game, if one was set; none until then. */
    var game: Option<GameId>

    constructor (name: string)
      ensures this.name == name && hitCivilians == {} && game == None
    {
      this.name := name;
      hitCivilians := {};
      game := None;
    }

    /** The score: the number of distinct civilians hit. */
    function GetScore(): int
      reads this
    {
      |hitCivilians|
    }

    method SetGame(g: Option<GameId>)
      modifies this`game
      ensures game == g
    {
      game := g;
    }

    /** Records a civilian as hit; recording it again changes nothing. */
    method AddHitCivilian(civilian: ObjId)
      modifies this`hitCivilians
      ensures hitCivilians == old(hitCivilians) + {civilian}
      ensures civilian in old(hitCivilians) ==> hitCivilians == old(hitCivilians) && GetScore() == old(GetScore())
      ensures civilian !in old(hitCivilians) ==> GetScore() == old(GetScore()) + 1
    {
      hitCivilians := hitCivilians + {civilian};
    }

    /**
     * A collision with a civilian not yet hit: handed to the networked game
     * when there is one (delegated), and otherwise recorded, so the score
     * rises by one. Anything else changes nothing.
     */
    method OnCollisionBegin(other: Other) returns (delegated: bool)
      modifies this`hitCivilians
      ensures delegated <==> IsCivilian(other) && other.address !in old(hitCivilians) && game.Some?
      ensures hitCivilians == (if IsCivilian(other) && other.address !in old(hitCivilians) && game.None?
                               then old(hitCivilians) + {other.address} else old(hitCivilians))
      ensures GetScore() == old(GetScore()) + (if IsCivilian(other) && other.address !in old(hitCivilians) && game.None? then 1 else 0)
    {
      delegated := false;
      if other.isStateObject {
        if other.name == "Civilian" {
          if other.address !in hitCivilians {
            if game.Some? {
              delegated := true;
            } else {
              AddHitCivilian(other.address);
            }
          }
        }
      }
    }
  }

  /** The civilians recorded after a run of hits with no game set: every distinct one, whatever the repeats. */
  function HitAfter(hit: set<ObjId>, civilians: seq<ObjId>): (r: set<ObjId>)
    ensures forall c :: c in r <==> c in hit || c in civilians
    ensures |r| <= |hit| + |civilians|
    decreases |civilians|
  {
    if civilians == [] then hit else HitAfter(hit + {civilians[0]}, civilians[1..])
  }

  /** Hitting the same civilians again, in any order, adds nothing to the score. */
  lemma {:induction false} RepeatsScoreNothing(hit: set<ObjId>, civilians: seq<ObjId>, again: seq<ObjId>)
    requires forall i :: 0 <= i < |again| ==> again[i] in civilians
    ensures |HitAfter(hit, civilians + again)| == |HitAfter(hit, civilians)|
  {
    var a, b := HitAfter(hit, civilians + again), HitAfter(hit, civilians);
    assert forall c :: c in a <==> c in b;
    assert a == b;
  }
}
