/**
 * Vigilant's Bloodshaper: an analyzer that counts the Volatile Blood
 * Explosion hits of the player and adds up their damage, absorbed damage
 * included.
 */
module Uldir {
  import opened Wrappers

  datatype Ability = Ability(guid: int)

  /** A damage event done by the player; `absorbed` may be missing. */
  datatype DamageEvent = DamageEvent(ability: Ability, amount: int, absorbed: Option<int>)

  /** `event.absorbed || 0`: zero exactly when the absorb is missing or itself zero (falsy). */
  function AbsorbedOrZero(event: DamageEvent): (absorbed: int)
    ensures absorbed == 0 <==> event.absorbed.None? || event.absorbed.value == 0
    ensures absorbed != 0 ==> event.absorbed == Some(absorbed)
  {
    if event.absorbed.Some? then event.absorbed.value else 0
  }

  /** Damage credited to the trinket for one hit: the amount dealt plus the amount absorbed. */
  function HitDamage(event: DamageEvent): (damage: int)
    ensures event.absorbed.None? ==> damage == event.amount
    ensures event.absorbed.Some? ==> damage == event.amount + event.absorbed.value
  {
    event.amount + AbsorbedOrZero(event)
  }

  /** The events whose ability is the blood explosion, in order. */
  function Explosions(events: seq<DamageEvent>, explosionId: int): (hits: seq<DamageEvent>)
    ensures |hits| <= |events|
  {
    if events == [] then []
    else
      var front := Explosions(events[..|events| - 1], explosionId);
      var event := events[|events| - 1];
      if event.ability.guid == explosionId then front + [event] else front
  }

  /** Total credited damage of a sequence of hits. */
  function TotalDamage(hits: seq<DamageEvent>): int {
    if hits == [] then 0 else TotalDamage(hits[..|hits| - 1]) + HitDamage(hits[|hits| - 1])
  }

  class VigilantsBloodshaper {
    /** The id of VOLATILE_BLOOD_EXPLOSION, fixed for the analyzer's life. */
    const explosionId: int
    var active: bool
    var damage: int
    var hits: nat
    /** Every damage event handed to the analyzer so far. */
    ghost var handled: seq<DamageEvent>

    /** The counters summarise exactly the blood explosions among the events seen. */
    ghost predicate Valid()
      reads this
    {
      hits == |Explosions(handled, explosionId)| && damage == TotalDamage(Explosions(handled, explosionId))
    }

    /** The analyzer is active when the player wears the trinket; both counters start at zero. */
    constructor (hasTrinket: bool, explosionId: int)
      ensures Valid()
      ensures this.explosionId == explosionId && active == hasTrinket
      ensures damage == 0 && hits == 0 && handled == []
    {
      this.explosionId := explosionId;
      active := hasTrinket;
      damage := 0;
      hits := 0;
      handled := [];
    }

    /** `on_byPlayer_damage`: a blood explosion adds one hit and its damage; anything else changes nothing. */
    method OnByPlayerDamage(event: DamageEvent)
      requires Valid()
      modifies this`damage, this`hits, this`handled
      ensures Valid()
      ensures handled == old(handled) + [event]
      ensures event.ability.guid == explosionId ==>
                hits == old(hits) + 1 && damage == old(damage) + event.amount + AbsorbedOrZero(event)
      ensures event.ability.guid != explosionId ==> hits == old(hits) && damage == old(damage)
    {
      ExplosionsSnoc(handled, event, explosionId);
      handled := handled + [event];
      var spellId := event.ability.guid;
      if spellId == explosionId {
        damage := damage + event.amount + AbsorbedOrZero(event);
        hits := hits + 1;
        assert Explosions(handled, explosionId)[..hits - 1] == Explosions(old(handled), explosionId);
      }
    }
  }

  // ---------------------------------------------------------------------------
  // Properties of the counters

  /** One more event adds itself to the counted events exactly when it is a blood explosion. */
  lemma ExplosionsSnoc(events: seq<DamageEvent>, event: DamageEvent, explosionId: int)
    ensures Explosions(events + [event], explosionId)
            == if event.ability.guid == explosionId then Explosions(events, explosionId) + [event]
               else Explosions(events, explosionId)
  {
    assert (events + [event])[..|events|] == events;
  }

  /** Every counted event is a blood explosion. */
  lemma {:induction false} ExplosionsMatch(events: seq<DamageEvent>, explosionId: int)
    ensures forall e :: e in Explosions(events, explosionId) ==> e.ability.guid == explosionId
  {
    if events != [] {
      ExplosionsMatch(events[..|events| - 1], explosionId);
    }
  }

  /** Every counted event is one of the events seen. */
  lemma {:induction false} ExplosionsAreEvents(events: seq<DamageEvent>, explosionId: int)
    ensures forall e :: e in Explosions(events, explosionId) ==> e in events
  {
    if events != [] {
      var front := events[..|events| - 1];
      ExplosionsAreEvents(front, explosionId);
      assert forall e :: e in front ==> e in events;
    }
  }

  lemma {:induction false} ExplosionsAppend(events: seq<DamageEvent>, more: seq<DamageEvent>, explosionId: int)
    ensures Explosions(events + more, explosionId) == Explosions(events, explosionId) + Explosions(more, explosionId)
    decreases |more|
  {
    if more == [] {
      assert events + more == events;
    } else {
      var front := more[..|more| - 1];
      var event := more[|more| - 1];
      var a, b := Explosions(events, explosionId), Explosions(front, explosionId);
      var hit := if event.ability.guid == explosionId then [event] else [];
      assert Explosions(more, explosionId) == b + hit by {
        assert more == front + [event];
        ExplosionsSnoc(front, event, explosionId);
      }
      assert Explosions(events + more, explosionId) == a + b + hit by {
        ExplosionsAppend(events, front, explosionId);
        assert events + more == (events + front) + [event];
        ExplosionsSnoc(events + front, event, explosionId);
      }
      assert a + b + hit == a + (b + hit);
    }
  }

  lemma {:induction false} TotalDamageAppend(hits: seq<DamageEvent>, more: seq<DamageEvent>)
    ensures TotalDamage(hits + more) == TotalDamage(hits) + TotalDamage(more)
    decreases |more|
  {
    if more == [] {
      assert hits + more == hits;
    } else {
      var front := more[..|more| - 1];
      TotalDamageAppend(hits, front);
      assert (hits + more)[..|hits + more| - 1] == hits + front;
    }
  }

  /** The hit count is the number of events, at any position, whose ability is the blood explosion. */
  lemma {:induction false} HitsCountExplosionEvents(events: seq<DamageEvent>, explosionId: int)
    ensures |Explosions(events, explosionId)| == |set i | 0 <= i < |events| && events[i].ability.guid == explosionId|
  {
    if events != [] {
      var n := |events| - 1;
      var front := events[..n];
      HitsCountExplosionEvents(front, explosionId);
      var before := set i | 0 <= i < n && front[i].ability.guid == explosionId;
      var after := set i | 0 <= i < |events| && events[i].ability.guid == explosionId;
      assert Explosions(events, explosionId)
             == if events[n].ability.guid == explosionId then Explosions(front, explosionId) + [events[n]]
                else Explosions(front, explosionId);
      forall i | 0 <= i < n ensures (i in after <==> i in before) {
        assert front[i] == events[i];
      }
      if events[n].ability.guid == explosionId {
        assert after == before + {n};
      } else {
        assert after == before;
      }
    }
  }

  /** Counting events the analyzer ignores leaves both counters unchanged. */
  lemma {:induction false} OtherSpellsIgnored(events: seq<DamageEvent>, others: seq<DamageEvent>, explosionId: int)
    requires forall e :: e in others ==> e.ability.guid != explosionId
    ensures Explosions(events + others, explosionId) == Explosions(events, explosionId)
  {
    ExplosionsAppend(events, others, explosionId);
    NoExplosions(others, explosionId);
  }

  lemma {:induction false} NoExplosions(events: seq<DamageEvent>, explosionId: int)
    requires forall e :: e in events ==> e.ability.guid != explosionId
    ensures Explosions(events, explosionId) == []
  {
    if events != [] {
      NoExplosions(events[..|events| - 1], explosionId);
    }
  }

  /** With no negative amounts or absorbs, the credited damage never shrinks as events arrive. */
  lemma {:induction false} DamageMonotone(events: seq<DamageEvent>, more: seq<DamageEvent>, explosionId: int)
    requires forall e :: e in more ==> e.amount >= 0 && AbsorbedOrZero(e) >= 0
    ensures TotalDamage(Explosions(events, explosionId)) <= TotalDamage(Explosions(events + more, explosionId))
  {
    ExplosionsAppend(events, more, explosionId);
    ExplosionsAreEvents(more, explosionId);
    TotalDamageAppend(Explosions(events, explosionId), Explosions(more, explosionId));
    NonNegativeDamage(Explosions(more, explosionId));
  }

  lemma {:induction false} NonNegativeDamage(hits: seq<DamageEvent>)
    requires forall e :: e in hits ==> e.amount >= 0 && AbsorbedOrZero(e) >= 0
    ensures TotalDamage(hits) >= 0
  {
    if hits != [] {
      NonNegativeDamage(hits[..|hits| - 1]);
    }
  }
}
