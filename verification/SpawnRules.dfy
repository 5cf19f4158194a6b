/**
 What a spawn comes to, read off the request and the tracked children alone: which slot it settles on,
 when it fails, and what is tracked afterwards.
 */
module SpawnRules {
  import opened Basics
  import opened ProcessTables
  import UnitNames

  function NameOf(basename: seq<Byte>, slot: nat): string {
    "surface" + UnitNames.Decimal(slot) + "-" + UnitNames.Component(basename, slot) + ".service"
  }

  /** The slot may be tried: its name fits, no tracked child has it, and slot 0 is for the main application. */
  predicate MayTry(t: Tables, r: SpawnRequest, basename: seq<Byte>, slot: nat) {
    && slot <= 0xFFFF_FFFF && |NameOf(basename, slot)| <= 255
    && (forall pid :: pid in t.children ==> SlotOf(t.children[pid]) != Some(slot))
    && (slot == 0 ==> r.mainApp)
  }

  /** The first slot that may be tried and whose name does not collide. */
  predicate Settles(t: Tables, r: SpawnRequest, basename: seq<Byte>, slot: nat) {
    && MayTry(t, r, basename, slot) && r.start(slot) != Collision
    && forall s: nat :: s < slot && MayTry(t, r, basename, s) ==> r.start(s) == Collision
  }

  predicate LastSlot(t: Tables, r: SpawnRequest, basename: seq<Byte>, slot: nat) {
    MayTry(t, r, basename, slot) && forall s: nat :: s > slot && s <= 0xFFFF_FFFF ==> !MayTry(t, r, basename, s)
  }

  /** The name a launch without a unit gets when every slot collides: that of the last slot, if there is one. */
  ghost predicate LastName(t: Tables, r: SpawnRequest, basename: seq<Byte>, name: string) {
    || (exists slot: nat :: LastSlot(t, r, basename, slot) && name == NameOf(basename, slot))
    || (name == "unavailable" && forall slot: nat :: !MayTry(t, r, basename, slot))
  }

  /** A plain process under this name, or an error if it cannot start. */
  predicate Plain(t: Tables, r: SpawnRequest, name: string, after: Tables, m: ManagedSpawn) {
    match r.unitless
    case None => m == SpawnError && after == t
    case Some(pid) =>
      && m == StartedChild(pid, if pid in t.children then Some(pid) else None, None)
      && after.unconfirmed == t.unconfirmed
      && after.children == t.children[pid := UnitChild(name, true, None, false, true, None, false, None)]
  }

  /** What the attempt that settles a spawn comes to. */
  predicate Settled(t: Tables, id: nat, r: SpawnRequest, name: string, attempt: StartAttempt, after: Tables,
                    m: ManagedSpawn)
  {
    match attempt
    case StartedUnit(pid, observation) =>
      && m == StartedChild(pid, if pid in t.children then Some(pid) else None, observation)
      && after.unconfirmed == t.unconfirmed
      && after.children == t.children[pid := UnitChild(name, false, None, false, false, None, false, observation)]
    case Unconfirmed =>
      m == UnconfirmedSpawn && after.children == t.children && after.unconfirmed == t.unconfirmed[id := name]
    case Failure(exec) => if exec then m == SpawnError && after == t else Plain(t, r, name, after, m)
    case Collision => false
  }

  /** What a spawn comes to. */
  ghost predicate Outcome(t: Tables, id: nat, r: SpawnRequest, after: Tables, m: ManagedSpawn) {
    match r.basename
    case None => Plain(t, r, "unavailable", after, m)
    case Some(basename) =>
      && (forall slot: nat :: Settles(t, r, basename, slot) ==>
            Settled(t, id, r, NameOf(basename, slot), r.start(slot), after, m))
      && ((forall slot: nat :: !Settles(t, r, basename, slot)) ==>
            exists name :: LastName(t, r, basename, name) && Plain(t, r, name, after, m))
  }

  // ---------------------------------------------------------------- the search for a slot

  lemma SameName(basename: seq<Byte>, slot: nat)
    ensures Name(basename, slot) == NameOf(basename, slot)
  {
    hide UnitNames.Component, UnitNames.Decimal;
  }

  /** A name fits exactly up to the slot limit. */
  lemma FitsUpToLimit(basename: seq<Byte>, slot: nat)
    ensures UnitNames.SlotLimit(basename).Some?
    ensures slot <= UnitNames.SlotLimit(basename).value <==> slot <= 0xFFFF_FFFF && |NameOf(basename, slot)| <= 255
  {
    hide UnitNames.Escape, UnitNames.Shorten, UnitNames.Decimal, UnitNames.UnitSlotForName;
    UnitNames.SlotLimitExists(basename);
    if slot <= UnitNames.SlotLimit(basename).value {
      UnitNames.SpawnNamesFit(basename, slot);
    } else if slot <= 0xFFFF_FFFF {
      UnitNames.MaxSlotIsLargestFitting(UnitNames.Escape(basename), slot);
    }
  }

  lemma SameCandidates(t: Tables, r: SpawnRequest, basename: seq<Byte>)
    ensures UnitNames.SlotLimit(basename).Some?
    ensures forall slot: nat :: MayTry(t, r, basename, slot) <==>
              Candidate(r, UnitNames.SlotLimit(basename).value, Occupied(t.children), slot)
  {
    hide NameOf, UnitNames.SlotLimit, SlotOf;
    FitsUpToLimit(basename, 0);
    forall slot: nat
      ensures MayTry(t, r, basename, slot) <==>
              Candidate(r, UnitNames.SlotLimit(basename).value, Occupied(t.children), slot)
    {
      FitsUpToLimit(basename, slot);
      if pid :| pid in t.children && SlotOf(t.children[pid]) == Some(slot) {
        assert slot in Occupied(t.children);
      }
    }
  }

  lemma PlainIs(t: Tables, r: SpawnRequest, name: string)
    ensures Plain(t, r, name, SpawnedUnitless(t, r, name).0, SpawnedUnitless(t, r, name).1)
  {
  }

  lemma SettledIs(t: Tables, id: nat, r: SpawnRequest, basename: seq<Byte>, slot: nat)
    requires r.start(slot) != Collision
    ensures var s := SpawnedAt(t, id, r, basename, slot);
            Settled(t, id, r, NameOf(basename, slot), r.start(slot), s.0, s.1)
  {
    hide NameOf, Name, SpawnedUnitless;
    SameName(basename, slot);
    PlainIs(t, r, NameOf(basename, slot));
  }

  /** Two slots cannot both be the first. */
  lemma SettlesOnce(t: Tables, r: SpawnRequest, basename: seq<Byte>, a: nat, b: nat)
    requires Settles(t, r, basename, a) && Settles(t, r, basename, b)
    ensures a == b
  {
    hide MayTry;
  }

  lemma SlotOutcome(t: Tables, id: nat, r: SpawnRequest, basename: seq<Byte>, slot: nat)
    requires r.basename == Some(basename) && Settles(t, r, basename, slot)
    ensures var s := SpawnedAt(t, id, r, basename, slot); Outcome(t, id, r, s.0, s.1)
  {
    hide NameOf, MayTry, SpawnedAt, Settled;
    SettledIs(t, id, r, basename, slot);
    forall other: nat | Settles(t, r, basename, other)
      ensures other == slot
    {
      SettlesOnce(t, r, basename, slot, other);
    }
  }

  lemma NoSlotOutcome(t: Tables, id: nat, r: SpawnRequest, basename: seq<Byte>, name: string)
    requires r.basename == Some(basename) && (forall slot: nat :: !Settles(t, r, basename, slot))
    requires LastName(t, r, basename, name)
    ensures var s := SpawnedUnitless(t, r, name); Outcome(t, id, r, s.0, s.1)
  {
    hide NameOf, MayTry, SpawnedUnitless, Plain, LastName, Settles;
    PlainIs(t, r, name);
  }

  /** A spawn comes to what the rules say, for every answer of the system. */
  lemma SpawnFollowsRules(t: Tables, id: nat, r: SpawnRequest)
    ensures Outcome(t, id, r, Spawned(t, id, r).0, Spawned(t, id, r).1)
  {
    hide NameOf, Name, MayTry, SpawnedAt, SpawnedUnitless, UnitNames.SlotLimit, Candidate, Occupied, Outcome;
    if r.basename.None? {
      NoUnitOutcome(t, id, r);
    } else {
      var basename := r.basename.value;
      SameCandidates(t, r, basename);
      var maxSlot, occupied := UnitNames.SlotLimit(basename).value, Occupied(t.children);
      var slot := Settle(r, maxSlot, occupied, 0);
      var last := LastCandidate(r, maxSlot, occupied, maxSlot + 1);
      WithinLimit(r, maxSlot, occupied);
      if slot.Some? {
        SlotOutcome(t, id, r, basename, slot.value);
      } else {
        LastIs(t, r, basename, maxSlot, occupied);
        NoSlotOutcome(t, id, r, basename, if last.Some? then Name(basename, last.value) else UNAVAILABLE);
      }
    }
  }

  lemma NoUnitOutcome(t: Tables, id: nat, r: SpawnRequest)
    requires r.basename.None?
    ensures Outcome(t, id, r, SpawnedUnitless(t, r, UNAVAILABLE).0, SpawnedUnitless(t, r, UNAVAILABLE).1)
  {
  }

  lemma WithinLimit(r: SpawnRequest, maxSlot: nat, occupied: set<nat>)
    ensures forall slot: nat :: Candidate(r, maxSlot, occupied, slot) ==> slot <= maxSlot
  {
  }

  lemma LastIs(t: Tables, r: SpawnRequest, basename: seq<Byte>, maxSlot: nat, occupied: set<nat>)
    requires forall slot: nat :: MayTry(t, r, basename, slot) <==> Candidate(r, maxSlot, occupied, slot)
    ensures var last := LastCandidate(r, maxSlot, occupied, maxSlot + 1);
            LastName(t, r, basename, if last.Some? then Name(basename, last.value) else UNAVAILABLE)
  {
    hide NameOf, Name, MayTry, Candidate;
    WithinLimit(r, maxSlot, occupied);
    var last := LastCandidate(r, maxSlot, occupied, maxSlot + 1);
    if last.Some? {
      SameName(basename, last.value);
      assert LastSlot(t, r, basename, last.value);
    }
  }

  // ---------------------------------------------------------------- which result when

  /** The launch ends up without a unit. */
  ghost predicate FallsBack(t: Tables, r: SpawnRequest) {
    r.basename.Some? ==>
      || (forall slot: nat :: !Settles(t, r, r.basename.value, slot))
      || exists slot: nat :: Settles(t, r, r.basename.value, slot) && r.start(slot) == StartAttempt.Failure(false)
  }

  ghost predicate SettlesWith(t: Tables, r: SpawnRequest, attempt: StartAttempt) {
    r.basename.Some? && exists slot: nat :: Settles(t, r, r.basename.value, slot) && r.start(slot) == attempt
  }

  /**
   Exactly when a spawn fails or stays unconfirmed: it fails if the settling attempt could not execute
   the application, or the launch falls back to a plain process that cannot start.
   */
  lemma ResultExactly(t: Tables, id: nat, r: SpawnRequest, after: Tables, m: ManagedSpawn)
    requires Outcome(t, id, r, after, m)
    ensures m.SpawnError? <==> SettlesWith(t, r, StartAttempt.Failure(true)) || (FallsBack(t, r) && r.unitless.None?)
    ensures m.UnconfirmedSpawn? <==> SettlesWith(t, r, Unconfirmed)
    ensures m.StartedChild? ==>
              || (FallsBack(t, r) && r.unitless == Some(m.pid) && m.observation == None)
              || SettlesWith(t, r, StartedUnit(m.pid, m.observation))
  {
    hide NameOf, MayTry, Settles;
    if r.basename.Some? {
      var basename := r.basename.value;
      if slot: nat :| Settles(t, r, basename, slot) {
        forall other: nat | Settles(t, r, basename, other)
          ensures other == slot
        {
          SettlesOnce(t, r, basename, slot, other);
        }
        assert Settled(t, id, r, NameOf(basename, slot), r.start(slot), after, m);
      }
    }
  }
}
