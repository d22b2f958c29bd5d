/**
  The switch effect: it runs a system producing a value, picks the first case of its table whose
  value equals it, and shows that case's content under its anchor, or the fallback when no case
  matches.  The content is rebuilt from scratch only when the picked index changes, or on the
  first update.
*/
module Switch {
  import opened Wrappers
  import opened World

  /** The largest 64-bit `usize`: the index that stands for "no case matched". */
  const UsizeMax: nat := 0xFFFF_FFFF_FFFF_FFFF

  /** One row of the case table: a value and the content shown when it is matched. */
  datatype SwitchCase<P, L> = SwitchCase(value: P, content: Factory<L>)

  /** The first index from `i` on whose case value equals `value`, or `UsizeMax` when there is none. */
  function SelectFrom<P(==), L>(cases: seq<SwitchCase<P, L>>, value: P, i: nat): (r: nat)
    requires i <= |cases|
    ensures || (r == UsizeMax && forall j :: i <= j < |cases| ==> cases[j].value != value)
            || (i <= r < |cases| && cases[r].value == value && forall j :: i <= j < r ==> cases[j].value != value)
    decreases |cases| - i
  {
    if i == |cases| then UsizeMax
    else if cases[i].value == value then i
    else SelectFrom(cases, value, i + 1)
  }

  /**
    The index a value selects: the lowest index whose case value equals it, so a repeated value
    resolves to its first row; `UsizeMax` when no case matches.
  */
  function SelectIndex<P(==), L>(cases: seq<SwitchCase<P, L>>, value: P): (r: nat)
    ensures (exists i :: 0 <= i < |cases| && cases[i].value == value) ==>
              r < |cases| && cases[r].value == value && forall j :: 0 <= j < r ==> cases[j].value != value
    ensures (forall i :: 0 <= i < |cases| ==> cases[i].value != value) ==> r == UsizeMax
  {
    SelectFrom(cases, value, 0)
  }

  /**
    Appending a case leaves every value that already matched selecting the same index; a value
    that matched nothing now selects the new case exactly when it equals the new case's value.
  */
  lemma {:induction false} SelectFromAppended<P, L>(cases: seq<SwitchCase<P, L>>, c: SwitchCase<P, L>,
                                                        value: P, i: nat)
    requires i <= |cases| < UsizeMax
    ensures SelectFrom(cases + [c], value, i)
         == if SelectFrom(cases, value, i) < |cases| then SelectFrom(cases, value, i)
            else if c.value == value then |cases| else UsizeMax
    decreases |cases| - i
  {
    if i < |cases| {
      assert (cases + [c])[i] == cases[i];
      if cases[i].value != value {
        SelectFromAppended(cases, c, value, i + 1);
      }
    } else {
      assert (cases + [c])[i] == c;
    }
  }

  lemma SelectAppended<P, L>(cases: seq<SwitchCase<P, L>>, c: SwitchCase<P, L>, value: P)
    requires |cases| < UsizeMax
    ensures SelectIndex(cases + [c], value)
         == if SelectIndex(cases, value) < |cases| then SelectIndex(cases, value)
            else if c.value == value then |cases| else UsizeMax
  {
    SelectFromAppended(cases, c, value, 0);
  }

  /** What a rebuild for `index` builds: the case at `index`, else the fallback, else nothing. */
  function Chosen<P, L>(cases: seq<SwitchCase<P, L>>, fallback: Option<Factory<L>>, index: nat): Option<Factory<L>> {
    if index < |cases| then Some(cases[index].content) else fallback
  }

  /** A store after `anchor` is cleared and `content`, if any, built under it. */
  function Rebuilt<L>(s: Store<L>, anchor: NodeId, content: Option<Factory<L>>): Store<L> {
    match content
    case Some(f) => WithContent(Cleared(s, anchor), anchor, f)
    case None => Cleared(s, anchor)
  }

  /** The anchor shows a copy of `content`, or nothing when there is none. */
  ghost predicate Displays<L>(s: Store<L>, anchor: NodeId, content: Option<Factory<L>>) {
    match content
    case Some(f) => ShowsContent(s, anchor, f)
    case None => KidsOf(s, anchor) == []
  }

  /** A rebuild leaves the anchor showing exactly what it built. */
  lemma RebuiltDisplays<L>(s: Store<L>, anchor: NodeId, content: Option<Factory<L>>)
    ensures Displays(Rebuilt(s, anchor, content), anchor, content)
  {
    if content.Some? {
      RebuiltShows(s, anchor, content.value);
    }
  }

  class SwitchEffect<Q, P(==), L> {
    /** The index the shown content was built for. */
    var switchIndex: nat
    /** The value system, until the first update registers it. */
    var valueFn: Option<Q>
    /** The registered value system. */
    var valueSys: Option<SystemId>
    var cases: seq<SwitchCase<P, L>>
    var fallback: Option<Factory<L>>
    /**
      Whether content has been built.  Only `UpdateForcing` reads and writes it; the update as
      written keeps no such flag.
    */
    var built: bool

    /** The value system is either still unregistered or registered, never both. */
    ghost predicate Valid()
      reads this
    {
      valueFn.Some? <==> valueSys.None?
    }

    /**
      The shown content, once some is built, is what `switchIndex` selects: the invariant
      `UpdateForcing` keeps.
    */
    ghost predicate Shows(world: World<L>, anchor: NodeId)
      reads this, world
    {
      built ==> Displays(world.Snapshot(), anchor, Chosen(cases, fallback, switchIndex))
    }

    constructor (valueFn: Q)
      ensures Valid() && !built
      ensures switchIndex == UsizeMax && this.valueFn == Some(valueFn) && valueSys == None
      ensures cases == [] && fallback == None
    {
      switchIndex := UsizeMax;
      this.valueFn := Some(valueFn);
      valueSys := None;
      cases := [];
      fallback := None;
      built := false;
    }

    /** Adds a case after the existing ones. */
    method Case(value: P, content: Factory<L>)
      modifies this`cases
      ensures cases == old(cases) + [SwitchCase(value, content)]
    {
      cases := cases + [SwitchCase(value, content)];
    }

    /** Sets the fallback, replacing any previous one. */
    method Fallback(content: Factory<L>)
      modifies this`fallback
      ensures fallback == Some(content)
    {
      fallback := Some(content);
    }

    /** Registers the value system on the first update; says whether this is the first update. */
    method Register(world: World<L>) returns (first: bool)
      requires world.Valid()
      modifies this`valueFn, this`valueSys, world`nextSystem, world`systems
      ensures world.Valid() && first == old(valueFn).Some?
      ensures Registration(old(valueFn), old(valueSys), old(world.nextSystem), old(world.systems),
                           valueFn, valueSys, world.nextSystem, world.systems)
    {
      first := false;
      if valueFn.Some? {
        var id := world.RegisterSystem();
        valueSys := Some(id);
        valueFn := None;
        first := true;
      }
    }

    /** Despawns what is shown under `anchor` and builds what `index` selects instead. */
    method Rebuild(world: World<L>, anchor: NodeId, index: nat)
      requires world.Valid()
      modifies this`switchIndex, world`next, world`live, world`tag, world`children, world`despawned
      ensures world.Valid() && switchIndex == index
      ensures world.Snapshot() == Rebuilt(old(world.Snapshot()), anchor, Chosen(cases, fallback, index))
    {
      switchIndex := index;
      world.DespawnDescendants(anchor);
      if index < |cases| {
        world.Create(anchor, cases[index].content);
      } else if fallback.Some? {
        world.Create(anchor, fallback.value);
      }
    }

    /**
      One update.  `result` is the outcome of running the value system (`None` when the run
      fails).  The content is rebuilt when the run succeeds and the index its value selects
      differs from the retained one, or on the first update; otherwise nothing changes.
    */
    method Update(world: World<L>, anchor: NodeId, result: Option<P>)
      requires Valid() && world.Valid()
      modifies this`switchIndex, this`valueFn, this`valueSys
      modifies world`next, world`live, world`tag, world`children, world`despawned
      modifies world`nextSystem, world`systems
      ensures Valid() && world.Valid() && valueSys.Some?
      ensures Registration(old(valueFn), old(valueSys), old(world.nextSystem), old(world.systems),
                           valueFn, valueSys, world.nextSystem, world.systems)
      ensures result.Some? && (SelectIndex(cases, result.value) != old(switchIndex) || old(valueFn).Some?) ==>
                switchIndex == SelectIndex(cases, result.value) &&
                world.Snapshot() == Rebuilt(old(world.Snapshot()), anchor, Chosen(cases, fallback, switchIndex))
      ensures !(result.Some? && (SelectIndex(cases, result.value) != old(switchIndex) || old(valueFn).Some?)) ==>
                switchIndex == old(switchIndex) && world.Snapshot() == old(world.Snapshot())
    {
      var first := Register(world);
      if valueSys.Some? {
        if result.Some? {
          var index := SelectIndex(cases, result.value);
          if switchIndex != index || first {
            Rebuild(world, anchor, index);
          }
        }
      }
    }

    /**
      The update with first-run forcing kept until a run succeeds: the content is also rebuilt
      when none has been built yet, so a first run that fails does not leave the anchor without
      the selected content (or the fallback) once the value system reports a value.
    */
    method UpdateForcing(world: World<L>, anchor: NodeId, result: Option<P>)
      requires Valid() && world.Valid()
      modifies this`switchIndex, this`valueFn, this`valueSys, this`built
      modifies world`next, world`live, world`tag, world`children, world`despawned
      modifies world`nextSystem, world`systems
      ensures Valid() && world.Valid() && valueSys.Some?
      ensures Registration(old(valueFn), old(valueSys), old(world.nextSystem), old(world.systems),
                           valueFn, valueSys, world.nextSystem, world.systems)
      ensures result.Some? ==> built && switchIndex == SelectIndex(cases, result.value)
      ensures result.None? ==> built == old(built) && switchIndex == old(switchIndex)
      ensures result.Some? && (SelectIndex(cases, result.value) != old(switchIndex) || !old(built)) ==>
                world.Snapshot() == Rebuilt(old(world.Snapshot()), anchor, Chosen(cases, fallback, switchIndex))
      ensures !(result.Some? && (SelectIndex(cases, result.value) != old(switchIndex) || !old(built))) ==>
                world.Snapshot() == old(world.Snapshot())
      ensures old(Shows(world, anchor)) ==> Shows(world, anchor)
    {
      var first := Register(world);
      if valueSys.Some? {
        if result.Some? {
          var index := SelectIndex(cases, result.value);
          if switchIndex != index || !built {
            Rebuild(world, anchor, index);
            built := true;
            RebuiltDisplays(old(world.Snapshot()), anchor, Chosen(cases, fallback, index));
          }
        }
      }
    }

    /** Queues the unregistering of the value system, when it was registered. */
    method Cleanup(world: World<L>)
      modifies world`commands
      ensures valueSys.Some? ==> world.commands == old(world.commands) + [valueSys.value]
      ensures valueSys.None? ==> world.commands == old(world.commands)
    {
      if valueSys.Some? {
        world.QueueUnregister(valueSys.value);
      }
    }
  }

  // ---- What the updates promise ----

  /**
    Two successive values that match no case: the first update shows the fallback, the second
    selects the same "no match" index and leaves the fallback's nodes in place.
  */
  method UnmatchedTwice() returns (shown: seq<NodeId>)
    ensures shown == [1]
  {
    var world := new World<int>();
    var anchor := world.Spawn(0);
    var s := new SwitchEffect<int, int, int>(0);
    s.Case(1, Factory(10, 1));
    s.Fallback(Factory(-1, 1));
    s.Update(world, anchor, Some(7));
    s.Update(world, anchor, Some(8));
    shown := world.Kids(anchor);
  }

  /**
    As written: the first update's value run fails, then the value system reports a value no
    case matches.  The first update has registered the system, so the second is not a first
    update, and "no match" equals the initial index: the fallback is never built.
  */
  method FailedFirstAsWritten() returns (shown: seq<NodeId>)
    ensures shown == []
  {
    var world := new World<int>();
    var anchor := world.Spawn(0);
    var s := new SwitchEffect<int, int, int>(0);
    s.Case(1, Factory(10, 1));
    s.Fallback(Factory(-1, 1));
    s.Update(world, anchor, None);
    s.Update(world, anchor, Some(7));
    shown := world.Kids(anchor);
  }

  /** With first-run forcing kept until a run succeeds, the same updates show the fallback. */
  method FailedFirstForcing() returns (shown: seq<NodeId>, tags: seq<int>)
    ensures |shown| == 1 && tags == [-1]
  {
    var world := new World<int>();
    var anchor := world.Spawn(0);
    var s := new SwitchEffect<int, int, int>(0);
    s.Case(1, Factory(10, 1));
    s.Fallback(Factory(-1, 1));
    s.UpdateForcing(world, anchor, None);
    s.UpdateForcing(world, anchor, Some(7));
    shown := world.Kids(anchor);
    tags := [world.tag[shown[0]]];
  }
}
