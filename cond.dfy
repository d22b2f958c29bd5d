/**
  The conditional effect: it runs a boolean test system and shows, under its anchor, the content
  of the positive branch while the test holds and of the negative branch otherwise.  The content
  is rebuilt from scratch only when the result changes, or on the first update.
*/
module Cond {
  import opened Wrappers
  import opened World

  /** The branch a test result selects. */
  function Branch<L>(test: bool, pos: Factory<L>, neg: Factory<L>): Factory<L> {
    if test then pos else neg
  }

  class CondEffect<Q, L> {
    /** The result the shown branch was built for. */
    var state: bool
    /** The test system, until the first update registers it. */
    var test: Option<Q>
    /** The registered test system. */
    var testId: Option<SystemId>
    const pos: Factory<L>
    const neg: Factory<L>
    /**
      Whether a branch has been built.  Only `UpdateForcing` reads and writes it; the update as
      written keeps no such flag.
    */
    var built: bool

    /** The test is either still unregistered or registered, never both. */
    ghost predicate Valid()
      reads this
    {
      test.Some? <==> testId.None?
    }

    /**
      The shown branch, once one is built, is a copy of the branch `state` selects: the
      invariant `UpdateForcing` keeps.
    */
    ghost predicate Shows(world: World<L>, anchor: NodeId)
      reads this, world
    {
      built ==> ShowsContent(world.Snapshot(), anchor, Branch(state, pos, neg))
    }

    /**
      What one update leaves, given the result and id held before it and the outcome of the
      run: registered, the result retained on success and the old one kept on failure, and an
      id already held kept.
    */
    ghost predicate Updated(state0: bool, testId0: Option<SystemId>, result: Option<bool>)
      reads this
    {
      && Valid() && testId.Some?
      && (result.Some? ==> state == result.value)
      && (result.None? ==> state == state0)
      && (testId0.Some? ==> testId == testId0)
    }

    constructor (test: Q, pos: Factory<L>, neg: Factory<L>)
      ensures Valid() && !built
      ensures state == false && this.test == Some(test) && testId == None
      ensures this.pos == pos && this.neg == neg
    {
      state := false;
      this.test := Some(test);
      testId := None;
      this.pos := pos;
      this.neg := neg;
      built := false;
    }

    /** Registers the test system on the first update; says whether this is the first update. */
    method Register(world: World<L>) returns (first: bool)
      requires world.Valid()
      modifies this`test, this`testId, world`nextSystem, world`systems
      ensures world.Valid() && first == old(test).Some?
      ensures Registration(old(test), old(testId), old(world.nextSystem), old(world.systems),
                           test, testId, world.nextSystem, world.systems)
    {
      first := false;
      if test.Some? {
        var id := world.RegisterSystem();
        testId := Some(id);
        test := None;
        first := true;
      }
    }

    /** Despawns what is shown under `anchor` and builds the branch for `result` instead. */
    method Rebuild(world: World<L>, anchor: NodeId, result: bool)
      requires world.Valid()
      modifies this`state, world`next, world`live, world`tag, world`children, world`despawned
      ensures world.Valid() && state == result
      ensures world.Snapshot() == WithContent(Cleared(old(world.Snapshot()), anchor), anchor, Branch(result, pos, neg))
    {
      world.DespawnDescendants(anchor);
      if result {
        world.Create(anchor, pos);
      } else {
        world.Create(anchor, neg);
      }
      state := result;
    }

    /**
      One update.  `result` is the outcome of running the test system (`None` when the run
      fails).  The branch is rebuilt when the run succeeds and its result differs from the
      retained one, or on the first update; otherwise nothing changes.
    */
    method Update(world: World<L>, anchor: NodeId, result: Option<bool>)
      requires Valid() && world.Valid()
      modifies this`state, this`test, this`testId
      modifies world`next, world`live, world`tag, world`children, world`despawned
      modifies world`nextSystem, world`systems
      ensures Valid() && world.Valid() && testId.Some?
      ensures Registration(old(test), old(testId), old(world.nextSystem), old(world.systems),
                           test, testId, world.nextSystem, world.systems)
      ensures result.Some? && (result.value != old(state) || old(test).Some?) ==>
                state == result.value &&
                world.Snapshot() == WithContent(Cleared(old(world.Snapshot()), anchor), anchor,
                                                Branch(result.value, pos, neg))
      ensures !(result.Some? && (result.value != old(state) || old(test).Some?)) ==>
                state == old(state) && world.Snapshot() == old(world.Snapshot())
    {
      var first := Register(world);
      if testId.Some? {
        if result.Some? {
          if state != result.value || first {
            Rebuild(world, anchor, result.value);
          }
        }
      }
    }

    /**
      The update with first-run forcing kept until a run succeeds: the branch is also rebuilt
      when none has been built yet, so a first run that fails does not leave the anchor without
      content once the test reports a result.
    */
    method UpdateForcing(world: World<L>, anchor: NodeId, result: Option<bool>)
      requires Valid() && world.Valid()
      modifies this`state, this`test, this`testId, this`built
      modifies world`next, world`live, world`tag, world`children, world`despawned
      modifies world`nextSystem, world`systems
      ensures Valid() && world.Valid() && testId.Some?
      ensures Registration(old(test), old(testId), old(world.nextSystem), old(world.systems),
                           test, testId, world.nextSystem, world.systems)
      ensures result.Some? ==> built && state == result.value
      ensures result.None? ==> built == old(built) && state == old(state)
      ensures result.Some? && (result.value != old(state) || !old(built)) ==>
                world.Snapshot() == WithContent(Cleared(old(world.Snapshot()), anchor), anchor,
                                                Branch(result.value, pos, neg))
      ensures !(result.Some? && (result.value != old(state) || !old(built))) ==>
                world.Snapshot() == old(world.Snapshot())
      ensures old(Shows(world, anchor)) ==> Shows(world, anchor)
    {
      var first := Register(world);
      if testId.Some? {
        if result.Some? {
          if state != result.value || !built {
            Rebuild(world, anchor, result.value);
            built := true;
            RebuiltShows(old(world.Snapshot()), anchor, Branch(result.value, pos, neg));
          }
        }
      }
    }

    /** Queues the unregistering of the test system, when it was registered. */
    method Cleanup(world: World<L>)
      modifies world`commands
      ensures testId.Some? ==> world.commands == old(world.commands) + [testId.value]
      ensures testId.None? ==> world.commands == old(world.commands)
    {
      if testId.Some? {
        world.QueueUnregister(testId.value);
      }
    }
  }

  /**
    One pass of the conditional effects over the list taken before the pass, updating
    `effects[i]` with the outcome of its test run, `results[i]`.  Afterwards every effect is
    registered, an effect registered before keeps its id, each one whose run succeeded retains
    its result and each one whose run failed keeps its previous result.
  */
  method UpdateAll<Q, L>(world: World<L>, effects: seq<(NodeId, CondEffect<Q, L>)>, results: seq<Option<bool>>)
    requires |effects| == |results| && world.Valid()
    requires forall i, j :: 0 <= i < j < |effects| ==> effects[i].1 != effects[j].1
    requires forall i :: 0 <= i < |effects| ==> effects[i].1.Valid()
    modifies set i | 0 <= i < |effects| :: effects[i].1
    modifies world`next, world`live, world`tag, world`children, world`despawned
    modifies world`nextSystem, world`systems
    ensures world.Valid()
    ensures forall i :: 0 <= i < |effects| ==> effects[i].1.Valid() && effects[i].1.testId.Some?
    ensures forall i :: 0 <= i < |effects| && results[i].Some? ==> effects[i].1.state == results[i].value
    ensures forall i :: 0 <= i < |effects| && results[i].None? ==> effects[i].1.state == old(effects[i].1.state)
    ensures forall i :: 0 <= i < |effects| && old(effects[i].1.testId).Some? ==>
              effects[i].1.testId == old(effects[i].1.testId)
  {
    var i := 0;
    while i < |effects|
      invariant 0 <= i <= |effects| && world.Valid()
      invariant forall k :: 0 <= k < i ==>
                  effects[k].1.Updated(old(effects[k].1.state), old(effects[k].1.testId), results[k])
      invariant forall k :: i <= k < |effects| ==>
                  && effects[k].1.Valid()
                  && effects[k].1.state == old(effects[k].1.state)
                  && effects[k].1.testId == old(effects[k].1.testId)
    {
      effects[i].1.Update(world, effects[i].0, results[i]);
      i := i + 1;
    }
  }

  // ---- What the updates promise ----

  /**
    As written: the first update's test run fails, then the test reports `false`.  The first
    update has registered the test, so the second is not a first update, and `false` equals the
    initial result: nothing is built and the anchor shows neither branch.
  */
  method FailedFirstAsWritten() returns (shown: seq<NodeId>)
    ensures shown == []
  {
    var world := new World<int>();
    var anchor := world.Spawn(0);
    var c := new CondEffect<int, int>(0, Factory(1, 1), Factory(2, 1));
    c.Update(world, anchor, None);
    c.Update(world, anchor, Some(false));
    shown := world.Kids(anchor);
  }

  /** With first-run forcing kept until a run succeeds, the same updates show the negative branch. */
  method FailedFirstForcing() returns (shown: seq<NodeId>, tags: seq<int>)
    ensures |shown| == 1 && tags == [2]
  {
    var world := new World<int>();
    var anchor := world.Spawn(0);
    var c := new CondEffect<int, int>(0, Factory(1, 1), Factory(2, 1));
    c.UpdateForcing(world, anchor, None);
    c.UpdateForcing(world, anchor, Some(false));
    shown := world.Kids(anchor);
    tags := [world.tag[shown[0]]];
  }
}
