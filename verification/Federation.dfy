/** Entity resolution: representations are grouped by type, then resolved by goroutines that scatter into one list. */
module Federation {
  import opened Wrappers

  /** `typeName` is `None` when `__typename` is missing or not a string. */
  datatype Representation<B> = Representation(typeName: Option<string>, body: B)

  datatype EntityWithIndex<B> = EntityWithIndex(index: nat, entity: Representation<B>)

  /** The resolver of one representation, a panic counted as an error. */
  type Resolver<!B, !E> = (string, Representation<B>) -> Result<E, string>

  /** Representation `i` resolved on its own: `None` where it errs or has no type name. */
  function Alone<B, E>(resolve: Resolver<B, E>, rep: Representation<B>): Option<E> {
    match rep.typeName
    case None => None
    case Some(t) =>
      match resolve(t, rep)
      case Err(_) => None
      case Ok(e) => Some(e)
  }

  /** The group of a type: its representations with their places, in order. */
  function GroupOf<B>(reps: seq<Representation<B>>, t: string): seq<EntityWithIndex<B>> {
    if reps == [] then []
    else
      var last := |reps| - 1;
      GroupOf(reps[..last], t) +
      if reps[last].typeName == Some(t) then [EntityWithIndex(last, reps[last])] else []
  }

  /** A group holds exactly the representations of its type, each once, in order. */
  lemma {:induction false} GroupMeaning<B(!new)>(reps: seq<Representation<B>>, t: string)
    ensures forall x :: x in GroupOf(reps, t) <==>
              x.index < |reps| && x.entity == reps[x.index] && x.entity.typeName == Some(t)
    ensures forall i, j :: 0 <= i < j < |GroupOf(reps, t)| ==> GroupOf(reps, t)[i].index < GroupOf(reps, t)[j].index
  {
    if reps == [] {
    } else {
      var last := |reps| - 1;
      GroupMeaning(reps[..last], t);
      forall i, j | 0 <= i < j < |GroupOf(reps, t)|
        ensures GroupOf(reps, t)[i].index < GroupOf(reps, t)[j].index {
        assert GroupOf(reps, t)[i] == GroupOf(reps[..last], t)[i];
        assert GroupOf(reps[..last], t)[i] in GroupOf(reps[..last], t);
      }
    }
  }

  /** The groups partition the typed places: each is in one group, at one position. */
  lemma GroupsPartition<B(!new)>(reps: seq<Representation<B>>, t: string, i: nat, t': string, i': nat)
    requires i < |GroupOf(reps, t)| && i' < |GroupOf(reps, t')|
    requires GroupOf(reps, t)[i].index == GroupOf(reps, t')[i'].index
    ensures t == t' && i == i'
  {
    GroupMeaning(reps, t);
    GroupMeaning(reps, t');
    assert GroupOf(reps, t)[i] in GroupOf(reps, t) && GroupOf(reps, t')[i'] in GroupOf(reps, t');
  }

  function TypeNames<B>(reps: seq<Representation<B>>): (r: set<string>)
    ensures forall t :: t in r <==> exists i :: 0 <= i < |reps| && reps[i].typeName == Some(t)
  {
    if reps == [] then {}
    else
      var last := |reps| - 1;
      assert forall i :: 0 <= i < last ==> reps[..last][i] == reps[i];
      TypeNames(reps[..last]) +
      match reps[last].typeName
      case None => {}
      case Some(t) => {t}
  }

  /** The map holds the group of every type named, and nothing else. */
  ghost predicate Grouped<B(!new)>(repsMap: map<string, seq<EntityWithIndex<B>>>, reps: seq<Representation<B>>) {
    && repsMap.Keys == TypeNames(reps)
    && forall t :: t in repsMap ==> repsMap[t] == GroupOf(reps, t)
  }

  lemma {:induction false} UnnamedIsEmpty<B(!new)>(reps: seq<Representation<B>>, t: string)
    requires t !in TypeNames(reps)
    ensures GroupOf(reps, t) == []
  {
    if reps == [] {
    } else {
      UnnamedIsEmpty(reps[..|reps| - 1], t);
    }
  }

  /** One more representation joins its own group and no other. */
  lemma GroupedStep<B(!new)>(repsMap: map<string, seq<EntityWithIndex<B>>>, reps: seq<Representation<B>>, rep: Representation<B>)
    requires Grouped(repsMap, reps)
    ensures rep.typeName.None? ==> Grouped(repsMap, reps + [rep])
    ensures rep.typeName.Some? ==>
              var t := rep.typeName.value;
              var soFar := if t in repsMap then repsMap[t] else [];
              Grouped(repsMap[t := soFar + [EntityWithIndex(|reps|, rep)]], reps + [rep])
  {
    var all := reps + [rep];
    assert all[..|reps|] == reps;
    assert forall u :: rep.typeName != Some(u) ==> GroupOf(all, u) == GroupOf(reps, u) + [];
    if rep.typeName.Some? && rep.typeName.value !in repsMap {
      UnnamedIsEmpty(reps, rep.typeName.value);
    }
  }

  method BuildRepresentationGroups<B(!new)>(reps: seq<Representation<B>>)
    returns (repsMap: map<string, seq<EntityWithIndex<B>>>)
    ensures Grouped(repsMap, reps)
  {
    repsMap := map[];
    for i := 0 to |reps|
      invariant Grouped(repsMap, reps[..i])
    {
      var rep := reps[i];
      GroupedStep(repsMap, reps[..i], rep);
      assert reps[..i] + [rep] == reps[..i + 1];
      if rep.typeName.Some? {
        var typeName := rep.typeName.value;
        var soFar := if typeName in repsMap then repsMap[typeName] else [];
        repsMap := repsMap[typeName := soFar + [EntityWithIndex(i, rep)]];
      }
    }
    assert reps[..|reps|] == reps;
  }

  /** The goroutine that resolves representation `i`. */
  datatype Task<B> = Task(typeName: string, rep: EntityWithIndex<B>)

  predicate IsTask<B(==)>(reps: seq<Representation<B>>, x: Task<B>) {
    x.rep.index < |reps| && x.rep.entity == reps[x.rep.index] && x.rep.entity.typeName == Some(x.typeName)
  }

  /** Starting a group's goroutine starts one task for each representation of the type. */
  function TasksOf<B(!new,==)>(group: seq<EntityWithIndex<B>>, t: string): set<Task<B>> {
    set x | x in group :: Task(t, x)
  }

  lemma TasksMeaning<B(!new)>(reps: seq<Representation<B>>, t: string)
    ensures forall x :: x in TasksOf(GroupOf(reps, t), t) <==> IsTask(reps, x) && x.typeName == t
  {
    GroupMeaning(reps, t);
    forall x | IsTask(reps, x) && x.typeName == t ensures x in TasksOf(GroupOf(reps, t), t) {
      assert x.rep in GroupOf(reps, t) && x == Task(t, x.rep);
    }
  }

  /** Where the run stands: `done` places are resolved, `running` ones in flight, `waiting` types not started. */
  ghost predicate Progress<B(!new)>(
    reps: seq<Representation<B>>, waiting: set<string>, running: set<Task<B>>, done: set<nat>)
  {
    && (forall x :: x in running ==> IsTask(reps, x) && x.typeName !in waiting && x.rep.index !in done)
    && (forall x :: IsTask(reps, x) ==> x.typeName in waiting || x in running || x.rep.index in done)
    && (forall i :: i in done ==> i < |reps| && reps[i].typeName.Some? && reps[i].typeName.value !in waiting)
  }

  lemma ProgressStart<B(!new)>(
    reps: seq<Representation<B>>, waiting: set<string>, running: set<Task<B>>, done: set<nat>, t: string)
    requires Progress(reps, waiting, running, done) && t in waiting
    ensures Progress(reps, waiting - {t}, running + TasksOf(GroupOf(reps, t), t), done)
  {
    TasksMeaning(reps, t);
  }

  lemma ProgressTask<B(!new)>(
    reps: seq<Representation<B>>, waiting: set<string>, running: set<Task<B>>, done: set<nat>, x: Task<B>)
    requires Progress(reps, waiting, running, done) && x in running
    ensures Progress(reps, waiting, running - {x}, done + {x.rep.index})
  {
    assert forall y :: y in running && y.rep.index == x.rep.index ==> y == x;
  }

  lemma ProgressInit<B(!new)>(reps: seq<Representation<B>>)
    ensures Progress(reps, TypeNames(reps), {}, {})
  {
  }

  lemma ProgressEnd<B(!new)>(reps: seq<Representation<B>>, done: set<nat>)
    requires Progress(reps, {}, {}, done)
    ensures forall i: nat :: i < |reps| ==> (i in done <==> reps[i].typeName.Some?)
  {
    forall i: nat | i < |reps| && reps[i].typeName.Some? ensures i in done {
      assert IsTask(reps, Task(reps[i].typeName.value, EntityWithIndex(i, reps[i])));
    }
  }

  /** What the list holds once the `done` places are resolved. */
  function Filled<B, E>(reps: seq<Representation<B>>, resolve: Resolver<B, E>, done: set<nat>): seq<Option<E>> {
    seq(|reps|, i requires 0 <= i < |reps| => if i in done then Alone(resolve, reps[i]) else None)
  }

  /** The body of an entity's goroutine: its one write is to its own slot. */
  method RunTask<B(!new), E(!new)>(
    reps: seq<Representation<B>>, resolve: Resolver<B, E>, x: Task<B>, list: array<Option<E>>, ghost done: set<nat>)
    requires IsTask(reps, x) && x.rep.index !in done
    requires list[..] == Filled(reps, resolve, done)
    modifies list
    ensures list[..] == Filled(reps, resolve, done + {x.rep.index})
  {
    assert list.Length == |reps|;
    var resolved := resolve(x.typeName, x.rep.entity);
    if resolved.Ok? {
      list[x.rep.index] := Some(resolved.value);
    }
    var i := x.rep.index;
    assert list[i] == Alone(resolve, reps[i]) by { assert old(list[..])[i] == None; }
    assert forall k :: 0 <= k < |reps| && k != i ==> list[k] == old(list[..])[k];
  }

  /**
   * Every interleaving: a goroutine per group may start at any time, and so may each goroutine of
   * a started group, one per entity. Whatever the order, the list is the pointwise resolution.
   */
  method ResolveEntities<B(!new,==), E(!new)>(reps: seq<Representation<B>>, resolve: Resolver<B, E>)
    returns (list: array<Option<E>>)
    ensures fresh(list) && list.Length == |reps|
    ensures forall i :: 0 <= i < |reps| ==>
              list[i] == if reps[i].typeName.None? then None
                         else if resolve(reps[i].typeName.value, reps[i]).Err? then None
                         else Some(resolve(reps[i].typeName.value, reps[i]).value)
  {
    list := new Option<E>[|reps|](_ => None);
    var repsMap := BuildRepresentationGroups(reps);
    var waiting: set<string> := repsMap.Keys;
    var running: set<Task<B>> := {};
    ghost var done: set<nat> := {};
    ProgressInit(reps);
    assert list[..] == Filled(reps, resolve, done);
    while waiting != {} || running != {}
      invariant fresh(list)
      invariant waiting <= repsMap.Keys
      invariant Progress(reps, waiting, running, done)
      invariant list[..] == Filled(reps, resolve, done)
      decreases waiting, running
    {
      if
      case waiting != {} =>
        var t :| t in waiting;
        ProgressStart(reps, waiting, running, done, t);
        waiting := waiting - {t};
        running := running + TasksOf(repsMap[t], t);
      case running != {} =>
        var x :| x in running;
        ProgressTask(reps, waiting, running, done, x);
        running := running - {x};
        RunTask(reps, resolve, x, list, done);
        done := done + {x.rep.index};
    }
    ProgressEnd(reps, done);
    forall i: nat | i < |reps| ensures list[i] == Alone(resolve, reps[i]) {
      assert list[i] == list[..][i];
    }
  }
}
