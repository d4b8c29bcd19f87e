/**
 The reference count of src/app/context.c. Threads retain and release a context
 by atomic fetch-add and fetch-sub on a 32-bit int; the thread whose fetch-sub
 sees 1 tears the context down in five steps, while the others go on running.
 */
module ContextRefs {
  import opened Words
  import opened CStrings
  import Plugins

  datatype Resource = PluginManagerPart | ManagerRegistryPart | SchemaRegistryPart | ArenaPart | ContextBlock

  /** The order in which release destroys what the context owns, and at last the context itself. */
  const TEARDOWN: seq<Resource> := [PluginManagerPart, ManagerRegistryPart, SchemaRegistryPart, ArenaPart, ContextBlock]

  /** The value a 32-bit int holds after wrapping around. */
  function Wrap(x: int): (w: int)
    ensures -0x8000_0000 <= w < 0x8000_0000 && (x - w) % UINT32_COUNT == 0
  {
    (x + 0x8000_0000) % UINT32_COUNT - 0x8000_0000
  }

  /** The references a thread holds, and the next step of the teardown it is in, if any. */
  datatype Thread = Thread(held: nat, teardown: Option<nat>)

  /** entered counts how often a teardown was begun. */
  datatype Machine = Machine(refcount: int, threads: seq<Thread>, destroyed: seq<Resource>, entered: nat)

  /** One atomic step. Pass hands a reference over to another thread, which the library does not see. */
  datatype Action = Retain(t: nat) | Release(t: nat) | Pass(t: nat, to: nat) | Tear(t: nat)

  /** Only a thread that holds a reference retains, releases or passes one on. */
  predicate Enabled(s: Machine, a: Action) {
    && a.t < |s.threads|
    && var thread := s.threads[a.t];
       match a
       case Tear(_) => thread.teardown.Some? && thread.teardown.value < |TEARDOWN|
       case Pass(_, to) => thread.teardown.None? && thread.held > 0 && to < |s.threads| && to != a.t
       case _ => thread.teardown.None? && thread.held > 0
  }

  function Next(s: Machine, a: Action): Machine
    requires Enabled(s, a)
  {
    var thread := s.threads[a.t];
    match a
    case Retain(t) =>
      s.(refcount := Wrap(s.refcount + 1), threads := s.threads[t := thread.(held := thread.held + 1)])
    case Release(t) =>
      var last := s.refcount == 1;
      Machine(Wrap(s.refcount - 1),
            s.threads[t := Thread(thread.held - 1, if last then Some(0) else None)],
            s.destroyed,
            if last then s.entered + 1 else s.entered)
    case Pass(t, to) =>
      s.(threads := s.threads[t := thread.(held := thread.held - 1)][to := s.threads[to].(held := s.threads[to].held + 1)])
    case Tear(t) =>
      var k := thread.teardown.value;
      s.(threads := s.threads[t := thread.(teardown := if k + 1 < |TEARDOWN| then Some(k + 1) else None)],
         destroyed := s.destroyed + [TEARDOWN[k]])
  }

  /** n threads, the first of which created the context and holds its one reference. */
  function Created(n: nat): Machine
    requires n > 0
  {
    Machine(1, [Thread(1, None)] + seq(n - 1, _ => Thread(0, None)), [], 0)
  }

  ghost predicate Runs(n: nat, run: seq<Action>)
    requires n > 0
    decreases |run|, 0
  {
    run != [] ==> Runs(n, run[..|run| - 1]) && Enabled(After(n, run[..|run| - 1]), run[|run| - 1])
  }

  ghost function After(n: nat, run: seq<Action>): Machine
    requires n > 0 && Runs(n, run)
    decreases |run|, 1
  {
    if run == [] then Created(n) else Next(After(n, run[..|run| - 1]), run[|run| - 1])
  }

  function Held(threads: seq<Thread>): nat {
    if threads == [] then 0 else Held(threads[..|threads| - 1]) + threads[|threads| - 1].held
  }

  /** More references are held than one, but a 32-bit count of them reads 1. */
  ghost predicate Ambiguous(s: Machine) {
    Held(s.threads) > 1 && Held(s.threads) % UINT32_COUNT == 1
  }

  /** No release of the run takes many references for the last one. */
  ghost predicate Unambiguous(n: nat, run: seq<Action>)
    requires n > 0 && Runs(n, run)
    decreases |run|
  {
    run != [] ==>
      var before := run[..|run| - 1];
      Unambiguous(n, before) && !(run[|run| - 1].Release? && Ambiguous(After(n, before)))
  }

  // The invariant.

  ghost predicate Resting(s: Machine) {
    forall t :: 0 <= t < |s.threads| ==> s.threads[t].teardown.None?
  }

  /** Thread t, and no other, has destroyed the first k resources. */
  ghost predicate Tearing(s: Machine, t: nat, k: nat) {
    && t < |s.threads| && k < |TEARDOWN|
    && (forall u :: 0 <= u < |s.threads| ==> s.threads[u].teardown == if u == t then Some(k) else None)
    && s.destroyed == TEARDOWN[..k]
  }

  ghost predicate Inv(s: Machine) {
    && s.refcount == Wrap(Held(s.threads))
    && (s.entered == 0 ==> Resting(s) && Held(s.threads) > 0 && s.destroyed == [])
    && (s.entered > 0 ==>
          && s.entered == 1 && Held(s.threads) == 0
          && ((Resting(s) && s.destroyed == TEARDOWN) || exists t: nat, k: nat :: Tearing(s, t, k)))
  }

  lemma {:induction false} HeldUpdated(threads: seq<Thread>, t: nat, thread: Thread)
    requires t < |threads|
    ensures Held(threads[t := thread]) == Held(threads) - threads[t].held + thread.held
    decreases |threads|
  {
    var n := |threads| - 1;
    if t == n {
      assert threads[t := thread][..n] == threads[..n];
    } else {
      assert threads[t := thread][..n] == threads[..n][t := thread];
      HeldUpdated(threads[..n], t, thread);
    }
  }

  lemma {:induction false} HolderHeld(threads: seq<Thread>, t: nat)
    requires t < |threads|
    ensures threads[t].held <= Held(threads)
    decreases |threads|
  {
    if t < |threads| - 1 {
      HolderHeld(threads[..|threads| - 1], t);
    }
  }

  lemma WrapStep(x: int, d: int)
    ensures Wrap(Wrap(x) + d) == Wrap(x + d)
  {
  }

  lemma WrapsToOne(x: int)
    requires x >= 0
    ensures Wrap(x) == 1 <==> x % UINT32_COUNT == 1
  {
  }

  lemma NextKeeps(s: Machine, a: Action)
    requires Inv(s) && Enabled(s, a) && !(a.Release? && Ambiguous(s))
    ensures Inv(Next(s, a))
  {
    hide Held, Wrap;
    var thread := s.threads[a.t];
    HolderHeld(s.threads, a.t);
    match a {
      case Retain(t) =>
        HeldUpdated(s.threads, t, thread.(held := thread.held + 1));
        WrapStep(Held(s.threads), 1);
      case Release(t) =>
        ReleaseKeeps(s, t);
      case Pass(t, to) =>
        PassKeepsHeld(s.threads, t, to);
      case Tear(t) =>
        TearKeeps(s, t);
    }
  }

  lemma PassKeepsHeld(threads: seq<Thread>, t: nat, to: nat)
    requires t < |threads| && to < |threads| && t != to && threads[t].held > 0
    ensures Held(threads[t := threads[t].(held := threads[t].held - 1)][to := threads[to].(held := threads[to].held + 1)])
      == Held(threads)
  {
    var taken := threads[t := threads[t].(held := threads[t].held - 1)];
    HeldUpdated(threads, t, threads[t].(held := threads[t].held - 1));
    HeldUpdated(taken, to, threads[to].(held := threads[to].held + 1));
  }

  lemma ReleaseKeeps(s: Machine, t: nat)
    requires Inv(s) && Enabled(s, Release(t)) && !Ambiguous(s)
    ensures Inv(Next(s, Release(t)))
  {
    var s' := Next(s, Release(t));
    var held := Held(s.threads);
    HolderHeld(s.threads, t);
    HeldUpdated(s.threads, t, s'.threads[t]);
    WrapStep(held, -1);
    WrapsToOne(held);
    if held == 1 {
      assert Tearing(s', t, 0);
    }
  }

  lemma TearKeeps(s: Machine, t: nat)
    requires Inv(s) && Enabled(s, Tear(t))
    ensures Inv(Next(s, Tear(t)))
  {
    var s' := Next(s, Tear(t));
    var u: nat, k: nat :| Tearing(s, u, k);
    assert u == t;
    HeldUpdated(s.threads, t, s'.threads[t]);
    assert TEARDOWN[..k] + [TEARDOWN[k]] == TEARDOWN[..k + 1];
    if k + 1 < |TEARDOWN| {
      assert Tearing(s', t, k + 1);
    }
  }

  lemma {:induction false} RunKeeps(n: nat, run: seq<Action>)
    requires n > 0 && Runs(n, run) && Unambiguous(n, run)
    ensures Inv(After(n, run))
    decreases |run|
  {
    if run == [] {
      CreatedHeld(n);
    } else {
      RunKeeps(n, run[..|run| - 1]);
      NextKeeps(After(n, run[..|run| - 1]), run[|run| - 1]);
    }
  }

  lemma {:induction false} NoneHeld(n: nat)
    ensures Held([Thread(1, None)] + seq(n, _ => Thread(0, None))) == 1
  {
    var threads := [Thread(1, None)] + seq(n, _ => Thread(0, None));
    if n == 0 {
      assert threads[..0] == [];
    } else {
      assert threads[..n] == [Thread(1, None)] + seq(n - 1, _ => Thread(0, None));
      NoneHeld(n - 1);
    }
  }

  lemma CreatedHeld(n: nat)
    requires n > 0
    ensures Held(Created(n).threads) == 1 && Inv(Created(n))
  {
    NoneHeld(n - 1);
  }

  // What every run guarantees.

  ghost predicate AtMostOneTears(s: Machine) {
    forall t, u :: 0 <= t < u < |s.threads| ==> s.threads[t].teardown.None? || s.threads[u].teardown.None?
  }

  /** Wherever late was destroyed, early had been before. */
  ghost predicate Follows(destroyed: seq<Resource>, early: Resource, late: Resource) {
    forall j :: 0 <= j < |destroyed| && destroyed[j] == late ==> exists i :: 0 <= i < j && destroyed[i] == early
  }

  /** Nothing twice; the managers, the schemas, the arena they live in and last the context, each after the one before. */
  ghost predicate Ordered(destroyed: seq<Resource>) {
    && (forall i, j :: 0 <= i < j < |destroyed| ==> destroyed[i] != destroyed[j])
    && Follows(destroyed, PluginManagerPart, ManagerRegistryPart)
    && Follows(destroyed, ManagerRegistryPart, SchemaRegistryPart)
    && Follows(destroyed, SchemaRegistryPart, ArenaPart)
    && Follows(destroyed, ArenaPart, ContextBlock)
    && forall j :: 0 <= j < |destroyed| && destroyed[j] == ContextBlock ==> j == |destroyed| - 1
  }

  ghost predicate AllDestroyed(destroyed: seq<Resource>) {
    forall r: Resource :: r in destroyed
  }

  lemma Neighbours(destroyed: seq<Resource>, k: nat)
    requires destroyed <= TEARDOWN && k + 1 < |TEARDOWN|
    ensures Follows(destroyed, TEARDOWN[k], TEARDOWN[k + 1])
  {
    forall j | 0 <= j < |destroyed| && destroyed[j] == TEARDOWN[k + 1]
      ensures exists i :: 0 <= i < j && destroyed[i] == TEARDOWN[k]
    {
      assert j == k + 1;
      assert destroyed[k] == TEARDOWN[k];
    }
  }

  lemma TeardownHasAll()
    ensures AllDestroyed(TEARDOWN)
  {
    forall r: Resource
      ensures r in TEARDOWN
    {
      match r
      case PluginManagerPart => assert TEARDOWN[0] == r;
      case ManagerRegistryPart => assert TEARDOWN[1] == r;
      case SchemaRegistryPart => assert TEARDOWN[2] == r;
      case ArenaPart => assert TEARDOWN[3] == r;
      case ContextBlock => assert TEARDOWN[4] == r;
    }
  }

  lemma TeardownDistinct(i: nat, j: nat)
    requires i < j < |TEARDOWN|
    ensures TEARDOWN[i] != TEARDOWN[j]
    ensures TEARDOWN[i] != ContextBlock
  {
  }

  lemma TeardownOrdered(destroyed: seq<Resource>)
    requires destroyed <= TEARDOWN
    ensures Ordered(destroyed)
    ensures destroyed == TEARDOWN <==> AllDestroyed(destroyed)
  {
    forall i, j | 0 <= i < j < |TEARDOWN|
      ensures TEARDOWN[i] != TEARDOWN[j] && TEARDOWN[i] != ContextBlock
    {
      TeardownDistinct(i, j);
    }
    Neighbours(destroyed, 0);
    Neighbours(destroyed, 1);
    Neighbours(destroyed, 2);
    Neighbours(destroyed, 3);
    TeardownHasAll();
    hide Follows;
    assert |TEARDOWN| == 5;
    assert forall i :: 0 <= i < |destroyed| ==> destroyed[i] == TEARDOWN[i];
    assert |destroyed| < 5 ==> ContextBlock !in destroyed by {
      assert forall i :: 0 <= i < 4 ==> TEARDOWN[i] != ContextBlock;
    }
  }

  /** The count is that of the references held; a teardown is begun once, and only when nobody holds one. */
  ghost predicate Guaranteed(s: Machine) {
    && s.refcount == Wrap(Held(s.threads))
    && s.entered <= 1 && (s.entered == 1 <==> Held(s.threads) == 0)
    && s.destroyed <= TEARDOWN
    && (Held(s.threads) > 0 ==> s.destroyed == [])
    && (Held(s.threads) == 0 && Resting(s) ==> s.destroyed == TEARDOWN)
    && AtMostOneTears(s)
    && Ordered(s.destroyed) && (Held(s.threads) == 0 && Resting(s) ==> AllDestroyed(s.destroyed))
  }

  /**
   In every interleaving: the count is the number of references held; a teardown
   is begun at most once and only when nobody holds a reference; what has been
   destroyed is the beginning of the teardown order, so nothing twice; and once all
   references are released and all threads rest, it is all of it.
   */
  lemma ReferencesAreCounted(n: nat, run: seq<Action>)
    requires n > 0 && Runs(n, run) && Unambiguous(n, run)
    ensures Guaranteed(After(n, run))
  {
    RunKeeps(n, run);
    hide After, Runs, Unambiguous, Inv, Held, Ordered, AllDestroyed;
    InvMeans(After(n, run));
    TeardownOrdered(After(n, run).destroyed);
  }

  lemma InvMeans(s: Machine)
    requires Inv(s)
    ensures s.refcount == Wrap(Held(s.threads))
    ensures s.entered <= 1 && (s.entered == 1 <==> Held(s.threads) == 0)
    ensures s.destroyed <= TEARDOWN && (Held(s.threads) > 0 ==> s.destroyed == [])
    ensures Held(s.threads) == 0 && Resting(s) ==> s.destroyed == TEARDOWN
    ensures AtMostOneTears(s)
  {
    if s.entered > 0 && !(Resting(s) && s.destroyed == TEARDOWN) {
      var t: nat, k: nat :| Tearing(s, t, k);
      assert s.threads[t].teardown.Some?;
    }
  }

  /** A thread that may retain, release or pass on a reference finds the context untouched. */
  lemma NoUseAfterDestroy(n: nat, run: seq<Action>, a: Action)
    requires n > 0 && Runs(n, run) && Unambiguous(n, run)
    requires Enabled(After(n, run), a) && !a.Tear?
    ensures After(n, run).destroyed == [] && Resting(After(n, run))
  {
    RunKeeps(n, run);
    HolderHeld(After(n, run).threads, a.t);
  }

  /** While nobody holds a reference and not everything is destroyed, some thread can go on, and only with the teardown. */
  lemma TeardownGoesOn(n: nat, run: seq<Action>) returns (t: nat)
    requires n > 0 && Runs(n, run) && Unambiguous(n, run)
    requires Held(After(n, run).threads) == 0 && After(n, run).destroyed != TEARDOWN
    ensures Enabled(After(n, run), Tear(t))
    ensures forall a :: Enabled(After(n, run), a) ==> a == Tear(t)
    ensures |Next(After(n, run), Tear(t)).destroyed| == |After(n, run).destroyed| + 1
  {
    RunKeeps(n, run);
    var s := After(n, run);
    hide After, Runs, Unambiguous;
    var u: nat, k: nat :| Tearing(s, u, k);
    t := u;
    forall a | Enabled(s, a)
      ensures a == Tear(t)
    {
      HolderHeld(s.threads, a.t);
    }
  }

  // When the count is not enough.

  /** Whatever happens, the count is the number of references held, cut to 32 bits. */
  lemma {:induction false} CountFollows(n: nat, run: seq<Action>)
    requires n > 0 && Runs(n, run)
    ensures After(n, run).refcount == Wrap(Held(After(n, run).threads))
    decreases |run|
  {
    if run == [] {
      CreatedHeld(n);
    } else {
      var before := run[..|run| - 1];
      CountFollows(n, before);
      StepFollows(After(n, before), run[|run| - 1]);
    }
  }

  lemma StepFollows(s: Machine, a: Action)
    requires s.refcount == Wrap(Held(s.threads)) && Enabled(s, a)
    ensures Next(s, a).refcount == Wrap(Held(Next(s, a).threads))
  {
    hide Held, Wrap;
    var held := Held(s.threads);
    WrapStep(held, 1);
    WrapStep(held, -1);
    match a {
      case Pass(t, to) => PassKeepsHeld(s.threads, t, to);
      case _ => HeldUpdated(s.threads, a.t, Next(s, a).threads[a.t]);
    }
  }

  /** In any state that any run reaches, a release begins a teardown with references left exactly if their count is ambiguous. */
  lemma TearsEarlyIff(n: nat, run: seq<Action>, t: nat)
    requires n > 0 && Runs(n, run) && Enabled(After(n, run), Release(t))
    ensures var s := After(n, run);
      var s' := Next(s, Release(t));
      s'.entered > s.entered && Held(s'.threads) > 0 <==> Ambiguous(s)
  {
    CountFollows(n, run);
    var s := After(n, run);
    hide After, Runs, Held, Wrap;
    HolderHeld(s.threads, t);
    HeldUpdated(s.threads, t, Next(s, Release(t)).threads[t]);
    WrapsToOne(Held(s.threads));
  }

  lemma {:induction false} PrefixRuns(n: nat, run: seq<Action>, k: nat)
    requires n > 0 && Runs(n, run) && k <= |run|
    ensures Runs(n, run[..k])
    ensures Unambiguous(n, run) ==> Unambiguous(n, run[..k])
    decreases |run|
  {
    if k == |run| {
      assert run[..k] == run;
    } else {
      PrefixRuns(n, run[..|run| - 1], k);
      assert run[..|run| - 1][..k] == run[..k];
    }
  }

  /** A run keeps every guarantee at every step exactly if it is unambiguous. */
  lemma {:induction false} GuaranteedIff(n: nat, run: seq<Action>)
    requires n > 0 && Runs(n, run)
    ensures Unambiguous(n, run) <==> forall k :: 0 <= k <= |run| ==> Runs(n, run[..k]) && Guaranteed(After(n, run[..k]))
    decreases |run|
  {
    hide Ordered, AllDestroyed, Next, Held, Wrap, Enabled;
    forall k | 0 <= k <= |run|
      ensures Runs(n, run[..k]) && (Unambiguous(n, run) ==> Guaranteed(After(n, run[..k])))
    {
      PrefixRuns(n, run, k);
      if Unambiguous(n, run) {
        ReferencesAreCounted(n, run[..k]);
      }
    }
    if run != [] && forall k :: 0 <= k <= |run| ==> Guaranteed(After(n, run[..k])) {
      var before, a := run[..|run| - 1], run[|run| - 1];
      forall k | 0 <= k <= |before|
        ensures Runs(n, before[..k]) && Guaranteed(After(n, before[..k]))
      {
        assert before[..k] == run[..k];
      }
      GuaranteedIff(n, before);
      assert run[..|run|] == run;
      if a.Release? && Ambiguous(After(n, before)) {
        TearsEarlyIff(n, before, a.t);
      }
    }
  }

  /** Up to 2^32 references at a time nothing is ambiguous. */
  lemma {:induction false} FewAreUnambiguous(n: nat, run: seq<Action>)
    requires n > 0 && Runs(n, run)
    requires forall k :: 0 <= k <= |run| ==> Runs(n, run[..k]) && Held(After(n, run[..k]).threads) <= UINT32_COUNT
    ensures Unambiguous(n, run)
    decreases |run|
  {
    hide Next, Held, Wrap, Enabled;
    if run != [] {
      var before := run[..|run| - 1];
      forall k | 0 <= k <= |before|
        ensures Runs(n, before[..k]) && Held(After(n, before[..k]).threads) <= UINT32_COUNT
      {
        assert before[..k] == run[..k];
      }
      FewAreUnambiguous(n, before);
      assert before[..|before|] == before;
    }
  }

  /** Thread 0 alone holds references, held of them. */
  ghost predicate Alone(s: Machine, held: nat) {
    && s.refcount == Wrap(held) && Held(s.threads) == held && s.destroyed == []
    && s.threads != [] && s.threads[0] == Thread(held, None)
  }

  lemma RetainOnce(s: Machine, held: nat)
    requires Alone(s, held) && held > 0
    ensures Enabled(s, Retain(0)) && Alone(Next(s, Retain(0)), held + 1)
  {
    hide Held, Wrap;
    HeldUpdated(s.threads, 0, Thread(held + 1, None));
    WrapStep(held, 1);
  }

  lemma {:induction false} RetainMany(n: nat, k: nat) returns (run: seq<Action>)
    requires n > 0
    ensures Runs(n, run) && Alone(After(n, run), 1 + k)
  {
    if k == 0 {
      run := [];
      CreatedHeld(n);
    } else {
      var before := RetainMany(n, k - 1);
      run := before + [Retain(0)];
      hide Alone, Runs, After, Next, Enabled;
      RetainOnce(After(n, before), k);
      RunsOneMore(n, before, Retain(0));
    }
  }

  lemma UncountableRunDestroysEarly(n: nat) returns (run: seq<Action>)
    requires n > 0
    ensures Runs(n, run)
    ensures Held(After(n, run).threads) == UINT32_COUNT
    ensures After(n, run).threads[0].teardown == Some(0)
  {
    var before := RetainMany(n, UINT32_COUNT);
    run := before + [Release(0)];
    assert Wrap(1 + UINT32_COUNT) == 1;
    hide Held, Runs, After, Wrap;
    RunsOneMore(n, before, Release(0));
    HeldUpdated(After(n, before).threads, 0, Thread(UINT32_COUNT, Some(0)));
  }

  lemma RunsOneMore(n: nat, run: seq<Action>, a: Action)
    requires n > 0 && Runs(n, run) && Enabled(After(n, run), a)
    ensures Runs(n, run + [a]) && After(n, run + [a]) == Next(After(n, run), a)
  {
    assert (run + [a])[..|run + [a]| - 1] == run;
  }

  // The context object, as one thread runs it.

  /** What thread t still has to do of its teardown, all at once. */
  function Finish(s: Machine, t: nat): Machine
    requires t < |s.threads|
    requires s.threads[t].teardown.Some? ==> s.threads[t].teardown.value < |TEARDOWN|
    decreases if s.threads[t].teardown.Some? then |TEARDOWN| - s.threads[t].teardown.value else 0
  {
    if s.threads[t].teardown.None? then s else Finish(Next(s, Tear(t)), t)
  }

  lemma {:induction false} FinishDestroys(s: Machine, t: nat, k: nat)
    requires t < |s.threads| && k < |TEARDOWN| && s.threads[t].teardown == Some(k)
    ensures Finish(s, t) ==
      s.(threads := s.threads[t := s.threads[t].(teardown := None)], destroyed := s.destroyed + TEARDOWN[k..])
    decreases |TEARDOWN| - k
  {
    var next := Next(s, Tear(t));
    if k + 1 < |TEARDOWN| {
      FinishDestroys(next, t, k + 1);
      assert next.threads[t := next.threads[t].(teardown := None)] == s.threads[t := s.threads[t].(teardown := None)];
      assert (s.destroyed + [TEARDOWN[k]]) + TEARDOWN[k + 1..] == s.destroyed + TEARDOWN[k..];
    } else {
      assert [TEARDOWN[k]] == TEARDOWN[k..];
    }
  }

  class Context {
    var refcount: int
    const pluginManager: Plugins.PluginManager
    ghost var threads: seq<Thread>
    ghost var destroyed: seq<Resource>
    ghost var entered: nat

    ghost function View(): Machine
      reads this
    {
      Machine(refcount, threads, destroyed, entered)
    }

    /** n is the number of threads that may come to use the context. */
    constructor (ghost n: nat)
      requires n > 0
      ensures View() == Created(n) && fresh(pluginManager)
    {
      refcount := 1;
      pluginManager := new Plugins.PluginManager();
      threads, destroyed, entered := Created(n).threads, [], 0;
    }

    /** nmo_context_retain, called by thread t */
    method Retain(ghost t: nat)
      requires Enabled(View(), Action.Retain(t))
      modifies this
      ensures View() == Next(old(View()), Action.Retain(t))
    {
      refcount := Wrap(refcount + 1);
      threads := threads[t := threads[t].(held := threads[t].held + 1)];
    }

    /** One step of the teardown. */
    method Destroy(r: Resource)
      modifies this`destroyed, pluginManager
      ensures destroyed == old(destroyed) + [r]
      ensures pluginManager.View() ==
        if r.PluginManagerPart? then Plugins.DestroyAll(old(pluginManager.View())) else old(pluginManager.View())
    {
      if r.PluginManagerPart? {
        pluginManager.Destroy();
      }
      destroyed := destroyed + [r];
    }

    /** What release does once its fetch-sub has seen 1. */
    method TearDown()
      modifies this`destroyed, pluginManager
      ensures destroyed == old(destroyed) + TEARDOWN
      ensures pluginManager.View() == Plugins.DestroyAll(old(pluginManager.View()))
    {
      Destroy(PluginManagerPart);
      Destroy(ManagerRegistryPart);
      Destroy(SchemaRegistryPart);
      Destroy(ArenaPart);
      Destroy(ContextBlock);
    }

    /**
     nmo_context_release, called by thread t and not interrupted: the fetch-sub and,
     if it saw 1, the whole teardown, which takes the plugin manager down first.
     */
    method Release(ghost t: nat)
      requires Enabled(View(), Action.Release(t))
      modifies this, pluginManager
      ensures View() == Finish(Next(old(View()), Action.Release(t)), t)
      ensures pluginManager.View() ==
        if old(refcount) == 1 then Plugins.DestroyAll(old(pluginManager.View())) else old(pluginManager.View())
      ensures old(refcount) != 1 ==> destroyed == old(destroyed)
      ensures old(refcount) == 1 && old(destroyed) == [] ==> AllDestroyed(destroyed) && Ordered(destroyed)
    {
      hide Ordered, AllDestroyed, Plugins.DestroyAll;
      ghost var after := Next(View(), Action.Release(t));
      ghost var before := destroyed;
      var oldRefcount := refcount;
      refcount := Wrap(refcount - 1);
      threads := after.threads;
      if oldRefcount == 1 {
        entered := entered + 1;
        FinishDestroys(after, t, 0);
        TearDown();
        threads := threads[t := threads[t].(teardown := None)];
        assert TEARDOWN[0..] == TEARDOWN;
        TeardownOrdered(TEARDOWN);
        assert before == [] ==> destroyed == TEARDOWN;
      }
    }
  }
}
