/** Connection admission: one accept loop and many handlers sharing a counter, as
    interleaved atomic steps. */
module Admission {
  import opened Words

  const USIZE: int := 0x1_0000_0000_0000_0000

  type usize = x: int | 0 <= x < USIZE

  /** Where the accept loop stands between its separate atomic operations. */
  datatype LoopState = Listening | Accepted | Loaded(value: usize) | Admitted

  /** The shared counter, the loop, and the handlers between `fetch_add` and `fetch_sub`.
      `recent` holds the values the counter has had since the loop's own last add: a
      relaxed load may return any of them. */
  datatype State = State(
    maxConnections: Option<usize>,
    active: usize,
    loop: LoopState,
    live: set<nat>,
    spawned: nat,
    recent: seq<usize>)

  datatype Action =
    | Accept              // a connection arrives
    | Load(choice: nat)   // the loop reads the counter, perhaps not its latest value
    | Test                // and compares it with the limit
    | Add                 // fetch_add, then spawn
    | Finish(handler: nat)  // a handler returns: fetch_sub
    | ResetConnections    // store 0

  function Initial(maxConnections: Option<usize>): State {
    State(maxConnections, 0, Listening, {}, 0, [0])
  }

  /** One atomic step; a step that cannot happen now leaves the state as it is. */
  function Next(s: State, a: Action): State {
    match a
    case Accept => if s.loop.Listening? then s.(loop := Accepted) else s
    case Load(i) => if s.loop.Accepted? && i < |s.recent| then s.(loop := Loaded(s.recent[i])) else s
    case Test =>
      if !s.loop.Loaded? then s
      else if s.maxConnections.Some? && s.loop.value >= s.maxConnections.value then s.(loop := Listening)
      else s.(loop := Admitted)
    case Add =>
      if !s.loop.Admitted? then s
      else
        var count := (s.active + 1) % USIZE;
        s.(active := count, loop := Listening, live := s.live + {s.spawned}, spawned := s.spawned + 1,
           recent := [count])
    case Finish(h) =>
      if h !in s.live then s
      else
        var count := (s.active - 1) % USIZE;
        s.(active := count, live := s.live - {h}, recent := s.recent + [count])
    case ResetConnections => s.(active := 0, recent := s.recent + [0])
  }

  function Run(s: State, actions: seq<Action>): State
    decreases actions
  {
    if actions == [] then s else Run(Next(s, actions[0]), actions[1..])
  }

  predicate IsAtCapacity(s: State) {
    s.maxConnections.Some? && s.active >= s.maxConnections.value
  }

  function AvailableCapacity(s: State): Option<usize> {
    match s.maxConnections
    case None => None
    case Some(max) => Some(if max < s.active then 0 else max - s.active)
  }

  /** Whatever the counter holds, a wrapped value included: the room left is none exactly at
      capacity, and otherwise it and the counter add up to the limit. */
  lemma QueriesAgree(s: State)
    ensures AvailableCapacity(s).Some? <==> s.maxConnections.Some?
    ensures IsAtCapacity(s) <==> AvailableCapacity(s) == Some(0)
    ensures s.maxConnections.Some? && !IsAtCapacity(s) ==>
              s.active + AvailableCapacity(s).value == s.maxConnections.value
  {
  }

  /** No reset happens while a handler is live. */
  predicate Careful(s: State, actions: seq<Action>)
    decreases actions
  {
    actions == [] ||
    ((actions[0].ResetConnections? ==> s.live == {}) && Careful(Next(s, actions[0]), actions[1..]))
  }

  /** What every step keeps. With a limit no value the loop may read is below the counter,
      so what it admits on is still below the limit when it adds. */
  ghost predicate Inv(s: State) {
    && (forall h | h in s.live :: h < s.spawned)
    && s.recent != []
    && s.active == |s.live| % USIZE
    && (s.loop.Loaded? ==> s.loop.value in s.recent)
    && match s.maxConnections
       case None => true
       case Some(max) =>
         && |s.live| <= max
         && (forall i | 0 <= i < |s.recent| :: s.active <= s.recent[i] <= max)
         && match s.loop
            case Loaded(v) => s.active <= v <= max
            case Admitted => s.active < max
            case _ => true
  }

  lemma AddKeeps(s: State)
    requires Inv(s) && s.loop.Admitted?
    ensures Inv(Next(s, Add))
  {
    assert s.spawned !in s.live;
    AddMod(|s.live|);
  }

  lemma AddMod(n: nat)
    ensures (n % USIZE + 1) % USIZE == (n + 1) % USIZE
    ensures n > 0 ==> (n % USIZE - 1) % USIZE == (n - 1) % USIZE
  {
  }

  lemma FinishKeeps(s: State, h: nat)
    requires Inv(s) && h in s.live
    ensures Inv(Next(s, Finish(h)))
  {
    assert |s.live - {h}| == |s.live| - 1;
    AddMod(|s.live|);
  }

  lemma NextKeeps(s: State, a: Action)
    requires Inv(s) && (a.ResetConnections? ==> s.live == {})
    ensures Inv(Next(s, a))
  {
    match a
    case Add => if s.loop.Admitted? { AddKeeps(s); }
    case Finish(h) => if h in s.live { FinishKeeps(s, h); }
    case _ =>
  }

  lemma {:induction false} RunKeeps(s: State, actions: seq<Action>)
    requires Inv(s) && Careful(s, actions)
    ensures Inv(Run(s, actions))
    decreases actions
  {
    hide Inv, Next;
    if actions != [] {
      NextKeeps(s, actions[0]);
      RunKeeps(Next(s, actions[0]), actions[1..]);
    }
  }

  /** In every interleaving, though load, test and add are separate steps and a load may be
      stale: the counter is the number of live handlers, never above the limit, never
      below zero, and both capacity queries report exactly the room that is left. */
  lemma {:induction false} AdmissionSafety(maxConnections: Option<usize>, actions: seq<Action>)
    requires Careful(Initial(maxConnections), actions)
    ensures var s := Run(Initial(maxConnections), actions);
            && s.maxConnections == maxConnections
            && (|s.live| < USIZE ==> s.active == |s.live|)
            && (maxConnections.Some? ==>
                 && s.active == |s.live| <= maxConnections.value
                 && AvailableCapacity(s) == Some(maxConnections.value - |s.live|)
                 && (IsAtCapacity(s) <==> |s.live| == maxConnections.value))
            && (forall h | h in s.live :: |s.live| < USIZE ==> Next(s, Finish(h)).active == s.active - 1)
  {
    RunKeeps(Initial(maxConnections), actions);
    LimitKept(Initial(maxConnections), actions);
    var s := Run(Initial(maxConnections), actions);
    forall h | h in s.live
      ensures |s.live| >= 1
    {
      assert |s.live - {h}| == |s.live| - 1;
    }
  }

  lemma {:induction false} LimitKept(s: State, actions: seq<Action>)
    ensures Run(s, actions).maxConnections == s.maxConnections
    decreases actions
  {
    hide Next;
    if actions != [] {
      NextLimit(s, actions[0]);
      LimitKept(Next(s, actions[0]), actions[1..]);
    }
  }

  lemma {:induction false} RunLast(s: State, actions: seq<Action>, a: Action)
    ensures Run(s, actions + [a]) == Next(Run(s, actions), a)
    ensures Careful(s, actions + [a]) ==> Careful(s, actions)
    decreases actions
  {
    hide Next;
    if actions == [] {
      assert actions + [a] == [a];
      assert Run(s, [a]) == Run(Next(s, a), []);
    } else {
      assert (actions + [a])[1..] == actions[1..] + [a];
      RunLast(Next(s, actions[0]), actions[1..], a);
    }
  }

  /** k steps into the run exactly `count` handlers were live, and the loop has not added
      one since. */
  ghost predicate WasLive(s: State, actions: seq<Action>, k: nat, count: int)
    requires k <= |actions|
  {
    && |Run(s, actions[..k]).live| == count
    && forall j | k <= j < |actions| :: actions[j].Add? ==> !Run(s, actions[..j]).loop.Admitted?
  }

  lemma {:induction false} RecentValuesHappened(s: State, max: usize, actions: seq<Action>, v: usize) returns (k: nat)
    requires s == Initial(Some(max)) && Careful(s, actions) && v in Run(s, actions).recent
    ensures k <= |actions| && WasLive(s, actions, k, v)
    decreases |actions|
  {
    if actions == [] {
      k := 0;
    } else {
      var n := |actions| - 1;
      var before, a := actions[..n], actions[n];
      assert actions == before + [a];
      RunLast(s, before, a);
      var p := Run(s, before);
      if v in p.recent && !(a.Add? && p.loop.Admitted?) {
        k := RecentValuesHappened(s, max, before, v);
        forall j | 0 <= j <= n
          ensures actions[..j] == before[..j]
        {
        }
        assert actions[..n] == before;
      } else {
        k := |actions|;
        assert actions[..k] == actions;
        RunKeeps(s, actions);
        LimitKept(s, actions);
        LastIsNewest(p, a, v);
      }
    }
  }

  lemma LastIsNewest(p: State, a: Action, v: usize)
    requires v in Next(p, a).recent && (v !in p.recent || (a.Add? && p.loop.Admitted?))
    ensures v == Next(p, a).active
  {
  }

  /** A connection is turned away only on a value equal to the limit, and only if that many
      handlers really were live at a moment since the loop's own last add. */
  lemma {:induction false} RefusalJustified(max: usize, actions: seq<Action>)
    requires Careful(Initial(Some(max)), actions)
    requires var s := Run(Initial(Some(max)), actions); s.loop.Loaded? && Next(s, Test).loop.Listening?
    ensures Run(Initial(Some(max)), actions).loop.value == max
    ensures exists k: nat :: k <= |actions| && WasLive(Initial(Some(max)), actions, k, max)
  {
    hide WasLive;
    RunKeeps(Initial(Some(max)), actions);
    LimitKept(Initial(Some(max)), actions);
    var k := RecentValuesHappened(Initial(Some(max)), max, actions, max);
  }

  // ---- What the loop decides, and where every connection goes ----

  /** The loop turns the connection away: after its test it listens again without adding. */
  predicate Refuses(s: State, a: Action) {
    s.loop.Loaded? && a.Test? && Next(s, a).loop.Listening?
  }

  predicate Admits(s: State, a: Action) {
    s.loop.Loaded? && a.Test? && Next(s, a).loop.Admitted?
  }

  /** In every run, resets included, with or without a limit: a test refuses if and only if
      there is a limit and the value loaded has reached it, and admits otherwise. */
  lemma {:induction false} RefusesExactly(maxConnections: Option<usize>, actions: seq<Action>)
    requires Run(Initial(maxConnections), actions).loop.Loaded?
    ensures var s := Run(Initial(maxConnections), actions);
            && (Refuses(s, Test) <==> maxConnections.Some? && s.loop.value >= maxConnections.value)
            && (Admits(s, Test) <==> !Refuses(s, Test))
            && Next(s, Test) == s.(loop := Next(s, Test).loop)
  {
    LimitKept(Initial(maxConnections), actions);
  }

  /** After k steps of the run the counter was v, and the loop has not added since. */
  ghost predicate WasActive(s: State, actions: seq<Action>, k: nat, v: usize) {
    && k <= |actions|
    && Run(s, actions[..k]).active == v
    && forall j | k <= j < |actions| :: actions[j].Add? ==> !Run(s, actions[..j]).loop.Admitted?
  }

  lemma WasActiveGrows(s: State, actions: seq<Action>, a: Action, k: nat, v: usize)
    ensures k <= |actions| ==>
              (WasActive(s, actions + [a], k, v) <==>
                 WasActive(s, actions, k, v) && !(a.Add? && Run(s, actions).loop.Admitted?))
  {
    hide Next;
    if k <= |actions| {
      var all := actions + [a];
      assert all[..|actions|] == actions && all[|actions|] == a;
      assert forall j | 0 <= j <= |actions| :: all[..j] == actions[..j];
      assert forall j | 0 <= j < |actions| :: all[j] == actions[j];
    }
  }

  lemma {:induction false} RecentExactly(maxConnections: Option<usize>, actions: seq<Action>, v: usize)
    ensures v in Run(Initial(maxConnections), actions).recent
       <==> exists k: nat :: WasActive(Initial(maxConnections), actions, k, v)
    decreases |actions|
  {
    var s := Initial(maxConnections);
    if actions == [] {
      assert WasActive(s, [], 0, v) <==> v == 0;
      if k: nat :| WasActive(s, actions, k, v) {
        assert k == 0;
      }
    } else {
      var n := |actions| - 1;
      var before, a := actions[..n], actions[n];
      assert actions == before + [a];
      RunLast(s, before, a);
      RecentExactly(maxConnections, before, v);
      forall k: nat
        ensures k <= n ==>
                  (WasActive(s, actions, k, v) <==>
                     WasActive(s, before, k, v) && !(a.Add? && Run(s, before).loop.Admitted?))
      {
        WasActiveGrows(s, before, a, k, v);
      }
      assert actions[..n + 1] == actions;
      assert WasActive(s, actions, n + 1, v) <==> Run(s, actions).active == v;
      assert s.active == s.recent[0];
      ActiveIsRecent(s, before);
      NextRecent(Run(s, before), a, v);
      LastStep(s, actions, n, v);
    }
  }

  lemma NextRecent(p: State, a: Action, v: usize)
    requires p.active in p.recent
    ensures v in Next(p, a).recent <==>
              v == Next(p, a).active || (v in p.recent && !(a.Add? && p.loop.Admitted?))
  {
  }

  lemma {:induction false} ActiveIsRecent(s: State, actions: seq<Action>)
    requires s.active in s.recent
    ensures Run(s, actions).active in Run(s, actions).recent
    decreases actions
  {
    if actions != [] {
      ActiveIsRecent(Next(s, actions[0]), actions[1..]);
    }
  }

  lemma LastStep(s: State, actions: seq<Action>, n: nat, v: usize)
    requires |actions| == n + 1
    ensures (exists k: nat :: WasActive(s, actions, k, v)) <==>
              (exists k: nat :: k <= n && WasActive(s, actions, k, v)) || WasActive(s, actions, n + 1, v)
  {
    hide Run;
    if k: nat :| WasActive(s, actions, k, v) {
      assert k <= n || k == n + 1;
    }
  }

  /** When the loop reads the counter it may find any value the counter has had since the
      loop's own last add, the latest included, and no other. */
  lemma {:induction false} LoadSeesExactly(maxConnections: Option<usize>, actions: seq<Action>, v: usize)
    requires Run(Initial(maxConnections), actions).loop.Accepted?
    ensures (exists i: nat :: Next(Run(Initial(maxConnections), actions), Load(i)).loop == Loaded(v))
       <==> exists k: nat :: WasActive(Initial(maxConnections), actions, k, v)
  {
    RecentExactly(maxConnections, actions, v);
    var s := Run(Initial(maxConnections), actions);
    hide Run, WasActive;
    if v in s.recent {
      var i :| 0 <= i < |s.recent| && s.recent[i] == v;
      assert Next(s, Load(i)).loop == Loaded(v);
    }
  }

  /** Counts of what happened in a run: connections taken by the loop, refused, added to the
      counter, and handlers that returned. */
  datatype Tally = Tally(taken: nat, refused: nat, added: nat, returned: nat)

  function Count(s: State, actions: seq<Action>): Tally
    decreases actions
  {
    if actions == [] then Tally(0, 0, 0, 0)
    else
      var a, t := actions[0], Count(Next(s, actions[0]), actions[1..]);
      if a.Accept? && s.loop.Listening? then t.(taken := t.taken + 1)
      else if Refuses(s, a) then t.(refused := t.refused + 1)
      else if a.Add? && s.loop.Admitted? then t.(added := t.added + 1)
      else if a.Finish? && a.handler in s.live then t.(returned := t.returned + 1)
      else t
  }

  lemma NextCounts(s: State, a: Action)
    ensures var t, c := Next(s, a), Count(s, [a]);
            && t.spawned == s.spawned + c.added
            && (a.Finish? && a.handler in s.live ==> t.live == s.live - {a.handler})
            && (a.Add? && s.loop.Admitted? ==> t.live == s.live + {s.spawned})
            && (!(a.Finish? && a.handler in s.live) && !(a.Add? && s.loop.Admitted?) ==> t.live == s.live)
            && (if s.loop.Listening? then 0 else 1) + c.taken
               == (if t.loop.Listening? then 0 else 1) + c.refused + c.added
  {
    assert Count(Next(s, a), []) == Tally(0, 0, 0, 0);
  }

  lemma LiveCounts(s: State, a: Action)
    requires forall h | h in s.live :: h < s.spawned
    ensures var t, c := Next(s, a), Count(s, [a]);
            && (forall h | h in t.live :: h < t.spawned)
            && |t.live| + c.returned == |s.live| + c.added
  {
    NextCounts(s, a);
    assert Count(Next(s, a), []) == Tally(0, 0, 0, 0);
    if a.Finish? && a.handler in s.live {
      assert |s.live - {a.handler}| == |s.live| - 1;
    } else if a.Add? && s.loop.Admitted? {
      assert s.spawned !in s.live;
    }
  }

  lemma CountHead(s: State, actions: seq<Action>)
    requires actions != []
    ensures var c, d, e := Count(s, [actions[0]]), Count(Next(s, actions[0]), actions[1..]), Count(s, actions);
            && e.taken == c.taken + d.taken && e.refused == c.refused + d.refused
            && e.added == c.added + d.added && e.returned == c.returned + d.returned
  {
    hide Next;
    assert Count(Next(s, actions[0]), []) == Tally(0, 0, 0, 0);
  }

  lemma {:induction false} RunAccounts(s: State, actions: seq<Action>)
    requires forall h | h in s.live :: h < s.spawned
    ensures var t, c := Run(s, actions), Count(s, actions);
            && t.spawned == s.spawned + c.added
            && |t.live| + c.returned == |s.live| + c.added
            && (if s.loop.Listening? then 0 else 1) + c.taken
               == (if t.loop.Listening? then 0 else 1) + c.refused + c.added
    decreases actions
  {
    hide Next;
    if actions != [] {
      NextCounts(s, actions[0]);
      LiveCounts(s, actions[0]);
      CountHead(s, actions);
      RunAccounts(Next(s, actions[0]), actions[1..]);
    }
  }

  /** No connection is lost: in every run, resets included, the connections the loop has taken
      are those refused, those added and the one in hand, and those added are the handlers
      live and the handlers that returned. */
  lemma {:induction false} EveryConnectionAccounted(maxConnections: Option<usize>, actions: seq<Action>)
    ensures var s, c := Run(Initial(maxConnections), actions), Count(Initial(maxConnections), actions);
            && c.taken == c.refused + c.added + (if s.loop.Listening? then 0 else 1)
            && c.added == |s.live| + c.returned
  {
    RunAccounts(Initial(maxConnections), actions);
  }

  /** Without a limit nothing is ever refused, and the capacity queries say there is none. */
  lemma {:induction false} NoLimitNoRefusal(actions: seq<Action>)
    ensures Count(Initial(None), actions).refused == 0
    ensures var s := Run(Initial(None), actions); !IsAtCapacity(s) && AvailableCapacity(s) == None
  {
    NeverRefuses(Initial(None), actions);
    LimitKept(Initial(None), actions);
  }

  lemma {:induction false} NeverRefuses(s: State, actions: seq<Action>)
    requires s.maxConnections.None?
    ensures Count(s, actions).refused == 0
    decreases actions
  {
    if actions != [] {
      NextLimit(s, actions[0]);
      NeverRefuses(Next(s, actions[0]), actions[1..]);
    }
  }

  // ---- The reset ----

  /** The counter is the number of live handlers at every point of the run. */
  ghost predicate AlwaysExact(s: State, actions: seq<Action>)
    decreases actions
  {
    s.active == |s.live| && (actions == [] || AlwaysExact(Next(s, actions[0]), actions[1..]))
  }

  lemma {:induction false} ExactFrom(s: State, actions: seq<Action>)
    requires Inv(s) && s.maxConnections.Some?
    ensures AlwaysExact(s, actions) <==> Careful(s, actions)
    decreases actions
  {
    InvExact(s);
    if actions != [] {
      var a := actions[0];
      if a.ResetConnections? && s.live != {} {
        ResetBreaks(s);
      } else {
        NextKeeps(s, a);
        NextLimit(s, a);
        hide Inv, Next;
        ExactFrom(Next(s, a), actions[1..]);
      }
    }
  }

  lemma InvExact(s: State)
    requires Inv(s) && s.maxConnections.Some?
    ensures s.active == |s.live|
  {
  }

  lemma ResetBreaks(s: State)
    requires s.live != {}
    ensures Next(s, ResetConnections).active != |Next(s, ResetConnections).live|
  {
  }

  lemma NextLimit(s: State, a: Action)
    ensures Next(s, a).maxConnections == s.maxConnections
  {
  }

  /** With a limit, the counter is exact throughout a run exactly when no reset happens
      while a handler is live. */
  lemma {:induction false} ExactUnlessReset(max: usize, actions: seq<Action>)
    ensures AlwaysExact(Initial(Some(max)), actions) <==> Careful(Initial(Some(max)), actions)
  {
    ExactFrom(Initial(Some(max)), actions);
  }

  /** One handler, a reset, and the handler's return: the counter wraps to 2^64 - 1. */
  lemma ResetThenFinishWraps()
    ensures var actions := [Accept, Load(0), Test, Add, ResetConnections, Finish(0)];
            Run(Initial(Some(5)), actions).active == USIZE - 1
  {
    var s0 := Initial(Some(5));
    var s1 := Next(s0, Accept);
    var s2 := Next(s1, Load(0));
    var s3 := Next(s2, Test);
    var s4 := Next(s3, Add);
    var s5 := Next(s4, ResetConnections);
    var s6 := Next(s5, Finish(0));
    assert Run(s6, []) == s6;
    assert Run(s5, [Finish(0)]) == s6;
    assert Run(s4, [ResetConnections, Finish(0)]) == s6;
    assert Run(s3, [Add, ResetConnections, Finish(0)]) == s6;
    assert Run(s2, [Test, Add, ResetConnections, Finish(0)]) == s6;
    assert Run(s1, [Load(0), Test, Add, ResetConnections, Finish(0)]) == s6;
  }
}
