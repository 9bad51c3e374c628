/**
 The pool of HTTP clients. Every use of the pool goes through a ClientPtr (a handle here); the two
 locked sections, the factory call outside the lock and the deleter are the steps that interleave.
 */
module ClientPool {
  import opened Bytes

  /** The identity of an HTTP client. */
  type Client = nat

  datatype Handle =
    | Creating
    | Held(c: Client)
    | Returning(c: Client)

  /** `created` and `destroyed` record history. */
  datatype State = State(
    pool: seq<Client>,
    handles: map<nat, Handle>,
    created: set<Client>,
    destroyed: set<Client>)

  const START := State([], map[], {}, {})

  datatype Step =
    | AcquirePop(h: nat)
    | AcquireMiss(h: nat)
    | FactoryDone(h: nat, made: Client)
    | FactoryFail(h: nat)
    | Drop(h: nat)
    | ReleasePush(h: nat)
    | ReleaseDestroy(h: nat)

  predicate Enabled(s: State, step: Step) {
    match step
    case AcquirePop(h) => h !in s.handles && s.pool != []
    case AcquireMiss(h) => h !in s.handles && s.pool == []
    case FactoryDone(h, made) => h in s.handles && s.handles[h].Creating? && made !in s.created
    case FactoryFail(h) => h in s.handles && s.handles[h].Creating?
    case Drop(h) => h in s.handles && s.handles[h].Held?
    case ReleasePush(h) => h in s.handles && s.handles[h].Returning?
    case ReleaseDestroy(h) => h in s.handles && s.handles[h].Returning?
  }

  function Apply(s: State, step: Step): State
    requires Enabled(s, step)
  {
    match step
    case AcquirePop(h) =>
      var n := |s.pool| - 1;
      s.(pool := s.pool[..n], handles := s.handles[h := Held(s.pool[n])])
    case AcquireMiss(h) =>
      s.(handles := s.handles[h := Creating])
    case FactoryDone(h, made) =>
      s.(handles := s.handles[h := Held(made)], created := s.created + {made})
    case FactoryFail(h) =>
      s.(handles := s.handles - {h})
    case Drop(h) =>
      s.(handles := s.handles[h := Returning(s.handles[h].c)])
    case ReleasePush(h) =>
      s.(handles := s.handles - {h}, pool := s.pool + [s.handles[h].c])
    case ReleaseDestroy(h) =>
      s.(handles := s.handles - {h}, destroyed := s.destroyed + {s.handles[h].c})
  }

  /** The steps can be taken one after the other from the empty pool. */
  predicate IsRun(steps: seq<Step>)
    decreases |steps|, 0
  {
    steps == [] ||
    var n := |steps| - 1;
    IsRun(steps[..n]) && Enabled(After(steps[..n]), steps[n])
  }

  function After(steps: seq<Step>): State
    requires IsRun(steps)
    decreases |steps|, 1
  {
    if steps == [] then START
    else
      var n := |steps| - 1;
      Apply(After(steps[..n]), steps[n])
  }

  /** How many clients are in use, on their way back, or being created. */
  function Demand(s: State): nat {
    |s.handles|
  }

  /** The highest demand at any point of the run. */
  function Peak(steps: seq<Step>): nat
    requires IsRun(steps)
  {
    if steps == [] then 0
    else
      var before, now := Peak(steps[..|steps| - 1]), Demand(After(steps));
      if now > before then now else before
  }

  /** Clients that exist or are being created. */
  function Total(s: State): nat {
    |s.pool| + |s.handles|
  }

  // ---- Every client is in one place ----

  predicate Uses(s: State, h: nat, c: Client) {
    h in s.handles && !s.handles[h].Creating? && s.handles[h].c == c
  }

  predicate Exclusive(s: State) {
    && (forall i, j | 0 <= i < j < |s.pool| :: s.pool[i] != s.pool[j])
    && (forall g, h | g in s.handles && h in s.handles && g != h && !s.handles[g].Creating? ::
          !Uses(s, h, s.handles[g].c))
    && (forall h | h in s.handles && !s.handles[h].Creating? ::
          s.handles[h].c !in s.pool && s.handles[h].c !in s.destroyed)
    && (forall c | c in s.pool :: c !in s.destroyed)
  }

  ghost predicate Accounted(s: State) {
    forall c :: c in s.created <==> c in s.pool || c in s.destroyed || exists h :: Uses(s, h, c)
  }

  lemma StepKeepsExclusive(s: State, step: Step)
    requires Enabled(s, step) && Exclusive(s) && Accounted(s)
    ensures Exclusive(Apply(s, step))
  {
    var t := Apply(s, step);
    forall h | h in s.handles && !s.handles[h].Creating? ensures s.handles[h].c in s.created {
      assert Uses(s, h, s.handles[h].c);
    }
    forall g, h | g in t.handles && h in t.handles && g != h && !t.handles[g].Creating?
      ensures !Uses(t, h, t.handles[g].c)
    {
      if step.AcquirePop? && (g == step.h || h == step.h) {
        assert s.pool[|s.pool| - 1] in s.pool;
      }
    }
  }

  lemma StepKeepsAccounted(s: State, step: Step, c: Client)
    requires Enabled(s, step) && Accounted(s)
    ensures var t := Apply(s, step); c in t.created <==> c in t.pool || c in t.destroyed || exists h :: Uses(t, h, c)
  {
    var t := Apply(s, step);
    if c in s.created && c !in s.pool && c !in s.destroyed {
      var h :| Uses(s, h, c);
      assert Uses(t, h, c) || c in t.pool || c in t.destroyed;
    }
    if c in s.pool && c !in t.pool {
      assert Uses(t, step.h, c);
    }
    if h :| Uses(t, h, c) {
      assert Uses(s, h, c) || c in s.pool || c in t.created;
    }
    if step.FactoryDone? {
      assert Uses(t, step.h, step.made);
    } else if step.ReleasePush? || step.ReleaseDestroy? {
      assert Uses(s, step.h, s.handles[step.h].c);
    }
  }

  lemma StepKeepsPlaces(s: State, step: Step)
    requires Enabled(s, step) && Exclusive(s) && Accounted(s)
    ensures Exclusive(Apply(s, step)) && Accounted(Apply(s, step))
  {
    StepKeepsExclusive(s, step);
    var t := Apply(s, step);
    forall c ensures c in t.created <==> c in t.pool || c in t.destroyed || exists h :: Uses(t, h, c) {
      StepKeepsAccounted(s, step, c);
    }
  }

  /**
   On every interleaving each client that was ever created is in exactly one place: once in the
   pool, in use through exactly one handle, or destroyed.
   */
  lemma {:induction false} ClientsAreExclusive(steps: seq<Step>)
    requires IsRun(steps)
    ensures Exclusive(After(steps)) && Accounted(After(steps))
  {
    if steps != [] {
      var n := |steps| - 1;
      ClientsAreExclusive(steps[..n]);
      StepKeepsPlaces(After(steps[..n]), steps[n]);
    }
  }

  // ---- How many clients there are ----

  predicate Fails(step: Step) {
    step.FactoryFail? || step.ReleaseDestroy?
  }

  lemma StepTotal(s: State, step: Step)
    requires Enabled(s, step)
    ensures var t := Apply(s, step);
            && (step.AcquireMiss? ==> Total(t) == Total(s) + 1 && Demand(t) == Total(t))
            && (Fails(step) ==> Total(t) == Total(s) - 1)
            && (!step.AcquireMiss? && !Fails(step) ==> Total(t) == Total(s))
  {
  }

  /** How often the factory has failed to make a client, or a client has been destroyed for lack of memory. */
  function Failures(steps: seq<Step>): nat {
    if steps == [] then 0
    else
      var n := |steps| - 1;
      Failures(steps[..n]) + (if steps[n].FactoryFail? || steps[n].ReleaseDestroy? then 1 else 0)
  }

  /** A failing step takes one off, and then the level is at least the demand. */
  function Level(steps: seq<Step>): nat
    requires IsRun(steps)
  {
    if steps == [] then 0
    else
      var n := |steps| - 1;
      var before, now := Level(steps[..n]), Demand(After(steps));
      var left := if Fails(steps[n]) && before > 0 then before - 1 else before;
      if now > left then now else left
  }

  /**
   On every interleaving the clients that exist or are being created are exactly as many as the
   level says: the highest demand, lowered by one at each failure and raised again by later demand.
   */
  lemma {:induction false} TotalIsLevel(steps: seq<Step>)
    requires IsRun(steps)
    ensures Total(After(steps)) == Level(steps)
  {
    if steps != [] {
      var n := |steps| - 1;
      TotalIsLevel(steps[..n]);
      StepTotal(After(steps[..n]), steps[n]);
    }
  }

  /** So they never outnumber the peak demand, and fall short of it by at most one for each failure. */
  lemma {:induction false} TotalIsPeakDemand(steps: seq<Step>)
    requires IsRun(steps)
    ensures Demand(After(steps)) <= Total(After(steps)) <= Peak(steps) <= Total(After(steps)) + Failures(steps)
  {
    if steps != [] {
      var n := |steps| - 1;
      TotalIsPeakDemand(steps[..n]);
      StepTotal(After(steps[..n]), steps[n]);
    }
  }

  /** When no handle is left and nothing has failed, the pool holds as many clients as were ever needed at once. */
  lemma IdlePoolHoldsPeak(steps: seq<Step>)
    requires IsRun(steps) && After(steps).handles == map[] && Failures(steps) == 0
    ensures |After(steps).pool| == Peak(steps)
  {
    TotalIsPeakDemand(steps);
  }

  // ---- The class ----

  class ClientPool {
    var pool: seq<Client>
    ghost var state: State

    ghost predicate Valid()
      reads this
    {
      pool == state.pool && Exclusive(state) && Accounted(state)
    }

    constructor ()
      ensures Valid() && state == START
    {
      pool := [];
      state := START;
    }

    /** The locked part of acquire: the client that came back last, if there is one. */
    method TryPop(ghost h: nat) returns (c: Option<Client>)
      requires Valid() && h !in state.handles
      modifies this
      ensures Valid() && state == Apply(old(state), if old(pool) != [] then AcquirePop(h) else AcquireMiss(h))
      ensures c == if old(pool) != [] then Some(old(pool)[|old(pool)| - 1]) else None
      ensures c.Some? ==> Uses(state, h, c.value)
    {
      ghost var step := if pool != [] then AcquirePop(h) else AcquireMiss(h);
      StepKeepsPlaces(state, step);
      state := Apply(state, step);
      if pool != [] {
        c := Some(pool[|pool| - 1]);
        pool := pool[..|pool| - 1];
      } else {
        c := None;
      }
    }

    /** The part of acquire outside the lock: the outcome of the factory, None when it throws or makes no client. */
    method Create(ghost h: nat, made: Option<Client>) returns (c: Option<Client>)
      requires Valid() && h in state.handles && state.handles[h].Creating?
      requires made.Some? ==> made.value !in state.created
      modifies this
      ensures Valid() && pool == old(pool) && c == made
      ensures state == Apply(old(state), if made.Some? then FactoryDone(h, made.value) else FactoryFail(h))
    {
      ghost var step := if made.Some? then FactoryDone(h, made.value) else FactoryFail(h);
      StepKeepsPlaces(state, step);
      state := Apply(state, step);
      c := made;
    }

    /** acquire, when nothing else happens between its parts. */
    method Acquire(ghost h: nat, made: Option<Client>) returns (c: Option<Client>)
      requires Valid() && h !in state.handles && (made.Some? ==> made.value !in state.created)
      modifies this
      ensures Valid()
      ensures old(pool) != [] ==> c.Some? && old(pool) == pool + [c.value] && state == Apply(old(state), AcquirePop(h))
      ensures old(pool) == [] ==>
        && pool == [] && c == made
        && state == Apply(Apply(old(state), AcquireMiss(h)),
                          if made.Some? then FactoryDone(h, made.value) else FactoryFail(h))
      ensures c.Some? ==> Uses(state, h, c.value)
    {
      c := TryPop(h);
      if c == None {
        c := Create(h, made);
      }
    }

    /**
     The deleter of a handle and release: the client goes back into the pool, or is destroyed when
     push_back has no memory.
     */
    method Release(ghost h: nat, client: Client, memory: bool)
      requires Valid() && h in state.handles && state.handles[h] == Held(client)
      modifies this
      ensures Valid()
      ensures state == Apply(Apply(old(state), Drop(h)), if memory then ReleasePush(h) else ReleaseDestroy(h))
      ensures pool == if memory then old(pool) + [client] else old(pool)
    {
      ghost var step := if memory then ReleasePush(h) else ReleaseDestroy(h);
      StepKeepsPlaces(state, Drop(h));
      state := Apply(state, Drop(h));
      StepKeepsPlaces(state, step);
      state := Apply(state, step);
      if memory {
        pool := pool + [client];
      }
    }
  }
}
