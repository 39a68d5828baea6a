/** Get-or-create of a singleton by any number of controller replicas, while operators create,
    patch and delete it. Both controllers run this protocol; they differ in the spec they seed
    and in whether a status patch that finds nothing is retried. */
module Singleton {
  import opened Wrappers
  import opened Crd

  // ---------- answers of the API server ----------

  datatype ApiResult = Succeeded | ApiError(code: int) | OtherError

  datatype SingletonCheck = Exists | Missing | CheckError

  datatype CreateOutcome = Created | AlreadyExists | CreateError

  predicate IsNotFound(result: ApiResult) {
    result == ApiError(404)
  }

  function ClassifyCheck(result: ApiResult): SingletonCheck {
    if result == Succeeded then Exists else if IsNotFound(result) then Missing else CheckError
  }

  function ClassifyCreate(result: ApiResult): CreateOutcome {
    match result
    case Succeeded => Created
    case ApiError(code) => if code == 409 then AlreadyExists else CreateError
    case OtherError => CreateError
  }

  // ---------- the state ----------

  datatype Instance<S> = Instance(spec: S, status: Option<string>)

  /** Where a replica stands. `retry` is the status to patch once the singleton is ensured. */
  datatype Pc =
    | Idle
    | Looking(retry: Option<string>)
    | Creating(retry: Option<string>)
    | Patching(status: string, recreates: bool)

  datatype World<S> = World(instance: Option<Instance<S>>, replicas: seq<Pc>)

  /** Replica steps carry the server's answer. An answer that is an error may hide that the
      call took effect (`applied`). */
  datatype Step<S> =
    | StartEnsure(i: nat)
    | StartPatch(i: nat, status: string)
    | StartRecompute(i: nat, status: string, result: ApiResult)
    | Lookup(i: nat, result: ApiResult)
    | Create(i: nat, result: ApiResult, applied: bool)
    | PatchOnce(i: nat, result: ApiResult, applied: bool)
    | OperatorCreate(spec: S)
    | OperatorPatch(spec: S)
    | OperatorDelete

  predicate ByOperator<S>(step: Step<S>) {
    step.OperatorCreate? || step.OperatorPatch? || step.OperatorDelete?
  }

  /** The server answers a read truthfully: success means present, 404 means absent. */
  predicate TruthfulRead<S>(instance: Option<Instance<S>>, result: ApiResult) {
    (result == Succeeded ==> instance.Some?) && (IsNotFound(result) ==> instance.None?)
  }

  /** A create succeeds only on a free name, and 409 means the name is taken. */
  predicate TruthfulCreate<S>(instance: Option<Instance<S>>, result: ApiResult, applied: bool) {
    && (result == Succeeded ==> applied) && (applied ==> instance.None?)
    && (result == ApiError(409) ==> instance.Some?)
  }

  predicate TruthfulPatch<S>(instance: Option<Instance<S>>, result: ApiResult, applied: bool) {
    (result == Succeeded ==> applied) && (applied ==> instance.Some?) && (IsNotFound(result) ==> instance.None?)
  }

  predicate Enabled<S>(w: World<S>, step: Step<S>) {
    match step
    case StartEnsure(i) => i < |w.replicas| && w.replicas[i].Idle?
    case StartPatch(i, _) => i < |w.replicas| && w.replicas[i].Idle?
    case StartRecompute(i, _, result) => i < |w.replicas| && w.replicas[i].Idle? && TruthfulRead(w.instance, result)
    case Lookup(i, result) => i < |w.replicas| && w.replicas[i].Looking? && TruthfulRead(w.instance, result)
    case Create(i, result, applied) =>
      i < |w.replicas| && w.replicas[i].Creating? && TruthfulCreate(w.instance, result, applied)
    case PatchOnce(i, result, applied) =>
      i < |w.replicas| && w.replicas[i].Patching? && TruthfulPatch(w.instance, result, applied)
    case OperatorCreate(_) => w.instance.None?
    case OperatorPatch(_) => w.instance.Some?
    case OperatorDelete => w.instance.Some?
  }

  /** After the singleton was ensured: done, or one more patch that does not recreate. */
  function AfterEnsure(retry: Option<string>): Pc {
    match retry
    case None => Idle
    case Some(status) => Patching(status, false)
  }

  function Apply<S>(w: World<S>, step: Step<S>, default: S): World<S>
    requires Enabled(w, step)
  {
    match step
    case StartEnsure(i) => w.(replicas := w.replicas[i := Looking(None)])
    case StartPatch(i, status) => w.(replicas := w.replicas[i := Patching(status, true)])
    case StartRecompute(i, status, result) =>
      w.(replicas := w.replicas[i :=
        if result == Succeeded then Patching(status, false)
        else if IsNotFound(result) then Looking(None)
        else Idle])
    case Lookup(i, result) =>
      var retry := w.replicas[i].retry;
      w.(replicas := w.replicas[i :=
        match ClassifyCheck(result)
        case Exists => AfterEnsure(retry)
        case Missing => Creating(retry)
        case CheckError => AfterEnsure(retry)])
    case Create(i, result, applied) =>
      World(if applied then Some(Instance(default, None)) else w.instance,
            w.replicas[i := AfterEnsure(w.replicas[i].retry)])
    case PatchOnce(i, result, applied) =>
      var Patching(status, recreates) := w.replicas[i];
      World(if applied then Some(w.instance.value.(status := Some(status))) else w.instance,
            w.replicas[i := if IsNotFound(result) && recreates then Looking(Some(status)) else Idle])
    case OperatorCreate(spec) => w.(instance := Some(Instance(spec, None)))
    case OperatorPatch(spec) => w.(instance := Some(w.instance.value.(spec := spec)))
    case OperatorDelete => w.(instance := None)
  }

  /** The step that ends an `ensure_singleton` call without an error. */
  predicate EnsureSucceeds<S>(step: Step<S>) {
    || (step.Lookup? && ClassifyCheck(step.result) == Exists)
    || (step.Create? && ClassifyCreate(step.result) in {Created, AlreadyExists})
  }

  // ---------- single steps ----------

  /** When an `ensure_singleton` ends without an error, the instance exists at that moment,
      whoever created it. */
  lemma EnsuredExists<S>(w: World<S>, step: Step<S>, default: S)
    requires Enabled(w, step) && EnsureSucceeds(step)
    ensures Apply(w, step, default).instance.Some?
  {
  }

  /** No controller step overwrites the spec of an existing instance or removes it, and what a
      controller creates is the default without a status. */
  lemma ControllersNeverOverwrite<S>(w: World<S>, step: Step<S>, default: S)
    requires Enabled(w, step) && !ByOperator(step)
    ensures var after := Apply(w, step, default).instance;
      if w.instance.Some? then after.Some? && after.value.spec == w.instance.value.spec
      else after.None? || after == Some(Instance(default, None))
  {
  }

  /** Left alone with a server that answers, `ensure_singleton` leaves an existing instance as
      it is and creates the default where there is none. */
  lemma EnsureEstablishes<S>(w: World<S>, i: nat, default: S) returns (steps: seq<Step<S>>)
    requires i < |w.replicas| && w.replicas[i].Idle?
    ensures ValidRun(w, steps, default) && forall step :: step in steps ==> !ByOperator(step)
    ensures After(w, steps, default)
         == World(if w.instance.Some? then w.instance else Some(Instance(default, None)), w.replicas)
  {
    var start := StartEnsure(i);
    var started := Apply(w, start, default);
    if w.instance.Some? {
      var found := Lookup(i, Succeeded);
      RunCons(started, found, [], default);
      steps := [start] + ([found] + []);
      RunCons(w, start, [found] + [], default);
    } else {
      var missed, create := Lookup(i, ApiError(404)), Create(i, Succeeded, true);
      RunCons(Apply(started, missed, default), create, [], default);
      RunCons(started, missed, [create] + [], default);
      steps := [start] + ([missed] + ([create] + []));
      RunCons(w, start, [missed] + ([create] + []), default);
    }
    assert w.replicas[i := Idle] == w.replicas;
  }

  lemma RunCons<S>(w: World<S>, step: Step<S>, rest: seq<Step<S>>, default: S)
    requires Enabled(w, step) && ValidRun(Apply(w, step, default), rest, default)
    ensures ValidRun(w, [step] + rest, default)
    ensures After(w, [step] + rest, default) == After(Apply(w, step, default), rest, default)
  {
    hide Apply, Enabled;
    assert ([step] + rest)[1..] == rest;
  }

  // ---------- runs ----------

  predicate ValidRun<S>(w: World<S>, steps: seq<Step<S>>, default: S)
    decreases |steps|
  {
    steps != [] ==> Enabled(w, steps[0]) && ValidRun(Apply(w, steps[0], default), steps[1..], default)
  }

  function After<S>(w: World<S>, steps: seq<Step<S>>, default: S): World<S>
    requires ValidRun(w, steps, default)
    decreases |steps|
  {
    if steps == [] then w else After(Apply(w, steps[0], default), steps[1..], default)
  }

  /** Whatever spec an operator left is still there after any interleaving of any number of
      replicas, as long as operators do nothing more; and if nothing was there, a controller
      can only have put the default. */
  lemma {:induction false} OperatorSpecSurvives<S>(w: World<S>, steps: seq<Step<S>>, default: S)
    requires ValidRun(w, steps, default)
    requires forall step :: step in steps ==> !ByOperator(step)
    ensures var after := After(w, steps, default).instance;
      if w.instance.Some? then after.Some? && after.value.spec == w.instance.value.spec
      else after.None? || after.value.spec == default
    decreases |steps|
  {
    hide Enabled, Apply;
    if steps != [] {
      assert steps[0] in steps;
      ControllersNeverOverwrite(w, steps[0], default);
      OperatorSpecSurvives(Apply(w, steps[0], default), steps[1..], default);
    }
  }

  function SpecOf<S>(instance: Option<Instance<S>>): Option<S> {
    match instance
    case None => None
    case Some(i) => Some(i.spec)
  }

  /** What a step writes to the spec, if it writes at all; a deletion writes nothing over it. */
  function WriteOf<S>(step: Step<S>, default: S): Option<Option<S>> {
    match step
    case OperatorCreate(spec) => Some(Some(spec))
    case OperatorPatch(spec) => Some(Some(spec))
    case OperatorDelete => Some(None)
    case Create(_, _, applied) => if applied then Some(Some(default)) else None
    case _ => None
  }

  /** The last write of a run, found from its end; what was there before if it has none. */
  function LastWrite<S>(before: Option<S>, steps: seq<Step<S>>, default: S): Option<S> {
    if steps == [] then before
    else
      match WriteOf(steps[|steps| - 1], default)
      case Some(written) => written
      case None => LastWrite(before, steps[..|steps| - 1], default)
  }

  lemma {:induction false} LastWriteFromFront<S>(before: Option<S>, first: Step<S>, rest: seq<Step<S>>, default: S)
    ensures LastWrite(before, [first] + rest, default) == LastWrite(LastWrite(before, [first], default), rest, default)
  {
    hide WriteOf;
    var steps := [first] + rest;
    if rest == [] {
      assert steps == [first];
    } else {
      assert steps[|steps| - 1] == rest[|rest| - 1];
      assert steps[..|steps| - 1] == [first] + rest[..|rest| - 1];
      LastWriteFromFront(before, first, rest[..|rest| - 1], default);
    }
  }

  lemma StepWrites<S>(w: World<S>, step: Step<S>, default: S)
    requires Enabled(w, step)
    ensures SpecOf(Apply(w, step, default).instance) == LastWrite(SpecOf(w.instance), [step], default)
  {
    assert LastWrite(SpecOf(w.instance), [step][..0], default) == SpecOf(w.instance);
  }

  /** The whole-run law, operators included: after any interleaving of replicas and operators
      the spec is the one last written by an operator's create or patch or by a controller's
      create, which can only write the default; status patches, retries and lost races never
      show in it. */
  lemma {:induction false} SpecIsLastWrite<S>(w: World<S>, steps: seq<Step<S>>, default: S)
    requires ValidRun(w, steps, default)
    ensures SpecOf(After(w, steps, default).instance) == LastWrite(SpecOf(w.instance), steps, default)
    decreases |steps|
  {
    hide Enabled, Apply, WriteOf;
    if steps != [] {
      StepWrites(w, steps[0], default);
      SpecIsLastWrite(Apply(w, steps[0], default), steps[1..], default);
      LastWriteFromFront(SpecOf(w.instance), steps[0], steps[1..], default);
      assert steps == [steps[0]] + steps[1..];
    }
  }

  predicate CreatesInstance<S>(step: Step<S>) {
    step.OperatorCreate? || (step.Create? && step.applied)
  }

  function Creations<S>(steps: seq<Step<S>>): nat {
    if steps == [] then 0 else (if CreatesInstance(steps[0]) then 1 else 0) + Creations(steps[1..])
  }

  function Deletions<S>(steps: seq<Step<S>>): nat {
    if steps == [] then 0 else (if steps[0].OperatorDelete? then 1 else 0) + Deletions(steps[1..])
  }

  function Presence<S>(w: World<S>): nat {
    if w.instance.Some? then 1 else 0
  }

  /** Races never create twice: over any run, creations and deletions balance, so between two
      deletions exactly one create, by whichever replica or operator, takes effect. */
  lemma {:induction false} CreationsBalance<S>(w: World<S>, steps: seq<Step<S>>, default: S)
    requires ValidRun(w, steps, default)
    ensures Presence(w) + Creations(steps) == Presence(After(w, steps, default)) + Deletions(steps)
    decreases |steps|
  {
    if steps != [] {
      CreationsBalance(Apply(w, steps[0], default), steps[1..], default);
    }
  }

  /** While nobody deletes it, an instance that exists keeps existing, so after an error-free
      ensure every truthful status patch reaches it: a 404 is impossible. */
  lemma PatchesReachIt<S>(w: World<S>, ensured: Step<S>, steps: seq<Step<S>>, patch: Step<S>, default: S)
    requires Enabled(w, ensured) && EnsureSucceeds(ensured)
    requires ValidRun(Apply(w, ensured, default), steps, default)
    requires OperatorDelete !in steps
    requires patch.PatchOnce? && Enabled(After(Apply(w, ensured, default), steps, default), patch)
    ensures !IsNotFound(patch.result)
  {
    EnsuredExists(w, ensured, default);
    NoDeletions(steps);
    CreationsBalance(Apply(w, ensured, default), steps, default);
    hide Apply;
  }

  lemma {:induction false} NoDeletions<S>(steps: seq<Step<S>>)
    requires OperatorDelete !in steps
    ensures Deletions(steps) == 0
  {
    if steps != [] {
      assert steps[0] in steps;
      NoDeletions(steps[1..]);
    }
  }

  // ---------- status patches ----------

  /** What a replica may still do on its own before it is idle again. */
  function StepsLeft(pc: Pc): nat {
    match pc
    case Idle => 0
    case Patching(_, false) => 1
    case Creating(_) => 2
    case Looking(_) => 3
    case Patching(_, true) => 4
  }

  /** No replica retries forever: every step of a busy replica leaves it fewer, whatever the server
      answers, and touches no other replica. */
  lemma RetriesEnd<S>(w: World<S>, step: Step<S>, i: nat, default: S)
    requires Enabled(w, step) && i < |w.replicas|
    ensures var after := Apply(w, step, default).replicas;
      && |after| == |w.replicas|
      && (after[i] != w.replicas[i] && !w.replicas[i].Idle? ==> StepsLeft(after[i]) < StepsLeft(w.replicas[i]))
      && (step.Lookup? || step.Create? || step.PatchOnce? ==>
            StepsLeft(after[step.i]) < StepsLeft(w.replicas[step.i]) && (i != step.i ==> after[i] == w.replicas[i]))
  {
  }

  /** A create is attempted only where the server answered 404 to a lookup, and a status patch is
      followed by another lookup only where it met 404 for the first time; on any other error the
      replica gives up until it is started again. */
  lemma OnlyNotFoundRecreates<S>(w: World<S>, step: Step<S>, i: nat, default: S)
    requires Enabled(w, step) && i < |w.replicas|
    ensures var before, after := w.replicas[i], Apply(w, step, default).replicas[i];
      && (after.Creating? && !before.Creating? ==> step == Lookup(i, ApiError(404)))
      && (before.Patching? && after.Looking? ==> step.PatchOnce? && step.result == ApiError(404) && before.recreates)
      && (before.Idle? && after.Looking? ==>
            step == StartEnsure(i) || (step.StartRecompute? && step.result == ApiError(404)))
      && (before.Looking? && before.retry.None? && after.Patching? ==> false)
  {
  }

  /** Left alone, a recompute lands on the instance that is there, and without one it recreates the
      default and leaves the status to the next tick; any other answer to its read ends it. */
  lemma RecomputeLands<S>(w: World<S>, i: nat, status: string, default: S) returns (steps: seq<Step<S>>)
    requires i < |w.replicas| && w.replicas[i].Idle?
    ensures ValidRun(w, steps, default) && forall step :: step in steps ==> !ByOperator(step)
    ensures steps != [] && steps[0].StartRecompute? && steps[0].status == status
    ensures After(w, steps, default)
         == World(Some(if w.instance.Some? then w.instance.value.(status := Some(status)) else Instance(default, None)),
                  w.replicas)
    ensures forall result: ApiResult :: result != Succeeded && result != ApiError(404) ==>
      && Enabled(w, StartRecompute(i, status, result))
      && Apply(w, StartRecompute(i, status, result), default) == w
  {
    assert w.replicas[i := Idle] == w.replicas;
    if w.instance.Some? {
      var start, patch := StartRecompute(i, status, Succeeded), PatchOnce(i, Succeeded, true);
      RunCons(Apply(w, start, default), patch, [], default);
      steps := [start] + ([patch] + []);
      RunCons(w, start, [patch] + [], default);
    } else {
      var start, missed := StartRecompute(i, status, ApiError(404)), Lookup(i, ApiError(404));
      var create := Create(i, Succeeded, true);
      var a := Apply(w, start, default);
      var b := Apply(a, missed, default);
      RunCons(b, create, [], default);
      RunCons(a, missed, [create] + [], default);
      steps := [start] + ([missed] + ([create] + []));
      RunCons(w, start, [missed] + ([create] + []), default);
    }
  }

  /** A recompute whose patch meets 404 does not recreate within the same tick. */
  lemma RecomputeTriesOnce<S>(w: World<S>, i: nat, status: string, default: S)
    requires i < |w.replicas| && w.replicas[i].Idle? && w.instance.Some?
    ensures var start := StartRecompute(i, status, Succeeded);
      && Enabled(w, start)
      && var deleted := Apply(w, start, default).(instance := None);
         && Enabled(deleted, PatchOnce(i, ApiError(404), false))
         && Apply(deleted, PatchOnce(i, ApiError(404), false), default) == w.(instance := None)
  {
    assert w.replicas[i := Idle] == w.replicas;
  }

  /** Left alone, a status patch lands: on the instance that is there, whose spec it leaves alone,
      or after a 404 on the default it recreates, with the very status that was to be written. */
  lemma PatchLands<S>(w: World<S>, i: nat, status: string, default: S) returns (steps: seq<Step<S>>)
    requires i < |w.replicas| && w.replicas[i].Idle?
    ensures ValidRun(w, steps, default) && forall step :: step in steps ==> !ByOperator(step)
    ensures After(w, steps, default)
         == World(Some(Instance(if w.instance.Some? then w.instance.value.spec else default, Some(status))), w.replicas)
  {
    var start, patch := StartPatch(i, status), PatchOnce(i, Succeeded, true);
    var started := Apply(w, start, default);
    if w.instance.Some? {
      RunCons(started, patch, [], default);
      steps := [start] + ([patch] + []);
      RunCons(w, start, [patch] + [], default);
    } else {
      var refused, missed := PatchOnce(i, ApiError(404), false), Lookup(i, ApiError(404));
      var create := Create(i, Succeeded, true);
      var a := Apply(started, refused, default);
      var b := Apply(a, missed, default);
      var c := Apply(b, create, default);
      RunCons(c, patch, [], default);
      RunCons(b, create, [patch] + [], default);
      RunCons(a, missed, [create] + ([patch] + []), default);
      RunCons(started, refused, [missed] + ([create] + ([patch] + [])), default);
      steps := [start] + ([refused] + ([missed] + ([create] + ([patch] + []))));
      RunCons(w, start, [refused] + ([missed] + ([create] + ([patch] + []))), default);
    }
    assert w.replicas[i := Idle] == w.replicas;
  }

  /** The status a replica is about to write, now or after a retry. */
  function Intent(pc: Pc): Option<string> {
    match pc
    case Idle => None
    case Looking(retry) => retry
    case Creating(retry) => retry
    case Patching(status, _) => Some(status)
  }

  /** Every status in the world was asked for by some step so far. */
  predicate Authored<S>(w: World<S>, asked: set<string>) {
    && (w.instance.Some? && w.instance.value.status.Some? ==> w.instance.value.status.value in asked)
    && forall pc :: pc in w.replicas && Intent(pc).Some? ==> Intent(pc).value in asked
  }

  function Asking<S>(step: Step<S>): set<string> {
    match step
    case StartPatch(_, status) => {status}
    case StartRecompute(_, status, _) => {status}
    case _ => {}
  }

  function AskedBy<S>(steps: seq<Step<S>>): set<string> {
    if steps == [] then {} else Asking(steps[0]) + AskedBy(steps[1..])
  }

  lemma StepKeepsAuthored<S>(w: World<S>, step: Step<S>, asked: set<string>, default: S)
    requires Enabled(w, step) && Authored(w, asked)
    ensures Authored(Apply(w, step, default), asked + Asking(step))
  {
    var w' := Apply(w, step, default);
    assert step.PatchOnce? ==> w.replicas[step.i] in w.replicas;
    forall pc | pc in w'.replicas && Intent(pc).Some? ensures Intent(pc).value in asked + Asking(step) {
      assert pc in w.replicas || (!ByOperator(step) && pc == w'.replicas[step.i] && w.replicas[step.i] in w.replicas);
    }
  }

  /** Over any run from idle replicas, a status that is stored is one that a replica was asked to
      write, and recreated instances carry none of their own. */
  lemma {:induction false} StatusWasAsked<S>(w: World<S>, steps: seq<Step<S>>, asked: set<string>, default: S)
    requires ValidRun(w, steps, default) && Authored(w, asked)
    ensures Authored(After(w, steps, default), asked + AskedBy(steps))
    decreases |steps|
  {
    hide Enabled, Apply, Authored, Asking;
    if steps == [] {
      assert asked + {} == asked;
    } else {
      StepKeepsAuthored(w, steps[0], asked, default);
      StatusWasAsked(Apply(w, steps[0], default), steps[1..], asked + Asking(steps[0]), default);
      assert asked + Asking(steps[0]) + AskedBy(steps[1..]) == asked + AskedBy(steps);
    }
  }

  // ---------- the allocation singleton ----------

  /** What the allocation controller seeds. */
  const DEFAULT_ALLOCATION := AllocationSpec(80, Some(Enforce), None, None, None, None)

  /** A fresh cluster that only controllers have touched runs at 80% for both resources, in
      enforce mode, with nobody excluded. */
  lemma FreshClusterIsGuarded(replicas: seq<Pc>, steps: seq<Step<AllocationSpec>>)
    requires ValidRun(World(None, replicas), steps, DEFAULT_ALLOCATION)
    requires forall step :: step in steps ==> !ByOperator(step)
    ensures var after := After(World(None, replicas), steps, DEFAULT_ALLOCATION).instance;
      after.Some? ==>
        && ResolveEnforcementMode(after.value.spec.enforcementMode) == Enforce
        && ResolveEffectiveBudgets(after.value.spec).cpu == 80
        && ResolveEffectiveBudgets(after.value.spec).memory == 80
        && forall ns, pc, webhook :: ns != Some(webhook) ==> CheckExemption(ns, pc, after.value.spec, webhook) == None
  {
    OperatorSpecSurvives(World(None, replicas), steps, DEFAULT_ALLOCATION);
  }
}
