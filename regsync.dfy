/** The mirror-sync decisions of `regsync`: how a sync step fans out into
    (source, target) pairs, and how one pair is skipped, delayed for the
    source's rate limit, backed up and copied while holding a slot of the
    shared parallelism semaphore. Registry calls, the template engine and
    the cancellation context are oracles indexed by the number of events
    the run has logged so far. */
module RegSync {
  import opened Wrappers
  import opened Strings
  import opened Reference

  datatype Error = ErrCanceled | ErrInvalidInput | Failed(cause: string)

  /** A sync step of the configuration: `Type` is `kind` here, and the rate
      limit's `Min` and `Retry` are flattened into the step. */
  datatype ConfigSync = ConfigSync(source: string, target: string, kind: string, backup: string,
                                   rateMin: int, retry: nat)

  /** What a manifest HEAD reports: the digest and the registry's rate limit. */
  datatype Head = Head(digest: string, rateSet: bool, remain: int)

  /** What the run does that can be observed from outside. */
  datatype Event = Lookup(ref: Ref) | ListTags(repo: Ref) | Acquire | Release | Sleep
                 | Copy(from: Ref, to: Ref)

  /** The world outside: reference normalisation, the registry's tag list,
      manifest HEAD and image copy, the template engine and the context. The
      `nat` argument is the number of events logged before the call. */
  datatype Env = Env(
    normalize: string -> Result<Named, Error>,
    tagList: (Ref, nat) -> Result<seq<string>, Error>,
    head: (Ref, nat) -> Result<Head, Error>,
    imageCopy: (Ref, Ref, nat) -> Option<Error>,
    template: (string, Ref, ConfigSync) -> Result<string, Error>,
    canceled: nat -> bool)

  // ---------------------------------------------------------------------
  // Slot accounting

  /** The change one event makes to the number of slots held. */
  function Delta(e: Event): int {
    if e == Acquire then 1 else if e == Release then -1 else 0
  }

  /** Slots acquired and not yet released by a trace. */
  function Balance(tr: seq<Event>): int {
    BalanceOf(tr, |tr|)
  }

  /** Balance of the first `n` events of `tr`. */
  function BalanceOf(tr: seq<Event>, n: nat): int
    requires n <= |tr|
  {
    if n == 0 then 0 else BalanceOf(tr, n - 1) + Delta(tr[n - 1])
  }

  /** The first events of a trace count the same once more are appended. */
  lemma {:induction false} BalanceOfPrefix(a: seq<Event>, b: seq<Event>, n: nat)
    requires n <= |a|
    ensures BalanceOf(a + b, n) == BalanceOf(a, n)
  {
    if n > 0 {
      BalanceOfPrefix(a, b, n - 1);
      assert (a + b)[n - 1] == a[n - 1];
    }
  }

  /** Counting past the end of `a` counts `a` and then the events of `b`. */
  lemma {:induction false} BalanceOfSuffix(a: seq<Event>, b: seq<Event>, n: nat)
    requires n <= |b|
    ensures BalanceOf(a + b, |a| + n) == Balance(a) + BalanceOf(b, n)
  {
    if n == 0 {
      BalanceOfPrefix(a, b, |a|);
    } else {
      BalanceOfSuffix(a, b, n - 1);
      assert (a + b)[|a| + n - 1] == b[n - 1];
    }
  }

  /** Balance of short literal traces. */
  lemma BalanceLits(a: Event, b: Event, c: Event, d: Event)
    ensures Balance([a]) == Delta(a)
    ensures Balance([a, b]) == Delta(a) + Delta(b)
    ensures Balance([a, b, c]) == Delta(a) + Delta(b) + Delta(c)
    ensures Balance([a, b, c, d]) == Delta(a) + Delta(b) + Delta(c) + Delta(d)
  {
    var s1, s2, s3, s4 := [a], [a, b], [a, b, c], [a, b, c, d];
    assert BalanceOf(s1, 1) == Delta(a);
    assert BalanceOf(s2, 1) == Delta(a);
    assert BalanceOf(s3, 1) == Delta(a);
    assert BalanceOf(s3, 2) == Delta(a) + Delta(b);
    assert BalanceOf(s4, 1) == Delta(a);
    assert BalanceOf(s4, 2) == Delta(a) + Delta(b);
    assert BalanceOf(s4, 3) == Delta(a) + Delta(b) + Delta(c);
  }

  lemma Assoc(a: seq<Event>, b: seq<Event>, c: seq<Event>)
    ensures a + b + c == a + (b + c)
  {
  }

  /** The slot balance is additive over concatenation. */
  lemma BalanceAppend(a: seq<Event>, b: seq<Event>)
    ensures Balance(a + b) == Balance(a) + Balance(b)
  {
    BalanceOfSuffix(a, b, |b|);
  }

  /** The copies of a trace, in order. */
  function Copies(tr: seq<Event>): seq<Event> {
    CopiesOf(tr, |tr|)
  }

  /** The copies among the first `n` events of `tr`. */
  function CopiesOf(tr: seq<Event>, n: nat): seq<Event>
    requires n <= |tr|
  {
    if n == 0 then [] else CopiesOf(tr, n - 1) + Kept(tr[n - 1])
  }

  /** An event as it appears among the copies. */
  function Kept(e: Event): seq<Event> {
    if e.Copy? then [e] else []
  }

  /** The copies of short literal traces. */
  lemma CopiesLits(a: Event, b: Event, c: Event)
    ensures Copies([a]) == Kept(a)
    ensures Copies([a, b]) == Kept(a) + Kept(b)
    ensures Copies([a, b, c]) == Kept(a) + Kept(b) + Kept(c)
  {
    var s1, s2, s3 := [a], [a, b], [a, b, c];
    assert CopiesOf(s1, 1) == Kept(a);
    assert CopiesOf(s2, 1) == Kept(a);
    assert CopiesOf(s3, 1) == Kept(a);
    assert CopiesOf(s3, 2) == Kept(a) + Kept(b);
  }

  lemma {:induction false} CopiesOfPrefix(a: seq<Event>, b: seq<Event>, n: nat)
    requires n <= |a|
    ensures CopiesOf(a + b, n) == CopiesOf(a, n)
  {
    if n > 0 {
      CopiesOfPrefix(a, b, n - 1);
      assert (a + b)[n - 1] == a[n - 1];
    }
  }

  lemma {:induction false} CopiesOfSuffix(a: seq<Event>, b: seq<Event>, n: nat)
    requires n <= |b|
    ensures CopiesOf(a + b, |a| + n) == Copies(a) + CopiesOf(b, n)
  {
    if n == 0 {
      CopiesOfPrefix(a, b, |a|);
    } else {
      CopiesOfSuffix(a, b, n - 1);
      assert (a + b)[|a| + n - 1] == b[n - 1];
    }
  }

  lemma CopiesAppend(a: seq<Event>, b: seq<Event>)
    ensures Copies(a + b) == Copies(a) + Copies(b)
  {
    CopiesOfSuffix(a, b, |b|);
  }

  /** A trace without copy events has no copies. */
  lemma {:induction false} CopiesFree(tr: seq<Event>, n: nat)
    requires n <= |tr|
    requires forall i :: 0 <= i < |tr| ==> !tr[i].Copy?
    ensures CopiesOf(tr, n) == []
  {
    if n > 0 {
      CopiesFree(tr, n - 1);
    }
  }

  // ---------------------------------------------------------------------
  // Pure decisions

  /** The target already holds the source's manifest: its HEAD succeeded and
      reports the same digest. */
  predicate Matches(src: Head, tgt: Result<Head, Error>) {
    tgt.Ok? && tgt.value.digest == src.digest
  }

  /** The backup reference for the expanded template text
      (cmd/regsync/root.go:413-431): the text is trimmed, read as a full
      reference when it holds ':' or '/', and otherwise used as the tag of
      the target. */
  function BackupRef(normalize: string -> Result<Named, Error>, text: string, tgt: Ref): Result<Ref, Error> {
    var trimmed := TrimSpace(text);
    if ContainsAny(trimmed, ":/") then NewRef(trimmed, normalize)
    else Ok(tgt.(tag := trimmed))
  }

  /** Which reading BackupRef chooses depends on the untrimmed text alone:
      without ':' or '/', only the target's tag changes, to a tag free of
      both; with one of them, the result is the trimmed text parsed as a
      reference, which fails exactly when the normaliser rejects it. */
  lemma BackupRefCases(normalize: string -> Result<Named, Error>, text: string, tgt: Ref)
    ensures var r := BackupRef(normalize, text, tgt);
      !(':' in text || '/' in text) ==>
        r.Ok? && r.value.(tag := tgt.tag) == tgt && r.value.tag == TrimSpace(text)
        && ':' !in r.value.tag && '/' !in r.value.tag
    ensures (':' in text || '/' in text) ==>
      BackupRef(normalize, text, tgt) == NewRef(TrimSpace(text), normalize)
    ensures var r := BackupRef(normalize, text, tgt);
      (':' in text || '/' in text) ==>
        (r.Err? <==> normalize(TrimSpace(text)).Err?) && (r.Ok? ==> r.value.reference == TrimSpace(text))
  {
    var trimmed := TrimSpace(text);
    TrimSpaceKeeps(text, ':');
    TrimSpaceKeeps(text, '/');
    ContainsAnyIn(trimmed, ":/");
    if ':' in trimmed {
      var i :| 0 <= i < |trimmed| && trimmed[i] == ':';
      assert trimmed[i] in ":/";
    }
    if '/' in trimmed {
      var i :| 0 <= i < |trimmed| && trimmed[i] == '/';
      assert trimmed[i] in ":/";
    }
  }

  /** Expands the backup template for the target, then reads the result. */
  function BackupPlan(env: Env, s: ConfigSync, tgt: Ref): Result<Ref, Error> {
    var text :- env.template(s.backup, tgt, s);
    BackupRef(env.normalize, text, tgt)
  }

  /** A `repository` step's pairs: one per source tag, in list order, each
      the parsed repository references with only the tag replaced. */
  function Pairs(sRepo: Ref, tRepo: Ref, tags: seq<string>): (ps: seq<(Ref, Ref)>)
    ensures |ps| == |tags|
    ensures forall i :: 0 <= i < |ps| ==>
      ps[i].0 == sRepo.(tag := tags[i]) && ps[i].1 == tRepo.(tag := tags[i])
  {
    if tags == [] then [] else [(sRepo.(tag := tags[0]), tRepo.(tag := tags[0]))] + Pairs(sRepo, tRepo, tags[1..])
  }

  /** The first error of a sequence of step results, if any. */
  function FirstError(errs: seq<Option<Error>>): (r: Option<Error>)
    ensures r.None? <==> forall i :: 0 <= i < |errs| ==> errs[i].None?
    ensures r.Some? ==> r in errs
  {
    if errs == [] then None
    else if errs[0].Some? then errs[0]
    else FirstError(errs[1..])
  }

  /** The error kept is the one of the earliest failing step. */
  lemma {:induction false} FirstErrorIsEarliest(errs: seq<Option<Error>>, i: nat)
    requires i < |errs| && errs[i].Some?
    requires forall j :: 0 <= j < i ==> errs[j].None?
    ensures FirstError(errs) == errs[i]
  {
    if i > 0 {
      FirstErrorIsEarliest(errs[1..], i - 1);
    }
  }

  lemma {:induction false} FirstErrorAppend(errs: seq<Option<Error>>, e: Option<Error>)
    ensures FirstError(errs + [e]) == if FirstError(errs).Some? then FirstError(errs) else e
  {
    if errs != [] {
      assert (errs + [e])[1..] == errs[1..] + [e];
      FirstErrorAppend(errs[1..], e);
    }
  }

  // ---------------------------------------------------------------------
  // The traces a run produces

  /** A lookup the rate-limit loop accepts: it failed (and ends the loop
      with its error) or reports at least `min` requests remaining. */
  predicate RatePasses(h: Result<Head, Error>, min: int) {
    h.Err? || h.value.remain >= min
  }

  /** From time `T` on, every lookup passes the rate limit: without such a
      time the delay loop need not end. */
  ghost predicate Recovered(env: Env, min: int, T: nat) {
    forall r: Ref, t: nat :: T <= t ==> RatePasses(env.head(r, t), min)
  }

  /** The delay loop can end for this step: no minimum, or a recovery time. */
  ghost predicate RateEnds(env: Env, s: ConfigSync, T: nat) {
    s.rateMin <= 0 || Recovered(env, s.rateMin, T)
  }

  /** The rate-limit loop, entered at time `t` holding a slot with limit
      `rl`: release, stop on cancellation, sleep, re-acquire, look the
      source up again (releasing and stopping if that fails) until enough
      requests remain. */
  ghost function RateLoop(env: Env, s: ConfigSync, src: Ref, rl: Head, t: nat, T: nat): (r: (Option<Error>, seq<Event>))
    requires Recovered(env, s.rateMin, T)
    requires rl.remain >= s.rateMin || t <= T
    decreases T - t
  {
    if rl.remain >= s.rateMin then (None, [])
    else if env.canceled(t + 1) then (Some(ErrCanceled), [Release])
    else
      var round := [Release, Sleep, Acquire, Lookup(src)];
      var h := env.head(src, t + 3);
      if h.Err? then (Some(h.error), round + [Release])
      else
        assert t + 3 >= T ==> RatePasses(env.head(src, t + 3), s.rateMin);
        var rest := RateLoop(env, s, src, h.value, t + 4, T);
        (rest.0, round + rest.1)
  }

  /** What follows the slot acquisition (the slot is released on every
      return): stop on cancellation; when the target exists and a backup
      template is set, copy the target to the backup reference; then copy
      the source to the target. */
  function AfterSlot(env: Env, s: ConfigSync, src: Ref, tgt: Ref, tgtExists: bool, plan: Result<Ref, Error>, t: nat): (Option<Error>, seq<Event>)
  {
    if env.canceled(t) then (Some(ErrCanceled), [Release])
    else if tgtExists && s.backup != "" then
      match plan
      case Err(e) => (Some(e), [Release])
      case Ok(b) =>
        if env.imageCopy(tgt, b, t).Some? then (env.imageCopy(tgt, b, t), [Copy(tgt, b), Release])
        else (env.imageCopy(src, tgt, t + 1), [Copy(tgt, b), Copy(src, tgt), Release])
    else (env.imageCopy(src, tgt, t), [Copy(src, tgt), Release])
  }

  /** What a step does once it holds a slot, as a function of whether the
      target exists, whether the registry reports a rate limit, and the time. */
  type Held = (bool, bool, nat) -> (Option<Error>, seq<Event>)

  /** `processRef` for one pair, started at time `t`, with `held` for what it
      does once it holds a slot (cmd/regsync/root.go:321-463): look up the
      source (returning its error), then the target; return nil when the
      target already holds the source's digest or in check mode; otherwise
      take a slot. */
  function ProcessRefWith(env: Env, src: Ref, tgt: Ref, action: string, t: nat, held: Held): (Option<Error>, seq<Event>) {
    var mSrc := env.head(src, t);
    if mSrc.Err? then (Some(mSrc.error), [Lookup(src)])
    else
      var mTgt := env.head(tgt, t + 1);
      if Matches(mSrc.value, mTgt) || action == "check" then (None, [Lookup(src), Lookup(tgt)])
      else
        var h := held(mTgt.Ok?, mSrc.value.rateSet, t + 3);
        (h.0, [Lookup(src), Lookup(tgt), Acquire] + h.1)
  }

  /** HeldSpec for one pair, with the backup reference its template gives.
      It is the model only where the delay loop can end. */
  ghost function HeldAt(env: Env, s: ConfigSync, src: Ref, tgt: Ref, T: nat): (h: Held)
    ensures RateEnds(env, s, T) ==> IsHeld(env, s, src, tgt, T, h)
  {
    (tgtExists: bool, rateSet: bool, t: nat) =>
      if RateEnds(env, s, T) then HeldSpec(env, s, src, tgt, tgtExists, rateSet, BackupPlan(env, s, tgt), t, T)
      else (None, [])
  }

  /** `held` is what the pair does once it holds a slot. */
  ghost predicate IsHeld(env: Env, s: ConfigSync, src: Ref, tgt: Ref, T: nat, held: Held)
    requires RateEnds(env, s, T)
  {
    forall tgtExists: bool, rateSet: bool, t: nat
      {:trigger HeldSpec(env, s, src, tgt, tgtExists, rateSet, BackupPlan(env, s, tgt), t, T)} ::
      held(tgtExists, rateSet, t) == HeldSpec(env, s, src, tgt, tgtExists, rateSet, BackupPlan(env, s, tgt), t, T)
  }

  /** `processRef` for one pair, started at time `t`. */
  ghost function ProcessRefSpec(env: Env, s: ConfigSync, src: Ref, tgt: Ref, action: string, t: nat, T: nat): (Option<Error>, seq<Event>)
    requires action == "check" || RateEnds(env, s, T)
  {
    ProcessRefWith(env, src, tgt, action, t, HeldAt(env, s, src, tgt, T))
  }

  /** The rate-limit gate of `processRef`, entered at time `t` holding the
      slot (cmd/regsync/root.go:350-388): when a minimum is configured and the
      registry reports a limit, look the source up again (returning its error
      at once) and wait in the delay loop; otherwise pass at once. */
  ghost function GateSpec(env: Env, s: ConfigSync, src: Ref, rateSet: bool, t: nat, T: nat): (Option<Error>, seq<Event>)
    requires RateEnds(env, s, T)
  {
    if s.rateMin > 0 && rateSet then
      var again := env.head(src, t);
      if again.Err? then (Some(again.error), [Lookup(src)])
      else
        assert t >= T ==> RatePasses(env.head(src, t), s.rateMin);
        var w := RateLoop(env, s, src, again.value, t + 1, T);
        (w.0, [Lookup(src)] + w.1)
    else (None, [])
  }

  /** The rest of `processRef` from time `t`, just after it acquired its slot:
      the rate-limit gate, then what follows it. */
  ghost function HeldSpec(env: Env, s: ConfigSync, src: Ref, tgt: Ref, tgtExists: bool, rateSet: bool,
                          plan: Result<Ref, Error>, t: nat, T: nat): (Option<Error>, seq<Event>)
    requires RateEnds(env, s, T)
  {
    var g := GateSpec(env, s, src, rateSet, t, T);
    if g.0.Some? then g
    else
      var c := AfterSlot(env, s, src, tgt, tgtExists, plan, t + |g.1|);
      (c.0, g.1 + c.1)
  }

  /** One pair's outcome and events, as a function of the pair and the
      start time. */
  type Step = (Ref, Ref, nat) -> (Option<Error>, seq<Event>)

  /** `step` is `processRef` of step `s` in mode `action`. */
  ghost predicate IsStep(env: Env, s: ConfigSync, action: string, T: nat, step: Step) {
    && (action == "check" || RateEnds(env, s, T))
    && forall src: Ref, tgt: Ref, t: nat {:trigger ProcessRefSpec(env, s, src, tgt, action, t, T)} ::
         step(src, tgt, t) == ProcessRefSpec(env, s, src, tgt, action, t, T)
  }

  /** Processes pairs in order from time `t`, stopping at the first error. */
  ghost function PairsSpec(step: Step, pairs: seq<(Ref, Ref)>, t: nat): (Option<Error>, seq<Event>) {
    PairsFrom(step, pairs, 0, t)
  }

  /** Processes the pairs from index `i` on, from time `t`. */
  ghost function PairsFrom(step: Step, pairs: seq<(Ref, Ref)>, i: nat, t: nat): (Option<Error>, seq<Event>)
    requires i <= |pairs|
    decreases |pairs| - i
  {
    if i == |pairs| then (None, [])
    else
      var r := step(pairs[i].0, pairs[i].1, t);
      if r.0.Some? then r
      else
        var rest := PairsFrom(step, pairs, i + 1, t + |r.1|);
        (rest.0, r.1 + rest.1)
  }

  /** One pair processed from the trace `before`, leaving `after`: on an
      error the pairs stop there, otherwise they go on from the next pair. */
  lemma PairsNext(step: Step, pairs: seq<(Ref, Ref)>, i: nat, before: seq<Event>, after: seq<Event>)
    requires i < |pairs|
    requires after == before + step(pairs[i].0, pairs[i].1, |before|).1
    ensures var r := step(pairs[i].0, pairs[i].1, |before|);
      r.0.Some? ==> PairsFrom(step, pairs, i, |before|) == r
    ensures var r := step(pairs[i].0, pairs[i].1, |before|);
      r.0.None? ==>
        && PairsFrom(step, pairs, i, |before|).0 == PairsFrom(step, pairs, i + 1, |after|).0
        && before + PairsFrom(step, pairs, i, |before|).1 == after + PairsFrom(step, pairs, i + 1, |after|).1
  {
    var r := step(pairs[i].0, pairs[i].1, |before|);
    if r.0.None? {
      Assoc(before, r.1, PairsFrom(step, pairs, i + 1, |after|).1);
    }
  }

  /** `process` for one sync step, started at time `t`, with `step` for
      `processRef` (cmd/regsync/root.go:251-318). */
  ghost function ProcessSpec(env: Env, s: ConfigSync, step: Step, t: nat): (Option<Error>, seq<Event>) {
    if s.kind == "repository" then
      match NewRef(s.source, env.normalize)
      case Err(e) => (Some(e), [])
      case Ok(sRepo) =>
        match env.tagList(sRepo, t)
        case Err(e) => (Some(e), [ListTags(sRepo)])
        case Ok(tags) =>
          match NewRef(s.target, env.normalize)
          case Err(e) => (Some(e), [ListTags(sRepo)])
          case Ok(tRepo) =>
            var r := PairsSpec(step, Pairs(sRepo, tRepo, tags), t + 1);
            (r.0, [ListTags(sRepo)] + r.1)
    else if s.kind == "image" then
      match NewRef(s.source, env.normalize)
      case Err(e) => (Some(e), [])
      case Ok(sRef) =>
        match NewRef(s.target, env.normalize)
        case Err(e) => (Some(e), [])
        case Ok(tRef) => step(sRef, tRef, t)
    else (Some(ErrInvalidInput), [])
  }

  /** `processRef` in check mode: the source lookup's error, or nil after
      both lookups. */
  function CheckRef(env: Env, src: Ref, tgt: Ref, t: nat): (Option<Error>, seq<Event>) {
    if env.head(src, t).Err? then (Some(env.head(src, t).error), [Lookup(src)])
    else (None, [Lookup(src), Lookup(tgt)])
  }

  function CheckStep(env: Env): Step {
    (src: Ref, tgt: Ref, t: nat) => CheckRef(env, src, tgt, t)
  }

  /** What processing one sync entry at a time yields. */
  type Proc = (ConfigSync, nat) -> (Option<Error>, seq<Event>)

  /** `proc` processes an entry in check mode. */
  ghost predicate IsCheck(env: Env, proc: Proc) {
    forall s: ConfigSync, t: nat {:trigger ProcessSpec(env, s, CheckStep(env), t)} ::
      proc(s, t) == ProcessSpec(env, s, CheckStep(env), t)
  }

  /** A process function that meets `IsCheck`: the check-mode lemmas are not vacuous. */
  ghost function CheckProc(env: Env): (p: Proc)
    ensures IsCheck(env, p)
  {
    (s: ConfigSync, t: nat) => ProcessSpec(env, s, CheckStep(env), t)
  }

  /** `runCheck` (cmd/regsync/root.go:236-248): every entry is processed,
      whatever the earlier ones returned; the per-entry errors and the whole
      trace. */
  ghost function CheckAll(proc: Proc, syncs: seq<ConfigSync>, t: nat): (r: (seq<Option<Error>>, seq<Event>))
    ensures |r.0| == |syncs|
  {
    CheckFirst(proc, syncs, |syncs|, t)
  }

  /** The first `n` entries of `runCheck`, started at time `t`. */
  ghost function CheckFirst(proc: Proc, syncs: seq<ConfigSync>, n: nat, t: nat): (r: (seq<Option<Error>>, seq<Event>))
    requires n <= |syncs|
    ensures |r.0| == n
  {
    if n == 0 then ([], [])
    else
      var done := CheckFirst(proc, syncs, n - 1, t);
      var last := proc(syncs[n - 1], t + |done.1|);
      (done.0 + [last.0], done.1 + last.1)
  }

  // ---------------------------------------------------------------------
  // Properties of the traces

  /** A run with no effect: no slot is taken and nothing is copied. */
  ghost predicate DryRun(tr: seq<Event>) {
    Acquire !in tr && forall e :: e in tr ==> !e.Copy?
  }

  /** The three early returns of `processRef`: a failed source lookup
      returns its error after that lookup alone; a target already holding
      the source's digest, and check mode, return nil after the two lookups.
      None of them takes a slot or copies. */
  lemma ProcessRefEarlyExits(env: Env, s: ConfigSync, src: Ref, tgt: Ref, action: string, t: nat, T: nat)
    requires action == "check" || RateEnds(env, s, T)
    ensures var r := ProcessRefSpec(env, s, src, tgt, action, t, T);
      && (env.head(src, t).Err? ==> r == (Some(env.head(src, t).error), [Lookup(src)]))
      && (env.head(src, t).Ok? && (Matches(env.head(src, t).value, env.head(tgt, t + 1)) || action == "check") ==>
            r == (None, [Lookup(src), Lookup(tgt)]))
      && (action == "check" ==> DryRun(r.1))
  {
  }

  /** In check mode `processRef` is CheckRef, for every step and pair. */
  lemma CheckStepIs(env: Env, s: ConfigSync)
    ensures IsStep(env, s, "check", 0, CheckStep(env))
  {
    forall src: Ref, tgt: Ref, t: nat
      ensures CheckStep(env)(src, tgt, t) == ProcessRefSpec(env, s, src, tgt, "check", t, 0)
    {
      ProcessRefEarlyExits(env, s, src, tgt, "check", t, 0);
    }
  }

  /** Each round of the delay loop releases its slot before sleeping and
      re-acquires one after: a loop that ends normally leaves the slot count
      as it found it, one that stops early has given its slot back. */
  lemma {:induction false} RateLoopBalance(env: Env, s: ConfigSync, src: Ref, rl: Head, t: nat, T: nat)
    requires Recovered(env, s.rateMin, T)
    requires rl.remain >= s.rateMin || t <= T
    ensures var r := RateLoop(env, s, src, rl, t, T); Balance(r.1) == if r.0.Some? then -1 else 0
    ensures var r := RateLoop(env, s, src, rl, t, T); forall i :: 0 <= i < |r.1| ==> !r.1[i].Copy?
    ensures var r := RateLoop(env, s, src, rl, t, T); r.0.Some? ==> r.1 != [] && r.1[|r.1| - 1] == Release
    decreases T - t
  {
    var round := [Release, Sleep, Acquire, Lookup(src)];
    BalanceLits(Release, Sleep, Acquire, Lookup(src));
    if rl.remain < s.rateMin && !env.canceled(t + 1) {
      var h := env.head(src, t + 3);
      if h.Err? {
        BalanceAppend(round, [Release]);
      } else {
        assert t + 3 >= T ==> RatePasses(env.head(src, t + 3), s.rateMin);
        var rest := RateLoop(env, s, src, h.value, t + 4, T);
        RateLoopBalance(env, s, src, h.value, t + 4, T);
        BalanceAppend(round, rest.1);
        assert RateLoop(env, s, src, rl, t, T).1 == round + rest.1;
        if rest.0.Some? {
          assert (round + rest.1)[|round + rest.1| - 1] == rest.1[|rest.1| - 1];
        }
      }
    }
  }

  /** The delay loop ends normally only after a lookup that reports at
      least the minimum: either the limit it was entered with, or the last
      event of its trace, a lookup of the source at that time. */
  lemma {:induction false} RateLoopExit(env: Env, s: ConfigSync, src: Ref, rl: Head, t: nat, T: nat)
    requires Recovered(env, s.rateMin, T)
    requires rl.remain >= s.rateMin || t <= T
    ensures var r := RateLoop(env, s, src, rl, t, T);
      r.0.None? ==>
        (r.1 == [] && rl.remain >= s.rateMin)
        || (|r.1| >= 4 && r.1[|r.1| - 1] == Lookup(src)
            && env.head(src, t + |r.1| - 1).Ok? && env.head(src, t + |r.1| - 1).value.remain >= s.rateMin)
    decreases T - t
  {
    if rl.remain < s.rateMin && !env.canceled(t + 1) {
      var h := env.head(src, t + 3);
      if h.Ok? {
        assert t + 3 >= T ==> RatePasses(env.head(src, t + 3), s.rateMin);
        RateLoopExit(env, s, src, h.value, t + 4, T);
      }
    }
  }

  /** The delay loop's round, step by step. */
  lemma RateLoopRound(env: Env, s: ConfigSync, src: Ref, rl: Head, t: nat, T: nat)
    requires Recovered(env, s.rateMin, T)
    requires rl.remain < s.rateMin && t <= T
    ensures env.canceled(t + 1) ==> RateLoop(env, s, src, rl, t, T) == (Some(ErrCanceled), [Release])
    ensures !env.canceled(t + 1) && env.head(src, t + 3).Err? ==>
      RateLoop(env, s, src, rl, t, T) == (Some(env.head(src, t + 3).error), [Release, Sleep, Acquire, Lookup(src)] + [Release])
    ensures !env.canceled(t + 1) && env.head(src, t + 3).Ok? ==>
      && (env.head(src, t + 3).value.remain >= s.rateMin || t + 4 <= T)
      && RateLoop(env, s, src, rl, t, T) ==
         (RateLoop(env, s, src, env.head(src, t + 3).value, t + 4, T).0,
          [Release, Sleep, Acquire, Lookup(src)] + RateLoop(env, s, src, env.head(src, t + 3).value, t + 4, T).1)
  {
    assert t + 3 >= T ==> RatePasses(env.head(src, t + 3), s.rateMin);
  }

  /** A round that finds the source again continues the loop from the
      trace it leaves. */
  lemma RateLoopNext(env: Env, s: ConfigSync, src: Ref, rl: Head, t: nat, T: nat, before: seq<Event>, after: seq<Event>)
    requires Recovered(env, s.rateMin, T)
    requires rl.remain < s.rateMin && t <= T
    requires !env.canceled(t + 1) && env.head(src, t + 3).Ok?
    requires after == before + [Release, Sleep, Acquire, Lookup(src)]
    ensures var next := env.head(src, t + 3).value;
      && (next.remain >= s.rateMin || t + 4 <= T)
      && RateLoop(env, s, src, rl, t, T).0 == RateLoop(env, s, src, next, t + 4, T).0
      && before + RateLoop(env, s, src, rl, t, T).1 == after + RateLoop(env, s, src, next, t + 4, T).1
  {
    RateLoopRound(env, s, src, rl, t, T);
    Assoc(before, [Release, Sleep, Acquire, Lookup(src)], RateLoop(env, s, src, env.head(src, t + 3).value, t + 4, T).1);
  }

  /** After the slot every path ends by releasing it. */
  lemma AfterSlotBalance(env: Env, s: ConfigSync, src: Ref, tgt: Ref, tgtExists: bool, plan: Result<Ref, Error>, t: nat)
    ensures Balance(AfterSlot(env, s, src, tgt, tgtExists, plan, t).1) == -1
  {
    BalanceLits(Release, Release, Release, Release);
    BalanceLits(Copy(src, tgt), Release, Release, Release);
    if !env.canceled(t) && tgtExists && s.backup != "" && plan.Ok? {
      var b := plan.value;
      BalanceLits(Copy(tgt, b), Release, Release, Release);
      BalanceLits(Copy(tgt, b), Copy(src, tgt), Release, Release);
    }
  }

  /** After the slot every path ends by releasing it. */
  lemma AfterSlotEnds(env: Env, s: ConfigSync, src: Ref, tgt: Ref, tgtExists: bool, plan: Result<Ref, Error>, t: nat)
    ensures var tr := AfterSlot(env, s, src, tgt, tgtExists, plan, t).1; tr != [] && tr[|tr| - 1] == Release
  {
  }

  /** The gate never copies. */
  lemma GateCopies(env: Env, s: ConfigSync, src: Ref, rateSet: bool, t: nat, T: nat)
    requires RateEnds(env, s, T)
    ensures Copies(GateSpec(env, s, src, rateSet, t, T).1) == []
  {
    var g := GateSpec(env, s, src, rateSet, t, T);
    if s.rateMin > 0 && rateSet && env.head(src, t).Ok? {
      assert t >= T ==> RatePasses(env.head(src, t), s.rateMin);
      var w := RateLoop(env, s, src, env.head(src, t).value, t + 1, T);
      RateLoopBalance(env, s, src, env.head(src, t).value, t + 1, T);
      CopiesFree([Lookup(src)] + w.1, |[Lookup(src)] + w.1|);
    } else {
      CopiesFree(g.1, |g.1|);
    }
  }

  /** A gate that stops has given its slot back,
      except when the refreshed lookup fails: that return comes before the
      deferred release is registered (cmd/regsync/root.go:352-358). A gate that
      passes leaves the slot count as it found it. */
  lemma GateBalance(env: Env, s: ConfigSync, src: Ref, rateSet: bool, t: nat, T: nat)
    requires RateEnds(env, s, T)
    ensures var g := GateSpec(env, s, src, rateSet, t, T);
      Balance(g.1) == if g.0.None? || (s.rateMin > 0 && rateSet && env.head(src, t).Err?) then 0 else -1
  {
    var g := GateSpec(env, s, src, rateSet, t, T);
    BalanceLits(Lookup(src), Release, Release, Release);
    if s.rateMin > 0 && rateSet {
      var again := env.head(src, t);
      if again.Ok? {
        assert t >= T ==> RatePasses(env.head(src, t), s.rateMin);
        var w := RateLoop(env, s, src, again.value, t + 1, T);
        RateLoopBalance(env, s, src, again.value, t + 1, T);
        BalanceAppend([Lookup(src)], w.1);
      }
    }
  }

  /** Holding the slot, every path gives it back except the failed refresh
      of the source's rate limit, which returns before the deferred release
      is registered (cmd/regsync/root.go:352-358). */
  lemma HeldBalance(env: Env, s: ConfigSync, src: Ref, tgt: Ref, tgtExists: bool, rateSet: bool,
                     plan: Result<Ref, Error>, t: nat, T: nat)
    requires RateEnds(env, s, T)
    ensures Balance(HeldSpec(env, s, src, tgt, tgtExists, rateSet, plan, t, T).1) ==
      if s.rateMin > 0 && rateSet && env.head(src, t).Err? then 0 else -1
  {
    var g := GateSpec(env, s, src, rateSet, t, T);
    GateBalance(env, s, src, rateSet, t, T);
    if g.0.None? {
      var c := AfterSlot(env, s, src, tgt, tgtExists, plan, t + |g.1|);
      AfterSlotBalance(env, s, src, tgt, tgtExists, plan, t + |g.1|);
      BalanceAppend(g.1, c.1);
    }
  }

  /** The path of `processRef` that returns after acquiring a slot and before
      registering its release: the source changed, this is not a check, a
      rate limit is configured and reported, and the refreshed source lookup
      fails (cmd/regsync/root.go:352-358). */
  predicate LeaksSlot(env: Env, s: ConfigSync, src: Ref, tgt: Ref, action: string, t: nat) {
    && env.head(src, t).Ok? && !Matches(env.head(src, t).value, env.head(tgt, t + 1)) && action != "check"
    && s.rateMin > 0 && env.head(src, t).value.rateSet && env.head(src, t + 3).Err?
  }

  /** A step holds one slot at the end exactly on the leaking path; on every
      other path the slot count is unchanged. */
  lemma ProcessRefSlots(env: Env, s: ConfigSync, src: Ref, tgt: Ref, action: string, t: nat, T: nat)
    requires action == "check" || RateEnds(env, s, T)
    ensures Balance(ProcessRefSpec(env, s, src, tgt, action, t, T).1) ==
      if LeaksSlot(env, s, src, tgt, action, t) then 1 else 0
  {
    var mSrc := env.head(src, t);
    var mTgt := env.head(tgt, t + 1);
    BalanceLits(Lookup(src), Lookup(tgt), Acquire, Release);
    if mSrc.Ok? && !Matches(mSrc.value, mTgt) && action != "check" {
      var h := HeldSpec(env, s, src, tgt, mTgt.Ok?, mSrc.value.rateSet, BackupPlan(env, s, tgt), t + 3, T);
      HeldBalance(env, s, src, tgt, mTgt.Ok?, mSrc.value.rateSet, BackupPlan(env, s, tgt), t + 3, T);
      BalanceAppend([Lookup(src), Lookup(tgt), Acquire], h.1);
    }
  }

  /** The copies after the slot: none once cancellation is seen; with a
      backup, the target is saved first and the source is copied only when
      that succeeded; without one, the source is copied. */
  lemma AfterSlotCopies(env: Env, s: ConfigSync, src: Ref, tgt: Ref, tgtExists: bool, plan: Result<Ref, Error>, t: nat)
    ensures var r := AfterSlot(env, s, src, tgt, tgtExists, plan, t);
      && (env.canceled(t) ==> Copies(r.1) == [])
      && (!env.canceled(t) && tgtExists && s.backup != "" ==>
            if plan.Err? then Copies(r.1) == [] && r.0 == Some(plan.error)
            else if env.imageCopy(tgt, plan.value, t).Some? then
              Copies(r.1) == [Copy(tgt, plan.value)] && r.0 == env.imageCopy(tgt, plan.value, t)
            else Copies(r.1) == [Copy(tgt, plan.value), Copy(src, tgt)])
      && (!env.canceled(t) && !(tgtExists && s.backup != "") ==> Copies(r.1) == [Copy(src, tgt)])
  {
    CopiesLits(Release, Release, Release);
    CopiesLits(Copy(src, tgt), Release, Release);
    if !env.canceled(t) && tgtExists && s.backup != "" && plan.Ok? {
      var b := plan.value;
      CopiesLits(Copy(tgt, b), Release, Release);
      CopiesLits(Copy(tgt, b), Copy(src, tgt), Release);
    }
  }

  /** Events without copies followed by events that end by releasing the
      slot: the copies are those of the latter, and the release comes last. */
  lemma ThenCopies(g: seq<Event>, c: seq<Event>)
    requires Copies(g) == [] && c != [] && c[|c| - 1] == Release
    ensures Copies(g + c) == Copies(c) && (g + c)[|g + c| - 1] == Release
  {
    CopiesAppend(g, c);
  }

  /** Holding the slot, a path that copies anything passed the gate, gives
      the slot back last, and copies what the steps after the slot copy at
      the time the gate let it through. */
  lemma HeldCopies(env: Env, s: ConfigSync, src: Ref, tgt: Ref, tgtExists: bool, rateSet: bool,
                     plan: Result<Ref, Error>, t: nat, T: nat)
    requires RateEnds(env, s, T)
    ensures var h := HeldSpec(env, s, src, tgt, tgtExists, rateSet, plan, t, T);
      var g := GateSpec(env, s, src, rateSet, t, T);
      var c := AfterSlot(env, s, src, tgt, tgtExists, plan, t + |g.1|);
      Copies(h.1) != [] ==>
        g.0.None? && h.1[|h.1| - 1] == Release && Copies(h.1) == Copies(c.1) && h.0 == c.0
  {
    var g := GateSpec(env, s, src, rateSet, t, T);
    GateCopies(env, s, src, rateSet, t, T);
    if g.0.None? {
      var c := AfterSlot(env, s, src, tgt, tgtExists, plan, t + |g.1|);
      assert HeldSpec(env, s, src, tgt, tgtExists, rateSet, plan, t, T) == (c.0, g.1 + c.1);
      AfterSlotEnds(env, s, src, tgt, tgtExists, plan, t + |g.1|);
      ThenCopies(g.1, c.1);
    } else {
      assert HeldSpec(env, s, src, tgt, tgtExists, rateSet, plan, t, T) == g;
    }
  }

  /** The events before the slot copy nothing. */
  lemma LookupsQuiet(src: Ref, tgt: Ref)
    ensures Copies([Lookup(src)]) == [] && Copies([Lookup(src), Lookup(tgt)]) == []
    ensures Copies([Lookup(src), Lookup(tgt), Acquire]) == []
  {
    CopiesLits(Lookup(src), Lookup(tgt), Acquire);
  }

  /** Whatever a step does once it holds a slot, the copies of the step are
      those of `held`, after the slot is taken. */
  lemma WithCopies(env: Env, src: Ref, tgt: Ref, action: string, t: nat, held: Held)
    ensures var r := ProcessRefWith(env, src, tgt, action, t, held);
      Copies(r.1) != [] ==>
        && env.head(src, t).Ok? && action != "check" && Acquire in r.1
        && var h := held(env.head(tgt, t + 1).Ok?, env.head(src, t).value.rateSet, t + 3);
           r.0 == h.0 && Copies(r.1) == Copies(h.1) && r.1[|r.1| - 1] == h.1[|h.1| - 1]
  {
    var r := ProcessRefWith(env, src, tgt, action, t, held);
    LookupsQuiet(src, tgt);
    if env.head(src, t).Ok? && !Matches(env.head(src, t).value, env.head(tgt, t + 1)) && action != "check" {
      var h := held(env.head(tgt, t + 1).Ok?, env.head(src, t).value.rateSet, t + 3);
      var pre := [Lookup(src), Lookup(tgt), Acquire];
      CopiesAppend(pre, h.1);
      assert r.1[2] == Acquire;
      if h.1 != [] {
        assert r.1[|r.1| - 1] == h.1[|h.1| - 1];
      }
    }
  }

  /** Copies happen only after the slot is taken: a step that copies
      anything took a slot, and its outcome and copies are those of what it
      does holding the slot (HeldCopies and AfterSlotCopies say what that
      copies). */
  lemma ProcessRefCopies(env: Env, s: ConfigSync, src: Ref, tgt: Ref, action: string, t: nat, T: nat)
    requires action == "check" || RateEnds(env, s, T)
    ensures var r := ProcessRefSpec(env, s, src, tgt, action, t, T);
      Copies(r.1) != [] ==>
        && Acquire in r.1 && action != "check" && env.head(src, t).Ok?
        && var h := HeldSpec(env, s, src, tgt, env.head(tgt, t + 1).Ok?, env.head(src, t).value.rateSet,
                             BackupPlan(env, s, tgt), t + 3, T);
           r.0 == h.0 && Copies(r.1) == Copies(h.1) && r.1[|r.1| - 1] == h.1[|h.1| - 1]
  {
    var held := HeldAt(env, s, src, tgt, T);
    assert ProcessRefSpec(env, s, src, tgt, action, t, T) == ProcessRefWith(env, src, tgt, action, t, held);
    WithCopies(env, src, tgt, action, t, held);
  }

  /** Check mode's pairs are a dry run. */
  lemma PairsCheckDryRun(env: Env, pairs: seq<(Ref, Ref)>, t: nat)
    ensures DryRun(PairsSpec(CheckStep(env), pairs, t).1)
  {
    PairsFromCheckDryRun(env, pairs, 0, t);
  }

  lemma {:induction false} PairsFromCheckDryRun(env: Env, pairs: seq<(Ref, Ref)>, i: nat, t: nat)
    requires i <= |pairs|
    ensures DryRun(PairsFrom(CheckStep(env), pairs, i, t).1)
    decreases |pairs| - i
  {
    if i < |pairs| {
      var r := CheckRef(env, pairs[i].0, pairs[i].1, t);
      assert CheckStep(env)(pairs[i].0, pairs[i].1, t) == r;
      if r.0.None? {
        PairsFromCheckDryRun(env, pairs, i + 1, t + |r.1|);
      }
    }
  }

  /** `process` in check mode never takes a slot and never copies. */
  lemma CheckDryRun(env: Env, s: ConfigSync, t: nat)
    ensures DryRun(ProcessSpec(env, s, CheckStep(env), t).1)
  {
    if s.kind == "repository" {
      match NewRef(s.source, env.normalize)
      case Err(_) =>
      case Ok(sRepo) =>
        match env.tagList(sRepo, t)
        case Err(_) =>
        case Ok(tags) =>
          match NewRef(s.target, env.normalize)
          case Err(_) =>
          case Ok(tRepo) => PairsCheckDryRun(env, Pairs(sRepo, tRepo, tags), t + 1);
    }
  }

  /** `runCheck` never takes a slot and never copies. */
  lemma {:induction false} RunCheckDryRun(env: Env, proc: Proc, syncs: seq<ConfigSync>, n: nat, t: nat)
    requires IsCheck(env, proc) && n <= |syncs|
    ensures DryRun(CheckFirst(proc, syncs, n, t).1)
  {
    if n > 0 {
      var done := CheckFirst(proc, syncs, n - 1, t);
      RunCheckDryRun(env, proc, syncs, n - 1, t);
      CheckDryRun(env, syncs[n - 1], t + |done.1|);
    }
  }

  // ---------------------------------------------------------------------
  // The run: the shared semaphore's count and the log of events

  class Syncer {
    /** Slots of the parallelism semaphore currently held. */
    var inUse: int
    var events: seq<Event>

    ghost predicate Valid()
      reads this
    {
      inUse == Balance(events)
    }

    constructor()
      ensures Valid() && inUse == 0 && events == []
    {
      inUse := 0;
      events := [];
    }

    /** Logs `e` and keeps the slot count in step with it. */
    method Log(e: Event)
      requires Valid()
      modifies this
      ensures Valid() && events == old(events) + [e] && inUse == old(inUse) + Delta(e)
    {
      BalanceAppend(events, [e]);
      BalanceLits(e, e, e, e);
      events := events + [e];
      inUse := inUse + Delta(e);
    }

    method ManifestHead(env: Env, r: Ref) returns (h: Result<Head, Error>)
      requires Valid()
      modifies this
      ensures Valid() && events == old(events) + [Lookup(r)] && h == env.head(r, |old(events)|)
    {
      h := env.head(r, |events|);
      Log(Lookup(r));
    }

    method ImageCopy(env: Env, from: Ref, to: Ref) returns (err: Option<Error>)
      requires Valid()
      modifies this
      ensures Valid() && events == old(events) + [Copy(from, to)] && err == env.imageCopy(from, to, |old(events)|)
    {
      err := env.imageCopy(from, to, |events|);
      Log(Copy(from, to));
    }

    /** One round of the delay loop: release the slot, stop on cancellation,
        sleep, acquire again and look the source up (releasing and stopping
        when that fails). */
    method RateRound(env: Env, src: Ref) returns (stop: Option<Error>, h: Result<Head, Error>)
      requires Valid()
      modifies this
      ensures Valid()
      ensures var t := |old(events)|;
        if env.canceled(t + 1) then stop == Some(ErrCanceled) && events == old(events) + [Release]
        else
          && h == env.head(src, t + 3)
          && stop == (if h.Err? then Some(h.error) else None)
          && events == old(events) + [Release, Sleep, Acquire, Lookup(src)] + (if h.Err? then [Release] else [])
    {
      ghost var before := events;
      Log(Release);
      if env.canceled(|events|) {
        return Some(ErrCanceled), Err(ErrCanceled);
      }
      Log(Sleep);
      Log(Acquire);
      h := ManifestHead(env, src);
      assert events == before + [Release, Sleep, Acquire, Lookup(src)];
      if h.Err? {
        Log(Release);
        return Some(h.error), h;
      }
      stop := None;
    }

    /** The delay loop of `processRef` (cmd/regsync/root.go:362-387). */
    method WaitRateLimit(env: Env, s: ConfigSync, src: Ref, rl0: Head, ghost T: nat) returns (err: Option<Error>)
      requires Valid() && Recovered(env, s.rateMin, T)
      requires rl0.remain >= s.rateMin || |events| <= T
      modifies this
      ensures Valid()
      ensures err == RateLoop(env, s, src, rl0, |old(events)|, T).0
      ensures events == old(events) + RateLoop(env, s, src, rl0, |old(events)|, T).1
    {
      ghost var t0 := |events|;
      var rl := rl0;
      while rl.remain < s.rateMin
        invariant Valid() && t0 <= |events|
        invariant rl.remain >= s.rateMin || |events| <= T
        invariant RateLoop(env, s, src, rl0, t0, T).0 == RateLoop(env, s, src, rl, |events|, T).0
        invariant old(events) + RateLoop(env, s, src, rl0, t0, T).1 == events + RateLoop(env, s, src, rl, |events|, T).1
        decreases T - |events|
      {
        ghost var t := |events|;
        ghost var before := events;
        var stop, h := RateRound(env, src);
        if stop.Some? {
          RateLoopRound(env, s, src, rl, t, T);
          return stop;
        }
        RateLoopNext(env, s, src, rl, t, T, before, events);
        rl := h.value;
      }
      err := None;
    }

    /** From the deferred release on (cmd/regsync/root.go:394-463). */
    method CopyWithBackup(env: Env, s: ConfigSync, src: Ref, tgt: Ref, tgtExists: bool) returns (err: Option<Error>)
      requires Valid()
      modifies this
      ensures Valid()
      ensures err == AfterSlot(env, s, src, tgt, tgtExists, BackupPlan(env, s, tgt), |old(events)|).0
      ensures events == old(events) + AfterSlot(env, s, src, tgt, tgtExists, BackupPlan(env, s, tgt), |old(events)|).1
    {
      ghost var before := events;
      if env.canceled(|events|) {
        Log(Release);
        return Some(ErrCanceled);
      }
      if tgtExists && s.backup != "" {
        var text := env.template(s.backup, tgt, s);
        if text.Err? {
          Log(Release);
          return Some(text.error);
        }
        var backupRef := BackupRef(env.normalize, text.value, tgt);
        assert backupRef == BackupPlan(env, s, tgt);
        if backupRef.Err? {
          Log(Release);
          return Some(backupRef.error);
        }
        err := ImageCopy(env, tgt, backupRef.value);
        if err.Some? {
          Log(Release);
          assert events == before + [Copy(tgt, backupRef.value), Release];
          return;
        }
        ghost var mid := events;
        err := ImageCopy(env, src, tgt);
        Log(Release);
        assert events == mid + [Copy(src, tgt), Release];
        assert mid == before + [Copy(tgt, backupRef.value)];
        assert [Copy(tgt, backupRef.value)] + [Copy(src, tgt), Release] == [Copy(tgt, backupRef.value), Copy(src, tgt), Release];
      } else {
        err := ImageCopy(env, src, tgt);
        Log(Release);
        assert events == before + [Copy(src, tgt), Release];
      }
    }

    /** `processRef` (cmd/regsync/root.go:321-463). */
    method ProcessRef(env: Env, s: ConfigSync, src: Ref, tgt: Ref, action: string, ghost T: nat, ghost held: Held)
      returns (err: Option<Error>)
      requires Valid() && (action == "check" || (RateEnds(env, s, T) && IsHeld(env, s, src, tgt, T, held)))
      modifies this
      ensures Valid()
      ensures err == ProcessRefWith(env, src, tgt, action, |old(events)|, held).0
      ensures events == old(events) + ProcessRefWith(env, src, tgt, action, |old(events)|, held).1
    {
      ghost var before := events;
      var mSrc := ManifestHead(env, src);
      if mSrc.Err? {
        return Some(mSrc.error);
      }
      var mTgt := ManifestHead(env, tgt);
      assert events == before + [Lookup(src), Lookup(tgt)];
      if mTgt.Ok? && mSrc.value.digest == mTgt.value.digest {
        return None;
      }
      var tgtExists := mTgt.Ok?;
      if action == "check" {
        return None;
      }
      Log(Acquire);
      assert events == before + [Lookup(src), Lookup(tgt), Acquire];
      err := HoldSlot(env, s, src, tgt, tgtExists, mSrc.value.rateSet, T, held);
    }

    /** The rate-limit gate (cmd/regsync/root.go:350-388). */
    method Gate(env: Env, s: ConfigSync, src: Ref, rateSet: bool, ghost T: nat) returns (err: Option<Error>)
      requires Valid() && RateEnds(env, s, T)
      modifies this
      ensures Valid()
      ensures err == GateSpec(env, s, src, rateSet, |old(events)|, T).0
      ensures events == old(events) + GateSpec(env, s, src, rateSet, |old(events)|, T).1
    {
      ghost var t := |events|;
      if s.rateMin > 0 && rateSet {
        var again := ManifestHead(env, src);
        if again.Err? {
          // returns holding the slot: the deferred release is registered only later
          return Some(again.error);
        }
        assert t >= T ==> RatePasses(env.head(src, t), s.rateMin);
        err := WaitRateLimit(env, s, src, again.value, T);
      } else {
        err := None;
      }
    }

    /** `processRef` once its slot is taken (cmd/regsync/root.go:346-463). */
    method HoldSlot(env: Env, s: ConfigSync, src: Ref, tgt: Ref, tgtExists: bool, rateSet: bool,
                    ghost T: nat, ghost held: Held)
      returns (err: Option<Error>)
      requires Valid() && RateEnds(env, s, T) && IsHeld(env, s, src, tgt, T, held)
      modifies this
      ensures Valid()
      ensures err == held(tgtExists, rateSet, |old(events)|).0
      ensures events == old(events) + held(tgtExists, rateSet, |old(events)|).1
    {
      ghost var spec := HeldSpec(env, s, src, tgt, tgtExists, rateSet, BackupPlan(env, s, tgt), |events|, T);
      ghost var g := GateSpec(env, s, src, rateSet, |events|, T);
      err := Gate(env, s, src, rateSet, T);
      if err.Some? {
        return;
      }
      ghost var c := AfterSlot(env, s, src, tgt, tgtExists, BackupPlan(env, s, tgt), |events|);
      err := CopyWithBackup(env, s, src, tgt, tgtExists);
      Assoc(old(events), g.1, c.1);
    }

    /** `processRef` seen through a step function that agrees with it. */
    method Step(env: Env, s: ConfigSync, src: Ref, tgt: Ref, action: string, ghost T: nat, ghost step: Step)
      returns (err: Option<Error>)
      requires Valid() && IsStep(env, s, action, T, step)
      modifies this
      ensures Valid()
      ensures err == step(src, tgt, |old(events)|).0
      ensures events == old(events) + step(src, tgt, |old(events)|).1
    {
      err := ProcessRef(env, s, src, tgt, action, T, HeldAt(env, s, src, tgt, T));
      assert ProcessRefSpec(env, s, src, tgt, action, |old(events)|, T)
          == ProcessRefWith(env, src, tgt, action, |old(events)|, HeldAt(env, s, src, tgt, T));
    }

    /** The loop of a `repository` step over the source's tags
        (cmd/regsync/root.go:280-289): one pair per tag, stopping at the
        first error. */
    method ProcessPairs(env: Env, s: ConfigSync, sRepo: Ref, tRepo: Ref, tags: seq<string>, action: string,
                        ghost T: nat, ghost step: Step)
      returns (err: Option<Error>)
      requires Valid() && IsStep(env, s, action, T, step)
      modifies this
      ensures Valid()
      ensures err == PairsSpec(step, Pairs(sRepo, tRepo, tags), |old(events)|).0
      ensures events == old(events) + PairsSpec(step, Pairs(sRepo, tRepo, tags), |old(events)|).1
    {
      ghost var pairs := Pairs(sRepo, tRepo, tags);
      ghost var spec := PairsSpec(step, pairs, |events|);
      var i := 0;
      while i < |tags|
        invariant 0 <= i <= |tags|
        invariant Valid()
        invariant spec.0 == PairsFrom(step, pairs, i, |events|).0
        invariant old(events) + spec.1 == events + PairsFrom(step, pairs, i, |events|).1
      {
        var sRef := sRepo.(tag := tags[i]);
        var tRef := tRepo.(tag := tags[i]);
        ghost var before := events;
        err := Step(env, s, sRef, tRef, action, T, step);
        PairsNext(step, pairs, i, before, events);
        if err.Some? {
          return;
        }
        i := i + 1;
      }
      err := None;
    }

    /** `process` (cmd/regsync/root.go:251-318). */
    method Process(env: Env, s: ConfigSync, action: string, ghost T: nat, ghost step: Step) returns (err: Option<Error>)
      requires Valid() && IsStep(env, s, action, T, step)
      modifies this
      ensures Valid()
      ensures err == ProcessSpec(env, s, step, |old(events)|).0
      ensures events == old(events) + ProcessSpec(env, s, step, |old(events)|).1
    {
      ghost var t := |events|;
      ghost var before := events;
      if s.kind == "repository" {
        var sRepo := NewRef(s.source, env.normalize);
        if sRepo.Err? {
          return Some(sRepo.error);
        }
        var tags := env.tagList(sRepo.value, |events|);
        Log(ListTags(sRepo.value));
        if tags.Err? {
          return Some(tags.error);
        }
        var tRepo := NewRef(s.target, env.normalize);
        if tRepo.Err? {
          return Some(tRepo.error);
        }
        err := ProcessPairs(env, s, sRepo.value, tRepo.value, tags.value, action, T, step);
        assert events == before + ([ListTags(sRepo.value)]
          + PairsSpec(step, Pairs(sRepo.value, tRepo.value, tags.value), t + 1).1);
      } else if s.kind == "image" {
        var sRef := NewRef(s.source, env.normalize);
        if sRef.Err? {
          return Some(sRef.error);
        }
        var tRef := NewRef(s.target, env.normalize);
        if tRef.Err? {
          return Some(tRef.error);
        }
        err := Step(env, s, sRef.value, tRef.value, action, T, step);
        if err.Some? {
          return;
        }
        err := None;
      } else {
        err := Some(ErrInvalidInput);
      }
    }

    /** `process` in check mode. */
    method Check(env: Env, s: ConfigSync, ghost proc: Proc) returns (err: Option<Error>)
      requires Valid() && IsCheck(env, proc)
      modifies this
      ensures Valid()
      ensures err == proc(s, |old(events)|).0
      ensures events == old(events) + proc(s, |old(events)|).1
    {
      CheckStepIs(env, s);
      err := Process(env, s, "check", 0, CheckStep(env));
    }

    /** `runCheck` (cmd/regsync/root.go:236-248): every step in check mode,
      keeping the first error. */
    method RunCheck(env: Env, syncs: seq<ConfigSync>, ghost proc: Proc) returns (mainErr: Option<Error>)
      requires Valid() && IsCheck(env, proc)
      modifies this
      ensures Valid()
      ensures mainErr == FirstError(CheckAll(proc, syncs, |old(events)|).0)
      ensures events == old(events) + CheckAll(proc, syncs, |old(events)|).1
    {
      ghost var t := |events|;
      mainErr := None;
      for i := 0 to |syncs|
        invariant Valid()
        invariant mainErr == FirstError(CheckFirst(proc, syncs, i, t).0)
        invariant events == old(events) + CheckFirst(proc, syncs, i, t).1
      {
        ghost var done := CheckFirst(proc, syncs, i, t);
        ghost var before := events;
        ghost var last := proc(syncs[i], |before|);
        var err := Check(env, syncs[i], proc);
        assert CheckFirst(proc, syncs, i + 1, t) == (done.0 + [last.0], done.1 + last.1);
        Assoc(old(events), done.1, last.1);
        FirstErrorAppend(done.0, err);
        if err.Some? && mainErr.None? {
          mainErr := err;
        }
      }
    }
  }
}
