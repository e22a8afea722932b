/**
 The single-flight cache of the status board (tools/status-board/main.go, refresh and cachedOrRefresh): any number of
 goroutines, two locks, and four package variables read and written one at a time. What a collect round finds and
 whether a cached one is fresh enough are up to the environment.
 */
module FleetCache {
  import opened Common
  import Fleet

  // ---------- values ----------

  /** A value and the collect round it comes from; round 0 is the zero value of an unprimed cache. */
  datatype Stamped<T> = Stamped(round: nat, value: T)

  /** The four values a caller gets. What the storage box and the pools look like does not matter. */
  datatype Quad = Quad(
    vms: Stamped<seq<Fleet.VMStat>>, sb: Stamped<string>, zp: Stamped<string>, fleet: Stamped<Fleet.Overview>)

  const UNPRIMED: Quad := Quad(Stamped(0, []), Stamped(0, ""), Stamped(0, ""), Stamped(0, Fleet.ZERO))

  /** What a collect round finds. */
  datatype Found = Found(vms: seq<Fleet.VMStat>, sb: string, zp: string)

  /** All four values from one round: what it found, with the overview of its VMs; round 0 has the zero values. */
  predicate Coherent(found: nat -> Found, q: Quad) {
    && q.sb.round == q.zp.round == q.fleet.round == q.vms.round
    && Found(q.vms.value, q.sb.value, q.zp.value) == (if Round(q) == 0 then Found([], "", "") else found(Round(q)))
    && q.fleet.value == Fleet.Of(q.vms.value)
  }

  function Round(q: Quad): nat {
    q.vms.round
  }

  /** `to` with its value number `k` taken from `from`. */
  function Take(to: Quad, from: Quad, k: nat): Quad {
    match k
    case 0 => to.(vms := from.vms)
    case 1 => to.(sb := from.sb)
    case 2 => to.(zp := from.zp)
    case _ => to.(fleet := from.fleet)
  }

  /** `to` with its first `k` values taken from `from`. */
  function Mix(to: Quad, from: Quad, k: nat): Quad {
    if k == 0 then to else Take(Mix(to, from, k - 1), from, k - 1)
  }

  lemma MixAll(to: Quad, from: Quad)
    ensures Mix(to, from, 4) == from
  {
    assert Mix(to, from, 2) == Take(Take(to, from, 0), from, 1) by {
      assert Mix(to, from, 1) == Take(to, from, 0);
    }
    assert Mix(to, from, 3) == Take(Mix(to, from, 2), from, 2);
  }

  // ---------- the machine ----------

  /**
   Where a goroutine is. Reading and Writing hold the cache lock, for reading or writing, with `k` of the four
   variables done; a goroutine that is Draining has announced that it will write, which keeps new readers out, and
   waits for the readers inside to leave. From Collecting to Unlocking the collect lock is held. `inside` says that
   the reading is that of refresh; `base` is what the cache held when the writing began.
   */
  datatype PC =
    | Idle
    | WantRead(inside: bool)
    | Reading(inside: bool, recent: bool, k: nat, got: Quad)
    | WantCollect
    | Collecting(round: nat)
    | WantWrite(q: Quad)
    | Draining(q: Quad)
    | Writing(q: Quad, k: nat, base: Quad)
    | Unlocking(q: Quad)
    | Done(q: Quad)

  /**
   `floor` is the round that was published when the call began; `excused` says that the call has found the cache recent
   enough or a collect round running.
   */
  datatype Thread = Thread(pc: PC, floor: nat, excused: bool)

  /**
   `writer` is the goroutine that is Draining or Writing. `rounds` counts the collect rounds begun; `published` is
   the last one whose writing is over. `found` is what each round finds, which never changes.
   */
  datatype State = State(
    found: nat -> Found, cache: Quad, primed: bool, rounds: nat, published: nat,
    collector: Option<nat>, writer: Option<nat>, readers: set<nat>, threads: seq<Thread>)

  /** What the environment chooses: a call of refresh itself or not, and freshness. */
  datatype Choice = Choice(direct: bool, recent: bool)

  function At(s: State, t: nat, pc: PC): seq<Thread>
    requires t < |s.threads|
  {
    s.threads[t := s.threads[t].(pc := pc)]
  }

  function Excuse(s: State, t: nat, pc: PC, excused: bool): seq<Thread>
    requires t < |s.threads|
  {
    s.threads[t := s.threads[t].(pc := pc, excused := excused || s.threads[t].excused)]
  }

  /** One step of goroutine `t`; None when it has to wait. */
  function Step(s: State, t: nat, c: Choice): Option<State>
    requires t < |s.threads|
  {
    match s.threads[t].pc
    case Idle =>
      Some(s.(threads := s.threads[t := Thread(if c.direct then WantCollect else WantRead(false), s.published, false)]))
    case WantRead(inside) =>
      if s.writer.Some? then None
      else Some(s.(readers := s.readers + {t},
                   threads := Excuse(s, t, Reading(inside, c.recent && s.primed, 0, UNPRIMED), c.recent && s.primed)))
    case Reading(inside, recent, k, got) =>
      if k < 4 then Some(s.(threads := At(s, t, Reading(inside, recent, k + 1, Take(got, s.cache, k)))))
      else Some(s.(readers := s.readers - {t},
                   threads := At(s, t, if inside || recent then Done(got) else WantCollect)))
    case WantCollect =>
      if s.collector.Some? then Some(s.(threads := Excuse(s, t, WantRead(true), true)))
      else Some(s.(collector := Some(t), rounds := s.rounds + 1, threads := At(s, t, Collecting(s.rounds + 1))))
    case Collecting(r) =>
      var f := s.found(r);
      var q := Quad(Stamped(r, f.vms), Stamped(r, f.sb), Stamped(r, f.zp), Stamped(r, Fleet.Of(f.vms)));
      Some(s.(threads := At(s, t, WantWrite(q))))
    case WantWrite(q) =>
      if s.writer.Some? then None
      else Some(s.(writer := Some(t), threads := At(s, t, Draining(q))))
    case Draining(q) =>
      if s.readers != {} then None
      else Some(s.(threads := At(s, t, Writing(q, 0, s.cache))))
    case Writing(q, k, base) =>
      if k < 4 then Some(s.(cache := Take(s.cache, q, k), threads := At(s, t, Writing(q, k + 1, base))))
      else Some(s.(writer := None, primed := true, published := Round(q), threads := At(s, t, Unlocking(q))))
    case Unlocking(q) =>
      Some(s.(collector := None, threads := At(s, t, Done(q))))
    case Done(q) =>
      Some(s.(threads := At(s, t, Idle)))
  }

  function Init(n: nat, found: nat -> Found): State {
    State(found, UNPRIMED, false, 0, 0, None, None, {}, seq(n, _ => Thread(Idle, 0, false)))
  }

  // ---------- the invariant ----------

  predicate HoldsCollect(pc: PC) {
    pc.Collecting? || pc.WantWrite? || pc.Draining? || pc.Writing? || pc.Unlocking?
  }

  ghost predicate Locks(s: State) {
    && (forall t: nat :: t < |s.threads| ==> LocksOf(s, t))
    && (s.writer.Some? ==> s.writer.value < |s.threads|)
    && (CopyingIn(s) ==> s.readers == {})
    && (s.collector.Some? ==> s.collector.value < |s.threads|)
    && (forall t :: t in s.readers ==> t < |s.threads|)
  }

  /** The cache is being overwritten. */
  predicate CopyingIn(s: State) {
    s.writer.Some? && s.writer.value < |s.threads| && s.threads[s.writer.value].pc.Writing?
  }

  /** A goroutine has a lock exactly when it is where the lock is held. */
  ghost predicate LocksOf(s: State, t: nat)
    requires t < |s.threads|
  {
    var pc := s.threads[t].pc;
    && (s.collector == Some(t) <==> HoldsCollect(pc))
    && (s.writer == Some(t) <==> pc.Draining? || pc.Writing?)
    && (t in s.readers <==> pc.Reading?)
  }

  ghost predicate CacheOk(s: State) {
    && s.published <= s.rounds
    && (!CopyingIn(s) ==> Coherent(s.found, s.cache) && Round(s.cache) == s.published)
    && (s.collector.None? ==> s.published == s.rounds)
    && (s.primed <==> s.published > 0)
  }

  ghost predicate ThreadOk(s: State, t: nat)
    requires t < |s.threads|
  {
    && s.threads[t].floor <= s.published
    && (HoldsCollect(s.threads[t].pc) || s.threads[t].pc.WantCollect? ==> !s.threads[t].excused)
    && match s.threads[t].pc
       case WantRead(inside) => s.threads[t].excused <==> inside
       case Reading(inside, recent, k, got) =>
         k <= 4 && got == Mix(UNPRIMED, s.cache, k) && (s.threads[t].excused <==> inside || recent)
       case Collecting(r) => r == s.rounds > s.published
       case WantWrite(q) => Coherent(s.found, q) && Round(q) == s.rounds > s.published
       case Draining(q) => Coherent(s.found, q) && Round(q) == s.rounds > s.published
       case Writing(q, k, base) =>
         && k <= 4 && Coherent(s.found, q) && Round(q) == s.rounds > s.published
         && Coherent(s.found, base) && Round(base) == s.published && s.cache == Mix(base, q, k)
       case Unlocking(q) => Coherent(s.found, q) && s.threads[t].floor < Round(q) == s.rounds == s.published
       case Done(q) =>
         && Coherent(s.found, q) && s.threads[t].floor <= Round(q) <= s.published
         && (s.threads[t].excused || s.threads[t].floor < Round(q))
       case _ => true
  }

  ghost predicate Inv(s: State) {
    Locks(s) && CacheOk(s) && forall t: nat :: t < |s.threads| ==> ThreadOk(s, t)
  }

  /** What a step of `t` may change without harm to the others. */
  ghost predicate Harmless(s: State, s': State, t: nat)
    requires t < |s.threads|
  {
    && |s'.threads| == |s.threads| && s'.found == s.found
    && (forall u: nat :: u < |s.threads| && u != t ==> s'.threads[u] == s.threads[u])
    && (s'.cache == s.cache || (s.writer == Some(t) && s.threads[t].pc.Writing?))
    && s.published <= s'.published
    && ((s'.rounds == s.rounds && s'.published == s.published) || s.collector == None || s.collector == Some(t))
  }

  lemma OtherKept(s: State, s': State, t: nat, u: nat)
    requires Inv(s) && t < |s.threads| && Harmless(s, s', t) && u < |s.threads| && u != t
    ensures ThreadOk(s', u)
  {
    assert ThreadOk(s, u) && LocksOf(s, u);
  }

  lemma OthersKept(s: State, s': State, t: nat)
    requires Inv(s) && t < |s.threads| && Harmless(s, s', t) && ThreadOk(s', t) && Locks(s') && CacheOk(s')
    ensures Inv(s')
  {
    forall u: nat | u < |s'.threads| ensures ThreadOk(s', u) {
      if u != t {
        OtherKept(s, s', t, u);
      }
    }
  }

  /** Taking and releasing locks keeps the locks right, as long as the others' are not touched. */
  lemma LocksKept(s: State, s': State, t: nat)
    requires Locks(s) && t < |s.threads| && |s'.threads| == |s.threads| && LocksOf(s', t)
    requires forall u: nat :: u < |s.threads| && u != t ==> s'.threads[u] == s.threads[u]
    requires s'.collector == s.collector || (s.collector == None && s'.collector == Some(t))
             || (s.collector == Some(t) && s'.collector == None)
    requires s'.writer == s.writer || (s.writer == None && s'.writer == Some(t))
             || (s.writer == Some(t) && s'.writer == None)
    requires s'.readers == s.readers || s'.readers == s.readers + {t} || s'.readers == s.readers - {t}
    requires CopyingIn(s') ==> s'.readers == {}
    ensures Locks(s')
  {
    forall u: nat | u < |s'.threads| ensures LocksOf(s', u) {
      if u != t {
        assert LocksOf(s, u);
      }
    }
  }

  /** What a step owes: the locks, the cache and its own goroutine in order, and no harm to the others. */
  ghost predicate Owed(s: State, s': State, t: nat)
    requires t < |s.threads|
  {
    Harmless(s, s', t) && Locks(s') && ThreadOk(s', t) && CacheOk(s')
  }

  lemma CallStep(s: State, t: nat, c: Choice)
    requires Inv(s) && t < |s.threads| && Step(s, t, c).Some?
    requires s.threads[t].pc.Idle? || s.threads[t].pc.Done?
    ensures Owed(s, Step(s, t, c).value, t)
  {
    assert LocksOf(s, t) && ThreadOk(s, t);
    LocksKept(s, Step(s, t, c).value, t);
  }

  lemma ReadLockStep(s: State, t: nat, c: Choice)
    requires Inv(s) && t < |s.threads| && Step(s, t, c).Some? && s.threads[t].pc.WantRead?
    ensures Owed(s, Step(s, t, c).value, t)
  {
    assert LocksOf(s, t) && ThreadOk(s, t);
    LocksKept(s, Step(s, t, c).value, t);
  }

  lemma TryLockStep(s: State, t: nat, c: Choice)
    requires Inv(s) && t < |s.threads| && Step(s, t, c).Some? && s.threads[t].pc.WantCollect?
    ensures Owed(s, Step(s, t, c).value, t)
  {
    assert LocksOf(s, t) && ThreadOk(s, t);
    LocksKept(s, Step(s, t, c).value, t);
  }

  lemma ReaderStep(s: State, t: nat, c: Choice)
    requires Inv(s) && t < |s.threads| && Step(s, t, c).Some? && s.threads[t].pc.Reading?
    ensures Owed(s, Step(s, t, c).value, t)
  {
    assert LocksOf(s, t) && ThreadOk(s, t);
    MixAll(UNPRIMED, s.cache);
    LocksKept(s, Step(s, t, c).value, t);
  }

  lemma CollectorStep(s: State, t: nat, c: Choice)
    requires Inv(s) && t < |s.threads| && Step(s, t, c).Some?
    requires HoldsCollect(s.threads[t].pc) && !s.threads[t].pc.Writing?
    ensures Owed(s, Step(s, t, c).value, t)
  {
    assert LocksOf(s, t) && ThreadOk(s, t);
    LocksKept(s, Step(s, t, c).value, t);
  }

  lemma WriterStep(s: State, t: nat, c: Choice)
    requires Inv(s) && t < |s.threads| && Step(s, t, c).Some? && s.threads[t].pc.Writing?
    ensures Owed(s, Step(s, t, c).value, t)
  {
    assert LocksOf(s, t) && ThreadOk(s, t);
    MixAll(s.threads[t].pc.base, s.threads[t].pc.q);
    LocksKept(s, Step(s, t, c).value, t);
  }

  lemma StepKeeps(s: State, t: nat, c: Choice)
    requires Inv(s) && t < |s.threads| && Step(s, t, c).Some?
    ensures Inv(Step(s, t, c).value)
    ensures s.published <= Step(s, t, c).value.published
  {
    match s.threads[t].pc {
      case Idle => CallStep(s, t, c);
      case Done(_) => CallStep(s, t, c);
      case WantRead(_) => ReadLockStep(s, t, c);
      case Reading(_, _, _, _) => ReaderStep(s, t, c);
      case WantCollect => TryLockStep(s, t, c);
      case Writing(_, _, _) => WriterStep(s, t, c);
      case _ => CollectorStep(s, t, c);
    }
    OthersKept(s, Step(s, t, c).value, t);
  }

  // ---------- runs ----------

  /** A run: goroutines taking steps in any order, waiting when they have to. */
  function Run(n: nat, found: nat -> Found, steps: seq<(nat, Choice)>): (s: State)
    ensures |s.threads| == n && s.found == found
  {
    if steps == [] then Init(n, found)
    else
      var s := Run(n, found, steps[..|steps| - 1]);
      var (t, c) := steps[|steps| - 1];
      if t < n && Step(s, t, c).Some? then Step(s, t, c).value else s
  }

  lemma {:induction false} AlwaysInv(n: nat, found: nat -> Found, steps: seq<(nat, Choice)>)
    ensures Inv(Run(n, found, steps))
  {
    if steps == [] {
      Fleet.OfNothing();
      forall t: nat | t < n ensures LocksOf(Init(n, found), t) && ThreadOk(Init(n, found), t) {
      }
    } else {
      var s := Run(n, found, steps[..|steps| - 1]);
      var (t, c) := steps[|steps| - 1];
      AlwaysInv(n, found, steps[..|steps| - 1]);
      if t < n && Step(s, t, c).Some? {
        StepKeeps(s, t, c);
      }
    }
  }

  /** At most one goroutine is in a collect round, and while one writes the cache nobody reads it. */
  lemma OneCollector(n: nat, found: nat -> Found, steps: seq<(nat, Choice)>, t: nat, u: nat)
    requires t < n && u < n && t != u && HoldsCollect(Run(n, found, steps).threads[t].pc)
    ensures !HoldsCollect(Run(n, found, steps).threads[u].pc)
    ensures Run(n, found, steps).threads[t].pc.Writing? ==> !Run(n, found, steps).threads[u].pc.Reading?
  {
    AlwaysInv(n, found, steps);
    assert LocksOf(Run(n, found, steps), t) && LocksOf(Run(n, found, steps), u);
  }

  /** Every caller gets four values of one round, never older than what was published when it called. */
  lemma CallerGets(n: nat, found: nat -> Found, steps: seq<(nat, Choice)>, t: nat)
    requires t < n && Run(n, found, steps).threads[t].pc.Done?
    ensures var s := Run(n, found, steps); var q := s.threads[t].pc.q;
      && q.sb.round == q.zp.round == q.fleet.round == Round(q)
      && q.fleet.value == Fleet.Of(q.vms.value)
      && (Round(q) == 0 ==> q == UNPRIMED)
      && (Round(q) > 0 ==> Found(q.vms.value, q.sb.value, q.zp.value) == found(Round(q)))
      && s.threads[t].floor <= Round(q) <= s.published
  {
    AlwaysInv(n, found, steps);
    assert ThreadOk(Run(n, found, steps), t);
  }

  /**
   A caller is content with what was published when it called, or with nothing at all, only if it found the cache recent
   enough or a collect round running; any other gets a newer round.
   */
  lemma StaleCollects(n: nat, found: nat -> Found, steps: seq<(nat, Choice)>, t: nat)
    requires t < n && Run(n, found, steps).threads[t].pc.Done? && !Run(n, found, steps).threads[t].excused
    ensures var s := Run(n, found, steps); Round(s.threads[t].pc.q) > s.threads[t].floor
  {
    AlwaysInv(n, found, steps);
    assert ThreadOk(Run(n, found, steps), t);
  }

  /** And nobody collects who is excused; the cache is primed once a round is published. */
  lemma ExcusedNeverCollects(n: nat, found: nat -> Found, steps: seq<(nat, Choice)>, t: nat)
    requires t < n && HoldsCollect(Run(n, found, steps).threads[t].pc)
    ensures !Run(n, found, steps).threads[t].excused
    ensures Run(n, found, steps).primed <==> Run(n, found, steps).published > 0
  {
    AlwaysInv(n, found, steps);
    assert ThreadOk(Run(n, found, steps), t);
  }

  /** About to ask for a collect round: a call of refresh that begins, or a reader that found the cache stale. */
  predicate Asks(pc: PC, c: Choice) {
    (pc.Idle? && c.direct) || (pc.Reading? && pc.k >= 4 && !pc.inside && !pc.recent)
  }

  /** Such a caller begins a round by its next two steps, unless somebody is in one; then it reads the cache. */
  lemma AskedCollects(s: State, t: nat, c: Choice, d: Choice)
    requires t < |s.threads| && Asks(s.threads[t].pc, c)
    ensures Step(s, t, c).Some? && Step(Step(s, t, c).value, t, d).Some?
    ensures var s' := Step(Step(s, t, c).value, t, d).value;
      if s.collector.Some? then s'.threads[t].pc == WantRead(true) && s'.rounds == s.rounds
      else s'.threads[t].pc == Collecting(s.rounds + 1) && s'.rounds == s.rounds + 1 && s'.collector == Some(t)
  {
  }

  /** Excused is who was told so in this call: by a primed cache that is recent enough, or by a round being run. */
  lemma ExcusedIff(s: State, t: nat, c: Choice)
    requires t < |s.threads| && Step(s, t, c).Some?
    ensures var pc := s.threads[t].pc;
      Step(s, t, c).value.threads[t].excused <==>
        || (s.threads[t].excused && !pc.Idle?)
        || (pc.WantRead? && c.recent && s.primed)
        || (pc.WantCollect? && s.collector.Some?)
  {
  }

  /** Published rounds never go backwards. */
  lemma {:induction false} PublishedGrows(n: nat, found: nat -> Found, steps: seq<(nat, Choice)>, m: nat)
    requires m <= |steps|
    ensures Run(n, found, steps[..m]).published <= Run(n, found, steps).published
  {
    if m == |steps| {
      assert steps[..m] == steps;
    } else {
      var rest := steps[..|steps| - 1];
      var (t, c) := steps[|steps| - 1];
      PublishedGrows(n, found, rest, m);
      assert rest[..m] == steps[..m];
      AlwaysInv(n, found, rest);
      if t < n && Step(Run(n, found, rest), t, c).Some? {
        StepKeeps(Run(n, found, rest), t, c);
      }
    }
  }

  /**
   So a call that begins after another one has returned never gets older values: at step `m` one goroutine has its
   result, and at that step or later the other one begins.
   */
  lemma NeverOlder(n: nat, found: nat -> Found, steps: seq<(nat, Choice)>, m: nat, t: nat, u: nat,
                   c: Choice, later: seq<(nat, Choice)>)
    requires m <= |steps| && t < n && u < n
    requires Run(n, found, steps[..m]).threads[t].pc.Done? && Run(n, found, steps).threads[u].pc.Idle?
    requires var s := Run(n, found, steps + [(u, c)] + later);
             s.threads[u].pc.Done? && s.threads[u].floor == Run(n, found, steps + [(u, c)]).threads[u].floor
    ensures Round(Run(n, found, steps[..m]).threads[t].pc.q)
         <= Round(Run(n, found, steps + [(u, c)] + later).threads[u].pc.q)
  {
    CallerGets(n, found, steps[..m], t);
    PublishedGrows(n, found, steps, m);
    CallerGets(n, found, steps + [(u, c)] + later, u);
    assert (steps + [(u, c)])[..|steps|] == steps;
  }

  /** Busy with the four variables: about to write them, writing them or reading them. */
  predicate AtCache(pc: PC) {
    pc.Draining? || pc.Writing? || pc.Reading?
  }

  /** A goroutine waits only while another is busy with the four variables and can go on; never for a collect round. */
  lemma WaitsOnlyFor(n: nat, found: nat -> Found, steps: seq<(nat, Choice)>, t: nat, c: Choice)
    requires t < n && Step(Run(n, found, steps), t, c).None?
    ensures var s := Run(n, found, steps);
      exists u: nat :: u < n && u != t && AtCache(s.threads[u].pc) && Step(s, u, c).Some?
  {
    AlwaysInv(n, found, steps);
    var s := Run(n, found, steps);
    assert LocksOf(s, t);
    if s.readers != {} {
      var u := PickOne(s.readers);
      assert LocksOf(s, u);
      assert AtCache(s.threads[u].pc) && Step(s, u, c).Some?;
    } else {
      var u := s.writer.value;
      assert LocksOf(s, u);
      assert AtCache(s.threads[u].pc) && Step(s, u, c).Some?;
    }
  }
}
