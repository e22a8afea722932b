/**
 Eviction of old flows in the intercepting proxy (users/hanemile/projects/go/hitm/main.go,
 evictOldFlows and its two insertion sites). Ids are drawn from one counter; a request draws its
 id first and enters the flow map later, so insertions may overtake each other.
 */
module FlowEviction {
  import opened Common

  const MAX_FLOWS: nat := 10000

  /** The body of a flow does not matter for eviction. */
  datatype Flow = Flow(id: nat, request: string)

  // ---------- one eviction, as a function of the live ids ----------

  ghost predicate IsLeast(s: set<nat>, n: nat) {
    n in s && forall m :: m in s ==> n <= m
  }

  lemma {:induction false} LeastExists(s: set<nat>) returns (n: nat)
    requires s != {}
    ensures IsLeast(s, n)
    decreases |s|
  {
    var x :| x in s;
    n := x;
    if s != {x} {
      assert s - {x} != {};
      var m := LeastExists(s - {x});
      n := if m < x then m else x;
      assert forall k :: k in s ==> k == x || k in s - {x};
    }
  }

  ghost function Least(s: set<nat>): (n: nat)
    requires s != {}
    ensures IsLeast(s, n)
  {
    assert exists n: nat :: IsLeast(s, n) by {
      var n := LeastExists(s);
    }
    var n: nat :| IsLeast(s, n);
    n
  }

  ghost function From(live: set<nat>, cursor: nat): set<nat> {
    set m | m in live && m >= cursor
  }

  /** What is evicted: the least live id not below the cursor, or the least of all if there is none. */
  ghost function Victim(live: set<nat>, cursor: nat): nat
    requires live != {}
  {
    if From(live, cursor) != {} then Least(From(live, cursor)) else Least(live)
  }

  /** The turns of the eviction loop: to the victim, or past the last id handed out, but one at least. */
  ghost function Turns(live: set<nat>, cursor: nat, counter: nat): nat
    requires live != {}
  {
    if From(live, cursor) != {} then Victim(live, cursor) + 1 - cursor
    else if cursor > counter then 1
    else counter + 1 - cursor
  }

  // ---------- whole runs ----------

  /** Draw hands out the next id; Insert puts a flow in and evicts. Any insertions may be pending. */
  datatype Event = Draw | Insert(id: nat)

  /**
   `inserted` remembers every id ever put in, `iterations` the turns of the eviction loop and
   `scans` the full scans, over the run so far.
   */
  datatype State = State(counter: nat, inserted: set<nat>, live: set<nat>, cursor: nat, iterations: nat, scans: nat)

  const START: State := State(0, {}, {}, 0, 0, 0)

  ghost predicate Possible(s: State, e: Event) {
    e.Insert? ==> 1 <= e.id <= s.counter && e.id !in s.inserted
  }

  ghost function Step(s: State, e: Event, max: nat): State {
    match e
    case Draw => s.(counter := s.counter + 1)
    case Insert(id) =>
      var live := s.live + {id};
      var t := s.(inserted := s.inserted + {id}, live := live);
      if |live| <= max then t
      else
        var n := Victim(live, s.cursor);
        var behind := From(live, s.cursor) == {};
        t.(live := live - {n}, cursor := n + 1,
           iterations := s.iterations + Turns(live, s.cursor, s.counter),
           scans := s.scans + if behind then 1 else 0)
  }

  ghost function Run(events: seq<Event>, max: nat): State {
    if events == [] then START else Step(Run(events[..|events| - 1], max), events[|events| - 1], max)
  }

  ghost predicate PossibleRun(events: seq<Event>, max: nat) {
    events == [] ||
    (PossibleRun(events[..|events| - 1], max) && Possible(Run(events[..|events| - 1], max), events[|events| - 1]))
  }

  // ---------- the listener ----------

  class Listener {
    var flows: map<nat, Flow>
    var nextEvictID: nat

    constructor ()
      ensures flows == map[] && nextEvictID == 0
    {
      flows, nextEvictID := map[], 0;
    }

    /** The full scan that re-anchors the cursor. */
    method MinID() returns (minID: nat)
      requires flows != map[]
      ensures IsLeast(flows.Keys, minID)
    {
      var rest := flows.Keys;
      minID :| minID in rest;
      rest := rest - {minID};
      while rest != {}
        invariant rest <= flows.Keys && minID in flows
        invariant forall m :: m in flows && m !in rest ==> minID <= m
        decreases rest
      {
        var id :| id in rest;
        rest := rest - {id};
        if id < minID {
          minID := id;
        }
      }
    }

    /**
     evictOldFlows, `counter` being the ids handed out so far. `iterations` counts the turns of
     its loop and `scanned` says whether the full scan ran.
     */
    method EvictOldFlows(counter: nat) returns (iterations: nat, scanned: bool)
      requires forall id :: id in flows ==> id <= counter
      modifies this
      ensures |old(flows)| <= MAX_FLOWS ==>
        flows == old(flows) && nextEvictID == old(nextEvictID) && iterations == 0 && !scanned
      ensures |old(flows)| > MAX_FLOWS ==>
        && old(flows) != map[]
        && var n := Victim(old(flows).Keys, old(nextEvictID));
           && n in old(flows) && flows == old(flows) - {n} && nextEvictID == n + 1
           && iterations == Turns(old(flows).Keys, old(nextEvictID), counter)
      ensures scanned <==> |old(flows)| > MAX_FLOWS && From(old(flows).Keys, old(nextEvictID)) == {}
    {
      iterations, scanned := 0, false;
      if |flows| <= MAX_FLOWS {
        return;
      }
      while true
        invariant flows == old(flows) && !scanned
        invariant nextEvictID == old(nextEvictID) + iterations
        invariant forall id :: id in flows && id >= old(nextEvictID) ==> id >= nextEvictID
        invariant nextEvictID <= counter || iterations == 0
        decreases counter + 1 - nextEvictID
      {
        iterations := iterations + 1;
        if nextEvictID in flows {
          assert nextEvictID in From(flows.Keys, old(nextEvictID));
          flows := flows - {nextEvictID};
          nextEvictID := nextEvictID + 1;
          return;
        }
        nextEvictID := nextEvictID + 1;
        if nextEvictID > counter {
          scanned := true;
          var minID := MinID();
          flows := flows - {minID};
          nextEvictID := minID + 1;
          return;
        }
      }
    }

    /** What both request handlers do under FlowMutex with an id drawn before. */
    method InsertFlow(fl: Flow, counter: nat) returns (ghost iterations: nat, ghost scanned: bool)
      requires fl.id <= counter && forall id :: id in flows ==> id <= counter
      modifies this
      ensures forall s: State :: s.live == old(flows).Keys && s.cursor == old(nextEvictID) && s.counter == counter ==>
                var t := Step(s, Insert(fl.id), MAX_FLOWS);
                && t.live == flows.Keys && t.cursor == nextEvictID
                && t.iterations == s.iterations + iterations && t.scans == s.scans + if scanned then 1 else 0
      ensures fl.id in flows ==> flows[fl.id] == fl
      ensures forall id :: id in flows && id != fl.id ==> id in old(flows) && flows[id] == old(flows)[id]
    {
      flows := flows[fl.id := fl];
      ghost var live := flows.Keys;
      assert live == old(flows).Keys + {fl.id};
      var turns, scan := EvictOldFlows(counter);
      iterations, scanned := turns, scan;
      assert |live| > MAX_FLOWS ==> flows.Keys == live - {Victim(live, old(nextEvictID))};
    }
  }

  /** Whatever the interleaving, no more than `max` flows stay, all of them drawn and inserted. */
  lemma {:induction false} NeverTooMany(events: seq<Event>, max: nat)
    requires PossibleRun(events, max)
    ensures var s := Run(events, max);
            |s.live| <= max && s.live <= s.inserted && forall id :: id in s.inserted ==> 1 <= id <= s.counter
  {
    if events != [] {
      NeverTooMany(events[..|events| - 1], max);
    }
  }

  /** The first live id from the cursor on; if all are behind it, the oldest. */
  lemma VictimMeaning(live: set<nat>, cursor: nat)
    requires live != {}
    ensures var n := Victim(live, cursor);
      && n in live
      && (if exists m :: m in live && m >= cursor then n >= cursor && forall m :: m in live && m >= cursor ==> n <= m
          else forall m :: m in live ==> n <= m)
  {
    var n := Victim(live, cursor);
    assert forall m :: m in live && m >= cursor ==> m in From(live, cursor);
    if From(live, cursor) != {} {
      assert n in From(live, cursor);
    }
  }

  /** The cursor picks the least live id exactly when the live ids all lie on one side of it. */
  lemma VictimIsLeastIff(live: set<nat>, cursor: nat)
    requires live != {}
    ensures Victim(live, cursor) == Least(live) <==> From(live, cursor) == live || From(live, cursor) == {}
  {
    if From(live, cursor) != {} && From(live, cursor) != live {
      var m :| m in live && m !in From(live, cursor);
      assert m < cursor <= Victim(live, cursor);
    }
  }

  // ---------- bounded overtaking ----------

  /** At most `max` larger ids went in before this one. */
  ghost predicate OvertakenAtMost(s: State, e: Event, max: nat) {
    e.Insert? ==> |From(s.inserted, e.id + 1)| <= max
  }

  ghost predicate BoundedRun(events: seq<Event>, max: nat) {
    events == [] ||
    (BoundedRun(events[..|events| - 1], max)
     && Possible(Run(events[..|events| - 1], max), events[|events| - 1])
     && OvertakenAtMost(Run(events[..|events| - 1], max), events[|events| - 1], max))
  }

  /** `live` are the `max` largest of `inserted`, or all when there are fewer. */
  ghost predicate Newest(live: set<nat>, inserted: set<nat>, max: nat) {
    && live <= inserted
    && |live| == (if |inserted| <= max then |inserted| else max)
    && forall a, b :: a in inserted && a !in live && b in live ==> a < b
  }

  /** The last victim and everything it was least of had been inserted. */
  ghost predicate CursorBehind(s: State, max: nat) {
    && (forall id :: id in s.live ==> id >= s.cursor)
    && (forall id :: id in s.inserted ==> 1 <= id <= s.counter)
    && (s.cursor > 0 ==> s.cursor - 1 in s.inserted && |From(s.inserted, s.cursor - 1)| > max)
    && s.iterations == s.cursor && s.scans == 0
    && Newest(s.live, s.inserted, max)
  }

  lemma SubsetCard(a: set<nat>, b: set<nat>)
    requires a <= b
    ensures |a| <= |b|
  {
    SubsetFull(a, b);
  }

  /** An id that was overtaken by at most `max` others is not behind the cursor. */
  lemma NotBehind(s: State, id: nat, max: nat)
    requires CursorBehind(s, max) && id !in s.inserted && |From(s.inserted, id + 1)| <= max
    ensures id >= s.cursor
  {
    if id < s.cursor {
      SubsetCard(From(s.inserted, s.cursor - 1), From(s.inserted, id + 1));
      assert false;
    }
  }

  lemma NewestStep(live: set<nat>, inserted: set<nat>, id: nat, max: nat)
    requires Newest(live, inserted, max) && id !in inserted
    ensures |live + {id}| <= max ==> Newest(live + {id}, inserted + {id}, max)
    ensures |live + {id}| > max ==> Newest(live + {id} - {Least(live + {id})}, inserted + {id}, max)
  {
    SubsetFull(live, inserted);
    var more := live + {id};
    if |more| > max {
      var v := Least(more);
      forall a, b | a in inserted + {id} && a !in more - {v} && b in more - {v} ensures a < b {
        assert a != v && b == id ==> forall m :: m in live ==> a < m;
      }
    }
  }

  /** An insertion that was not overtaken too often evicts the least live id. */
  lemma BoundedVictim(s: State, id: nat, max: nat)
    requires CursorBehind(s, max) && Possible(s, Insert(id)) && OvertakenAtMost(s, Insert(id), max)
    ensures From(s.live + {id}, s.cursor) == s.live + {id}
    ensures Victim(s.live + {id}, s.cursor) == Least(s.live + {id})
  {
    NotBehind(s, id, max);
    VictimIsLeastIff(s.live + {id}, s.cursor);
  }

  lemma StepBehind(s: State, e: Event, max: nat)
    requires CursorBehind(s, max) && Possible(s, e) && OvertakenAtMost(s, e, max)
    ensures CursorBehind(Step(s, e, max), max)
  {
    if e.Insert? {
      var more, inserted := s.live + {e.id}, s.inserted + {e.id};
      BoundedVictim(s, e.id, max);
      NewestStep(s.live, s.inserted, e.id, max);
      if |more| > max {
        SubsetCard(more, From(inserted, Least(more)));
      } else if s.cursor > 0 {
        SubsetCard(From(s.inserted, s.cursor - 1), From(inserted, s.cursor - 1));
      }
    }
  }

  /** The cursor never gets ahead of the ids handed out. */
  lemma CursorWithin(s: State, max: nat)
    requires max >= 1 && CursorBehind(s, max)
    ensures s.cursor <= s.counter
  {
    if s.cursor > 0 {
      var ahead := From(s.inserted, s.cursor - 1);
      if forall id :: id in ahead ==> id == s.cursor - 1 {
        SubsetCard(ahead, {s.cursor - 1});
        assert false;
      }
    }
  }

  /**
   If no id is ever overtaken by more than `max` larger ones, the cursor is as good as a search
   for the minimum: what stays are the `max` largest ids inserted, the full scan never runs, and
   the loop turns over the whole run at most once for each id handed out.
   */
  lemma {:induction false} CursorIsMinScan(events: seq<Event>, max: nat)
    requires max >= 1 && BoundedRun(events, max)
    ensures var s := Run(events, max);
            CursorBehind(s, max) && Newest(s.live, s.inserted, max) && s.scans == 0 && s.iterations <= s.counter
  {
    if events != [] {
      CursorIsMinScan(events[..|events| - 1], max);
      StepBehind(Run(events[..|events| - 1], max), events[|events| - 1], max);
    }
    CursorWithin(Run(events, max), max);
  }

  // ---------- the bound is sharp ----------

  ghost function Upto(from: nat, n: nat): (r: set<nat>)
    ensures |r| == n && forall id: nat :: id in r <==> from <= id < from + n
  {
    if n == 0 then {} else Upto(from, n - 1) + {from + n - 1}
  }

  /** `max + 2` ids are drawn and all but the first inserted, in order. */
  ghost function Overtaking(max: nat, n: nat): seq<Event> {
    if n == 0 then seq(max + 2, _ => Draw) else Overtaking(max, n - 1) + [Insert(n + 1)]
  }

  lemma {:induction false} DrawsOnly(n: nat, max: nat)
    ensures PossibleRun(seq(n, _ => Draw), max) && Run(seq(n, _ => Draw), max) == START.(counter := n)
  {
    if n > 0 {
      DrawsOnly(n - 1, max);
      assert seq(n, _ => Draw)[..n - 1] == seq(n - 1, _ => Draw);
    }
  }

  lemma {:induction false} OvertakingRun(max: nat, n: nat)
    requires n <= max
    ensures PossibleRun(Overtaking(max, n), max)
    ensures Run(Overtaking(max, n), max) == State(max + 2, Upto(2, n), Upto(2, n), 0, 0, 0)
  {
    if n == 0 {
      DrawsOnly(max + 2, max);
    } else {
      OvertakingRun(max, n - 1);
      OvertakingStep(max, n);
      var events := Overtaking(max, n);
      assert events[..|events| - 1] == Overtaking(max, n - 1) && events[|events| - 1] == Insert(n + 1);
    }
  }

  lemma OvertakingStep(max: nat, n: nat)
    requires 1 <= n <= max
    ensures var s := State(max + 2, Upto(2, n - 1), Upto(2, n - 1), 0, 0, 0);
      Possible(s, Insert(n + 1)) && Step(s, Insert(n + 1), max) == State(max + 2, Upto(2, n), Upto(2, n), 0, 0, 0)
  {
  }

  /** Overtaken by `max + 1` larger ids, the smallest live id is passed over for a larger one. */
  lemma OvertakenTooOften(max: nat) returns (events: seq<Event>)
    requires max >= 1
    ensures PossibleRun(events, max)
    ensures var s := Run(events, max);
            && Possible(s, Insert(1)) && |From(s.inserted, 2)| == max + 1
            && |s.live + {1}| > max && Victim(s.live + {1}, s.cursor) == 3 != Least(s.live + {1})
  {
    events := Overtaking(max, max + 1);
    OvertakingLast(max, events, Upto(2, max + 1));
    PassedOver(max, Upto(2, max + 1), Upto(2, max + 1) - {2});
  }

  lemma OvertakingLast(max: nat, events: seq<Event>, all: set<nat>)
    requires max >= 1 && events == Overtaking(max, max + 1) && all == Upto(2, max + 1)
    ensures PossibleRun(events, max)
    ensures var s := Run(events, max);
            s.counter == max + 2 && s.inserted == all && s.live == all - {2} && s.cursor == 3
  {
    OvertakingRun(max, max);
    assert events[..|events| - 1] == Overtaking(max, max);
    FirstGoes(max, all);
  }

  /** The last of them goes in, and the smallest of them out. */
  lemma FirstGoes(max: nat, all: set<nat>)
    requires max >= 1 && all == Upto(2, max + 1)
    ensures Upto(2, max) + {max + 2} == all && |all| == max + 1 && 2 in all
    ensures Victim(all, 0) == 2
  {
    assert From(all, 0) == all;
  }

  lemma PassedOver(max: nat, all: set<nat>, live: set<nat>)
    requires max >= 1 && all == Upto(2, max + 1) && live == all - {2}
    ensures From(all, 2) == all && |live + {1}| == max + 1
    ensures Victim(live + {1}, 3) == 3 && Least(live + {1}) == 1
  {
    assert 2 in all && 1 !in live;
    assert 3 in From(live + {1}, 3);
    assert 1 in live + {1};
  }
}
