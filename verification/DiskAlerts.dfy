/**
 Disk-space alerts with hysteresis (ops/pkgs/syswatch/main.go, worstCrossed and checkDisks). Percentages are
 modelled as reals; what a poll reads from the kernel is a parameter.
 */
module DiskAlerts {
  import opened Common

  // ---------- one mount ----------

  /** What a threshold list from the command line looks like: percents, the most severe one last. */
  ghost predicate Thresholds(ts: seq<real>) {
    && ts != []
    && (forall k :: 0 <= k < |ts| ==> 0.0 < ts[k] < 100.0)
    && Descending(ts)
  }

  predicate Usable(part: Option<real>) {
    part.Some? && 0.0 < part.value < 100.0
  }

  function Values(parts: seq<Option<real>>): (r: seq<real>)
    ensures |r| == |parts|
  {
    seq(|parts|, k requires 0 <= k < |parts| => if parts[k].Some? then parts[k].value else 0.0)
  }

  ghost predicate Descending(s: seq<real>) {
    forall j, k :: 0 <= j < k < |s| ==> s[j] >= s[k]
  }

  /** `v` at its place in a descending list. */
  function InsertDown(s: seq<real>, v: real): (r: seq<real>)
    requires Descending(s)
    ensures Descending(r) && multiset(r) == multiset(s) + multiset{v}
  {
    if s == [] || s[|s| - 1] >= v then s + [v]
    else
      var last := s[|s| - 1];
      assert s == s[..|s| - 1] + [last];
      assert forall k :: 0 <= k < |s| ==> s[k] in multiset(s[..|s| - 1]) || s[k] == last;
      InsertAbove(s[..|s| - 1], v, InsertDown(s[..|s| - 1], v), last);
      InsertDown(s[..|s| - 1], v) + [last]
  }

  lemma InsertAbove(s: seq<real>, v: real, r: seq<real>, last: real)
    requires multiset(r) == multiset(s) + multiset{v} && v > last
    requires forall k :: 0 <= k < |s| ==> s[k] >= last
    ensures forall k :: 0 <= k < |r| ==> r[k] >= last
  {
    forall k | 0 <= k < |r| ensures r[k] >= last {
      assert r[k] in multiset(r);
      assert r[k] == v || r[k] in multiset(s);
      if r[k] != v {
        assert r[k] in s;
      }
    }
  }

  /** The parts as parsed, None for one that is no number. A part out of range refuses the whole list. */
  method ParseThresholds(parts: seq<Option<real>>) returns (r: Option<seq<real>>)
    requires parts != []
    ensures r.Some? <==> forall k :: 0 <= k < |parts| ==> Usable(parts[k])
    ensures r.Some? ==> Thresholds(r.value) && multiset(r.value) == multiset(Values(parts))
  {
    var out: seq<real> := [];
    for i := 0 to |parts|
      invariant forall k :: 0 <= k < i ==> Usable(parts[k])
      invariant out == Values(parts)[..i]
    {
      if parts[i].None? || parts[i].value <= 0.0 || parts[i].value >= 100.0 {
        return None;
      }
      out := out + [parts[i].value];
    }
    assert out == Values(parts);
    var sorted: seq<real> := [];
    for i := 0 to |out|
      invariant Descending(sorted) && multiset(sorted) == multiset(out[..i]) && |sorted| == i
    {
      assert out[..i + 1] == out[..i] + [out[i]];
      sorted := InsertDown(sorted, out[i]);
      assert |sorted| == |multiset(sorted)|;
    }
    assert out[..|out|] == out;
    forall k | 0 <= k < |sorted| ensures 0.0 < sorted[k] < 100.0 {
      assert sorted[k] in multiset(sorted);
      assert sorted[k] in out;
    }
    r := Some(sorted);
  }

  /** `w` is the smallest threshold above `pct`, or 0 when there is none. */
  ghost predicate IsWorst(pct: real, ts: seq<real>, w: real) {
    && (forall t :: t in ts && pct < t ==> w != 0.0 && w <= t)
    && (w != 0.0 ==> w in ts && pct < w)
  }

  function Worst(pct: real, ts: seq<real>): real {
    if ts == [] then 0.0
    else
      var w, t := Worst(pct, ts[..|ts| - 1]), ts[|ts| - 1];
      if pct < t && (w == 0.0 || t < w) then t else w
  }

  method WorstCrossed(pct: real, ts: seq<real>) returns (worst: real)
    ensures worst == Worst(pct, ts)
  {
    worst := 0.0;
    for k := 0 to |ts|
      invariant worst == Worst(pct, ts[..k])
    {
      var t := ts[k];
      assert ts[..k + 1][..k] == ts[..k];
      if pct < t && (worst == 0.0 || t < worst) {
        worst := t;
      }
    }
    assert ts[..|ts|] == ts;
  }

  lemma {:induction false} WorstMeaning(pct: real, ts: seq<real>)
    requires forall k :: 0 <= k < |ts| ==> ts[k] > 0.0
    ensures IsWorst(pct, ts, Worst(pct, ts))
  {
    if ts != [] {
      var rest, last := ts[..|ts| - 1], ts[|ts| - 1];
      assert ts == rest + [last];
      WorstMeaning(pct, rest);
      var w := Worst(pct, rest);
      assert last in ts && (w in rest ==> w in ts);
    }
  }

  datatype Level = Warn | Crit

  datatype Outcome = Quiet | Alert(level: Level, threshold: real) | Recovery

  /** One sample of a mount armed at `prev`: the new armed value and what is posted. */
  function Step(prev: real, pct: real, ts: seq<real>): (real, Outcome)
    requires ts != []
  {
    var cur := Worst(pct, ts);
    if cur != 0.0 && (prev == 0.0 || cur < prev) then
      (cur, Alert(if cur == ts[|ts| - 1] then Crit else Warn, cur))
    else if prev != 0.0 && pct >= prev + 1.0 then
      (cur, Recovery)
    else
      (prev, Quiet)
  }

  /**
   The messages say exactly how the armed value moves: an alert when it turns to a more severe
   threshold, critical for the smallest one; a recovery when it turns to a milder one or to none;
   and silence when it stays. The value before may be of an earlier threshold list.
   */
  lemma StepMeaning(prev: real, pct: real, ts: seq<real>)
    requires Thresholds(ts)
    ensures var (v, outcome) := Step(prev, pct, ts);
      && (outcome.Alert? <==> v != 0.0 && (prev == 0.0 || v < prev))
      && (outcome.Alert? ==> outcome.threshold == v && (outcome.level == Crit <==> forall t :: t in ts ==> v <= t))
      && (outcome.Recovery? <==> prev != 0.0 && (v == 0.0 || v > prev))
      && (outcome.Quiet? <==> v == prev)
      && (outcome.Alert? <==> exists t :: t in ts && pct < t && (prev == 0.0 || t < prev))
      && (outcome.Recovery? <==> !outcome.Alert? && prev != 0.0 && pct >= prev + 1.0)
      && (outcome != Quiet ==> IsWorst(pct, ts, v))
  {
    WorstMeaning(pct, ts);
    var v, last := Step(prev, pct, ts).0, ts[|ts| - 1];
    assert last in ts && forall t :: t in ts ==> last <= t;
  }

  function Armed(start: real, samples: seq<real>, ts: seq<real>): real
    requires ts != []
  {
    if samples == [] then start
    else Step(Armed(start, samples[..|samples| - 1], ts), samples[|samples| - 1], ts).0
  }

  /** What sample `i` of the run makes of the mount. */
  function OutcomeAt(start: real, samples: seq<real>, ts: seq<real>, i: nat): Outcome
    requires ts != [] && i < |samples|
  {
    Step(Armed(start, samples[..i], ts), samples[i], ts).1
  }

  lemma ArmedNext(start: real, samples: seq<real>, ts: seq<real>, i: nat)
    requires ts != [] && i < |samples|
    ensures Armed(start, samples[..i + 1], ts) == Step(Armed(start, samples[..i], ts), samples[i], ts).0
  {
    assert samples[..i + 1][..i] == samples[..i];
  }

  ghost predicate CouldBeArmed(v: real, ts: seq<real>) {
    v == 0.0 || v in ts
  }

  /**
   What the armed value says after any run of samples: a threshold, or what the state file had at
   first; at least as severe as every threshold now crossed, and 0 only when none is; while armed
   the last sample is not a point above it.
   */
  lemma {:induction false} ArmedMeaning(start: real, samples: seq<real>, ts: seq<real>)
    requires Thresholds(ts) && start >= 0.0
    ensures var v := Armed(start, samples, ts);
      && v >= 0.0 && (v == start || CouldBeArmed(v, ts))
      && (samples != [] ==>
            var pct := samples[|samples| - 1];
            && (forall t :: t in ts && pct < t ==> 0.0 < v <= t)
            && (v != 0.0 ==> pct < v + 1.0))
  {
    if samples != [] {
      ArmedMeaning(start, samples[..|samples| - 1], ts);
      WorstMeaning(samples[|samples| - 1], ts);
    }
  }

  ghost predicate NoRecoveryBetween(start: real, samples: seq<real>, ts: seq<real>, i: nat, j: nat)
    requires ts != [] && j <= |samples|
  {
    forall k: nat :: i < k < j ==> OutcomeAt(start, samples, ts, k) != Recovery
  }

  lemma {:induction false} ArmedFalls(start: real, samples: seq<real>, ts: seq<real>, i: nat, j: nat)
    requires Thresholds(ts) && i < j <= |samples| && OutcomeAt(start, samples, ts, i).Alert?
    requires NoRecoveryBetween(start, samples, ts, i, j)
    ensures 0.0 != Armed(start, samples[..j], ts) <= OutcomeAt(start, samples, ts, i).threshold
  {
    ArmedNext(start, samples, ts, j - 1);
    if i < j - 1 {
      ArmedFalls(start, samples, ts, i, j - 1);
      assert OutcomeAt(start, samples, ts, j - 1) != Recovery;
    }
  }

  /** Between recoveries, each alert is for a more severe threshold than the ones before. */
  lemma AlertsFall(start: real, samples: seq<real>, ts: seq<real>, i: nat, j: nat)
    requires Thresholds(ts) && i < j < |samples|
    requires OutcomeAt(start, samples, ts, i).Alert? && OutcomeAt(start, samples, ts, j).Alert?
    requires NoRecoveryBetween(start, samples, ts, i, j)
    ensures OutcomeAt(start, samples, ts, j).threshold < OutcomeAt(start, samples, ts, i).threshold
  {
    ArmedFalls(start, samples, ts, i, j);
  }

  /** All samples lie in the half-open band of width `w` from `a`. */
  ghost predicate InBand(samples: seq<real>, a: real, w: real) {
    forall k :: 0 <= k < |samples| ==> a <= samples[k] < a + w
  }

  /** Whatever is armed by a sample of the band lies above the band's lower end. */
  lemma {:induction false} ArmedAbove(start: real, samples: seq<real>, ts: seq<real>, a: real, w: real, i: nat, j: nat)
    requires Thresholds(ts) && InBand(samples, a, w) && i < j <= |samples|
    requires OutcomeAt(start, samples, ts, i) != Quiet
    ensures Armed(start, samples[..j], ts) == 0.0 || Armed(start, samples[..j], ts) > a
  {
    ArmedNext(start, samples, ts, j - 1);
    WorstMeaning(samples[j - 1], ts);
    if i < j - 1 {
      ArmedAbove(start, samples, ts, a, w, i, j - 1);
    }
  }

  /**
   Samples that stay in a band at most one point wide cannot make a mount flap: a recovery comes
   before everything else that is posted, so there is one at most, and no threshold alerts twice.
   */
  lemma NoFlapping(start: real, samples: seq<real>, ts: seq<real>, a: real, w: real, i: nat, j: nat)
    requires Thresholds(ts) && InBand(samples, a, w) && w <= 1.0 && i < j < |samples|
    requires OutcomeAt(start, samples, ts, i) != Quiet
    ensures OutcomeAt(start, samples, ts, j) != Recovery
    ensures OutcomeAt(start, samples, ts, i).Alert? && OutcomeAt(start, samples, ts, j).Alert? ==>
              OutcomeAt(start, samples, ts, j).threshold < OutcomeAt(start, samples, ts, i).threshold
  {
    forall k: nat | i < k <= j ensures OutcomeAt(start, samples, ts, k) != Recovery {
      ArmedAbove(start, samples, ts, a, w, i, k);
    }
    if OutcomeAt(start, samples, ts, i).Alert? && OutcomeAt(start, samples, ts, j).Alert? {
      AlertsFall(start, samples, ts, i, j);
    }
  }

  /** In any wider band it can: here alerts and recoveries take turns. */
  lemma WiderBandFlaps(t: real, e: real) returns (samples: seq<real>)
    requires 0.0 < t < 100.0 && e > 0.0
    ensures Thresholds([t]) && |samples| == 4 && InBand(samples, t - e / 2.0, 1.0 + e)
    ensures OutcomeAt(0.0, samples, [t], 0).Alert? && OutcomeAt(0.0, samples, [t], 1).Recovery?
    ensures OutcomeAt(0.0, samples, [t], 2).Alert? && OutcomeAt(0.0, samples, [t], 3).Recovery?
  {
    var low, high := t - e / 2.0, t + 1.0;
    samples := [low, high, low, high];
    var ts := [t];
    assert ts[..0] == [];
    assert Worst(low, ts[..0]) == 0.0 && Worst(high, ts[..0]) == 0.0;
    assert Worst(low, ts) == t && Worst(high, ts) == 0.0;
    assert samples[..0] == [];
    ArmedNext(0.0, samples, ts, 0);
    ArmedNext(0.0, samples, ts, 1);
    ArmedNext(0.0, samples, ts, 2);
  }

  // ---------- a poll of all mounts ----------

  /** A mount and the percentage free on it, None when it could not be read. */
  datatype Mount = Mount(point: string, pct: Option<real>)

  datatype Post = Post(point: string, outcome: Outcome)

  /** A missing entry reads as 0. */
  function Prev(disks: map<string, real>, point: string): real {
    if point in disks then disks[point] else 0.0
  }

  function Sampled(disks: map<string, real>, posts: seq<Post>, m: Mount, ts: seq<real>): (map<string, real>, seq<Post>)
    requires ts != []
  {
    if m.pct.None? then (disks, posts)
    else
      var (v, outcome) := Step(Prev(disks, m.point), m.pct.value, ts);
      if outcome == Quiet then (disks, posts)
      else (disks[m.point := v], posts + [Post(m.point, outcome)])
  }

  function SampledAll(disks: map<string, real>, mounts: seq<Mount>, ts: seq<real>): (map<string, real>, seq<Post>)
    requires ts != []
  {
    if mounts == [] then (disks, [])
    else
      var (d, p) := SampledAll(disks, mounts[..|mounts| - 1], ts);
      Sampled(d, p, mounts[|mounts| - 1], ts)
  }

  function Points(mounts: seq<Mount>): set<string> {
    set m | m in mounts :: m.point
  }

  function Kept(disks: map<string, real>, mounts: seq<Mount>): map<string, real> {
    map point | point in disks && point in Points(mounts) :: disks[point]
  }

  class Watcher {
    var disks: map<string, real>

    /** With the table of the state file. */
    constructor (stored: map<string, real>)
      ensures disks == stored
    {
      disks := stored;
    }

    method CheckDisks(mounts: seq<Mount>, ts: seq<real>) returns (posts: seq<Post>)
      requires ts != []
      modifies this
      ensures disks == Kept(SampledAll(old(disks), mounts, ts).0, mounts)
      ensures posts == SampledAll(old(disks), mounts, ts).1
    {
      posts := [];
      for i := 0 to |mounts|
        invariant (disks, posts) == SampledAll(old(disks), mounts[..i], ts)
      {
        var m := mounts[i];
        assert mounts[..i + 1][..i] == mounts[..i];
        if m.pct.None? {
          continue;
        }
        var pct := m.pct.value;
        var prev := if m.point in disks then disks[m.point] else 0.0;
        var cur := WorstCrossed(pct, ts);
        if cur != 0.0 && (prev == 0.0 || cur < prev) {
          var level := Warn;
          if cur == ts[|ts| - 1] {
            level := Crit;
          }
          posts := posts + [Post(m.point, Alert(level, cur))];
          disks := disks[m.point := cur];
        } else if prev != 0.0 && pct >= prev + 1.0 {
          posts := posts + [Post(m.point, Recovery)];
          var worst := WorstCrossed(pct, ts);
          disks := disks[m.point := worst];
        }
      }
      assert mounts[..|mounts|] == mounts;
      ghost var sampled := disks;
      var valid: set<string> := {};
      for i := 0 to |mounts|
        invariant valid == Points(mounts[..i])
      {
        assert mounts[..i + 1] == mounts[..i] + [mounts[i]];
        valid := valid + {mounts[i].point};
      }
      var rest := disks.Keys;
      while rest != {}
        invariant rest <= sampled.Keys
        invariant disks == map point | point in sampled && (point in valid || point in rest) :: sampled[point]
        decreases rest
      {
        var point :| point in rest;
        rest := rest - {point};
        if point !in valid {
          disks := disks - {point};
        }
      }
    }
  }

  /** The samples of one mount in a poll, in order. */
  function SamplesOf(mounts: seq<Mount>, point: string): seq<real> {
    if mounts == [] then []
    else
      var m := mounts[|mounts| - 1];
      SamplesOf(mounts[..|mounts| - 1], point) + if m.point == point && m.pct.Some? then [m.pct.value] else []
  }

  function PostsOf(posts: seq<Post>, point: string): seq<Outcome> {
    if posts == [] then []
    else
      var p := posts[|posts| - 1];
      PostsOf(posts[..|posts| - 1], point) + if p.point == point then [p.outcome] else []
  }

  /** What a run of samples posts: its outcomes but the quiet ones. */
  function Loud(start: real, samples: seq<real>, ts: seq<real>): seq<Outcome>
    requires ts != []
  {
    if samples == [] then []
    else
      var n := |samples| - 1;
      var o := Step(Armed(start, samples[..n], ts), samples[n], ts).1;
      Loud(start, samples[..n], ts) + if o == Quiet then [] else [o]
  }

  /** In one poll each mount is treated as by its own samples alone, whatever the others do. */
  lemma {:induction false} MountsApart(disks: map<string, real>, mounts: seq<Mount>, ts: seq<real>, point: string)
    requires ts != []
    ensures Prev(SampledAll(disks, mounts, ts).0, point) == Armed(Prev(disks, point), SamplesOf(mounts, point), ts)
    ensures PostsOf(SampledAll(disks, mounts, ts).1, point) == Loud(Prev(disks, point), SamplesOf(mounts, point), ts)
  {
    if mounts != [] {
      var rest, m := mounts[..|mounts| - 1], mounts[|mounts| - 1];
      MountsApart(disks, rest, ts, point);
      var samples := SamplesOf(rest, point);
      var (d, p) := SampledAll(disks, rest, ts);
      assert samples + [] == samples;
      SampledMeaning(d, p, m, ts, point);
      if m.point == point && m.pct.Some? {
        assert (samples + [m.pct.value])[..|samples|] == samples;
      }
    }
  }

  lemma SampledMeaning(disks: map<string, real>, posts: seq<Post>, m: Mount, ts: seq<real>, point: string)
    requires ts != []
    ensures var (d, p) := Sampled(disks, posts, m, ts);
      if m.point == point && m.pct.Some? then
        var (v, outcome) := Step(Prev(disks, point), m.pct.value, ts);
        && Prev(d, point) == v
        && PostsOf(p, point) == PostsOf(posts, point) + if outcome == Quiet then [] else [outcome]
      else
        Prev(d, point) == Prev(disks, point) && PostsOf(p, point) == PostsOf(posts, point)
  {
    var (d, p) := Sampled(disks, posts, m, ts);
    if p != posts {
      assert p[..|p| - 1] == posts;
    }
  }

  /** The table after some polls, from what the state file held. */
  function Polled(stored: map<string, real>, polls: seq<seq<Mount>>, ts: seq<real>): map<string, real>
    requires ts != []
  {
    if polls == [] then stored
    else
      var last := polls[|polls| - 1];
      Kept(SampledAll(Polled(stored, polls[..|polls| - 1], ts), last, ts).0, last)
  }

  /** Every poll has listed the mount. */
  predicate NeverMissed(polls: seq<seq<Mount>>, point: string) {
    polls == [] || (point in Points(polls[|polls| - 1]) && NeverMissed(polls[..|polls| - 1], point))
  }

  /** The samples of a mount since a poll last missed it. */
  function History(polls: seq<seq<Mount>>, point: string): seq<real> {
    if polls == [] then []
    else
      var last := polls[|polls| - 1];
      if point !in Points(last) then [] else History(polls[..|polls| - 1], point) + SamplesOf(last, point)
  }

  lemma {:induction false} ArmedConcat(start: real, a: seq<real>, b: seq<real>, ts: seq<real>)
    requires ts != []
    ensures Armed(start, a + b, ts) == Armed(Armed(start, a, ts), b, ts)
  {
    if b == [] {
      assert a + b == a;
    } else {
      ArmedConcat(start, a, b[..|b| - 1], ts);
      assert (a + b)[..|a + b| - 1] == a + b[..|b| - 1];
    }
  }

  /**
   Over whatever polls, each mount is armed as by its own samples since it was last missing, starting unarmed;
   or since the start, from what the state file held for it.
   */
  lemma {:induction false} PollsAreRuns(stored: map<string, real>, polls: seq<seq<Mount>>, ts: seq<real>, point: string)
    requires ts != []
    ensures Prev(Polled(stored, polls, ts), point) ==
            Armed(if NeverMissed(polls, point) then Prev(stored, point) else 0.0, History(polls, point), ts)
  {
    if polls != [] {
      var rest, last := polls[..|polls| - 1], polls[|polls| - 1];
      var before := Polled(stored, rest, ts);
      var start := if NeverMissed(rest, point) then Prev(stored, point) else 0.0;
      PollsAreRuns(stored, rest, ts, point);
      MountsApart(before, last, ts, point);
      ArmedConcat(start, History(rest, point), SamplesOf(last, point), ts);
      if point in Points(last) {
        assert Prev(Polled(stored, polls, ts), point) == Prev(SampledAll(before, last, ts).0, point);
      }
    }
  }
}
