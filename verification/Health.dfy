/** Health states of the proxies, driven by periodic probes. */
module Health {
  const MAX_U32 := 0xffff_ffff

  type u32 = n: nat | n <= MAX_U32

  datatype State = State(healthy: bool, consecutiveFailures: u32)

  /** `State::new`. */
  const FRESH := State(true, 0)
  /** `#[derive(Default)]`. */
  const DEFAULT := State(false, 0)

  /** One configured proxy; `kind` is empty when it has no health check. */
  datatype Proxy = Proxy(name: string, kind: string, maxFailed: u32)

  /** The threshold the probe task of a proxy uses. */
  function Threshold(p: Proxy): (m: u32)
    ensures m == if p.maxFailed == 0 then 1 else p.maxFailed
  {
    if p.maxFailed < 1 then 1 else p.maxFailed
  }

  datatype Probe = Probe(name: string, ok: bool, maxFailed: u32)

  function Recorded(st: State, ok: bool, maxFailed: u32): State {
    if ok then State(true, 0)
    else
      var failures := if st.consecutiveFailures == MAX_U32 then MAX_U32 else st.consecutiveFailures + 1;
      State(st.healthy && failures < maxFailed, failures)
  }

  function Lookup(states: map<string, State>, name: string): State {
    if name in states then states[name] else DEFAULT
  }

  function Healthy(states: map<string, State>, name: string): bool {
    name in states ==> states[name].healthy
  }

  function Apply(states: map<string, State>, p: Probe): map<string, State> {
    states[p.name := Recorded(Lookup(states, p.name), p.ok, p.maxFailed)]
  }

  function After(states: map<string, State>, history: seq<Probe>): map<string, State> {
    if history == [] then states
    else Apply(After(states, history[..|history| - 1]), history[|history| - 1])
  }

  predicate Checked(proxies: seq<Proxy>, name: string) {
    exists i | 0 <= i < |proxies| :: proxies[i].name == name && proxies[i].kind != ""
  }

  class Monitor {
    var states: map<string, State>

    /** `Monitor::start`, the tasks it spawns apart. */
    constructor (proxies: seq<Proxy>)
      ensures forall name :: name in states <==> Checked(proxies, name)
      ensures forall name | name in states :: states[name] == FRESH
    {
      states := map[];
      new;
      for i := 0 to |proxies|
        invariant forall name :: name in states <==> Checked(proxies[..i], name)
        invariant forall name | name in states :: states[name] == FRESH
      {
        CheckedStep(proxies, i);
        if proxies[i].kind == "" {
          continue;
        }
        states := states[proxies[i].name := FRESH];
      }
      assert proxies[..|proxies|] == proxies;
    }

    method IsHealthy(name: string) returns (r: bool)
      ensures r == Healthy(states, name)
    {
      r := true;
      if name in states {
        r := states[name].healthy;
      }
    }

    method Record(name: string, ok: bool, maxFailed: u32)
      modifies this
      ensures states == Apply(old(states), Probe(name, ok, maxFailed))
    {
      var st := if name in states then states[name] else DEFAULT;
      if ok {
        st := State(true, 0);
      } else {
        var n: nat := st.consecutiveFailures;
        if n < MAX_U32 {
          n := n + 1;
        }
        st := st.(consecutiveFailures := n);
        if st.consecutiveFailures >= maxFailed {
          st := st.(healthy := false);
        }
      }
      states := states[name := st];
    }
  }

  lemma CheckedStep(proxies: seq<Proxy>, i: nat)
    requires i < |proxies|
    ensures forall name :: Checked(proxies[..i + 1], name)
              <==> Checked(proxies[..i], name) || (proxies[i].name == name && proxies[i].kind != "")
  {
    forall name
      ensures Checked(proxies[..i + 1], name)
              <==> Checked(proxies[..i], name) || (proxies[i].name == name && proxies[i].kind != "")
    {
      var longer := proxies[..i + 1];
      if Checked(proxies[..i], name) {
        var j :| 0 <= j < i && proxies[..i][j].name == name && proxies[..i][j].kind != "";
        assert longer[j] == proxies[j];
      }
      if proxies[i].name == name && proxies[i].kind != "" {
        assert longer[i] == proxies[i];
      }
      if Checked(longer, name) {
        var j :| 0 <= j < i + 1 && longer[j].name == name && longer[j].kind != "";
        assert j < i ==> proxies[..i][j] == longer[j];
      }
    }
  }

  // ----- Whole histories -----

  /** How many probes of `name` have failed since the last that succeeded. */
  function TrailingFailures(history: seq<Probe>, name: string): nat {
    if history == [] then 0
    else
      var p := history[|history| - 1];
      var before := history[..|history| - 1];
      if p.name != name then TrailingFailures(before, name)
      else if p.ok then 0
      else TrailingFailures(before, name) + 1
  }

  ghost predicate EverProbed(history: seq<Probe>, name: string) {
    exists i | 0 <= i < |history| :: history[i].name == name
  }

  ghost predicate EverSucceeded(history: seq<Probe>, name: string) {
    exists i | 0 <= i < |history| :: history[i].name == name && history[i].ok
  }

  /** Every probe of `name` uses the same threshold. */
  predicate Constant(history: seq<Probe>, name: string, maxFailed: u32) {
    forall i | 0 <= i < |history| :: history[i].name == name ==> history[i].maxFailed == maxFailed
  }

  function Min(a: nat, b: nat): nat {
    if a < b then a else b
  }

  /** The failure at `i` is not followed by a success, and with it the failures since the last success reach
      the threshold of its own probe. */
  predicate Reaches(history: seq<Probe>, name: string, i: nat) {
    && i < |history| && history[i].name == name && !history[i].ok
    && (forall j | i < j < |history| && history[j].name == name :: !history[j].ok)
    && TrailingFailures(history[..i + 1], name) >= history[i].maxFailed
  }

  predicate Reached(history: seq<Probe>, name: string) {
    exists i | 0 <= i < |history| :: Reaches(history, name, i)
  }

  lemma ReachedStep(history: seq<Probe>, p: Probe, name: string)
    ensures var all := history + [p];
            Reached(all, name) <==>
            if p.name != name then Reached(history, name)
            else !p.ok && (Reached(history, name) || TrailingFailures(all, name) >= p.maxFailed)
  {
    hide TrailingFailures;
    var all := history + [p];
    assert all[|history|] == p && all[..|history| + 1] == all;
    assert forall i | 0 <= i < |history| :: all[i] == history[i] && all[..i + 1] == history[..i + 1];
    assert forall i: nat | i < |history| && Reaches(all, name, i) :: Reaches(history, name, i);
    if p.name != name || !p.ok {
      assert forall i: nat | i < |history| && Reaches(history, name, i) :: Reaches(all, name, i);
    }
    assert Reaches(all, name, |history|) <==> p.name == name && !p.ok && TrailingFailures(all, name) >= p.maxFailed;
  }

  /** Every history, several thresholds under one name included: a seeded name is healthy exactly when no
      failure since its last success has reached the threshold of its own probe. */
  lemma {:induction false} SeededHealthByProbes(states: map<string, State>, history: seq<Probe>, name: string)
    requires name in states && states[name] == FRESH
    ensures Healthy(After(states, history), name) <==> !Reached(history, name)
    ensures name in After(states, history)
    ensures After(states, history)[name].consecutiveFailures == Min(TrailingFailures(history, name), MAX_U32)
  {
    hide Reached;
    if history == [] {
      NothingReached(name);
    } else {
      var before, last := history[..|history| - 1], history[|history| - 1];
      assert before + [last] == history;
      SeededHealthByProbes(states, before, name);
      ReachedStep(before, last, name);
    }
  }

  lemma NothingReached(name: string)
    ensures !Reached([], name)
  {
  }

  /** With one threshold for the name, as in a configuration that names each proxy once: a checked proxy, which
      `Monitor::start` has seeded, is healthy exactly while its trailing failures stay below its threshold,
      whatever is probed in between; the saturating counter never makes a difference. */
  lemma {:induction false} SeededHealth(states: map<string, State>, history: seq<Probe>, p: Proxy)
    requires p.name in states && states[p.name] == FRESH
    requires Constant(history, p.name, Threshold(p))
    ensures Healthy(After(states, history), p.name) <==> TrailingFailures(history, p.name) < Threshold(p)
    ensures p.name in After(states, history)
    ensures After(states, history)[p.name].consecutiveFailures == Min(TrailingFailures(history, p.name), MAX_U32)
  {
    if history != [] {
      SeededHealth(states, history[..|history| - 1], p);
    }
  }

  lemma EverStep(history: seq<Probe>, p: Probe, name: string)
    ensures EverProbed(history + [p], name) <==> EverProbed(history, name) || p.name == name
    ensures EverSucceeded(history + [p], name) <==> EverSucceeded(history, name) || (p.name == name && p.ok)
  {
    var all := history + [p];
    assert all[|history|] == p;
    assert forall i | 0 <= i < |history| :: all[i] == history[i];
  }

  /** Why `start` seeds: without the seed a proxy would start unhealthy at its first probe. It would be healthy
      exactly when it was never probed, or has succeeded at least once and its trailing failures are below
      the threshold. */
  lemma {:induction false} UnseededHealth(states: map<string, State>, history: seq<Probe>, p: Proxy)
    requires p.name !in states && Constant(history, p.name, Threshold(p))
    ensures Healthy(After(states, history), p.name)
            <==> !EverProbed(history, p.name)
                 || (EverSucceeded(history, p.name) && TrailingFailures(history, p.name) < Threshold(p))
    ensures p.name in After(states, history) <==> EverProbed(history, p.name)
    ensures p.name in After(states, history)
            ==> After(states, history)[p.name].consecutiveFailures
                == Min(TrailingFailures(history, p.name), MAX_U32)
  {
    if history != [] {
      var before := history[..|history| - 1];
      var last := history[|history| - 1];
      UnseededHealth(states, before, p);
      if !EverProbed(before, p.name) {
        NeverProbed(before, p.name);
      }
      EverStep(before, last, p.name);
      assert before + [last] == history;
    }
  }

  /** So the seed matters exactly at the start: a proxy that has been probed but has not succeeded yet and
      has not failed often enough is served with the seed and would be refused without it. */
  lemma SeedMatters(with: map<string, State>, without: map<string, State>, history: seq<Probe>, p: Proxy)
    requires p.name in with && with[p.name] == FRESH && p.name !in without
    requires Constant(history, p.name, Threshold(p))
    ensures Healthy(After(with, history), p.name) != Healthy(After(without, history), p.name)
            <==> EverProbed(history, p.name) && !EverSucceeded(history, p.name)
                 && TrailingFailures(history, p.name) < Threshold(p)
  {
    SeededHealth(with, history, p);
    UnseededHealth(without, history, p);
    if !EverProbed(history, p.name) {
      NeverProbed(history, p.name);
    }
  }

  lemma {:induction false} NeverProbed(history: seq<Probe>, name: string)
    requires !EverProbed(history, name)
    ensures TrailingFailures(history, name) == 0
  {
    if history != [] {
      var before := history[..|history| - 1];
      EverStep(before, history[|history| - 1], name);
      assert before + [history[|history| - 1]] == history;
      NeverProbed(before, name);
    }
  }

  // ----- The trailing failures, counted -----

  /** How many of these probes are of `name`. */
  function CountOf(history: seq<Probe>, name: string): nat {
    |ProbesOf(history, name)|
  }

  function ProbesOf(history: seq<Probe>, name: string): set<nat> {
    set i: nat | i < |history| && history[i].name == name
  }

  lemma CountStep(history: seq<Probe>, p: Probe, name: string)
    ensures CountOf(history + [p], name) == CountOf(history, name) + if p.name == name then 1 else 0
  {
    var all, n := history + [p], |history|;
    forall i: nat
      ensures i in ProbesOf(all, name) <==> i in ProbesOf(history, name) || (i == n && p.name == name)
    {
      assert i < n ==> all[i] == history[i];
    }
    assert n !in ProbesOf(history, name);
    hide ProbesOf;
    if p.name == name {
      assert ProbesOf(all, name) == ProbesOf(history, name) + {n};
    } else {
      assert ProbesOf(all, name) == ProbesOf(history, name);
    }
  }

  /** All the probes of `name` have failed. */
  predicate OnlyFailures(history: seq<Probe>, name: string) {
    forall i | 0 <= i < |history| :: history[i].name == name ==> !history[i].ok
  }

  /** What counts towards the threshold: the probes of this proxy since its last success, or since the
      start when it has had none, those of other proxies aside. */
  lemma {:induction false} TrailingExactly(before: seq<Probe>, success: Probe, since: seq<Probe>, name: string)
    requires OnlyFailures(since, name)
    ensures TrailingFailures(since, name) == CountOf(since, name)
    ensures success.name == name && success.ok ==>
              TrailingFailures(before + [success] + since, name) == CountOf(since, name)
    decreases |since|
  {
    var all := before + [success] + since;
    if since == [] {
      assert all == before + [success] && all[..|before|] == before;
      NoneCounted(since, name);
    } else {
      var n := |since| - 1;
      TrailingExactly(before, success, since[..n], name);
      CountStep(since[..n], since[n], name);
      assert since == since[..n] + [since[n]];
      assert all[..|all| - 1] == before + [success] + since[..n] && all[|all| - 1] == since[n];
    }
  }

  lemma NoneCounted(history: seq<Probe>, name: string)
    requires history == []
    ensures CountOf(history, name) == 0
  {
    assert ProbesOf(history, name) == {};
  }
}
