/** Which proxies get into the table and the store, and what each command does, in terms of the proxy itself and
    of the configuration. */
module Admission {
  import opened Common
  import opened Proxies
  import opened Persistence
  import opened Lifecycle
  import Text

  // ----- Lists as maps -----

  /** The item at `i` is the last of its name. */
  predicate LastOfItsName(items: seq<Proxy>, i: nat) {
    i < |items| && forall j | i < j < |items| :: items[j].name != items[i].name
  }

  /** Of several items with one name the last is taken. */
  lemma {:induction false} LastIsTaken(items: seq<Proxy>, i: nat)
    requires LastOfItsName(items, i)
    ensures items[i].name in LastWins(items) && LastWins(items)[items[i].name] == items[i]
    decreases |items|
  {
    hide LastWins;
    var n := |items| - 1;
    LastAdded(items);
    if i < n {
      LastIsTaken(items[..n], i);
      assert items[n].name != items[i].name;
    }
  }

  lemma LastAdded(items: seq<Proxy>)
    requires items != []
    ensures var last := items[|items| - 1];
            LastWins(items) == LastWins(items[..|items| - 1])[last.name := last]
  {
  }

  lemma {:induction false} LastIndex(items: seq<Proxy>, k: string) returns (i: nat)
    requires exists p :: p in items && p.name == k
    ensures LastOfItsName(items, i) && items[i].name == k
    decreases |items|
  {
    var n := |items| - 1;
    if items[n].name == k {
      i := n;
    } else {
      assert items == items[..n] + [items[n]];
      i := LastIndex(items[..n], k);
    }
  }

  // ----- Starting -----

  /** The file is there, can be read, and is of a format this program knows. */
  predicate Usable(env: Env, files: Files, readable: bool) {
    env.path.Some? && readable && Target(env) in files &&
    var file := env.decode(files[Target(env)]);
    file.Some? && file.value.version <= 1
  }

  /** A stored proxy that may come back: it has a name and passes remote validation. */
  predicate Vetted(env: Env, p: Proxy) {
    p.name != "" && env.valid(p, true)
  }

  /** The last vetted item of its name. */
  predicate LastVetted(env: Env, items: seq<Proxy>, i: nat) {
    && i < |items| && Vetted(env, items[i])
    && forall j | i < j < |items| :: items[j].name == items[i].name ==> !Vetted(env, items[j])
  }

  lemma {:induction false} LastVettedTaken(env: Env, items: seq<Proxy>, i: nat)
    requires LastVetted(env, items, i)
    ensures var m := LastWins(Kept(env, items)); items[i].name in m && m[items[i].name] == items[i]
    decreases |items|
  {
    hide Kept, LastWins, Restorable;
    var n := |items| - 1;
    assert items[..n + 1] == items;
    KeptStep(env, items, n);
    VettedIsRestorable(env, items[n]);
    if i < n {
      LastVettedTaken(env, items[..n], i);
    }
  }

  lemma VettedIsRestorable(env: Env, p: Proxy)
    ensures Restorable(env, p) <==> Vetted(env, p)
  {
  }

  /** What is in memory after a start: of a usable file, the last vetted item of each name, and nothing else. */
  lemma LoadedExactly(env: Env, files: Files, readable: bool, k: string)
    ensures !Usable(env, files, readable) ==> Loaded(env, files, readable) == map[]
    ensures Usable(env, files, readable) ==>
              var items, m := env.decode(files[Target(env)]).value.proxies, Loaded(env, files, readable);
              && (k in m ==> Vetted(env, m[k]) && m[k].name == k && m[k] in items)
              && (forall i | 0 <= i < |items| :: LastVetted(env, items, i) && items[i].name == k ==>
                    k in m && m[k] == items[i])
  {
    if Usable(env, files, readable) {
      var items := env.decode(files[Target(env)]).value.proxies;
      forall i | 0 <= i < |items| && LastVetted(env, items, i)
        ensures items[i].name in LastWins(Kept(env, items)) && LastWins(Kept(env, items))[items[i].name] == items[i]
      {
        LastVettedTaken(env, items, i);
      }
    }
  }

  /** The table after a start: the last configured proxy of each configured name, as Config, and for every other
      name what is in memory, as Dynamic. */
  lemma StartedTable(env: Env, files: Files, readable: bool, saved: Option<Memory>, k: string)
    ensures var s := Started(env, files, readable, saved); s.up && s.mem == Loaded(env, files, readable)
    ensures var table := Started(env, files, readable, saved).table;
            && (forall i | 0 <= i < |env.config| :: LastOfItsName(env.config, i) && env.config[i].name == k ==>
                  k in table && table[k] == Entry(env.config[i], Config))
            && ((forall i | 0 <= i < |env.config| :: env.config[i].name != k) ==>
                  var m := Loaded(env, files, readable);
                  (k in table <==> k in m) && (k in m ==> table[k] == Entry(m[k], Dynamic)))
  {
    LoadedRestorable(env, files, readable);
    var m := Loaded(env, files, readable);
    forall i | 0 <= i < |env.config| && LastOfItsName(env.config, i)
      ensures env.config[i].name in ConfigMap(env) && ConfigMap(env)[env.config[i].name] == env.config[i]
    {
      LastIsTaken(env.config, i);
    }
    assert (forall i | 0 <= i < |env.config| :: env.config[i].name != k) ==> k !in ConfigMap(env);
    hide Loaded, LastWins;
  }

  // ----- Commands, one at a time -----

  /** A remote addition, exactly: it needs a name, a type and remote validation, and a name that no Config entry
      has; refused, it changes nothing. */
  lemma RemoteAddEffect(env: Env, s: State, p: Proxy, plan: Plan)
    requires s.up
    ensures var t := Step(env, s, RemoteAdd(p, plan));
            if p.name == "" || p.kind == "" || !env.valid(p, true)
               || (p.name in s.table && s.table[p.name].origin == Config) then t == s
            else
              && t.table == s.table[p.name := Entry(p, Dynamic)]
              && t.mem == if env.path.Some? then s.mem[p.name := p] else s.mem
  {
    hide StoreFlushed, Committed;
  }

  /** The proxy a remote removal takes out: the Dynamic entry of that name, or, when the table has nothing of that
      name, the Dynamic entry whose name is left when the client's own prefix and a dot are taken away. */
  ghost predicate Removes(env: Env, table: Table, name: string, local: string) {
    && name != "" && local in table && table[local].origin == Dynamic
    && (local == name || (name !in table && env.user != "" && name == env.user + "." + local))
  }

  lemma Stripped(user: string, name: string, local: string)
    requires user != "" && name == user + "." + local
    ensures StripUser(user, name) == local
  {
    assert name[|user| + 1..] == local && name[..|user|] == user && name[|user|] == '.';
  }

  lemma NotStripped(user: string, name: string)
    ensures StripUser(user, name) == name || (user != "" && name == user + "." + StripUser(user, name))
  {
    if StripUser(user, name) != name {
      assert name == name[..|user|] + [name[|user|]] + name[|user| + 1..];
    }
  }

  /** A remote removal, exactly: one entry goes, or nothing changes. */
  lemma RemoteRemoveEffect(env: Env, s: State, name: string, plan: Plan, local: string)
    requires s.up
    ensures var t := Step(env, s, RemoteRemove(name, plan));
            Removes(env, s.table, name, local) ==>
              && t.table == s.table - {local}
              && t.mem == if env.path.Some? then s.mem - {local} else s.mem
    ensures (forall l :: !Removes(env, s.table, name, l)) ==> Step(env, s, RemoteRemove(name, plan)) == s
  {
    hide StoreFlushed, Committed;
    NotStripped(env.user, name);
    if Removes(env, s.table, name, local) {
      if local != name {
        Stripped(env.user, name, local);
      }
      assert local !in s.mem ==> s.mem - {local} == s.mem;
    }
    if forall l :: !Removes(env, s.table, name, l) {
      assert !Removes(env, s.table, name, RemovalTarget(env, s.table, name));
    }
  }

  /** The server's first message that is neither a request for work, nor a pong, nor some other message, is an
      answer without error. */
  ghost predicate AnsweredWell(msgs: seq<Incoming>) {
    exists i | 0 <= i < |msgs| :: msgs[i] == Response("") && IdleBefore(msgs, i)
  }

  predicate IdleBefore(msgs: seq<Incoming>, i: nat)
    requires i <= |msgs|
  {
    forall j | 0 <= j < i :: msgs[j].ReqWorkConn? || msgs[j].Pong? || msgs[j].Other?
  }

  lemma {:induction false} AcceptedIff(msgs: seq<Incoming>)
    ensures Accepted(msgs) <==> AnsweredWell(msgs)
  {
    if msgs != [] {
      AcceptedIff(msgs[1..]);
      var idle := msgs[0].ReqWorkConn? || msgs[0].Pong? || msgs[0].Other?;
      if AnsweredWell(msgs) {
        var i :| 0 <= i < |msgs| && msgs[i] == Response("") && IdleBefore(msgs, i);
        if i > 0 {
          assert msgs[1..][i - 1] == Response("") && IdleBefore(msgs[1..], i - 1);
        }
      }
      if idle && AnsweredWell(msgs[1..]) {
        var i :| 0 <= i < |msgs[1..]| && msgs[1..][i] == Response("") && IdleBefore(msgs[1..], i);
        forall j | 0 <= j < i + 1 ensures msgs[j].ReqWorkConn? || msgs[j].Pong? || msgs[j].Other? {
          assert j > 0 ==> msgs[j] == msgs[1..][j - 1];
        }
        assert msgs[i + 1] == Response("") && IdleBefore(msgs, i + 1);
      }
      if msgs[0] == Response("") {
        assert IdleBefore(msgs, 0);
      }
    }
  }

  /** A local addition, exactly: it needs a name and a type that are not blank, local validation, a new name, and a
      server that could be asked and answers well; refused at whatever point, it changes nothing. */
  lemma WebAddEffect(env: Env, s: State, p: Proxy, sent: bool, msgs: seq<Incoming>, plan: Plan)
    requires s.up
    ensures var t := Step(env, s, WebAdd(p, sent, msgs, plan));
            if Text.Trim(p.name) == "" || Text.Trim(p.kind) == "" || !env.valid(p, false) || p.name in s.table
               || !sent || !AnsweredWell(msgs) then t == s
            else
              && t.table == s.table[p.name := Entry(p, Dynamic)]
              && t.mem == if env.path.Some? then s.mem[p.name := p] else s.mem
  {
    AcceptedIff(msgs);
    Text.TrimEmpty(p.name);
    Text.TrimEmpty(p.kind);
    hide StoreFlushed, Committed, Accepted, AnsweredWell;
    hide Text.Trim;
    hide Text.Blank;
  }

  /** A local removal, exactly, whatever the origin. */
  lemma WebRemoveEffect(env: Env, s: State, name: string, plan: Plan)
    requires s.up
    ensures var t := Step(env, s, WebRemove(name, plan));
            if name !in s.table then t == s
            else t.table == s.table - {name} && t.mem == if env.path.Some? then s.mem - {name} else s.mem
  {
    hide StoreFlushed, Committed;
    assert name !in s.mem ==> s.mem - {name} == s.mem;
  }

  /** A client that is down does nothing until it is started again. */
  lemma DownStaysDown(env: Env, s: State, e: Event)
    requires !s.up && !e.Restart?
    ensures Step(env, s, e) == s
  {
  }

  // ----- Where the entries come from -----

  /** A local addition of the run brought this proxy, and it passed local validation. */
  ghost predicate AddedLocally(env: Env, events: seq<Event>, p: Proxy) {
    env.valid(p, false) && exists i | 0 <= i < |events| :: events[i].WebAdd? && events[i].p == p
  }

  ghost predicate Legitimate(env: Env, events: seq<Event>, p: Proxy) {
    Vetted(env, p) || AddedLocally(env, events, p)
  }

  ghost predicate AllLegitimate(env: Env, events: seq<Event>, s: State) {
    && (forall k :: k in s.table && s.table[k].origin == Dynamic ==> Legitimate(env, events, s.table[k].cfg))
    && (forall k :: k in s.mem ==> Legitimate(env, events, s.mem[k]))
  }

  lemma StillLegitimate(env: Env, events: seq<Event>, e: Event, p: Proxy)
    requires Legitimate(env, events, p)
    ensures Legitimate(env, events + [e], p)
  {
    if AddedLocally(env, events, p) {
      var i :| 0 <= i < |events| && events[i].WebAdd? && events[i].p == p;
      assert (events + [e])[i] == events[i];
    }
  }

  lemma NewlyLegitimate(env: Env, events: seq<Event>, e: Event)
    requires e.WebAdd? && env.valid(e.p, false)
    ensures Legitimate(env, events + [e], e.p)
  {
    assert (events + [e])[|events|] == e;
  }

  lemma StartIsLegitimate(env: Env, files: Files, readable: bool, saved: Option<Memory>, events: seq<Event>)
    ensures AllLegitimate(env, events, Started(env, files, readable, saved))
  {
    hide Loaded, Restorable, AddedLocally, ConfigMap, NamesInConfig;
    LoadedVetted(env, files, readable);
    NamesOfConfig(env);
  }

  lemma LoadedVetted(env: Env, files: Files, readable: bool)
    ensures var m := Loaded(env, files, readable);
            KeptMemory(env, m) == m && forall k :: k in m ==> Vetted(env, m[k]) && m[k].name == k
  {
    LoadedRestorable(env, files, readable);
    var m := Loaded(env, files, readable);
    hide Loaded;
    forall k | k in m ensures Vetted(env, m[k]) {
      LoadedExactly(env, files, readable, k);
    }
  }

  lemma CarriedOver(env: Env, s: State, events: seq<Event>, e: Event)
    requires AllLegitimate(env, events, s)
    ensures AllLegitimate(env, events + [e], s)
  {
    hide Legitimate;
    forall p | Legitimate(env, events, p) ensures Legitimate(env, events + [e], p) {
      StillLegitimate(env, events, e, p);
    }
  }

  lemma AdditionLegitimate(env: Env, s: State, t: State, events: seq<Event>, p: Proxy)
    requires AllLegitimate(env, events, s) && (t == s || Legitimate(env, events, p))
    requires t == s
             || (t.table == s.table[p.name := Entry(p, Dynamic)] && (t.mem == s.mem || t.mem == s.mem[p.name := p]))
    ensures AllLegitimate(env, events, t)
  {
    hide Legitimate;
  }

  lemma RemovalLegitimate(env: Env, s: State, t: State, events: seq<Event>)
    requires AllLegitimate(env, events, s)
    requires (forall k :: k in t.table ==> k in s.table && t.table[k] == s.table[k])
    requires (forall k :: k in t.mem ==> k in s.mem && t.mem[k] == s.mem[k])
    ensures AllLegitimate(env, events, t)
  {
    hide Legitimate;
  }

  lemma LegitimateStep(env: Env, s: State, events: seq<Event>, e: Event)
    requires AllLegitimate(env, events, s)
    ensures AllLegitimate(env, events + [e], Step(env, s, e))
  {
    CarriedOver(env, s, events, e);
    var now, t := events + [e], Step(env, s, e);
    hide AllLegitimate;
    if !s.up && !e.Restart? {
      DownStaysDown(env, s, e);
    } else {
      match e
      case RemoteAdd(p, plan) =>
        RemoteAddEffect(env, s, p, plan);
        AdditionLegitimate(env, s, t, now, p);
      case RemoteRemove(name, plan) =>
        RemoteRemovalShrinks(env, s, name, plan);
        RemovalLegitimate(env, s, t, now);
      case WebAdd(p, sent, msgs, plan) =>
        WebAddEffect(env, s, p, sent, msgs, plan);
        if env.valid(p, false) {
          NewlyLegitimate(env, events, e);
        }
        hide Legitimate;
        AdditionLegitimate(env, s, t, now, p);
      case WebRemove(name, plan) =>
        WebRemoveEffect(env, s, name, plan);
        RemovalLegitimate(env, s, t, now);
      case Restart(readable) =>
        StartIsLegitimate(env, s.files, readable, s.saved, now);
      case Stops =>
        RemovalLegitimate(env, s, t, now);
    }
  }

  lemma RemoteRemovalShrinks(env: Env, s: State, name: string, plan: Plan)
    requires s.up
    ensures var t := Step(env, s, RemoteRemove(name, plan));
            && (forall k :: k in t.table ==> k in s.table && t.table[k] == s.table[k])
            && (forall k :: k in t.mem ==> k in s.mem && t.mem[k] == s.mem[k])
  {
    RemoteRemoveEffect(env, s, name, plan, RemovalTarget(env, s.table, name));
    hide Step;
    if exists l :: Removes(env, s.table, name, l) {
      var l :| Removes(env, s.table, name, l);
      RemoteRemoveEffect(env, s, name, plan, l);
    }
  }

  /** Over every run from a start, restarts and crashes included: every Dynamic entry and every remembered proxy has a
      name and passes remote validation, or was brought by a local addition of the run that passed local
      validation. */
  lemma {:induction false} OnlyVettedEntries(env: Env, files: Files, readable: bool, saved: Option<Memory>,
                                             events: seq<Event>)
    ensures AllLegitimate(env, events, Run(env, Started(env, files, readable, saved), events))
  {
    hide AllLegitimate, Started, Step;
    var s := Started(env, files, readable, saved);
    if events == [] {
      StartIsLegitimate(env, files, readable, saved, events);
    } else {
      var n := |events| - 1;
      OnlyVettedEntries(env, files, readable, saved, events[..n]);
      LegitimateStep(env, Run(env, s, events[..n]), events[..n], events[n]);
      assert events == events[..n] + [events[n]];
    }
  }

  // ----- The directory -----

  /** A flush touches no other file than the store file and its temporary file. */
  lemma OthersUntouched(env: Env, files: Files, mem: Memory, plan: Plan, other: string)
    requires env.path.Some? && other != Target(env) && other != Scratch(env)
    ensures Lookup(StoreFlushed(env, files, mem, plan).0, other) == Lookup(files, other)
  {
  }

  /** Nothing else than a crash takes the client down: a flush that only fails leaves it up, and it is done exactly
      when it got past its rename. */
  lemma OnlyCrashesStop(env: Env, files: Files, mem: Memory, plan: Plan)
    requires env.path.Some? && plan.crash > 5
    ensures var outcome := StoreFlushed(env, files, mem, plan).1;
            outcome == if Committed(files, Scratch(env), plan) then Done else Failed
  {
  }

  /** A committed flush leaves no temporary file, unless that is the store file; an earlier failure or crash leaves it
      absent, as it was, empty, or with the beginning of the new text. */
  lemma ScratchAfter(env: Env, files: Files, mem: Memory, plan: Plan)
    requires env.path.Some? && Scratch(env) != Target(env)
    ensures var after := Lookup(StoreFlushed(env, files, mem, plan).0, Scratch(env));
            if Committed(files, Scratch(env), plan) then after == None
            else after == None || after == Lookup(files, Scratch(env)) || StartOf(after, env.encode(mem))
  {
    var body := env.encode(mem);
    assert Prefix(body, 0) == "" && Prefix(body, |body|) == body;
    assert StartOf(Some(""), body) && StartOf(Some(body), body) && StartOf(Some(Prefix(body, plan.written)), body);
    hide StartOf, Prefix;
  }

  /** Only a crash inside its flush ends the process during a command. */
  lemma StaysUp(env: Env, s: State, e: Event)
    requires s.up && !e.Restart? && !e.Stops? && e.plan.crash > 5
    ensures Step(env, s, e).up
  {
    hide RemoteAddAllowed, WebAddAllowed, RemoteRemoveAllowed, RemovalTarget, Committed;
  }
}
