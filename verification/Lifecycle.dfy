/** The life of the dynamic proxies as a state machine: remote commands, web commands, restarts, and a
    process that may die at any step of writing the store file. */
module Lifecycle {
  import opened Common
  import opened Proxies
  import Text

  /** `saved` is a history variable: the memory whose flush last got past its rename. */
  datatype State = State(table: Table, mem: Memory, files: Files, up: bool, saved: Option<Memory>)

  /** What the web command receives from the server while it waits. */
  datatype Incoming = TimedOut | RecvFailed | Closed | Response(error: string) | ReqWorkConn | Pong | Other

  /** `Stops` is the end of the process between commands, or a start that fails. */
  datatype Event =
    | RemoteAdd(p: Proxy, plan: Plan)
    | RemoteRemove(name: string, plan: Plan)
    | WebAdd(p: Proxy, sent: bool, msgs: seq<Incoming>, plan: Plan)
    | WebRemove(name: string, plan: Plan)
    | Restart(readable: bool)
    | Stops

  // ----- Steps -----

  function ConfigMap(env: Env): Memory {
    LastWins(env.config)
  }

  /** The table of a freshly started client: the configuration first, then what the store restores. */
  function InitialTable(env: Env, mem: Memory): Table {
    map k | k in ConfigMap(env).Keys + KeptMemory(env, mem).Keys ::
      if k in ConfigMap(env) then Entry(ConfigMap(env)[k], Config) else Entry(mem[k], Dynamic)
  }

  function Started(env: Env, files: Files, readable: bool, saved: Option<Memory>): State {
    var mem := Loaded(env, files, readable);
    State(InitialTable(env, mem), mem, files, true, saved)
  }

  function AfterFlush(env: Env, s: State, plan: Plan): State
    requires env.path.Some?
  {
    var (files, outcome) := StoreFlushed(env, s.files, s.mem, plan);
    s.(files := files, up := outcome != Crashed,
       saved := if Committed(s.files, Scratch(env), plan) then Some(s.mem) else s.saved)
  }

  /** `Store::put`: memory first, then the file. */
  function StorePut(env: Env, s: State, p: Proxy, plan: Plan): State {
    if env.path.None? then s else AfterFlush(env, s.(mem := s.mem[p.name := p]), plan)
  }

  /** `Store::remove`. */
  function StoreRemove(env: Env, s: State, name: string, plan: Plan): State {
    if env.path.None? || name !in s.mem then s else AfterFlush(env, s.(mem := s.mem - {name}), plan)
  }

  /** `add_proxy_cmd` goes through. */
  predicate RemoteAddAllowed(env: Env, table: Table, p: Proxy) {
    p.name != "" && p.kind != "" && env.valid(p, true) && (p.name in table ==> table[p.name].origin == Dynamic)
  }

  /** `strip_user_prefix`. */
  function StripUser(user: string, name: string): string {
    if user != "" && |user| < |name| && user <= name && name[|user|] == '.' then name[|user| + 1..] else name
  }

  /** The name a remote removal acts on: as given, or without the client's own prefix when the table
      has nothing under the name as given. */
  function RemovalTarget(env: Env, table: Table, name: string): string {
    if name in table || StripUser(env.user, name) !in table then name else StripUser(env.user, name)
  }

  predicate RemoteRemoveAllowed(env: Env, table: Table, name: string) {
    var target := RemovalTarget(env, table, name);
    name != "" && target in table && table[target].origin == Dynamic
  }

  /** The first decisive message is an acceptance. */
  predicate Accepted(msgs: seq<Incoming>) {
    if msgs == [] then false
    else match msgs[0]
      case Response(error) => error == ""
      case TimedOut => false
      case RecvFailed => false
      case Closed => false
      case _ => Accepted(msgs[1..])
  }

  /** `Hub::add` followed by `add_live` goes through. */
  predicate WebAddAllowed(env: Env, table: Table, p: Proxy, sent: bool, msgs: seq<Incoming>) {
    && !Text.Blank(p.name) && !Text.Blank(p.kind) && env.valid(p, false)
    && p.name !in table && sent && Accepted(msgs)
  }

  function Step(env: Env, s: State, e: Event): State {
    if !s.up && !e.Restart? then s
    else
      match e
      case RemoteAdd(p, plan) =>
        if RemoteAddAllowed(env, s.table, p)
        then StorePut(env, s.(table := s.table[p.name := Entry(p, Dynamic)]), p, plan)
        else s
      case RemoteRemove(name, plan) =>
        var target := RemovalTarget(env, s.table, name);
        if RemoteRemoveAllowed(env, s.table, name)
        then StoreRemove(env, s.(table := s.table - {target}), target, plan)
        else s
      case WebAdd(p, sent, msgs, plan) =>
        if WebAddAllowed(env, s.table, p, sent, msgs)
        then StorePut(env, s.(table := s.table[p.name := Entry(p, Dynamic)]), p, plan)
        else s
      case WebRemove(name, plan) =>
        if name in s.table then StoreRemove(env, s.(table := s.table - {name}), name, plan) else s
      case Restart(readable) => Started(env, s.files, readable, s.saved)
      case Stops => s.(up := false)
  }

  function Run(env: Env, s: State, events: seq<Event>): State {
    if events == [] then s
    else Step(env, Run(env, s, events[..|events| - 1]), events[|events| - 1])
  }

  // ----- The table, the memory and the configuration agree -----

  ghost predicate Keyed(table: Table, mem: Memory) {
    (forall k :: k in table ==> table[k].cfg.name == k) && (forall k :: k in mem ==> mem[k].name == k)
  }

  /** Every Dynamic entry is in memory with the same value, and any other remembered name belongs to
      a Config entry that is still in the table. */
  ghost predicate Agree(table: Table, mem: Memory) {
    && (forall k :: k in table && table[k].origin == Dynamic ==> k in mem && mem[k] == table[k].cfg)
    && (forall k :: k in mem ==> k in table && (table[k].origin == Config || table[k].cfg == mem[k]))
  }

  /** Every entry still marked Config is the configured one. */
  ghost predicate ConfigUntouched(env: Env, table: Table) {
    forall k :: k in table && table[k].origin == Config ==> k in ConfigMap(env) && table[k].cfg == ConfigMap(env)[k]
  }

  ghost predicate Inv(env: Env, s: State) {
    Keyed(s.table, s.mem) && ConfigUntouched(env, s.table) && (env.path.Some? ==> Agree(s.table, s.mem))
  }

  lemma LoadedRestorable(env: Env, files: Files, readable: bool)
    ensures var mem := Loaded(env, files, readable);
            KeptMemory(env, mem) == mem && forall k :: k in mem ==> mem[k].name == k
  {
  }

  lemma StartedInv(env: Env, files: Files, readable: bool, saved: Option<Memory>)
    ensures Inv(env, Started(env, files, readable, saved))
  {
    LoadedRestorable(env, files, readable);
    ConfigNames(env);
    hide Loaded, LastWins, Restorable, ConfigMap;
  }

  lemma ConfigNames(env: Env)
    ensures forall k :: k in ConfigMap(env) ==> ConfigMap(env)[k].name == k
  {
  }

  lemma FlushFrame(env: Env, s: State, plan: Plan)
    requires env.path.Some?
    ensures AfterFlush(env, s, plan).table == s.table && AfterFlush(env, s, plan).mem == s.mem
  {
  }

  lemma PutAgrees(env: Env, table: Table, mem: Memory, p: Proxy)
    requires Keyed(table, mem) && ConfigUntouched(env, table) && (p.name in table ==> table[p.name].origin == Dynamic)
    ensures var after := table[p.name := Entry(p, Dynamic)];
            && ConfigUntouched(env, after) && Keyed(after, mem) && Keyed(after, mem[p.name := p])
            && (Agree(table, mem) ==> Agree(after, mem[p.name := p]))
  {
    hide ConfigMap;
  }

  lemma PutInv(env: Env, s: State, p: Proxy, plan: Plan)
    requires Inv(env, s) && (p.name in s.table ==> s.table[p.name].origin == Dynamic)
    ensures Inv(env, StorePut(env, s.(table := s.table[p.name := Entry(p, Dynamic)]), p, plan))
  {
    PutAgrees(env, s.table, s.mem, p);
    hide AfterFlush, ConfigMap, Keyed, ConfigUntouched, Agree;
    if env.path.Some? {
      FlushFrame(env, s.(table := s.table[p.name := Entry(p, Dynamic)], mem := s.mem[p.name := p]), plan);
    }
  }

  lemma RemoveAgrees(env: Env, table: Table, mem: Memory, name: string)
    requires Keyed(table, mem) && ConfigUntouched(env, table)
    ensures var after := table - {name};
            && ConfigUntouched(env, after) && Keyed(after, mem) && Keyed(after, mem - {name})
            && (Agree(table, mem) ==> Agree(after, mem - {name}) && (name !in mem ==> Agree(after, mem)))
  {
    hide ConfigMap;
  }

  lemma RemoveInv(env: Env, s: State, name: string, plan: Plan)
    requires Inv(env, s)
    ensures Inv(env, StoreRemove(env, s.(table := s.table - {name}), name, plan))
  {
    RemoveAgrees(env, s.table, s.mem, name);
    hide AfterFlush, ConfigMap, Keyed, ConfigUntouched, Agree;
    if env.path.Some? && name in s.mem {
      FlushFrame(env, s.(table := s.table - {name}, mem := s.mem - {name}), plan);
    }
  }

  lemma StillInv(env: Env, s: State)
    requires Inv(env, s)
    ensures Inv(env, s.(up := false))
  {
  }

  /** Each step, whatever becomes of the flush, keeps the agreement. */
  lemma StepInv(env: Env, s: State, e: Event)
    requires Inv(env, s)
    ensures Inv(env, Step(env, s, e))
  {
    hide Inv, StorePut, StoreRemove, Started;
    match e
    case RemoteAdd(p, plan) =>
      if RemoteAddAllowed(env, s.table, p) { PutInv(env, s, p, plan); }
    case RemoteRemove(name, plan) =>
      RemoveInv(env, s, RemovalTarget(env, s.table, name), plan);
    case WebAdd(p, sent, msgs, plan) =>
      if WebAddAllowed(env, s.table, p, sent, msgs) { PutInv(env, s, p, plan); }
    case WebRemove(name, plan) =>
      RemoveInv(env, s, name, plan);
    case Restart(readable) =>
      StartedInv(env, s.files, readable, s.saved);
    case Stops =>
      StillInv(env, s);
  }

  /** The agreement holds after every run from a start. */
  lemma {:induction false} RunInv(env: Env, s: State, events: seq<Event>)
    requires Inv(env, s)
    ensures Inv(env, Run(env, s, events))
  {
    if events != [] {
      RunInv(env, s, events[..|events| - 1]);
      StepInv(env, Run(env, s, events[..|events| - 1]), events[|events| - 1]);
    }
  }

  /** A removal undoes the addition of a new name, in the table and in memory, whether the flushes succeed
      or fail, unless the process dies. */
  lemma RemoveUndoesAdd(env: Env, s: State, p: Proxy, plan: Plan, plan': Plan)
    requires env.path.Some? && s.up && Inv(env, s) && RemoteAddAllowed(env, s.table, p) && p.name !in s.table
    requires Step(env, s, RemoteAdd(p, plan)).up
    ensures var after := Step(env, Step(env, s, RemoteAdd(p, plan)), RemoteRemove(p.name, plan'));
            after.table == s.table && after.mem == s.mem
  {
    hide AfterFlush, ConfigMap, StripUser;
    var added := s.(table := s.table[p.name := Entry(p, Dynamic)], mem := s.mem[p.name := p]);
    FlushFrame(env, added, plan);
    var s1 := Step(env, s, RemoteAdd(p, plan));
    assert s1.table == added.table && s1.mem == added.mem;
    assert RemovalTarget(env, s1.table, p.name) == p.name;
    FlushFrame(env, s1.(table := s1.table - {p.name}, mem := s1.mem - {p.name}), plan');
    assert s1.table - {p.name} == s.table && s1.mem - {p.name} == s.mem;
  }

  // ----- Configuration entries -----

  function ConfigPart(table: Table): Table {
    map k | k in table && table[k].origin == Config :: table[k]
  }

  lemma ConfigPartSame(table: Table, name: string, p: Proxy)
    requires name in table ==> table[name].origin == Dynamic
    ensures ConfigPart(table[name := Entry(p, Dynamic)]) == ConfigPart(table) == ConfigPart(table - {name})
  {
  }

  lemma ConfigPartWithout(table: Table, name: string)
    ensures ConfigPart(table - {name}) == ConfigPart(table) - {name}
  {
  }

  lemma ConfigStep(env: Env, s: State, e: Event)
    requires !e.Restart?
    ensures ConfigPart(Step(env, s, e).table)
            == if s.up && e.WebRemove? then ConfigPart(s.table) - {e.name} else ConfigPart(s.table)
  {
    hide Accepted, RemovalTarget, StoreFlushed, Committed, ConfigPart;
    match e
    case RemoteAdd(p, _) =>
      if RemoteAddAllowed(env, s.table, p) { ConfigPartSame(s.table, p.name, p); }
    case WebAdd(p, sent, msgs, _) =>
      if WebAddAllowed(env, s.table, p, sent, msgs) { ConfigPartSame(s.table, p.name, p); }
    case RemoteRemove(name, _) =>
      var target := RemovalTarget(env, s.table, name);
      if RemoteRemoveAllowed(env, s.table, name) { ConfigPartSame(s.table, target, s.table[target].cfg); }
    case WebRemove(name, _) =>
      ConfigPartWithout(s.table, name);
      assert name !in s.table ==> s.table - {name} == s.table;
    case Stops =>
  }

  /** A web command of the run asks for the removal of this name while the client is up. */
  predicate WebRemoved(env: Env, s: State, events: seq<Event>, k: string) {
    exists i | 0 <= i < |events| :: events[i].WebRemove? && events[i].name == k && Run(env, s, events[..i]).up
  }

  lemma WebRemovedStep(env: Env, s: State, events: seq<Event>, e: Event, k: string)
    ensures WebRemoved(env, s, events + [e], k)
            <==> WebRemoved(env, s, events, k) || (e.WebRemove? && e.name == k && Run(env, s, events).up)
  {
    hide Run;
    var all := events + [e];
    assert forall i | 0 <= i <= |events| :: all[..i] == events[..i];
    assert all[|events|] == e && events[..|events|] == events;
  }

  /** Over every run between restarts, the Config entries at the end are exactly those of its start that no
      web command has removed, with the same values: remote commands never change or delete one. */
  lemma {:induction false} ConfigEntriesStable(env: Env, s: State, events: seq<Event>)
    requires forall i | 0 <= i < |events| :: !events[i].Restart?
    ensures var first, last := ConfigPart(s.table), ConfigPart(Run(env, s, events).table);
            last == map k | k in first && !WebRemoved(env, s, events, k) :: first[k]
  {
    hide WebRemoved, ConfigPart, Step;
    if events == [] {
      forall k ensures !WebRemoved(env, s, events, k) {
        NothingRemoved(env, s, k);
      }
    } else {
      var n := |events| - 1;
      assert events == events[..n] + [events[n]];
      ConfigEntriesStable(env, s, events[..n]);
      ConfigStep(env, Run(env, s, events[..n]), events[n]);
      forall k ensures WebRemoved(env, s, events, k) <==>
                       WebRemoved(env, s, events[..n], k)
                       || (events[n].WebRemove? && events[n].name == k && Run(env, s, events[..n]).up) {
        WebRemovedStep(env, s, events[..n], events[n], k);
      }
    }
  }

  lemma NothingRemoved(env: Env, s: State, k: string)
    ensures !WebRemoved(env, s, [], k)
  {
  }

  // ----- Crash safety -----

  function Lookup(files: Files, path: string): Option<string> {
    if path in files then Some(files[path]) else None
  }

  /** A flush either replaces the target by the whole body or leaves it as it was, wherever it fails
      or dies. */
  ghost predicate Atomic(path: string, tmp: string) {
    forall files, body, plan ::
      Lookup(Flushed(files, path, tmp, body, plan).0, path)
      == if Committed(files, tmp, plan) then Some(body) else Lookup(files, path)
  }

  /** The flush is atomic exactly when the temporary file is not the target. */
  lemma AtomicIff(path: string, tmp: string)
    ensures Atomic(path, tmp) <==> tmp != path
  {
    if tmp == path {
      var files, plan := map[path := "x"], Plan(false, false, 0, false, false, 1);
      assert Lookup(Flushed(files, path, tmp, "", plan).0, path) == None;
      assert !Committed(files, tmp, plan) && Lookup(files, path) == Some("x");
    }
  }

  /** In terms of the configured name: a store file is safe exactly when it has a file name that does not
      end in the extension `tmp`, in whatever way the file system folds names. */
  lemma SafeNames(fold: char -> char, name: string)
    requires KeepsDots(fold)
    ensures Atomic(Folded(fold, name), Folded(fold, WithTmp(name)))
            <==> !NoFileName(name) && !HasTmpExtension(fold, name)
  {
    AtomicIff(Folded(fold, name), Folded(fold, WithTmp(name)));
    TmpCollides(fold, name);
  }

  /** The target holds the serialisation of the last memory whose flush was committed, or what it held
      at first. */
  ghost predicate TargetIsSaved(env: Env, initial: Option<string>, s: State)
    requires env.path.Some?
  {
    Lookup(s.files, Target(env)) == if s.saved.None? then initial else Some(env.encode(s.saved.value))
  }

  lemma StepKeepsTarget(env: Env, initial: Option<string>, s: State, e: Event)
    requires env.path.Some? && Scratch(env) != Target(env) && TargetIsSaved(env, initial, s)
    ensures TargetIsSaved(env, initial, Step(env, s, e))
    ensures Step(env, s, e).saved == s.saved || Step(env, s, e).saved == Some(Step(env, s, e).mem)
  {
    StepTarget(env, s, e);
    StepSaved(env, s, e);
    hide Step, Rewrites;
  }

  lemma StepSaved(env: Env, s: State, e: Event)
    requires env.path.Some?
    ensures Step(env, s, e).saved == if Rewrites(env, s, e) then Some(Step(env, s, e).mem) else s.saved
  {
    hide StoreFlushed, RemoteAddAllowed, WebAddAllowed, RemoteRemoveAllowed, RemovalTarget, Committed;
    hide InitialTable, Loaded;
  }

  /** Over every run, with failures and crashes at any step of any flush and restarts in between, the
      store file is never anything but a complete serialisation. */
  lemma {:induction false} RunKeepsTarget(env: Env, initial: Option<string>, s: State, events: seq<Event>)
    requires env.path.Some? && Scratch(env) != Target(env) && TargetIsSaved(env, initial, s)
    ensures TargetIsSaved(env, initial, Run(env, s, events))
  {
    if events != [] {
      RunKeepsTarget(env, initial, s, events[..|events| - 1]);
      StepKeepsTarget(env, initial, Run(env, s, events[..|events| - 1]), events[|events| - 1]);
    }
  }

  // ----- Restart after a clean run -----

  /** The JSON form gives back exactly the proxies it was made from, in this format version. */
  ghost predicate Faithful(env: Env) {
    forall m: Memory :: (forall k :: k in m ==> m[k].name == k) ==>
                          var file := env.decode(env.encode(m));
                          file.Some? && file.value.version <= STORE_VERSION && Lists(file.value.proxies, m)
  }

  predicate Flawless(plan: Plan) {
    !plan.removeFails && !plan.createFails && !plan.writeFails && !plan.renameFails && plan.crash > 5
  }

  predicate Clean(e: Event) {
    !e.Restart? && !e.Stops? && Flawless(e.plan)
  }

  function DynamicPart(table: Table): Memory {
    map k | k in table && table[k].origin == Dynamic :: table[k].cfg
  }

  /** What the file would restore is the restorable part of the memory. */
  ghost predicate FileCurrent(env: Env, s: State) {
    s.up && Inv(env, s) && Loaded(env, s.files, true) == KeptMemory(env, s.mem)
  }

  lemma FlawlessFlush(files: Files, path: string, tmp: string, body: string, plan: Plan)
    requires Flawless(plan)
    ensures var (files', outcome) := Flushed(files, path, tmp, body, plan);
            outcome == Done && Lookup(files', path) == Some(body)
  {
  }

  lemma FlushMakesCurrent(env: Env, s: State, plan: Plan)
    requires env.path.Some? && Faithful(env) && Flawless(plan) && forall k :: k in s.mem ==> s.mem[k].name == k
    ensures AfterFlush(env, s, plan).up
    ensures Loaded(env, AfterFlush(env, s, plan).files, true) == KeptMemory(env, s.mem)
  {
    hide Flushed, LastWins, Kept, KeptMemory, Flawless, Target, Scratch;
    var file := env.decode(env.encode(s.mem)).value;
    FlawlessFlush(s.files, Target(env), Scratch(env), env.encode(s.mem), plan);
    LoadLists(env, file.proxies, s.mem);
  }

  lemma CleanStep(env: Env, s: State, e: Event)
    requires env.path.Some? && Faithful(env) && FileCurrent(env, s) && Clean(e)
    ensures FileCurrent(env, Step(env, s, e))
  {
    StepInv(env, s, e);
    hide Loaded, AfterFlush, KeptMemory, Faithful, RemovalTarget, Accepted, Flawless, ConfigMap;
    var s' := Step(env, s, e);
    FlushFrame(env, s.(table := s'.table, mem := s'.mem), e.plan);
    FlushMakesCurrent(env, s.(table := s'.table, mem := s'.mem), e.plan);
  }

  lemma {:induction false} CleanRun(env: Env, s: State, events: seq<Event>)
    requires env.path.Some? && Faithful(env) && FileCurrent(env, s) && forall e :: e in events ==> Clean(e)
    ensures FileCurrent(env, Run(env, s, events))
  {
    if events != [] {
      CleanRun(env, s, events[..|events| - 1]);
      CleanStep(env, Run(env, s, events[..|events| - 1]), events[|events| - 1]);
    }
  }

  /** After a clean run and a restart with the same configuration, the Dynamic entries are exactly those
      that pass remote validation and are not named in the configuration. */
  lemma RestartRestores(env: Env, files: Files, saved: Option<Memory>, events: seq<Event>)
    requires env.path.Some? && Faithful(env) && forall e :: e in events ==> Clean(e)
    ensures var s := Run(env, Started(env, files, true, saved), events);
            Restored(env, DynamicPart(s.table), DynamicPart(Step(env, s, Restart(true)).table))
  {
    var s0 := Started(env, files, true, saved);
    StartedInv(env, files, true, saved);
    LoadedRestorable(env, files, true);
    CleanRun(env, s0, events);
    RestartFromCurrent(env, Run(env, s0, events));
  }

  /** Names outside the configuration are Dynamic exactly when they are remembered. */
  lemma DynamicIsRemembered(env: Env, s: State, k: string)
    requires env.path.Some? && Inv(env, s) && k !in ConfigMap(env)
    ensures k in DynamicPart(s.table) <==> k in s.mem
    ensures k in s.mem ==> DynamicPart(s.table)[k] == s.mem[k]
  {
    hide ConfigMap;
  }

  lemma FirstDynamic(env: Env, mem: Memory)
    ensures DynamicPart(InitialTable(env, mem)) == map k | k in KeptMemory(env, mem) && k !in ConfigMap(env) :: mem[k]
  {
    hide ConfigMap, Restorable;
    var first := InitialTable(env, mem);
    var after := DynamicPart(first);
    forall k ensures k in after <==> k in KeptMemory(env, mem) && k !in ConfigMap(env) {
    }
    forall k | k in after ensures after[k] == mem[k] {
    }
  }

  lemma TableAfterRestart(env: Env, s: State)
    requires FileCurrent(env, s)
    ensures Step(env, s, Restart(true)).table == InitialTable(env, KeptMemory(env, s.mem))
  {
    hide Loaded, InitialTable, Inv, ConfigMap, KeptMemory;
  }

  lemma KeptTwice(env: Env, mem: Memory)
    ensures KeptMemory(env, KeptMemory(env, mem)) == KeptMemory(env, mem)
  {
    hide Restorable;
  }

  function NamesInConfig(env: Env): set<string> {
    set p | p in env.config :: p.name
  }

  lemma NamesOfConfig(env: Env)
    ensures forall k :: k in ConfigMap(env) <==> k in NamesInConfig(env)
  {
  }

  /** Exactly the entries that pass remote validation and are not named in the configuration. */
  ghost predicate Restored(env: Env, before: Memory, after: Memory) {
    after == map k | k in before && before[k].name != "" && env.valid(before[k], true) && k !in NamesInConfig(env)
               :: before[k]
  }

  lemma VettedKept(env: Env, mem: Memory, k: string)
    ensures k in KeptMemory(env, mem) <==> k in mem && mem[k].name != "" && env.valid(mem[k], true)
    ensures k in KeptMemory(env, mem) ==> KeptMemory(env, mem)[k] == mem[k]
  {
  }

  lemma RestartFromCurrent(env: Env, s: State)
    requires env.path.Some? && FileCurrent(env, s)
    ensures Restored(env, DynamicPart(s.table), DynamicPart(Step(env, s, Restart(true)).table))
  {
    hide Loaded, InitialTable, Inv, Step, DynamicPart, ConfigMap, KeptMemory;
    var before := DynamicPart(s.table);
    var kept := KeptMemory(env, s.mem);
    TableAfterRestart(env, s);
    KeptTwice(env, s.mem);
    FirstDynamic(env, kept);
    NamesOfConfig(env);
    forall k | k !in ConfigMap(env)
      ensures k in kept <==> k in before && before[k].name != "" && env.valid(before[k], true)
      ensures k in kept ==> kept[k] == before[k]
    {
      DynamicIsRemembered(env, s, k);
      VettedKept(env, s.mem, k);
    }
  }

  // ----- A store file of a newer format -----

  /** The store file is of a newer format than this program writes. */
  predicate Newer(env: Env, files: Files)
    requires env.path.Some?
  {
    Target(env) in files &&
    var file := env.decode(files[Target(env)]);
    file.Some? && file.value.version > STORE_VERSION
  }

  /** This step comes to a flush: an accepted addition, or the removal of a remembered name. */
  predicate Flushes(env: Env, s: State, e: Event): (b: bool)
    ensures b ==> s.up && !e.Restart? && !e.Stops?
  {
    s.up &&
    match e
    case RemoteAdd(p, _) => RemoteAddAllowed(env, s.table, p)
    case RemoteRemove(name, _) =>
      RemoteRemoveAllowed(env, s.table, name) && RemovalTarget(env, s.table, name) in s.mem
    case WebAdd(p, sent, msgs, _) => WebAddAllowed(env, s.table, p, sent, msgs)
    case WebRemove(name, _) => name in s.table && name in s.mem
    case Restart(_) => false
    case Stops => false
  }

  /** This step gets past the rename of a flush. */
  predicate Rewrites(env: Env, s: State, e: Event)
    requires env.path.Some?
  {
    Flushes(env, s, e) && Committed(s.files, Scratch(env), e.plan)
  }

  lemma FlushTarget(env: Env, s: State, plan: Plan)
    requires env.path.Some? && Scratch(env) != Target(env)
    ensures Lookup(AfterFlush(env, s, plan).files, Target(env))
            == if Committed(s.files, Scratch(env), plan) then Some(env.encode(s.mem)) else Lookup(s.files, Target(env))
  {
    AtomicIff(Target(env), Scratch(env));
  }

  /** What a step does to the directory: one flush of the new memory, or nothing. */
  lemma StepFiles(env: Env, s: State, e: Event)
    requires env.path.Some?
    ensures var t := Step(env, s, e);
            t.files == if Flushes(env, s, e) then AfterFlush(env, s.(table := t.table, mem := t.mem), e.plan).files
                       else s.files
  {
    hide StoreFlushed, RemoteAddAllowed, WebAddAllowed, RemoteRemoveAllowed, RemovalTarget, Committed;
    hide InitialTable, Loaded;
  }

  /** What a step does to the store file, for every event. */
  lemma StepTarget(env: Env, s: State, e: Event)
    requires env.path.Some? && Scratch(env) != Target(env)
    ensures Lookup(Step(env, s, e).files, Target(env))
            == if Rewrites(env, s, e) then Some(env.encode(Step(env, s, e).mem)) else Lookup(s.files, Target(env))
  {
    hide Committed, Lookup;
    StepFiles(env, s, e);
    if Flushes(env, s, e) {
      var t := Step(env, s, e);
      FlushTarget(env, s.(table := t.table, mem := t.mem), e.plan);
    }
  }

  /** Some step of the run has rewritten the file. */
  predicate Rewritten(env: Env, s: State, events: seq<Event>)
    requires env.path.Some?
  {
    exists i | 0 <= i < |events| :: Rewrites(env, Run(env, s, events[..i]), events[i])
  }

  /** The last step of the run that has rewritten the file is the one at `i`. */
  predicate LastRewrite(env: Env, s: State, events: seq<Event>, i: nat)
    requires env.path.Some?
  {
    && i < |events| && Rewrites(env, Run(env, s, events[..i]), events[i])
    && forall j | i < j < |events| :: !Rewrites(env, Run(env, s, events[..j]), events[j])
  }

  /** Over every run, failures, crashes and restarts included: the store file is as at first when no step has
      rewritten it, and otherwise the serialisation of the memory right after the last step that has. */
  lemma {:induction false} TargetIsLastRewrite(env: Env, s: State, events: seq<Event>) returns (last: Option<nat>)
    requires env.path.Some? && Scratch(env) != Target(env)
    ensures var target := Lookup(Run(env, s, events).files, Target(env));
            match last
            case None => !Rewritten(env, s, events) && target == Lookup(s.files, Target(env))
            case Some(i) =>
              LastRewrite(env, s, events, i) && target == Some(env.encode(Run(env, s, events[..i + 1]).mem))
  {
    hide Step, Rewrites, Lookup, Rewritten, LastRewrite;
    if events == [] {
      NeverRewritten(env, s);
      return None;
    }
    var n := |events| - 1;
    var t := Run(env, s, events[..n]);
    assert events == events[..n] + [events[n]] && events[..n + 1] == events;
    StepTarget(env, t, events[n]);
    RewrittenStep(env, s, events[..n], events[n]);
    hide Run;
    if Rewrites(env, t, events[n]) {
      LastIsLast(env, s, events, n);
      return Some(n);
    }
    last := TargetIsLastRewrite(env, s, events[..n]);
    if last.Some? {
      LastRemains(env, s, events, last.value);
      assert events[..n][..last.value + 1] == events[..last.value + 1];
    }
  }

  lemma NeverRewritten(env: Env, s: State)
    requires env.path.Some?
    ensures !Rewritten(env, s, [])
  {
  }

  lemma RewrittenStep(env: Env, s: State, events: seq<Event>, e: Event)
    requires env.path.Some?
    ensures Rewritten(env, s, events + [e]) <==> Rewritten(env, s, events) || Rewrites(env, Run(env, s, events), e)
  {
    hide Run, Rewrites;
    var all := events + [e];
    assert forall i | 0 <= i <= |events| :: all[..i] == events[..i];
    assert all[|events|] == e && events[..|events|] == events;
  }

  lemma LastIsLast(env: Env, s: State, events: seq<Event>, n: nat)
    requires env.path.Some? && n + 1 == |events| && Rewrites(env, Run(env, s, events[..n]), events[n])
    ensures LastRewrite(env, s, events, n)
  {
  }

  lemma LastRemains(env: Env, s: State, events: seq<Event>, i: nat)
    requires env.path.Some? && events != []
    requires var n := |events| - 1;
             LastRewrite(env, s, events[..n], i) && !Rewrites(env, Run(env, s, events[..n]), events[n])
    ensures i + 1 < |events| && LastRewrite(env, s, events, i)
  {
    hide Run, Rewrites;
    var n := |events| - 1;
    assert forall j | 0 <= j <= n :: events[..n][..j] == events[..j];
  }

  // ----- How a newer file is lost -----

  /** A flush whose temporary file is the store file itself leaves an existing file alone. */
  predicate Spared(plan: Plan) {
    plan.crash == 0 || plan.removeFails
  }

  /** What a flush does to a store file that is its own temporary file: nothing, or it is gone or holds the
      beginning of the new text. */
  lemma CollidingFlush(files: Files, path: string, body: string, plan: Plan)
    ensures var after := Lookup(Flushed(files, path, path, body, plan).0, path);
            && (path in files && Spared(plan) ==> after == Lookup(files, path))
            && (path in files && !Spared(plan) ==> after == None || StartOf(after, body))
            && (path !in files ==> after == None || StartOf(after, body))
  {
    assert Prefix(body, 0) == "" && Prefix(body, |body|) == body;
    assert StartOf(Some(""), body) && StartOf(Some(body), body);
    assert StartOf(Some(Prefix(body, plan.written)), body);
    hide StartOf, Prefix;
  }

  ghost predicate StartOf(text: Option<string>, body: string) {
    exists n: nat :: text == Some(Prefix(body, n))
  }

  /** This step costs a file that is there: its flush is committed, or, when the temporary file is the store
      file, gets to the removal of the temporary file. */
  predicate Disturbs(env: Env, s: State, e: Event)
    requires env.path.Some?
  {
    Flushes(env, s, e)
    && if Scratch(env) == Target(env) then !Spared(e.plan) else Committed(s.files, Scratch(env), e.plan)
  }

  /** The store file is gone, or is what a flush of this program has left. */
  ghost predicate Remnant(env: Env, files: Files)
    requires env.path.Some?
  {
    Lookup(files, Target(env)) == None
    || exists m: Memory :: Named(m) && StartOf(Lookup(files, Target(env)), env.encode(m))
  }

  ghost predicate Named(m: Memory) {
    forall k :: k in m ==> m[k].name == k
  }

  /** The beginning of a serialisation is not taken for a newer file; for JSON it is no file at all. */
  ghost predicate Recognisable(env: Env) {
    forall m: Memory, n: nat :: Named(m) ==>
      var file := env.decode(Prefix(env.encode(m), n));
      !(file.Some? && file.value.version > STORE_VERSION)
  }

  lemma RemnantIsNotNewer(env: Env, files: Files)
    requires env.path.Some? && Recognisable(env) && Remnant(env, files)
    ensures !Newer(env, files)
  {
    if Lookup(files, Target(env)).Some? {
      var m: Memory :| Named(m) && StartOf(Lookup(files, Target(env)), env.encode(m));
      var n: nat :| Lookup(files, Target(env)) == Some(Prefix(env.encode(m), n));
    }
  }

  lemma WholeIsStart(body: string)
    ensures StartOf(Some(body), body)
  {
    assert Prefix(body, |body|) == body;
  }

  /** What one flush makes of the store file, whatever the temporary file is. */
  lemma FlushLeaves(env: Env, s: State, plan: Plan)
    requires env.path.Some? && Named(s.mem)
    ensures var before, files := Lookup(s.files, Target(env)), AfterFlush(env, s, plan).files;
            var after := Lookup(files, Target(env));
            var costs := if Scratch(env) == Target(env) then !Spared(plan) else Committed(s.files, Scratch(env), plan);
            && (before.Some? && !costs ==> after == before)
            && (before.Some? && costs ==> Remnant(env, files))
            && (before.None? ==> after == before || Remnant(env, files))
  {
    hide Committed, Spared, StartOf, Flushed;
    var body := env.encode(s.mem);
    WholeIsStart(body);
    if Scratch(env) == Target(env) {
      CollidingFlush(s.files, Target(env), body, plan);
    } else {
      FlushTarget(env, s, plan);
    }
  }

  /** What a step makes of the store file: it is a remnant after a disturbing step, the same after any other,
      and a remnant in either case when it is none to begin with. */
  lemma DisturbedTarget(env: Env, s: State, e: Event)
    requires env.path.Some? && Inv(env, s)
    ensures var before, after := Lookup(s.files, Target(env)), Lookup(Step(env, s, e).files, Target(env));
            && (before.Some? && !Disturbs(env, s, e) ==> after == before)
            && (before.Some? && Disturbs(env, s, e) ==> Remnant(env, Step(env, s, e).files))
            && (before.None? ==> after == before || Remnant(env, Step(env, s, e).files))
  {
    var t := Step(env, s, e);
    StepInv(env, s, e);
    assert Named(t.mem);
    hide Inv, Step, Committed, Spared, Flushes, AfterFlush, Lookup, Remnant, Named;
    StepFiles(env, s, e);
    if Flushes(env, s, e) {
      FlushLeaves(env, s.(table := t.table, mem := t.mem), e.plan);
    }
  }

  /** One step of any kind: a newer file stays as it is if and only if the step does not disturb it. */
  lemma NewerFileStep(env: Env, s: State, e: Event)
    requires env.path.Some? && Recognisable(env) && Inv(env, s) && Newer(env, s.files)
    ensures Lookup(Step(env, s, e).files, Target(env)) == Lookup(s.files, Target(env)) <==> !Disturbs(env, s, e)
  {
    DisturbedTarget(env, s, e);
    if Disturbs(env, s, e) {
      RemnantIsNotNewer(env, Step(env, s, e).files);
    }
  }

  predicate Disturbed(env: Env, s: State, events: seq<Event>)
    requires env.path.Some?
  {
    exists i | 0 <= i < |events| :: Disturbs(env, Run(env, s, events[..i]), events[i])
  }

  lemma DisturbedStep(env: Env, s: State, events: seq<Event>, e: Event)
    requires env.path.Some?
    ensures Disturbed(env, s, events + [e]) <==> Disturbed(env, s, events) || Disturbs(env, Run(env, s, events), e)
  {
    hide Run, Disturbs;
    var all := events + [e];
    assert forall i | 0 <= i <= |events| :: all[..i] == events[..i];
    assert all[|events|] == e && events[..|events|] == events;
  }

  lemma NotYetDisturbed(env: Env, s: State)
    requires env.path.Some?
    ensures !Disturbed(env, s, [])
  {
  }

  lemma {:induction false} RemnantOrSame(env: Env, s: State, events: seq<Event>)
    requires env.path.Some? && Inv(env, s) && Lookup(s.files, Target(env)).Some?
    ensures var before, after := s.files, Run(env, s, events).files;
            if Disturbed(env, s, events) then Remnant(env, after)
            else Lookup(after, Target(env)) == Lookup(before, Target(env))
  {
    hide Step, Disturbs, Inv, Disturbed;
    if events == [] {
      NotYetDisturbed(env, s);
    } else {
      var n := |events| - 1;
      assert events == events[..n] + [events[n]];
      RemnantOrSame(env, s, events[..n]);
      DisturbedStep(env, s, events[..n], events[n]);
      RunInv(env, s, events[..n]);
      DisturbedTarget(env, Run(env, s, events[..n]), events[n]);
    }
  }

  /** Whole runs, restarts and crashes included, whatever the store file is called: a file of a newer format is
      still there if and only if no step has disturbed it. */
  lemma NewerFileSurvives(env: Env, s: State, events: seq<Event>)
    requires env.path.Some? && Recognisable(env) && Inv(env, s) && Newer(env, s.files)
    ensures Lookup(Run(env, s, events).files, Target(env)) == Lookup(s.files, Target(env))
            <==> !Disturbed(env, s, events)
  {
    RemnantOrSame(env, s, events);
    if Disturbed(env, s, events) {
      RemnantIsNotNewer(env, Run(env, s, events).files);
    }
  }

  /** A run that loses it: from a fresh start, one accepted addition replaces it by a file that holds the
      added proxy alone. */
  lemma NewerFileReplaced(env: Env, files: Files, p: Proxy, plan: Plan)
    requires env.path.Some? && Newer(env, files) && Flawless(plan)
    requires RemoteAddAllowed(env, InitialTable(env, map[]), p)
    ensures var s := Step(env, Started(env, files, true, None), RemoteAdd(p, plan));
            Lookup(s.files, Target(env)) == Some(env.encode(map[p.name := p]))
  {
    hide InitialTable, RemoteAddAllowed, Lookup, Flushed, Flawless;
    assert Loaded(env, files, true) == map[];
    FlawlessFlush(files, Target(env), Scratch(env), env.encode(map[p.name := p]), plan);
  }

  /** Another, for a store file that is its own temporary file: the creation of the temporary file fails, and
      although nothing was committed the store file is gone. */
  lemma NewerFileRemoved(env: Env, files: Files, p: Proxy)
    requires env.path.Some? && Scratch(env) == Target(env) && Newer(env, files)
    requires RemoteAddAllowed(env, InitialTable(env, map[]), p)
    ensures var s0, add := Started(env, files, true, None), RemoteAdd(p, Plan(false, true, 0, false, false, 9));
            !Rewrites(env, s0, add) && Lookup(Step(env, s0, add).files, Target(env)) == None
  {
    hide InitialTable, RemoteAddAllowed;
    assert Loaded(env, files, true) == map[];
  }
}
