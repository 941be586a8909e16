/** The running client: what its startup and its command handlers do to the table and the store is
    exactly the corresponding step of the lifecycle. */
module ClientLoop {
  import opened Common
  import opened Proxies
  import opened Registry
  import opened Persistence
  import opened Lifecycle
  import Text

  /** The items whose name is, or is not, among the given names. */
  function Selected(items: seq<Proxy>, names: set<string>, inside: bool): (r: seq<Proxy>)
    ensures forall p :: p in r <==> p in items && (p.name in names <==> inside)
  {
    if items == [] then []
    else
      var last := items[|items| - 1];
      assert items == items[..|items| - 1] + [last];
      Selected(items[..|items| - 1], names, inside) + if last.name in names <==> inside then [last] else []
  }

  lemma {:induction false} SelectedAll(items: seq<Proxy>, names: set<string>)
    requires forall p :: p in items ==> p.name in names
    ensures Selected(items, names, true) == items
  {
    if items != [] {
      assert items == items[..|items| - 1] + [items[|items| - 1]];
      SelectedAll(items[..|items| - 1], names);
    }
  }

  lemma {:induction false} SelectedAppend(items: seq<Proxy>, more: seq<Proxy>, names: set<string>)
    requires forall p :: p in more ==> p.name !in names
    ensures Selected(items + more, names, true) == Selected(items, names, true)
  {
    if more == [] {
      assert items + more == items;
    } else {
      var n := |more| - 1;
      assert more == more[..n] + [more[n]];
      assert (items + more)[..|items + more| - 1] == items + more[..n];
      SelectedAppend(items, more[..n], names);
    }
  }

  /** The two filters over the merged list at startup. */
  method TellApart(all: seq<Proxy>, names: set<string>) returns (inside: seq<Proxy>, outside: seq<Proxy>)
    ensures inside == Selected(all, names, true) && outside == Selected(all, names, false)
  {
    inside, outside := [], [];
    for i := 0 to |all|
      invariant inside == Selected(all[..i], names, true) && outside == Selected(all[..i], names, false)
    {
      assert all[..i + 1][..i] == all[..i];
      if all[i].name in names {
        inside := inside + [all[i]];
      } else {
        outside := outside + [all[i]];
      }
    }
    assert all[..|all|] == all;
  }

  /** Telling the merged list apart by the configured names gives back the configuration ... */
  lemma ConfiguredAgain(env: Env, stored: seq<Proxy>)
    ensures Selected(Merged(env, env.config, stored), Names(env.config), true) == env.config
  {
    var all, names := Merged(env, env.config, stored), Names(env.config);
    var tail := all[|env.config|..];
    assert all == env.config + tail;
    SelectedAppend(env.config, tail, names);
    SelectedAll(env.config, names);
  }

  /** ... and only restorable stored proxies with new names ... */
  lemma RestoredOnly(env: Env, stored: seq<Proxy>, p: Proxy)
    requires p in Merged(env, env.config, stored) && p.name !in Names(env.config)
    ensures p in stored && Restorable(env, p)
  {
    var all := Merged(env, env.config, stored);
    var tail := all[|env.config|..];
    assert all == env.config + tail && p in tail;
  }

  /** ... and all of them, when the stored list is a map's values. */
  lemma RestoredAll(env: Env, stored: seq<Proxy>, mem: Memory, k: string)
    requires Lists(stored, mem) && k in KeptMemory(env, mem) && k !in Names(env.config)
    ensures mem[k] in Merged(env, env.config, stored)
  {
    var all := Merged(env, env.config, stored);
    assert mem[k] in stored && mem[k].name in Names(all);
    var p :| p in all && p.name == k;
    RestoredOnly(env, stored, p);
    assert p == mem[k];
  }

  lemma NoneListed()
    ensures Lists([], map[])
  {
  }

  lemma ConfiguredNames(env: Env, k: string)
    ensures k in Names(env.config) <==> k in ConfigMap(env)
  {
  }

  /** The items told apart as restored are exactly the restorable stored proxies with new names. */
  lemma RestoredExactly(env: Env, stored: seq<Proxy>, mem: Memory, restored: seq<Proxy>)
    requires Lists(stored, mem)
    requires restored == Selected(Merged(env, env.config, stored), Names(env.config), false)
    ensures forall p :: p in restored ==>
                          p.name in KeptMemory(env, mem) && mem[p.name] == p && p.name !in ConfigMap(env)
    ensures forall k :: k in KeptMemory(env, mem) && k !in ConfigMap(env) ==> mem[k] in restored && mem[k].name == k
  {
    hide LastWins, Merged, Selected, Restorable, ConfigMap, Names;
    forall p | p in restored ensures p in stored && Restorable(env, p) && p.name !in ConfigMap(env) {
      ConfiguredNames(env, p.name);
      RestoredOnly(env, stored, p);
    }
    forall k | k in KeptMemory(env, mem) && k !in ConfigMap(env) ensures mem[k] in restored && mem[k].name == k {
      ConfiguredNames(env, k);
      RestoredAll(env, stored, mem, k);
    }
  }

  lemma ConfiguredTable(env: Env)
    ensures ConfigMap(env) == LastWins(env.config)
    ensures forall k :: k in Configured(ConfigMap(env)) <==> k in ConfigMap(env)
    ensures forall k :: k in ConfigMap(env) ==> Configured(ConfigMap(env))[k] == Entry(ConfigMap(env)[k], Config)
  {
  }

  lemma StartupTable(env: Env, mem: Memory, restored: seq<Proxy>, table: Table)
    requires forall p :: p in restored ==>
                           p.name in KeptMemory(env, mem) && mem[p.name] == p && p.name !in ConfigMap(env)
    requires forall k :: k in KeptMemory(env, mem) && k !in ConfigMap(env) ==> mem[k] in restored && mem[k].name == k
    requires forall k :: k in table <==> k in Configured(ConfigMap(env)) || exists p :: p in restored && p.name == k
    requires forall k :: k in ConfigMap(env) ==> table[k] == Entry(ConfigMap(env)[k], Config)
    requires forall k :: k in table && k !in ConfigMap(env) ==>
                           table[k].origin == Dynamic && table[k].cfg in restored && table[k].cfg.name == k
    ensures table == InitialTable(env, mem)
  {
    hide LastWins, Restorable;
    var initial := InitialTable(env, mem);
    forall k ensures k in table <==> k in initial {
    }
    forall k | k in table ensures table[k] == initial[k] {
    }
  }

  class Client {
    const env: Env
    const fs: FileSystem
    const table: ProxyTable
    const store: Store
    var up: bool
    ghost var saved: Option<Memory>

    ghost predicate Valid()
      reads this, store
    {
      store.env == env && store.fs == fs && store.Valid()
    }

    ghost function Now(): State
      reads this, table, store, fs
    {
      State(table.entries, store.dynamic, fs.files, up, saved)
    }

    /** Startup with an opened store: it is merged behind the configuration, and the two kinds of entries
        are told apart again by the configured names. */
    constructor (env: Env, store: Store, ghost readable: bool, ghost saved: Option<Memory>)
      requires store.Valid() && store.env == env && store.dynamic == Loaded(env, store.fs.files, readable)
      ensures Valid() && fresh(table) && this.env == env && this.fs == store.fs && this.store == store
      ensures Now() == Started(env, store.fs.files, readable, saved)
    {
      LoadedRestorable(env, store.fs.files, readable);
      var table := FirstTable(env, store);
      this.env, this.fs, this.table, this.store, this.up, this.saved := env, store.fs, table, store, true, saved;
    }

    /** The beginning of the program: without its store it does not start, and nothing changes. */
    static method Launch(env: Env, fs: FileSystem, readable: bool, noDirectory: bool, ghost saved: Option<Memory>)
      returns (r: Result<Client>)
      requires fs.fold == env.fold
      ensures r.Err? <==> env.path.Some? && noDirectory
      ensures r.Ok? ==> fresh(r.value) && fresh(r.value.table) && fresh(r.value.store) && r.value.Valid()
      ensures r.Ok? ==> r.value.fs == fs && r.value.Now() == Started(env, fs.files, readable, saved)
    {
      var store := Store.Open(env, fs, readable, noDirectory);
      if store.Err? {
        return Err;
      }
      var client := new Client(env, store.value, readable, saved);
      return Ok(client);
    }

    static method FirstTable(env: Env, store: Store) returns (table: ProxyTable)
      requires store.env == env && forall k :: k in store.dynamic ==> store.dynamic[k].name == k
      requires env.path.None? ==> store.dynamic == map[]
      ensures fresh(table) && table.entries == InitialTable(env, store.dynamic)
    {
      hide InitialTable, LastWins, Merged, Selected, Restorable, KeptMemory, Lists, ConfigMap, Names, Configured;
      var stored: seq<Proxy> := [];
      NoneListed();
      if env.path.Some? {
        stored := store.Values();
      }
      var all := MergeInitial(env, env.config, stored);
      var names := Names(env.config);
      var configured, restored := TellApart(all, names);
      ConfiguredAgain(env, stored);
      assert configured == env.config;
      table := new ProxyTable.FromIter(configured);
      table.LoadDynamic(restored);
      RestoredExactly(env, stored, store.dynamic, restored);
      ConfiguredTable(env);
      StartupTable(env, store.dynamic, restored, table.entries);
    }

    /** `add_proxy_cmd`. */
    method RemoteAdd(p: Proxy, plan: Plan) returns (ok: bool)
      requires Valid() && up
      modifies this, table, store, fs
      ensures Valid() && Now() == Step(env, old(Now()), Event.RemoteAdd(p, plan))
      ensures ok <==> RemoteAddAllowed(env, old(table.entries), p)
    {
      if p.name == "" || p.kind == "" || !env.valid(p, true) {
        return false;
      }
      var inserted := table.InsertDynamic(p);
      if inserted.Err? {
        return false;
      }
      Persist(p, plan);
      return true;
    }

    method Persist(p: Proxy, plan: Plan)
      requires Valid() && up
      modifies this, store, fs
      ensures Valid() && Now() == StorePut(env, old(Now()), p, plan)
    {
      if env.path.Some? {
        saved := if Committed(fs.files, Scratch(env), plan) then Some(store.dynamic[p.name := p]) else saved;
      }
      var outcome := store.Put(p, plan);
      up := outcome != Crashed;
    }

    method Forget(name: string, plan: Plan)
      requires Valid() && up
      modifies this, store, fs
      ensures Valid() && Now() == StoreRemove(env, old(Now()), name, plan)
    {
      if env.path.Some? && name in store.dynamic {
        saved := if Committed(fs.files, Scratch(env), plan) then Some(store.dynamic - {name}) else saved;
      }
      var existed, outcome := store.Remove(name, plan);
      up := outcome != Crashed;
    }

    /** The `remove_proxy` arm of `apply_server_cmd`, with its retry without the client's own prefix. */
    method RemoteRemove(requested: string, plan: Plan) returns (ok: bool)
      requires Valid() && up
      modifies this, table, store, fs
      ensures Valid() && Now() == Step(env, old(Now()), Event.RemoteRemove(requested, plan))
      ensures ok <==> RemoteRemoveAllowed(env, old(table.entries), requested)
    {
      if requested == "" {
        return false;
      }
      ghost var before := table.entries;
      var name := requested;
      var removed := table.RemoveDynamic(name);
      if removed == Ok(None) {
        assert table.entries == before;
        var local := StripUser(env.user, requested);
        if local != requested {
          var again := table.RemoveDynamic(local);
          if again != Ok(None) {
            name, removed := local, again;
          } else {
            assert table.entries == before;
          }
        }
      }
      if removed.Err? || removed.value.None? {
        return false;
      }
      Forget(name, plan);
      return true;
    }

    /** `Hub::add` and `add_live`: the entry goes in before the server is asked and comes out again on
        every failure. */
    method WebAdd(p: Proxy, sent: bool, msgs: seq<Incoming>, plan: Plan) returns (ok: bool)
      requires Valid() && up
      modifies this, table, store, fs
      ensures Valid() && Now() == Step(env, old(Now()), Event.WebAdd(p, sent, msgs, plan))
      ensures ok <==> WebAddAllowed(env, old(table.entries), p, sent, msgs)
      ensures !ok ==> Now() == old(Now())
    {
      hide Text.Trim;
      hide Text.Blank;
      Text.TrimEmpty(p.name);
      Text.TrimEmpty(p.kind);
      if Text.Trim(p.name) == "" || Text.Trim(p.kind) == "" || !env.valid(p, false) {
        return false;
      }
      var present := table.Get(p.name);
      if present.Some? {
        return false;
      }
      ghost var before := table.entries;
      var _ := table.Insert(p);
      assert table.entries - {p.name} == before;
      if !sent {
        var _ := table.Remove(p.name);
        return false;
      }
      for i := 0 to |msgs|
        invariant Accepted(msgs) == Accepted(msgs[i..])
                && Now() == old(Now()).(table := before[p.name := Entry(p, Dynamic)])
      {
        assert msgs[i..][1..] == msgs[i + 1..];
        match msgs[i] {
          case Response(error) =>
            if error != "" {
              var _ := table.Remove(p.name);
              return false;
            }
            Persist(p, plan);
            return true;
          case TimedOut | RecvFailed | Closed =>
            var _ := table.Remove(p.name);
            return false;
          case ReqWorkConn | Pong | Other =>
        }
      }
      // the deadline has passed
      var _ := table.Remove(p.name);
      return false;
    }

    /** `remove_live`. */
    method WebRemove(name: string, plan: Plan) returns (ok: bool)
      requires Valid() && up
      modifies this, table, store, fs
      ensures Valid() && Now() == Step(env, old(Now()), Event.WebRemove(name, plan))
      ensures ok <==> name in old(table.entries)
    {
      ghost var before := table.entries;
      var was := table.Remove(name);
      if was.None? {
        assert table.entries == before;
        return false;
      }
      Forget(name, plan);
      return true;
    }
  }
}
