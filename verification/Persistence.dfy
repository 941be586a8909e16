/** `Store`: the persisted map, its file written through a temporary one, and the merge at startup. */
module Persistence {
  import opened Common
  import opened Proxies

  /** The directory the store file lives in. */
  class FileSystem {
    const fold: char -> char
    var files: Files

    constructor (fold: char -> char, initial: Files)
      ensures this.fold == fold && files == initial
    {
      this.fold, files := fold, initial;
    }

    /** `remove_file`, its result ignored. */
    method RemoveFile(name: string, fails: bool)
      modifies this
      ensures files == if fails then old(files) else old(files) - {Folded(fold, name)}
    {
      if !fails {
        files := files - {Folded(fold, name)};
      }
    }

    /** Opening with `create_new`: refused when the name exists. */
    method CreateNew(name: string, fails: bool) returns (ok: bool)
      modifies this
      ensures ok <==> !fails && Folded(fold, name) !in old(files)
      ensures files == if ok then old(files)[Folded(fold, name) := ""] else old(files)
    {
      ok := !fails && Folded(fold, name) !in files;
      if ok {
        files := files[Folded(fold, name) := ""];
      }
    }

    method Write(name: string, content: string)
      modifies this
      ensures files == old(files)[Folded(fold, name) := content]
    {
      files := files[Folded(fold, name) := content];
    }

    method Rename(from: string, to: string)
      requires Folded(fold, from) in files
      modifies this
      ensures files == Renamed(old(files), Folded(fold, from), Folded(fold, to))
    {
      var source, target := Folded(fold, from), Folded(fold, to);
      var content := files[source];
      files := files - {source};
      files := files[target := content];
      if source == target {
        assert files == old(files);
      }
    }
  }

  method AnyKey<K(==), V>(m: map<K, V>) returns (k: K)
    requires m != map[]
    ensures k in m
  {
    k :| k in m;
  }

  class Store {
    const env: Env
    const fs: FileSystem
    var dynamic: Memory

    ghost predicate Valid() {
      fs.fold == env.fold
    }

    /** Reads the file that is there; a missing, unreadable, unparsable or newer one restores nothing. */
    constructor FromConfig(env: Env, fs: FileSystem, readable: bool)
      requires fs.fold == env.fold
      ensures Valid() && this.env == env && this.fs == fs
      ensures dynamic == Loaded(env, fs.files, readable)
    {
      this.env := env;
      this.fs := fs;
      dynamic := map[];
      new;
      if env.path.Some? && Target(env) in fs.files && readable {
        var parsed := env.decode(fs.files[Target(env)]);
        if parsed.Some? && parsed.value.version <= STORE_VERSION {
          var items := parsed.value.proxies;
          for i := 0 to |items|
            invariant fs.files == old(fs.files)
            invariant dynamic == LastWins(Kept(env, items[..i]))
          {
            KeptStep(env, items, i);
            if items[i].name == "" {
              continue;
            }
            if !env.valid(items[i], true) {
              continue;
            }
            dynamic := dynamic[items[i].name := items[i]];
          }
          assert items[..|items|] == items;
        }
      }
    }

    /** `from_config`: fails when the directory of the store cannot be created. */
    static method Open(env: Env, fs: FileSystem, readable: bool, noDirectory: bool) returns (r: Result<Store>)
      requires fs.fold == env.fold
      ensures r.Err? <==> env.path.Some? && noDirectory
      ensures r.Ok? ==> fresh(r.value) && r.value.Valid() && r.value.env == env && r.value.fs == fs
      ensures r.Ok? ==> r.value.dynamic == Loaded(env, fs.files, readable)
    {
      var store := new Store.FromConfig(env, fs, readable);
      if env.path.Some? && noDirectory {
        return Err;
      }
      return Ok(store);
    }

    /** The remembered proxies, in some order. */
    method Values() returns (items: seq<Proxy>)
      requires forall k :: k in dynamic ==> dynamic[k].name == k
      ensures Lists(items, dynamic)
    {
      items := [];
      var rest := dynamic;
      while rest != map[]
        invariant forall k :: k in rest ==> k in dynamic && rest[k] == dynamic[k]
        invariant forall p :: p in items ==> p.name in dynamic && dynamic[p.name] == p
        invariant forall k :: k in dynamic ==> k in rest || dynamic[k] in items
        decreases |rest|
      {
        var k := AnyKey(rest);
        items := items + [rest[k]];
        rest := rest - {k};
      }
    }

    /** Remembers a proxy, in memory before anything is written. */
    method Put(p: Proxy, plan: Plan) returns (outcome: Outcome)
      requires Valid()
      modifies this, fs
      ensures env.path.None? ==> outcome == Done && dynamic == old(dynamic) && fs.files == old(fs.files)
      ensures env.path.Some? ==> dynamic == old(dynamic)[p.name := p]
      ensures env.path.Some? ==> (fs.files, outcome) == StoreFlushed(env, old(fs.files), dynamic, plan)
    {
      if env.path.None? {
        return Done;
      }
      dynamic := dynamic[p.name := p];
      outcome := Flush(plan);
    }

    /** Forgets a proxy; the file is rewritten only if there was something to forget. */
    method Remove(name: string, plan: Plan) returns (existed: bool, outcome: Outcome)
      requires Valid()
      modifies this, fs
      ensures existed <==> env.path.Some? && name in old(dynamic)
      ensures !existed ==> outcome == Done && dynamic == old(dynamic) && fs.files == old(fs.files)
      ensures existed ==> dynamic == old(dynamic) - {name}
      ensures existed ==> (fs.files, outcome) == StoreFlushed(env, old(fs.files), dynamic, plan)
    {
      if env.path.None? {
        return false, Done;
      }
      existed := name in dynamic;
      dynamic := dynamic - {name};
      if existed {
        outcome := Flush(plan);
      } else {
        assert dynamic == old(dynamic);
        outcome := Done;
      }
    }

    /** Temporary file first, then the rename; the process may die before any step. */
    method Flush(plan: Plan) returns (outcome: Outcome)
      requires Valid() && env.path.Some?
      modifies fs
      ensures (fs.files, outcome) == StoreFlushed(env, old(fs.files), dynamic, plan)
    {
      var path := env.path.value;
      var body := env.encode(dynamic);
      var tmp := WithTmp(path);
      if plan.crash == 0 { return Crashed; }
      fs.RemoveFile(tmp, plan.removeFails);
      ghost var removed := fs.files;
      if plan.crash == 1 { return Crashed; }
      var created := fs.CreateNew(tmp, plan.createFails);
      if !created { return Failed; }
      if plan.crash == 2 { return Crashed; }
      if plan.crash == 3 || plan.writeFails {
        fs.Write(tmp, Prefix(body, plan.written));
        assert fs.files == removed[Scratch(env) := Prefix(body, plan.written)];
        return if plan.crash == 3 then Crashed else Failed;
      }
      fs.Write(tmp, body);
      assert fs.files == removed[Scratch(env) := body];
      if plan.crash == 4 { return Crashed; }
      if plan.renameFails { return Failed; }
      fs.Rename(tmp, path);
      return if plan.crash == 5 then Crashed else Done;
    }
  }

  lemma KeptStep(env: Env, items: seq<Proxy>, i: nat)
    requires i < |items|
    ensures Kept(env, items[..i + 1])
            == if Restorable(env, items[i]) then Kept(env, items[..i]) + [items[i]] else Kept(env, items[..i])
    ensures LastWins(Kept(env, items[..i + 1]))
            == if Restorable(env, items[i]) then LastWins(Kept(env, items[..i]))[items[i].name := items[i]]
               else LastWins(Kept(env, items[..i]))
  {
    hide Restorable;
    assert items[..i + 1][..i] == items[..i];
    var before := Kept(env, items[..i]);
    hide Kept;
    assert (before + [items[i]])[..|before|] == before;
  }

  /** The configured proxies, then every stored one that is restorable and whose name is new. */
  function Merged(env: Env, config: seq<Proxy>, stored: seq<Proxy>): (out: seq<Proxy>)
    ensures config <= out
    ensures forall p :: p in out[|config|..] ==> p in stored && Restorable(env, p) && p.name !in Names(config)
    ensures forall p :: p in stored && Restorable(env, p) ==> p.name in Names(out)
    decreases |stored|
  {
    if stored == [] then config
    else
      var before := Merged(env, config, stored[..|stored| - 1]);
      var last := stored[|stored| - 1];
      assert stored == stored[..|stored| - 1] + [last];
      if last.name in Names(before) || !Restorable(env, last) then before else before + [last]
  }

  function Names(items: seq<Proxy>): set<string> {
    set p | p in items :: p.name
  }

  lemma NothingMerged(env: Env, config: seq<Proxy>)
    ensures Merged(env, config, []) == config
  {
  }

  lemma MergedStep(env: Env, config: seq<Proxy>, stored: seq<Proxy>, i: nat)
    requires i < |stored|
    ensures var before, p := Merged(env, config, stored[..i]), stored[i];
            Merged(env, config, stored[..i + 1])
            == if p.name in Names(before) || p.name == "" || !env.valid(p, true) then before else before + [p]
  {
    hide Names;
    assert stored[..i + 1][..i] == stored[..i];
  }

  lemma NamesAppend(items: seq<Proxy>, p: Proxy)
    ensures Names(items + [p]) == Names(items) + {p.name}
  {
  }

  /** `merge_initial`. */
  method MergeInitial(env: Env, config: seq<Proxy>, stored: seq<Proxy>) returns (out: seq<Proxy>)
    ensures out == Merged(env, config, stored)
  {
    hide Restorable, Merged, Names;
    out := config;
    var seen := Names(config);
    NothingMerged(env, config);
    assert stored[..0] == [];
    for i := 0 to |stored|
      invariant out == Merged(env, config, stored[..i]) && seen == Names(out)
    {
      var p := stored[i];
      MergedStep(env, config, stored, i);
      if p.name in seen {
        continue;
      }
      if p.name == "" {
        continue;
      }
      if !env.valid(p, true) {
        continue;
      }
      NamesAppend(out, p);
      seen := seen + {p.name};
      out := out + [p];
    }
    assert stored[..|stored|] == stored;
  }
}
