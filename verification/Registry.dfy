/** `ProxyTable`: the live table, whose remote writers may only touch Dynamic entries. */
module Registry {
  import opened Common
  import opened Proxies

  function Configured(m: Memory): Table {
    map k | k in m :: Entry(m[k], Config)
  }

  lemma ConfiguredStep(m: Memory, p: Proxy)
    ensures Configured(m[p.name := p]) == Configured(m)[p.name := Entry(p, Config)]
  {
  }

  predicate FirstOfItsName(items: seq<Proxy>, i: nat)
    requires i < |items|
  {
    forall j | 0 <= j < i :: items[j].name != items[i].name
  }

  /** The items in order, each as a Dynamic entry unless its name is taken. */
  function Restored(before: Table, items: seq<Proxy>): Table {
    if items == [] then before
    else
      var so, last := Restored(before, items[..|items| - 1]), items[|items| - 1];
      if last.name in so then so else so[last.name := Entry(last, Dynamic)]
  }

  lemma {:induction false} RestoredName(before: Table, items: seq<Proxy>, k: string)
    ensures var now := Restored(before, items);
            && (k in now <==> k in before || exists p :: p in items && p.name == k)
            && (k in before ==> now[k] == before[k])
            && (k in now && k !in before ==>
                  now[k].origin == Dynamic && now[k].cfg in items && now[k].cfg.name == k)
  {
    if items != [] {
      var n := |items| - 1;
      RestoredName(before, items[..n], k);
      assert items == items[..n] + [items[n]];
    }
  }

  lemma {:induction false} FirstWins(before: Table, items: seq<Proxy>, i: nat)
    requires i < |items| && items[i].name !in before && FirstOfItsName(items, i)
    ensures items[i].name in Restored(before, items)
    ensures Restored(before, items)[items[i].name] == Entry(items[i], Dynamic)
    decreases |items|
  {
    var n := |items| - 1;
    if i < n {
      FirstWins(before, items[..n], i);
    } else {
      RestoredName(before, items[..n], items[n].name);
    }
  }

  lemma RestoredShape(before: Table, items: seq<Proxy>)
    ensures var now := Restored(before, items);
            && (forall k :: k in now <==> k in before || exists p :: p in items && p.name == k)
            && (forall k :: k in before ==> now[k] == before[k])
            && (forall k :: k in now && k !in before ==>
                  now[k].origin == Dynamic && now[k].cfg in items && now[k].cfg.name == k)
            && (forall i | 0 <= i < |items| :: items[i].name !in before && FirstOfItsName(items, i)
                  ==> now[items[i].name] == Entry(items[i], Dynamic))
  {
    hide Restored;
    forall k {
      RestoredName(before, items, k);
    }
    forall i | 0 <= i < |items| && items[i].name !in before && FirstOfItsName(items, i)
      ensures Restored(before, items)[items[i].name] == Entry(items[i], Dynamic)
    {
      FirstWins(before, items, i);
    }
  }

  class ProxyTable {
    var entries: Table

    constructor ()
      ensures entries == map[]
    {
      entries := map[];
    }

    /** Configured proxies: all marked Config, a later one of the same name wins. */
    constructor FromIter(items: seq<Proxy>)
      ensures entries == Configured(LastWins(items))
    {
      entries := map[];
      new;
      for i := 0 to |items|
        invariant entries == Configured(LastWins(items[..i]))
      {
        assert items[..i + 1][..i] == items[..i];
        ConfiguredStep(LastWins(items[..i]), items[i]);
        entries := entries[items[i].name := Entry(items[i], Config)];
      }
      assert items[..|items|] == items;
    }

    /** Restored proxies: marked Dynamic; an entry already there is kept, so the first of a name wins. */
    method LoadDynamic(items: seq<Proxy>)
      modifies this
      ensures entries == Restored(old(entries), items)
      ensures forall k :: k in entries <==> k in old(entries) || exists p :: p in items && p.name == k
      ensures forall k :: k in old(entries) ==> entries[k] == old(entries)[k]
      ensures forall k :: k in entries && k !in old(entries) ==>
                            entries[k].origin == Dynamic && entries[k].cfg in items && entries[k].cfg.name == k
      ensures forall i | 0 <= i < |items| :: items[i].name !in old(entries) && FirstOfItsName(items, i)
                ==> entries[items[i].name] == Entry(items[i], Dynamic)
    {
      for i := 0 to |items|
        invariant entries == Restored(old(entries), items[..i])
      {
        assert items[..i + 1][..i] == items[..i];
        if items[i].name !in entries {
          entries := entries[items[i].name := Entry(items[i], Dynamic)];
        }
      }
      assert items[..|items|] == items;
      RestoredShape(old(entries), items);
    }

    method Get(name: string) returns (r: Option<Proxy>)
      ensures r == if name in entries then Some(entries[name].cfg) else None
    {
      r := if name in entries then Some(entries[name].cfg) else None;
    }

    /** Remote addition: refused for a configured name, and then nothing changes. */
    method InsertDynamic(p: Proxy) returns (r: Result<Option<Proxy>>)
      modifies this
      ensures r.Err? <==> p.name in old(entries) && old(entries)[p.name].origin == Config
      ensures r.Err? ==> entries == old(entries)
      ensures r.Ok? ==> entries == old(entries)[p.name := Entry(p, Dynamic)]
      ensures r.Ok? ==> r.value == if p.name in old(entries) then Some(old(entries)[p.name].cfg) else None
    {
      if p.name in entries && entries[p.name].origin == Config {
        return Err;
      }
      r := Ok(if p.name in entries then Some(entries[p.name].cfg) else None);
      entries := entries[p.name := Entry(p, Dynamic)];
    }

    /** Remote removal: refused for a configured name, and then nothing changes. */
    method RemoveDynamic(name: string) returns (r: Result<Option<Proxy>>)
      modifies this
      ensures r.Err? <==> name in old(entries) && old(entries)[name].origin == Config
      ensures r.Err? ==> entries == old(entries)
      ensures r.Ok? ==> entries == old(entries) - {name}
      ensures r.Ok? ==> r.value == if name in old(entries) then Some(old(entries)[name].cfg) else None
    {
      if name in entries && entries[name].origin == Config {
        return Err;
      }
      r := Ok(if name in entries then Some(entries[name].cfg) else None);
      entries := entries - {name};
    }

    /** Local addition: an entry already there keeps its origin. */
    method Insert(p: Proxy) returns (was: Option<Proxy>)
      modifies this
      ensures var origin := if p.name in old(entries) then old(entries)[p.name].origin else Dynamic;
              entries == old(entries)[p.name := Entry(p, origin)]
      ensures was == if p.name in old(entries) then Some(old(entries)[p.name].cfg) else None
    {
      was := if p.name in entries then Some(entries[p.name].cfg) else None;
      var origin := if p.name in entries then entries[p.name].origin else Dynamic;
      entries := entries[p.name := Entry(p, origin)];
    }

    /** Local removal, whatever the origin. */
    method Remove(name: string) returns (was: Option<Proxy>)
      modifies this
      ensures entries == old(entries) - {name}
      ensures was == if name in old(entries) then Some(old(entries)[name].cfg) else None
    {
      was := if name in entries then Some(entries[name].cfg) else None;
      entries := entries - {name};
    }
  }
}
