/** Proxy entries, the table of the running client and the persisted map: what each step of the
    program does to them, as functions on values. */
module Proxies {
  import opened Common

  /** A proxy configuration; `rest` stands for every field the lifecycle does not look at. */
  datatype Proxy = Proxy(name: string, kind: string, rest: nat)

  datatype Origin = Config | Dynamic
  datatype Entry = Entry(cfg: Proxy, origin: Origin)

  type Table = map<string, Entry>
  type Memory = map<string, Proxy>
  type Files = map<string, string>

  /** A decoded store file. */
  datatype StoreFile = StoreFile(version: nat, proxies: seq<Proxy>)

  const STORE_VERSION := 1

  /** What the client is started with: the configured proxies, the `user` prefix, the store path if one
      is set, how the file system tells names apart (`fold` is the identity where case matters), and, as
      parameters, `validate_remote_proxy` and the JSON form of the store file. */
  datatype Env = Env(config: seq<Proxy>, user: string, path: Option<string>, fold: char -> char,
                     valid: (Proxy, bool) -> bool, encode: Memory -> string, decode: string -> Option<StoreFile>)

  // ----- Building maps from lists -----

  /** Later items replace earlier ones of the same name. */
  function LastWins(items: seq<Proxy>): (m: Memory)
    ensures forall k :: k in m <==> exists p :: p in items && p.name == k
    ensures forall k :: k in m ==> m[k] in items && m[k].name == k
  {
    if items == [] then map[]
    else
      var last := items[|items| - 1];
      assert items == items[..|items| - 1] + [last];
      LastWins(items[..|items| - 1])[last.name := last]
  }

  /** The list holds exactly the values of the map. */
  ghost predicate Lists(items: seq<Proxy>, m: Memory) {
    && (forall p :: p in items ==> p.name in m && m[p.name] == p)
    && (forall k :: k in m ==> m[k] in items && m[k].name == k)
  }

  /** Which stored proxies may come back to life. */
  predicate Restorable(env: Env, p: Proxy) {
    p.name != "" && env.valid(p, true)
  }

  function Kept(env: Env, items: seq<Proxy>): (kept: seq<Proxy>)
    ensures forall p :: p in kept <==> p in items && Restorable(env, p)
  {
    if items == [] then []
    else
      var last := items[|items| - 1];
      assert items == items[..|items| - 1] + [last];
      Kept(env, items[..|items| - 1]) + if Restorable(env, last) then [last] else []
  }

  function KeptMemory(env: Env, m: Memory): Memory {
    map k | k in m && Restorable(env, m[k]) :: m[k]
  }

  /** Loading a list that holds exactly the values of a map gives the restorable part of the map. */
  lemma LoadLists(env: Env, items: seq<Proxy>, m: Memory)
    requires Lists(items, m)
    ensures LastWins(Kept(env, items)) == KeptMemory(env, m)
  {
    hide Restorable, LastWins, Kept;
    var kept, part := Kept(env, items), KeptMemory(env, m);
    var loaded := LastWins(kept);
    forall k | k in part ensures k in loaded {
      assert m[k] in kept;
    }
    forall k | k in loaded ensures k in part && loaded[k] == part[k] {
      assert loaded[k] in kept && loaded[k] in items && loaded[k].name == k;
    }
    assert loaded.Keys == part.Keys;
  }

  // ----- The store file -----

  /** What a name is to the file system: names with the same folding are the same file. */
  function Folded(fold: char -> char, name: string): (r: string)
    ensures |r| == |name|
  {
    seq(|name|, i requires 0 <= i < |name| => fold(name[i]))
  }

  function Target(env: Env): string
    requires env.path.Some?
  {
    Folded(env.fold, env.path.value)
  }

  /** The temporary file. */
  function Scratch(env: Env): string
    requires env.path.Some?
  {
    Folded(env.fold, WithTmp(env.path.value))
  }

  /** What `Store::from_config` reads into memory: nothing when there is no path, no readable file,
      no parse, or a newer format; otherwise the restorable proxies of the file. */
  function Loaded(env: Env, files: Files, readable: bool): Memory {
    if env.path.None? || Target(env) !in files || !readable then map[]
    else
      match env.decode(files[Target(env)])
      case None => map[]
      case Some(file) => if file.version > STORE_VERSION then map[] else LastWins(Kept(env, file.proxies))
  }

  /** How one flush goes: which of its file operations fail, how much of the body a failed or
      interrupted write leaves, and before which step (0 to 5) the process dies, if any. */
  datatype Plan = Plan(removeFails: bool, createFails: bool, written: nat, writeFails: bool, renameFails: bool,
                       crash: nat)

  datatype Outcome = Done | Failed | Crashed

  function Prefix(s: string, n: nat): string {
    s[..if n <= |s| then n else |s|]
  }

  /** `flush`: remove the temporary file, create it anew, write, rename it over the target. */
  function Flushed(files: Files, path: string, tmp: string, body: string, plan: Plan): (Files, Outcome) {
    if plan.crash == 0 then (files, Crashed)
    else
      var removed := if plan.removeFails then files else files - {tmp};
      if plan.crash == 1 then (removed, Crashed)
      else if plan.createFails || tmp in removed then (removed, Failed)
      else if plan.crash == 2 then (removed[tmp := ""], Crashed)
      else if plan.crash == 3 then (removed[tmp := Prefix(body, plan.written)], Crashed)
      else if plan.writeFails then (removed[tmp := Prefix(body, plan.written)], Failed)
      else if plan.crash == 4 then (removed[tmp := body], Crashed)
      else if plan.renameFails then (removed[tmp := body], Failed)
      else (Renamed(removed[tmp := body], tmp, path), if plan.crash == 5 then Crashed else Done)
  }

  function Renamed(files: Files, from: string, to: string): Files
    requires from in files
  {
    if from == to then files else (files - {from})[to := files[from]]
  }

  /** Whether the flush got past its rename. */
  predicate Committed(files: Files, tmp: string, plan: Plan) {
    && plan.crash >= 5 && !plan.createFails && !plan.writeFails && !plan.renameFails
    && (plan.removeFails ==> tmp !in files)
  }

  /** A flush of the store of `env` with this memory. */
  function StoreFlushed(env: Env, files: Files, mem: Memory, plan: Plan): (Files, Outcome)
    requires env.path.Some?
  {
    Flushed(files, Target(env), Scratch(env), env.encode(mem), plan)
  }

  // ----- The name of the temporary file -----

  /** Last components that are no file names. */
  predicate NoFileName(name: string) {
    name == "" || name == "." || name == ".."
  }

  /** `path.with_extension("tmp")` on the last component of the path: the text after the last dot,
      unless that dot comes first, is replaced. */
  function WithTmp(name: string): string {
    if NoFileName(name) then name else Stem(name, |name|) + ".tmp"
  }

  function Stem(name: string, end: nat): string
    requires end <= |name|
  {
    if end <= 1 then name
    else if name[end - 1] == '.' then name[..end - 1]
    else Stem(name, end - 1)
  }

  predicate KeepsDots(fold: char -> char) {
    forall c :: fold(c) == '.' <==> c == '.'
  }

  /** The name ends in the extension `tmp`, as the file system sees it. */
  predicate HasTmpExtension(fold: char -> char, name: string) {
    |name| > 4 && Folded(fold, name[|name| - 4..]) == Folded(fold, ".tmp")
  }

  lemma {:induction false} StemShape(name: string, end: nat)
    requires end <= |name|
    ensures Stem(name, end) <= name
    ensures name != "" ==> Stem(name, end) != ""
    decreases end
  {
    if end > 1 && name[end - 1] != '.' {
      StemShape(name, end - 1);
    }
  }

  lemma {:induction false} StemStops(name: string, end: nat, dot: nat)
    requires 1 <= dot < end <= |name| && name[dot] == '.' && forall i | dot < i < end :: name[i] != '.'
    ensures Stem(name, end) == name[..dot]
    decreases end
  {
    if dot < end - 1 {
      StemStops(name, end - 1, dot);
    }
  }

  lemma TailIs(name: string, dot: nat, ext: string)
    requires dot < |name| && name[dot..] == ext && ext[0] == '.' && '.' !in ext[1..]
    ensures name[dot] == '.' && forall i | dot < i < |name| :: name[i] != '.'
  {
    assert name[dot..][0] == name[dot];
    forall i | dot < i < |name| ensures name[i] != '.' {
      assert ext[1..][i - dot - 1] == name[dot..][i - dot] == name[i];
    }
  }

  lemma TailOf(a: string, ext: string)
    ensures (a + ext)[|a|..] == ext
  {
  }

  lemma StemDropsExtension(name: string, ext: string)
    requires |ext| == 4 && ext[0] == '.' && '.' !in ext[1..] && name != ""
    ensures Stem(name, |name|) + ext == name <==> |name| > 4 && name[|name| - 4..] == ext
  {
    hide Stem;
    var n := |name|;
    StemShape(name, n);
    if n > 4 && name[n - 4..] == ext {
      TailIs(name, n - 4, ext);
      StemStops(name, n, n - 4);
      assert name == name[..n - 4] + name[n - 4..];
    }
    if Stem(name, n) + ext == name {
      TailOf(Stem(name, n), ext);
    }
  }

  lemma {:induction false} FoldedStem(fold: char -> char, name: string, end: nat)
    requires KeepsDots(fold) && end <= |name|
    ensures Folded(fold, Stem(name, end)) == Stem(Folded(fold, name), end)
    decreases end
  {
    if end > 1 {
      if name[end - 1] == '.' {
        assert Folded(fold, name[..end - 1]) == Folded(fold, name)[..end - 1];
      } else {
        FoldedStem(fold, name, end - 1);
      }
    }
  }

  /** The temporary file is the target itself exactly for names with the extension `tmp`, and for last
      components that are no file names. */
  lemma TmpCollides(fold: char -> char, name: string)
    requires KeepsDots(fold)
    ensures Folded(fold, WithTmp(name)) == Folded(fold, name) <==> NoFileName(name) || HasTmpExtension(fold, name)
  {
    var n := |name|;
    if !NoFileName(name) {
      var ext := Folded(fold, ".tmp");
      FoldedStem(fold, name, n);
      StemDropsExtension(Folded(fold, name), ext);
      assert Folded(fold, Stem(name, n) + ".tmp") == Folded(fold, Stem(name, n)) + ext;
      assert n > 4 ==> Folded(fold, name)[n - 4..] == Folded(fold, name[n - 4..]);
    } else {
      assert |name| <= 4;
    }
  }
}
