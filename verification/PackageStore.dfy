/**
 The PortMaster package store: one directory per installed generation, a shared
 content-addressed runtime pool, and one index file that names what is in use.
 Disk holds what other processes (and the next process) would see; every change
 of it is appended to a log, so a process may be imagined to die after any
 entry of the log.
 */
module PackageStore {
  import opened Common

  type Blob = seq<byte>

  predicate HexChar(c: char) { '0' <= c <= '9' || 'a' <= c <= 'f' }

  predicate Hex(s: string, n: nat) { |s| == n && forall i :: 0 <= i < n ==> HexChar(s[i]) }

  /** A SHA-256 digest in hexadecimal, the name of a file in the runtime pool. */
  type Token = s: string | Hex(s, 64) witness seq(64, i => '0')

  predicate Alphanumeric(c: char) { 'a' <= c <= 'z' || '0' <= c <= '9' }

  predicate IdChar(c: char) { Alphanumeric(c) || c in "_.-" }

  function Slug(name: string): string {
    if |name| < 4 then "" else name[..|name| - 4]
  }

  predicate PackageId(name: string) {
    && EndsWith(name, ".zip")
    && 1 <= |Slug(name)| <= 111
    && Alphanumeric(name[0])
    && (forall i :: 0 <= i < |name| - 4 ==> IdChar(name[i]))
    && name != "portmaster.zip"
    && !EndsWith(name, ".theme.zip")
  }

  /** The characters of an identifier, by their codes: lower-case letters, digits, and behind the first `_.-`. */
  ghost predicate IdCode(c: char, first: bool) {
    97 <= c as int <= 122 || 48 <= c as int <= 57 || (!first && c as int in {45, 46, 95})
  }

  /** An identifier is its directory's name with ".zip" behind it, and these are the names allowed. */
  lemma PackageIdMeans(stem: string)
    ensures Slug(stem + ".zip") == stem
    ensures PackageId(stem + ".zip") <==>
              && 1 <= |stem| <= 111 && (forall i :: 0 <= i < |stem| ==> IdCode(stem[i], i == 0))
              && stem != "portmaster" && !EndsWith(stem, ".theme")
  {
    var name := stem + ".zip";
    assert name[..|name| - 4] == stem && EndsWith(name, ".zip");
    assert forall i :: 0 <= i < |stem| ==> name[i] == stem[i];
    forall i | 0 <= i < |stem|
      ensures IdCode(stem[i], i == 0) <==> if i == 0 then Alphanumeric(name[i]) else IdChar(name[i])
    {
      CodesAgree(stem[i]);
    }
    ReservedNames(stem);
  }

  lemma CodesAgree(c: char)
    ensures Alphanumeric(c) <==> IdCode(c, true)
    ensures IdChar(c) <==> IdCode(c, false)
  {
  }

  lemma ReservedNames(stem: string)
    ensures stem + ".zip" == "portmaster.zip" <==> stem == "portmaster"
    ensures EndsWith(stem + ".zip", ".theme.zip") <==> EndsWith(stem, ".theme")
  {
    SuffixLonger("portmaster", stem, ".zip");
    assert "portmaster.zip" == "portmaster" + ".zip" && ".theme.zip" == ".theme" + ".zip";
    if |stem| >= 6 {
      SuffixLonger(".theme", stem[|stem| - 6..], ".zip");
      assert (stem + ".zip")[|stem| + 4 - 10..] == stem[|stem| - 6..] + ".zip";
    }
  }

  lemma SuffixLonger(a: string, b: string, suffix: string)
    ensures a + suffix == b + suffix <==> a == b
  {
    if a + suffix == b + suffix {
      assert a == (a + suffix)[..|a|] && b == (b + suffix)[..|b|];
    }
  }

  /** Every identifier is of that form. */
  lemma PackageIdForm(name: string)
    requires PackageId(name)
    ensures name == Slug(name) + ".zip"
  {
  }

  /** A hexadecimal digit by its code. */
  lemma HexMeans(s: string, n: nat)
    ensures Hex(s, n) <==>
            |s| == n && forall i :: 0 <= i < n ==> 48 <= s[i] as int <= 57 || 97 <= s[i] as int <= 102
  {
  }

  datatype Version = Version(generation: string, md5: string, runtimes: map<string, string>, info: map<string, string>)

  /** An index entry; in the file, `previous` is itself an entry. */
  datatype Record = Record(version: Version, previous: Option<Record>)

  datatype CacheItem = CacheItem(sha256: string, md5: string, bytes: nat)

  datatype Index = Index(packages: map<string, Record>, runtimes: map<string, CacheItem>)

  ghost function Strip(r: Record): Record { r.(previous := None) }

  ghost function Depth(r: Record): nat {
    match r.previous
    case None => 1
    case Some(p) => 1 + Depth(p)
  }

  /** The versions of an entry that must stay usable: the current one and the one before. */
  function Versions(r: Record): set<Version> {
    {r.version} + if r.previous.Some? then {r.previous.value.version} else {}
  }

  function Live(packages: map<string, Record>): set<(string, Version)> {
    set name, v | name in packages && v in Versions(packages[name]) :: (name, v)
  }

  /** The runtime tokens an index refers to. */
  function Tokens(packages: map<string, Record>): set<string> {
    set nv, rt | nv in Live(packages) && rt in nv.1.runtimes :: nv.1.runtimes[rt]
  }

  ghost predicate HexTokens(packages: map<string, Record>) {
    forall t :: t in Tokens(packages) ==> Hex(t, 64)
  }

  /** The generation directories (package directory, generation) an index refers to. */
  function Generations(packages: map<string, Record>): set<(string, string)> {
    set nv | nv in Live(packages) :: (Slug(nv.0), nv.1.generation)
  }

  datatype Snapshot = Snapshot(
    visible: Index,                            // the index file as any process reads it
    durable: set<Index>,                       // the indexes a power loss may bring back
    generations: map<(string, string), Blob>,  // complete generation directories
    pool: map<string, Blob>)                   // regular files of the runtime pool

  predicate Backed(index: Index, s: Snapshot) {
    Generations(index.packages) <= s.generations.Keys && Tokens(index.packages) <= s.pool.Keys
  }

  /** Every runtime of the index is one of the visible index, or a pool file that no collection deletes. */
  predicate Sheltered(index: Index, s: Snapshot) {
    forall t :: t in Tokens(index.packages) ==> t in Tokens(s.visible.packages) || !Hex(t, 64)
  }

  /** A collection finds nothing to forget in the cache of the index, and so publishes nothing. */
  predicate Minimal(index: Index) {
    Referenced(index.runtimes, Tokens(index.packages)) == index.runtimes
  }

  /** The indexes a power loss may bring back that lack a file now or will once runtimes are collected. */
  function Exposed(s: Snapshot): set<Index> {
    set i | i in s.durable && !(Backed(i, s) && (Sheltered(i, s) || !Minimal(s.visible)))
  }

  /** The visible index is backed, and so is any index a power loss may bring back, the exempt ones aside. */
  ghost predicate Good(s: Snapshot, exempt: set<Index>) {
    && Backed(s.visible, s)
    && forall i :: i in s.durable ==> i in exempt || Backed(i, s)
  }

  /** Good, and a collection will not change that. */
  ghost predicate Guarded(s: Snapshot, exempt: set<Index>) {
    && Backed(s.visible, s)
    && forall i :: i in s.durable ==> i in exempt || (Backed(i, s) && (Sheltered(i, s) || !Minimal(s.visible)))
  }

  /** The only index at risk is the visible one, which is backed, the exempt ones aside. */
  ghost predicate Alone(s: Snapshot, exempt: set<Index>) {
    && Backed(s.visible, s)
    && forall i :: i in s.durable ==> i in exempt || i == s.visible
  }

  ghost predicate SameIndexes(before: Snapshot, s: Snapshot) {
    s.visible == before.visible && s.durable == before.durable
  }

  /** The store after a collection that found the cache already minimal, and so published nothing. */
  ghost function Collected(s: Snapshot): Snapshot {
    s.(pool := map t | t in s.pool && (t in Tokens(s.visible.packages) || !Hex(t, 64)) :: s.pool[t])
  }

  ghost predicate Logged(log: seq<Snapshot>, from: nat, exempt: set<Index>) {
    forall k :: from <= k < |log| ==> Good(log[k], exempt)
  }

  /** Every index that can be read or come back was there before or has just these packages. */
  ghost predicate OldOrNew(s: Snapshot, before: Snapshot, packages: map<string, Record>) {
    forall i :: i == s.visible || i in s.durable ==>
      i in before.durable || i.packages == before.visible.packages || i.packages == packages
  }

  ghost predicate AllOldOrNew(log: seq<Snapshot>, from: nat, before: Snapshot, packages: map<string, Record>) {
    forall k :: from <= k < |log| ==> OldOrNew(log[k], before, packages)
  }

  /** No entry has more than one version of history. */
  ghost predicate Shallow(packages: map<string, Record>) {
    forall n :: n in packages ==> Depth(packages[n]) <= 2
  }

  ghost predicate AllShallow(s: Snapshot) {
    Shallow(s.visible.packages) && forall i :: i in s.durable ==> Shallow(i.packages)
  }

  ghost predicate LoggedShallow(log: seq<Snapshot>, from: nat) {
    forall k :: from <= k < |log| ==> AllShallow(log[k])
  }

  ghost function PoolTokens(pool: map<string, Blob>): set<string> {
    set t | t in pool && Hex(t, 64)
  }

  /** No directory or file that is still there has changed, except by a verified runtime. */
  ghost predicate Unaltered(sha: Blob -> Token, before: Snapshot, after: Snapshot) {
    && (forall g :: g in before.generations && g in after.generations ==> after.generations[g] == before.generations[g])
    && (forall t :: t in before.pool && t in after.pool ==>
                      after.pool[t] == before.pool[t] || sha(after.pool[t]) == t)
  }

  /** What is unaltered twice is unaltered, if nothing had gone in between. */
  lemma UnalteredJoin(sha: Blob -> Token, a: Snapshot, b: Snapshot, c: Snapshot)
    requires Unaltered(sha, a, b) && Unaltered(sha, b, c)
    requires a.generations.Keys <= b.generations.Keys && a.pool.Keys <= b.pool.Keys
    ensures Unaltered(sha, a, c)
  {
  }

  /** s is the snapshot `before` with some of the doomed directories gone. */
  ghost predicate Shrunk(before: Snapshot, doomed: set<(string, string)>, s: Snapshot) {
    && s == before.(generations := s.generations)
    && before.generations.Keys - doomed <= s.generations.Keys <= before.generations.Keys
    && forall g :: g in s.generations ==> s.generations[g] == before.generations[g]
  }

  datatype Publication = NotPublished | Unsynced | Synced

  class Disk {
    var now: Snapshot
    var homes: set<string>               // package directories, even empty ones, made or found
    var debris: set<(string, string)>    // generation directories a failed removal left incomplete
    var faults: nat                      // failed writes so far
    var log: seq<Snapshot>               // every state another process could have seen

    constructor (start: Snapshot)
      ensures now == start && homes == {} && debris == {} && faults == 0 && log == [start]
    {
      now, homes, debris, faults, log := start, {}, {}, 0, [start];
    }

    ghost predicate Settled()
      reads this
    {
      now.durable == {now.visible}
    }

    /** Write a temporary file, rename it over the index, then sync the directory. */
    method Publish(next: Index) returns (p: Publication)
      modifies this
      ensures homes == old(homes) && debris == old(debris)
      ensures faults == if p.Synced? then old(faults) else old(faults) + 1
      ensures p.NotPublished? ==> now == old(now) && log == old(log)
      ensures p.Unsynced? ==>
                && now == old(now).(visible := next, durable := old(now).durable + {next})
                && log == old(log) + [now]
      ensures p.Synced? ==>
                && now == old(now).(visible := next, durable := {next})
                && log == old(log) + [now.(durable := old(now).durable + {next}), now]
    {
      if * {
        faults := faults + 1;
        return NotPublished;
      }
      now := now.(visible := next, durable := now.durable + {next});
      log := log + [now];
      if * {
        faults := faults + 1;
        return Unsynced;
      }
      now := now.(durable := {next});
      log := log + [now];
      return Synced;
    }

    method Unlink(token: string) returns (ok: bool)
      requires token in now.pool
      modifies this
      ensures homes == old(homes) && debris == old(debris)
      ensures ok ==> now == old(now).(pool := old(now).pool - {token}) && log == old(log) + [now]
      ensures !ok ==> now == old(now) && log == old(log)
      ensures faults == if ok then old(faults) else old(faults) + 1
    {
      ok := *;
      if ok {
        now := now.(pool := now.pool - {token});
        log := log + [now];
      } else {
        faults := faults + 1;
      }
    }

    method StoreRuntime(token: string, data: Blob) returns (ok: bool)
      modifies this
      ensures homes == old(homes) && debris == old(debris)
      ensures ok ==> now == old(now).(pool := old(now).pool[token := data]) && log == old(log) + [now]
      ensures !ok ==> now == old(now) && log == old(log)
      ensures faults == if ok then old(faults) else old(faults) + 1
    {
      ok := *;
      if ok {
        now := now.(pool := now.pool[token := data]);
        log := log + [now];
      } else {
        faults := faults + 1;
      }
    }

    /** Rename a staged tree to a generation directory; an existing directory is never replaced. */
    method MoveGeneration(at: (string, string), content: Blob) returns (ok: bool)
      modifies this
      ensures homes == old(homes) && debris == old(debris)
      ensures ok ==>
                && at !in old(now).generations && at !in debris
                && now == old(now).(generations := old(now).generations[at := content])
                && log == old(log) + [now]
      ensures !ok ==> now == old(now) && log == old(log)
      ensures at !in old(now).generations && at !in debris ==> faults == if ok then old(faults) else old(faults) + 1
      ensures faults >= old(faults)
    {
      ok := *;
      ok := ok && at !in now.generations && at !in debris;
      if ok {
        now := now.(generations := now.generations[at := content]);
        log := log + [now];
      } else {
        faults := faults + 1;
      }
    }

    /** Remove a directory tree; it is incomplete as soon as the removal starts. */
    method RemoveGeneration(at: (string, string)) returns (ok: bool)
      modifies this
      ensures homes == old(homes)
      ensures now == old(now).(generations := old(now).generations - {at}) && log == old(log) + [now]
      ensures debris == if ok then old(debris) - {at} else old(debris) + {at}
      ensures faults == if ok then old(faults) else old(faults) + 1
    {
      now := now.(generations := now.generations - {at});
      log := log + [now];
      ok := *;
      debris := if ok then debris - {at} else debris + {at};
      faults := if ok then faults else faults + 1;
    }

    /** Remove directory trees one after the other, in any order, up to the first failure. */
    method RemoveGenerations(doomed: set<(string, string)>) returns (ok: bool)
      modifies this
      ensures homes == old(homes) && old(log) <= log
      ensures now == old(now).(generations := now.generations)
      ensures Shrunk(old(now), doomed, now) && forall k :: |old(log)| <= k < |log| ==> Shrunk(old(now), doomed, log[k])
      ensures ok ==> now.generations == old(now).generations - doomed && debris == old(debris) - doomed
      ensures debris <= old(debris) + doomed
      ensures faults == if ok then old(faults) else old(faults) + 1
    {
      var rest := doomed;
      while rest != {}
        invariant rest <= doomed
        invariant homes == old(homes) && old(log) <= log
        invariant now == old(now).(generations := old(now).generations - (doomed - rest))
        invariant forall k :: |old(log)| <= k < |log| ==> Shrunk(old(now), doomed, log[k])
        invariant debris == old(debris) - (doomed - rest)
        invariant faults == old(faults)
        decreases rest
      {
        var g :| g in rest;
        assert doomed - (rest - {g}) == (doomed - rest) + {g};
        rest := rest - {g};
        ok := RemoveGeneration(g);
        if !ok {
          return;
        }
      }
      return true;
    }

    /**
     The process ended after step k. Unless the power was lost the same index is visible to the next
     one; after a power loss it is one that was still possible. A partly removed directory may be
     found in any state.
     */
    method Interrupt(k: nat, found: Index, powerLost: bool)
      requires k < |log| && (if powerLost then found in log[k].durable else found == log[k].visible)
      modifies this
      ensures now == old(log)[k].(visible := found, durable := if powerLost then {found} else old(log)[k].durable)
      ensures log == old(log) + [now]
    {
      homes, debris, faults := *, *, *;
      now := log[k].(visible := found, durable := if powerLost then {found} else log[k].durable);
      log := log + [now];
    }

    /** The generation directories of one package, complete or not. */
    function Shelf(slug: string): set<(string, string)>
      reads this
    {
      set g | g in now.generations.Keys + debris && g.0 == slug
    }

    /** Whether there is a directory for the package. */
    predicate HasHome(slug: string)
      reads this
    {
      slug in homes || Shelf(slug) != {}
    }
  }

  /** The file name of a runtime the package asks for, and what a download would bring. */
  datatype Need = Need(name: string, fetched: Option<Blob>)

  datatype Remote = Remote(md5: string, size: nat)

  datatype Runtime = Unavailable | Cached(item: CacheItem) | Fetched(item: CacheItem, data: Blob)

  const MAX_ARCHIVE := 512 * 1024 * 1024

  predicate RuntimeChar(c: char) { IdChar(c) || 'A' <= c <= 'Z' }

  predicate ValidRuntimeName(name: string) {
    EndsWith(name, ".squashfs") && |name| > 9 && forall i :: 0 <= i < |name| ==> RuntimeChar(name[i])
  }

  /** The runtimes' names: letters, digits and `_.-`, and then the suffix. */
  lemma RuntimeNameMeans(name: string)
    ensures ValidRuntimeName(name) <==>
              exists stem :: name == stem + ".squashfs" && stem != ""
                             && forall i :: 0 <= i < |stem| ==> IdCode(stem[i], false) || 65 <= stem[i] as int <= 90
  {
    if ValidRuntimeName(name) {
      RuntimeStem(name[..|name| - 9]);
      assert name == name[..|name| - 9] + ".squashfs";
    } else if stem :| name == stem + ".squashfs" {
      RuntimeStem(stem);
    }
  }

  lemma RuntimeStem(stem: string)
    ensures ValidRuntimeName(stem + ".squashfs") <==>
              stem != "" && forall i :: 0 <= i < |stem| ==> IdCode(stem[i], false) || 65 <= stem[i] as int <= 90
  {
    var name := stem + ".squashfs";
    assert name[|name| - 9..] == ".squashfs";
    forall i | 0 <= i < |stem| ensures RuntimeChar(name[i]) <==> IdCode(stem[i], false) || 65 <= stem[i] as int <= 90 {
      CodesAgree(stem[i]);
    }
    SuffixPlain();
    assert forall i :: |stem| <= i < |name| ==> name[i] == ".squashfs"[i - |stem|];
  }

  lemma SuffixPlain()
    ensures forall i :: 0 <= i < 9 ==> RuntimeChar(".squashfs"[i])
  {
  }

  /** What a package brings once downloaded and unpacked: either may fail before the store is touched. */
  datatype Download = Download(md5: string, info: map<string, string>, content: Blob, needs: seq<Need>,
                               remotes: map<string, Remote>)

  datatype Outcome = Done | Rejected | UnsyncedFailure | CleanupFailure

  function Referenced(cache: map<string, CacheItem>, tokens: set<string>): map<string, CacheItem> {
    map n | n in cache && cache[n].sha256 in tokens :: cache[n]
  }

  /** The entry an install writes: the old entry without its own history becomes the previous one. */
  ghost function Succeed(entry: Option<Record>, version: Version): Record {
    Record(version, if entry.Some? then Some(Strip(entry.value)) else None)
  }

  ghost function Installed(packages: map<string, Record>, name: string, version: Version): map<string, Record> {
    packages[name := Succeed(Lookup(packages, name), version)]
  }

  /** The entry a rollback writes over one that has a previous version. */
  ghost function Swap(r: Record): Record
    requires r.previous.Some?
  {
    r.previous.value.(previous := Some(Strip(r)))
  }

  ghost function Lookup(packages: map<string, Record>, name: string): Option<Record> {
    if name in packages then Some(packages[name]) else None
  }

  /** The runtimes in use are where the record says, with the digest the record says. */
  ghost predicate Intact(sha: Blob -> Token, tokens: set<string>, pool: map<string, Blob>) {
    forall t :: t in tokens ==> t in pool && sha(pool[t]) == t
  }

  /** The file names of the first n runtimes a package asks for. */
  ghost function Names(needs: seq<Need>, n: nat): set<string>
    requires n <= |needs|
  {
    if n == 0 then {} else Names(needs, n - 1) + {needs[n - 1].name}
  }

  ghost function Digests(used: map<string, CacheItem>): map<string, string> {
    map n | n in used :: used[n].sha256
  }

  /** What an install consults while it fetches: the two digests, the cache of the index and the pool. */
  datatype Shelves = Shelves(sha: Blob -> Token, md5: Blob -> string, cache: map<string, CacheItem>,
                             pool: map<string, Blob>) {
    ghost predicate CacheHit(name: string, remote: Remote) {
      && name in cache && cache[name].md5 == remote.md5
      && cache[name].sha256 in pool && sha(pool[cache[name].sha256]) == cache[name].sha256
    }

    /** Reuse a cached runtime whose file still has its digest; otherwise take a download with the right MD5. */
    ghost function CheckRuntime(need: Need, remotes: map<string, Remote>): Runtime {
      var name := need.name;
      if !ValidRuntimeName(name) || name !in remotes || remotes[name].size > MAX_ARCHIVE then
        Unavailable
      else if CacheHit(name, remotes[name]) then
        Cached(cache[name])
      else if need.fetched.None? || md5(need.fetched.value) != remotes[name].md5 then
        Unavailable
      else
        Fetched(CacheItem(sha(need.fetched.value), remotes[name].md5, |need.fetched.value|), need.fetched.value)
    }

    ghost predicate Usable(need: Need, remotes: map<string, Remote>) { !CheckRuntime(need, remotes).Unavailable? }

    ghost predicate Obtainable(d: Download) {
      forall i {:trigger Usable(d.needs[i], d.remotes)} :: 0 <= i < |d.needs| ==> Usable(d.needs[i], d.remotes)
    }

    /** Every runtime in use is a download under its own digest or an intact file of the pool. */
    ghost predicate Ready(used: map<string, CacheItem>, staged: map<string, Blob>) {
      forall n :: n in used ==>
        var t := used[n].sha256;
        (n in staged && t == sha(staged[n])) || (n !in staged && t in pool && sha(pool[t]) == t)
    }

    /** What is known of one runtime in use while the others are still being fetched. */
    ghost predicate Checked(n: string, item: CacheItem, remotes: map<string, Remote>, staged: map<string, Blob>) {
      && n in remotes && item.md5 == remotes[n].md5
      && (if n in staged then item.sha256 == sha(staged[n]) && !CacheHit(n, remotes[n])
          else item.sha256 in pool && sha(pool[item.sha256]) == item.sha256)
    }

    ghost predicate AllChecked(used: map<string, CacheItem>, remotes: map<string, Remote>, staged: map<string, Blob>) {
      staged.Keys <= used.Keys && forall n :: n in used ==> Checked(n, used[n], remotes, staged)
    }

    lemma CheckedNext(need: Need, remotes: map<string, Remote>, used: map<string, CacheItem>, staged: map<string, Blob>)
      requires AllChecked(used, remotes, staged) && !CheckRuntime(need, remotes).Unavailable?
      ensures var name, r := need.name, CheckRuntime(need, remotes);
              AllChecked(used[name := r.item], remotes, if r.Fetched? then staged[name := r.data] else staged)
    {
    }

    method Find(need: Need, remotes: map<string, Remote>) returns (r: Runtime)
      ensures r == CheckRuntime(need, remotes)
    {
      if !ValidRuntimeName(need.name) || need.name !in remotes { return Unavailable; }
      var remote := remotes[need.name];
      if remote.size > MAX_ARCHIVE { return Unavailable; }
      if need.name in cache && cache[need.name].md5 == remote.md5 {
        var item := cache[need.name];
        if item.sha256 in pool && sha(pool[item.sha256]) == item.sha256 { return Cached(item); }
      }
      if need.fetched.None? { return Unavailable; }
      var data := need.fetched.value;
      if md5(data) != remote.md5 { return Unavailable; }
      return Fetched(CacheItem(sha(data), remote.md5, |data|), data);
    }

    method FetchRuntimes(d: Download) returns (ok: bool, used: map<string, CacheItem>, staged: map<string, Blob>)
      ensures ok <==> Obtainable(d)
      ensures ok ==> used.Keys == Names(d.needs, |d.needs|) && AllChecked(used, d.remotes, staged)
    {
      used, staged := map[], map[];
      for i := 0 to |d.needs|
        invariant forall k {:trigger Usable(d.needs[k], d.remotes)} :: 0 <= k < i ==> Usable(d.needs[k], d.remotes)
        invariant used.Keys == Names(d.needs, i)
        invariant AllChecked(used, d.remotes, staged)
      {
        var name := d.needs[i].name;
        var r := Find(d.needs[i], d.remotes);
        assert r.Unavailable? <==> !Usable(d.needs[i], d.remotes);
        if r.Unavailable? {
          return false, used, staged;
        }
        CheckedNext(d.needs[i], d.remotes, used, staged);
        used := used[name := r.item];
        staged := if r.Fetched? then staged[name := r.data] else staged;
      }
      return true, used, staged;
    }
  }

  class Store {
    const disk: Disk
    const sha: Blob -> Token
    const md5: Blob -> string
    var index: Index

    /** What holds for a store a process has opened: its copy of the index is the visible one. */
    ghost predicate Opened()
      reads this, disk
    {
      && index == disk.now.visible
      && Backed(index, disk.now)
      && forall n :: n in index.packages ==> PackageId(n) && Hex(index.packages[n].version.generation, 32)
    }

    constructor (disk: Disk, sha: Blob -> Token, md5: Blob -> string)
      ensures this.disk == disk && this.sha == sha && this.md5 == md5 && index == disk.now.visible
    {
      this.disk, this.sha, this.md5, this.index := disk, sha, md5, disk.now.visible;
    }

    /** Replace the visible index by the store's own copy, all of whose files are in place. */
    method PublishIndex(ghost exempt: set<Index>) returns (p: Publication)
      requires Good(disk.now, exempt) && Backed(index, disk.now)
      modifies disk
      ensures Logged(disk.log, |old(disk.log)|, exempt) && old(disk.log) <= disk.log
      ensures AllOldOrNew(disk.log, |old(disk.log)|, old(disk.now), index.packages)
      ensures OldOrNew(disk.now, old(disk.now), index.packages)
      ensures p.NotPublished? ==> disk.log == old(disk.log)
      ensures disk.homes == old(disk.homes) && disk.debris == old(disk.debris)
      ensures disk.faults == if p.Synced? then old(disk.faults) else old(disk.faults) + 1
      ensures disk.now == old(disk.now).(visible := disk.now.visible, durable := disk.now.durable)
      ensures disk.now.visible == if p.NotPublished? then old(disk.now.visible) else index
      ensures disk.now.durable == match p
              case NotPublished => old(disk.now.durable)
              case Unsynced => old(disk.now.durable) + {index}
              case Synced => {index}
    {
      PublicationGood(disk.now, index, exempt);
      p := disk.Publish(index);
    }

    /** Forget cache entries and delete pool files that no version in use refers to. */
    method CollectRuntimes(ghost exempt: set<Index>) returns (r: Outcome)
      requires Opened() && Guarded(disk.now, exempt)
      modifies this`index, disk
      ensures Logged(disk.log, |old(disk.log)|, exempt) && old(disk.log) <= disk.log
      ensures AllOldOrNew(disk.log, |old(disk.log)|, old(disk.now), old(index.packages))
      ensures disk.now.visible.packages == index.packages == old(index.packages)
      ensures disk.now.generations == old(disk.now.generations)
      ensures disk.homes == old(disk.homes) && disk.debris == old(disk.debris)
      ensures forall t :: t in disk.now.pool ==> t in old(disk.now.pool) && disk.now.pool[t] == old(disk.now.pool[t])
      ensures r.Done? ==>
                && Opened() && Guarded(disk.now, exempt) && Minimal(index)
                && index.runtimes == Referenced(old(index.runtimes), Tokens(index.packages))
                && disk.now == Collected(old(disk.now)).(visible := index, durable := disk.now.durable)
                && disk.now.durable == if Minimal(old(index)) then old(disk.now.durable) else {index}
      ensures r.Done? ==> PoolTokens(disk.now.pool) == Tokens(index.packages)
      ensures r.Done? || r.CleanupFailure?
      ensures disk.faults >= old(disk.faults)
      ensures r.Done? <==> HexTokens(old(index.packages)) && disk.faults == old(disk.faults)
    {
      var referenced := Tokens(index.packages);
      if t :| t in referenced && !Hex(t, 64) {
        return CleanupFailure;
      }
      var ok := ForgetRuntimes(exempt);
      if !ok {
        return CleanupFailure;
      }
      ghost var published := disk.log;
      r := Sweep(referenced, exempt);
      LoggedJoin(published, disk.log, |old(disk.log)|, exempt);
    }

    /** Reduce the cache to what is referenced, and publish it if that changes it. */
    method ForgetRuntimes(ghost exempt: set<Index>) returns (ok: bool)
      requires Opened() && Guarded(disk.now, exempt)
      modifies this`index, disk
      ensures Logged(disk.log, |old(disk.log)|, exempt) && old(disk.log) <= disk.log
      ensures AllOldOrNew(disk.log, |old(disk.log)|, old(disk.now), old(index.packages))
      ensures disk.homes == old(disk.homes) && disk.debris == old(disk.debris)
      ensures disk.faults == if ok then old(disk.faults) else old(disk.faults) + 1
      ensures disk.now == old(disk.now).(visible := disk.now.visible, durable := disk.now.durable)
      ensures index.packages == disk.now.visible.packages == old(index.packages)
      ensures ok ==>
                && Opened() && Guarded(disk.now, exempt) && Minimal(index)
                && index.runtimes == Referenced(old(index.runtimes), Tokens(index.packages))
                && disk.now.durable == if Minimal(old(index)) then old(disk.now.durable) else {index}
    {
      var referenced := Tokens(index.packages);
      var cache := map n | n in index.runtimes && index.runtimes[n].sha256 in referenced :: index.runtimes[n];
      if cache != index.runtimes {
        index := index.(runtimes := cache);
        var p := PublishIndex(exempt);
        return p.Synced?;
      }
      return true;
    }

    /** The loop of CollectRuntimes over the pool directory. */
    method Sweep(referenced: set<string>, ghost exempt: set<Index>) returns (r: Outcome)
      requires Opened() && Guarded(disk.now, exempt) && Minimal(index)
      requires referenced == Tokens(index.packages) && forall t :: t in referenced ==> Hex(t, 64)
      modifies disk
      ensures Opened() && Guarded(disk.now, exempt)
      ensures Logged(disk.log, |old(disk.log)|, exempt) && old(disk.log) <= disk.log
      ensures forall k :: |old(disk.log)| <= k < |disk.log| ==> SameIndexes(old(disk.now), disk.log[k])
      ensures disk.homes == old(disk.homes) && disk.debris == old(disk.debris)
      ensures disk.now == old(disk.now).(pool := disk.now.pool)
      ensures forall t :: t in disk.now.pool ==> t in old(disk.now.pool) && disk.now.pool[t] == old(disk.now.pool[t])
      ensures forall t :: t in old(disk.now.pool) && (t in referenced || !Hex(t, 64)) ==> t in disk.now.pool
      ensures r.Done? ==> disk.now == Collected(old(disk.now))
      ensures r.Done? || r.CleanupFailure?
      ensures disk.faults == if r.Done? then old(disk.faults) else old(disk.faults) + 1
    {
      var rest := disk.now.pool.Keys;
      while rest != {}
        invariant rest <= disk.now.pool.Keys
        invariant disk.faults == old(disk.faults)
        invariant Guarded(disk.now, exempt)
        invariant Logged(disk.log, |old(disk.log)|, exempt) && old(disk.log) <= disk.log
        invariant forall k :: |old(disk.log)| <= k < |disk.log| ==> SameIndexes(old(disk.now), disk.log[k])
        invariant disk.homes == old(disk.homes) && disk.debris == old(disk.debris)
        invariant disk.now == old(disk.now).(pool := disk.now.pool)
        invariant forall t :: t in disk.now.pool ==>
                                t in old(disk.now.pool) && disk.now.pool[t] == old(disk.now.pool[t])
        invariant forall t :: t in old(disk.now.pool) && (t in referenced || !Hex(t, 64)) ==> t in disk.now.pool
        invariant forall t :: t in disk.now.pool && Hex(t, 64) ==> t in referenced || t in rest
        decreases rest
      {
        var name :| name in rest;
        rest := rest - {name};
        if name !in referenced && Hex(name, 64) {
          SweptGood(disk.now, name, exempt);
          var ok := disk.Unlink(name);
          if !ok {
            return CleanupFailure;
          }
        }
      }
      return Done;
    }

    function Shelved(): Shelves
      reads this, disk
    {
      Shelves(sha, md5, index.runtimes, disk.now.pool)
    }

    /** Move the downloads into the pool; each lands under its own digest. */
    method PlaceRuntimes(used: map<string, CacheItem>, staged: map<string, Blob>, ghost exempt: set<Index>)
      returns (ok: bool)
      requires Opened() && Shelved().Ready(used, staged) && Guarded(disk.now, exempt)
      modifies disk
      ensures Opened() && Guarded(disk.now, exempt)
      ensures Logged(disk.log, |old(disk.log)|, exempt) && old(disk.log) <= disk.log
      ensures forall k :: |old(disk.log)| <= k < |disk.log| ==> SameIndexes(old(disk.now), disk.log[k])
      ensures disk.homes == old(disk.homes) && disk.debris == old(disk.debris)
      ensures disk.now == old(disk.now).(pool := disk.now.pool)
      ensures Unaltered(sha, old(disk.now), disk.now)
      ensures old(disk.now.pool.Keys) <= disk.now.pool.Keys
      ensures ok ==> Intact(sha, Digests(used).Values, disk.now.pool)
      ensures disk.faults == if ok then old(disk.faults) else old(disk.faults) + 1
    {
      var rest := used.Keys;
      while rest != {}
        invariant rest <= used.Keys
        invariant Opened() && Guarded(disk.now, exempt)
        invariant Logged(disk.log, |old(disk.log)|, exempt) && old(disk.log) <= disk.log
        invariant forall k :: |old(disk.log)| <= k < |disk.log| ==> SameIndexes(old(disk.now), disk.log[k])
        invariant disk.homes == old(disk.homes) && disk.debris == old(disk.debris)
        invariant disk.now == old(disk.now).(pool := disk.now.pool)
        invariant Unaltered(sha, old(disk.now), disk.now)
        invariant old(disk.now.pool.Keys) <= disk.now.pool.Keys
        invariant Shelved().Ready(used, staged) && disk.faults == old(disk.faults)
        invariant forall n :: n in used && n !in rest ==>
                                used[n].sha256 in disk.now.pool && sha(disk.now.pool[used[n].sha256]) == used[n].sha256
        decreases rest
      {
        var name :| name in rest;
        rest := rest - {name};
        if name in staged {
          GrownGuarded(disk.now, disk.now.(pool := disk.now.pool[used[name].sha256 := staged[name]]), exempt);
          ReadyStays(Shelved(), used, staged, name);
          ok := disk.StoreRuntime(used[name].sha256, staged[name]);
          if !ok {
            return;
          }
        }
      }
      return true;
    }

    /** Every generation directory of the package, complete or not, is the current or the previous one. */
    ghost predicate Tidy(name: string)
      reads this, disk
    {
      name in index.packages &&
      forall g :: g in disk.now.generations.Keys + disk.debris && g.0 == Slug(name) && Hex(g.1, 32) ==>
        var r := index.packages[name];
        g.1 == r.version.generation || (r.previous.Some? && g.1 == r.previous.value.version.generation)
    }

    /** Directories of other packages, and those that have not the name of a generation, are left alone. */
    ghost predicate StrayStay(name: string, before: Snapshot, after: Snapshot) {
      forall g :: g in before.generations && (g.0 != Slug(name) || !Hex(g.1, 32)) ==> g in after.generations
    }

    /** Remove the package's generation directories that are neither current nor previous. */
    method RemoveOldGenerations(name: string, ghost exempt: set<Index>) returns (ok: bool)
      requires Opened() && name in index.packages && Alone(disk.now, exempt)
      modifies disk
      ensures Opened() && Alone(disk.now, exempt)
      ensures Logged(disk.log, |old(disk.log)|, exempt) && old(disk.log) <= disk.log
      ensures forall k :: |old(disk.log)| <= k < |disk.log| ==> SameIndexes(old(disk.now), disk.log[k])
      ensures Shrunk(old(disk.now), Obsolete(Slug(name), Kept(index.packages[name]), old(disk.Shelf(Slug(name)))),
                     disk.now)
      ensures disk.homes == old(disk.homes)
      ensures ok ==> Tidy(name) && StrayStay(name, old(disk.now), disk.now)
      ensures disk.faults == if ok then old(disk.faults) else old(disk.faults) + 1
    {
      var doomed := Obsolete(Slug(name), Kept(index.packages[name]), disk.Shelf(Slug(name)));
      GenerationsOfPackage(index, name);
      ghost var before := disk.now;
      ok := disk.RemoveGenerations(doomed);
      forall k | |old(disk.log)| <= k < |disk.log|
        ensures Good(disk.log[k], exempt) && SameIndexes(before, disk.log[k])
      {
        ShrunkGood(before, doomed, disk.log[k], exempt);
      }
      ShrunkGood(before, doomed, disk.now, exempt);
    }

    /**
     Install a package: place its runtimes, move the new generation in, publish the index, and
     only then delete what no index needs. `unpacked` is false when the package installer failed or
     the user cancelled; the generation name is a random one.
     */
    method Install(name: string, download: Option<Download>, unpacked: bool, generation: string,
                   ghost exempt: set<Index>)
      returns (r: Outcome, used: map<string, CacheItem>)
      requires Opened() && Hex(generation, 32) && Guarded(disk.now, exempt)
      modifies this`index, disk
      ensures Logged(disk.log, |old(disk.log)|, exempt) && old(disk.log) <= disk.log
      ensures if download.None? || !PackageId(name) then disk.log == old(disk.log) else
                AllOldOrNew(disk.log, |old(disk.log)|, old(disk.now),
                            Installed(old(index.packages), name, NewVersion(generation, used, download.value)))
      ensures Unaltered(sha, old(disk.now), disk.now)
      ensures r.Rejected? ==>
                disk.now.visible.packages == old(index.packages) && disk.now.generations == old(disk.now.generations)
      ensures !r.Rejected? ==>
                && PackageId(name) && download.Some?
                && used.Keys == Names(download.value.needs, |download.value.needs|)
                && disk.now.visible.packages
                   == Installed(old(index.packages), name, NewVersion(generation, used, download.value))
                && (Slug(name), generation) !in old(disk.now.generations)
                && (Slug(name), generation) in disk.now.generations
                && disk.now.generations[(Slug(name), generation)] == download.value.content
      ensures r.UnsyncedFailure? ==>
                && disk.now.durable == old(disk.now.durable) + {disk.now.visible}
                && disk.now.visible.runtimes == old(index.runtimes) + used
                && Backed(old(index), disk.now) && Backed(disk.now.visible, disk.now)
      ensures r.Done? ==>
                && Opened()
                && Intact(sha, Digests(used).Values, disk.now.pool)
                && PoolTokens(disk.now.pool) == Tokens(index.packages)
                && index.runtimes == Referenced(old(index.runtimes) + used, Tokens(index.packages))
                && Tidy(name) && StrayStay(name, old(disk.now), disk.now)
                && disk.Settled()
      ensures disk.homes == old(disk.homes) + if PackageId(name) then {Slug(name)} else {}
      ensures disk.faults >= old(disk.faults)
      ensures r.Done? <==>
                && PackageId(name) && download.Some? && old(Shelved()).Obtainable(download.value) && unpacked
                && (Slug(name), generation) !in old(disk.now.generations.Keys + disk.debris)
                && HexTokens(Installed(old(index.packages), name, NewVersion(generation, used, download.value)))
                && disk.faults == old(disk.faults)
    {
      used := map[];
      if !PackageId(name) {
        return Rejected, used;
      }
      var slug := Slug(name);
      disk.homes := disk.homes + {slug};
      if download.None? {
        return Rejected, used;
      }
      var ok;
      ok, used := Stage((slug, generation), download.value, unpacked, exempt);
      if !ok {
        return Rejected, used;
      }
      ghost var staged, stagedLog := disk.now, disk.log;
      var paths := map n | n in used :: used[n].sha256;
      r := Commit(name, Version(generation, download.value.md5, paths, download.value.info), used, exempt);
      UnalteredJoin(sha, old(disk.now), staged, disk.now);
      LoggedJoin(stagedLog, disk.log, |old(disk.log)|, exempt);
    }

    /** The part of Install before the publication: whatever happens, nothing that was there is altered. */
    method Stage(at: (string, string), download: Download, unpacked: bool, ghost exempt: set<Index>)
      returns (ok: bool, used: map<string, CacheItem>)
      requires Opened() && Hex(at.1, 32) && Guarded(disk.now, exempt)
      modifies disk
      ensures Opened() && Guarded(disk.now, exempt)
      ensures Logged(disk.log, |old(disk.log)|, exempt) && old(disk.log) <= disk.log
      ensures forall k :: |old(disk.log)| <= k < |disk.log| ==> SameIndexes(old(disk.now), disk.log[k])
      ensures Unaltered(sha, old(disk.now), disk.now)
      ensures disk.now == old(disk.now).(pool := disk.now.pool, generations := disk.now.generations)
      ensures old(disk.now.pool.Keys) <= disk.now.pool.Keys && disk.homes == old(disk.homes)
      ensures !ok ==> disk.now.generations == old(disk.now.generations)
      ensures ok ==>
                && used.Keys == Names(download.needs, |download.needs|)
                && Intact(sha, Digests(used).Values, disk.now.pool)
                && at !in old(disk.now.generations)
                && disk.now.generations == old(disk.now.generations)[at := download.content]
                && forall i :: i in disk.now.durable && i !in exempt ==> at !in Generations(i.packages)
      ensures disk.faults >= old(disk.faults)
      ensures ok <==> && old(Shelved()).Obtainable(download) && unpacked
                      && at !in old(disk.now.generations.Keys + disk.debris) && disk.faults == old(disk.faults)
    {
      var staged;
      ok, used, staged := Shelved().FetchRuntimes(download);
      if !ok || !unpacked {
        return false, used;
      }
      ok := PlaceRuntimes(used, staged, exempt);
      if !ok {
        return;
      }
      GrownGuarded(disk.now, disk.now.(generations := disk.now.generations[at := download.content]), exempt);
      ok := disk.MoveGeneration(at, download.content);
    }

    /** The part of Install from the publication on. */
    method Commit(name: string, version: Version, used: map<string, CacheItem>, ghost exempt: set<Index>)
      returns (r: Outcome)
      requires Opened() && PackageId(name) && Hex(version.generation, 32) && Guarded(disk.now, exempt)
      requires (Slug(name), version.generation) in disk.now.generations
      requires version.runtimes == Digests(used) && Intact(sha, version.runtimes.Values, disk.now.pool)
      requires (Slug(name), version.generation) !in Generations(index.packages)
      requires forall i :: i in disk.now.durable && i !in exempt ==>
                             (Slug(name), version.generation) !in Generations(i.packages)
      modifies this`index, disk
      ensures Logged(disk.log, |old(disk.log)|, exempt) && old(disk.log) <= disk.log
      ensures AllOldOrNew(disk.log, |old(disk.log)|, old(disk.now), Installed(old(index.packages), name, version))
      ensures Unaltered(sha, old(disk.now), disk.now)
      ensures r.Rejected? ==>
                && disk.now.visible.packages == old(index.packages)
                && disk.now.generations == old(disk.now.generations) - {(Slug(name), version.generation)}
      ensures !r.Rejected? ==>
                && disk.now.visible.packages == Installed(old(index.packages), name, version)
                && (Slug(name), version.generation) in disk.now.generations
      ensures r.UnsyncedFailure? ==>
                && disk.now == old(disk.now).(visible := index, durable := old(disk.now.durable) + {index})
                && index.runtimes == old(index.runtimes) + used
                && Backed(old(index), disk.now) && Backed(index, disk.now)
      ensures r.Done? ==>
                && Opened()
                && Intact(sha, version.runtimes.Values, disk.now.pool)
                && PoolTokens(disk.now.pool) == Tokens(index.packages)
                && index.runtimes == Referenced(old(index.runtimes) + used, Tokens(index.packages))
                && Tidy(name) && StrayStay(name, old(disk.now), disk.now)
                && disk.Settled()
      ensures disk.faults >= old(disk.faults) && disk.homes == old(disk.homes)
      ensures r.Done? <==> disk.faults == old(disk.faults)
                           && HexTokens(Installed(old(index.packages), name, version))
    {
      ghost var packages := Installed(index.packages, name, version);
      var p := PublishVersion(name, version, used, exempt);
      ghost var published, after := disk.log, disk.now;
      if p.Unsynced? {
        return UnsyncedFailure;
      }
      if p.NotPublished? {
        Withdraw((Slug(name), version.generation), exempt);
        r := Rejected;
      } else {
        r := Complete(name, version, exempt);
      }
      LoggedJoin(published, disk.log, |old(disk.log)|, exempt);
      OldOrNewJoin(published, disk.log, |old(disk.log)|, old(disk.now), after, packages, after.visible.packages);
    }

    /** Put the new version into the index and publish it; if that fails, the old index is taken back. */
    method PublishVersion(name: string, version: Version, used: map<string, CacheItem>, ghost exempt: set<Index>)
      returns (p: Publication)
      requires Opened() && PackageId(name) && Hex(version.generation, 32) && Guarded(disk.now, exempt)
      requires (Slug(name), version.generation) in disk.now.generations
      requires version.runtimes.Values <= disk.now.pool.Keys
      modifies this`index, disk
      ensures Opened() && index == disk.now.visible
      ensures Logged(disk.log, |old(disk.log)|, exempt) && old(disk.log) <= disk.log
      ensures AllOldOrNew(disk.log, |old(disk.log)|, old(disk.now), Installed(old(index.packages), name, version))
      ensures OldOrNew(disk.now, old(disk.now), Installed(old(index.packages), name, version))
      ensures disk.homes == old(disk.homes) && disk.debris == old(disk.debris)
      ensures disk.faults == if p.Synced? then old(disk.faults) else old(disk.faults) + 1
      ensures disk.now == old(disk.now).(visible := disk.now.visible, durable := disk.now.durable)
      ensures if p.NotPublished? then disk.now == old(disk.now) else
                && index.packages == Installed(old(index.packages), name, version)
                && index.runtimes == old(index.runtimes) + used
                && version.runtimes.Values <= Tokens(index.packages)
                && (Slug(name), version.generation) in Generations(index.packages)
                && disk.now.durable == (if p.Synced? then {} else old(disk.now.durable)) + {index}
      ensures Backed(old(index), disk.now)
    {
      var before := index;
      var previous := if name in index.packages then Some(Record(index.packages[name].version, None)) else None;
      index := Index(index.packages[name := Record(version, previous)], index.runtimes + used);
      NewIndexBacked(before, name, version, index, disk.now);
      p := PublishIndex(exempt);
      if p.NotPublished? {
        index := before;
      }
    }

    /** The publication failed: delete the new generation and whatever else is unused. */
    method Withdraw(at: (string, string), ghost exempt: set<Index>)
      requires Opened() && Guarded(disk.now, exempt) && at !in Generations(index.packages)
      requires forall i :: i in disk.now.durable && i !in exempt ==> at !in Generations(i.packages)
      modifies this`index, disk
      ensures Logged(disk.log, |old(disk.log)|, exempt) && old(disk.log) <= disk.log
      ensures AllOldOrNew(disk.log, |old(disk.log)|, old(disk.now), old(index.packages))
      ensures Unaltered(sha, old(disk.now), disk.now)
      ensures disk.now.visible.packages == old(index.packages)
      ensures disk.now.generations == old(disk.now.generations) - {at}
      ensures disk.faults == old(disk.faults) && HexTokens(old(index.packages)) ==>
                at !in disk.debris && PoolTokens(disk.now.pool) == Tokens(old(index.packages))
      ensures at in disk.debris ==>
                index == old(index) && disk.now == old(disk.now).(generations := disk.now.generations)
      ensures disk.faults >= old(disk.faults) && disk.homes == old(disk.homes)
    {
      FreshGenerationGood(disk.now, at, exempt);
      var ok := disk.RemoveGeneration(at);
      ghost var removed := disk.log;
      if ok {
        var _ := CollectRuntimes(exempt);
        LoggedJoin(removed, disk.log, |old(disk.log)|, exempt);
      }
    }

    /** The publication succeeded: delete the generations and runtimes that are no longer in use. */
    method CleanUp(name: string, ghost exempt: set<Index>) returns (r: Outcome)
      requires Opened() && name in index.packages && Alone(disk.now, exempt)
      modifies this`index, disk
      ensures Logged(disk.log, |old(disk.log)|, exempt) && old(disk.log) <= disk.log
      ensures AllOldOrNew(disk.log, |old(disk.log)|, old(disk.now), old(index.packages))
      ensures Unaltered(sha, old(disk.now), disk.now)
      ensures disk.now.visible.packages == old(index.packages)
      ensures Shrunk(old(disk.now), Obsolete(Slug(name), Kept(old(index.packages)[name]), old(disk.Shelf(Slug(name)))),
                     old(disk.now).(generations := disk.now.generations))
      ensures forall t :: t in disk.now.pool ==> t in old(disk.now.pool) && disk.now.pool[t] == old(disk.now.pool[t])
      ensures r.Done? || r.CleanupFailure?
      ensures disk.faults >= old(disk.faults) && disk.homes == old(disk.homes)
      ensures r.Done? <==> HexTokens(old(index.packages)) && disk.faults == old(disk.faults)
      ensures r.Done? ==>
                && Opened()
                && PoolTokens(disk.now.pool) == Tokens(index.packages)
                && index.runtimes == Referenced(old(index.runtimes), Tokens(index.packages))
                && Tidy(name) && StrayStay(name, old(disk.now), disk.now)
                && (old(disk.Settled()) ==> disk.Settled())
    {
      var ok := RemoveOldGenerations(name, exempt);
      if !ok {
        return CleanupFailure;
      }
      ghost var cleared := disk.log;
      r := CollectRuntimes(exempt);
      LoggedJoin(cleared, disk.log, |old(disk.log)|, exempt);
    }

    /** CleanUp, seen from the version just published: it keeps its generation and its runtimes. */
    method Complete(name: string, version: Version, ghost exempt: set<Index>) returns (r: Outcome)
      requires Opened() && disk.Settled() && name in index.packages && index.packages[name].version == version
      requires Intact(sha, version.runtimes.Values, disk.now.pool) && version.runtimes.Values <= Tokens(index.packages)
      modifies this`index, disk
      ensures Logged(disk.log, |old(disk.log)|, exempt) && old(disk.log) <= disk.log
      ensures AllOldOrNew(disk.log, |old(disk.log)|, old(disk.now), old(index.packages))
      ensures Unaltered(sha, old(disk.now), disk.now)
      ensures disk.now.visible.packages == old(index.packages)
      ensures (Slug(name), version.generation) in disk.now.generations
      ensures r.Done? ==>
                && Opened() && disk.Settled()
                && Intact(sha, version.runtimes.Values, disk.now.pool)
                && PoolTokens(disk.now.pool) == Tokens(index.packages)
                && index.runtimes == Referenced(old(index.runtimes), Tokens(index.packages))
                && Tidy(name) && StrayStay(name, old(disk.now), disk.now)
      ensures r.Done? || r.CleanupFailure?
      ensures disk.faults >= old(disk.faults) && disk.homes == old(disk.homes)
      ensures r.Done? <==> HexTokens(old(index.packages)) && disk.faults == old(disk.faults)
    {
      GenerationsOfPackage(index, name);
      assert (Slug(name), version.generation) in disk.now.generations by {
        assert version.generation in Kept(index.packages[name]);
      }
      r := CleanUp(name, exempt);
    }

    /** Make the previous version current and remember the current one as previous. */
    method Rollback(name: string, ghost exempt: set<Index>) returns (r: Outcome)
      requires Opened() && Guarded(disk.now, exempt)
      modifies this`index, disk
      ensures Logged(disk.log, |old(disk.log)|, exempt) && old(disk.log) <= disk.log
      ensures if CanRollback(name, old(index).packages) then
                AllOldOrNew(disk.log, |old(disk.log)|, old(disk.now),
                            old(index).packages[name := Swap(old(index).packages[name])])
              else disk.log == old(disk.log)
      ensures disk.now == old(disk.now).(visible := disk.now.visible, durable := disk.now.durable)
      ensures disk.homes == old(disk.homes) && disk.debris == old(disk.debris)
      ensures r.Rejected? ==> disk.now == old(disk.now)
      ensures !CanRollback(name, old(index).packages) ==> r.Rejected? && index == old(index)
      ensures !r.Rejected? ==>
                && index == disk.now.visible && Opened()
                && index == old(index).(packages := old(index).packages[name := Swap(old(index).packages[name])])
      ensures r.UnsyncedFailure? ==>
                && disk.now.durable == old(disk.now.durable) + {disk.now.visible}
                && Backed(old(index), disk.now) && Backed(disk.now.visible, disk.now)
                && Sheltered(old(index), disk.now)
      ensures r.Done? ==> disk.Settled()
      ensures !r.CleanupFailure?
      ensures disk.faults >= old(disk.faults)
      ensures r.Done? <==> CanRollback(name, old(index).packages) && disk.faults == old(disk.faults)
    {
      if !PackageId(name) || name !in index.packages || index.packages[name].previous.None? {
        return Rejected;
      }
      var record := index.packages[name];
      if !Hex(record.previous.value.version.generation, 32) {
        return Rejected;
      }
      var at := (Slug(name), record.previous.value.version.generation);
      var present := at in disk.now.generations || at in disk.debris;
      GenerationsOfPackage(index, name);
      if !present {
        return Rejected;
      }
      SwapBacked(index, name, disk.now);
      var back := Record(record.previous.value.version, Some(Record(record.version, None)));
      index := index.(packages := index.packages[name := back]);
      var p := PublishIndex(exempt);
      r := if p.Synced? then Done else if p.Unsynced? then UnsyncedFailure else Rejected;
    }

    /** There is a directory for the package, or something in one. */
    ghost predicate Housed(slug: string)
      reads this, disk
    {
      slug in disk.homes || exists g :: g in disk.now.generations.Keys + disk.debris && g.0 == slug
    }

    lemma HomeMeans(slug: string)
      ensures disk.HasHome(slug) <==> Housed(slug)
    {
      if disk.Shelf(slug) != {} {
        var g :| g in disk.Shelf(slug);
      }
      if g :| g in disk.now.generations.Keys + disk.debris && g.0 == slug {
        assert g in disk.Shelf(slug);
      }
    }

    /** Take the package out of the index first, then delete its generations and unused runtimes. */
    method Uninstall(name: string, ghost exempt: set<Index>) returns (r: Outcome)
      requires Opened() && Guarded(disk.now, exempt)
      modifies this`index, disk
      ensures Logged(disk.log, |old(disk.log)|, exempt) && old(disk.log) <= disk.log
      ensures AllOldOrNew(disk.log, |old(disk.log)|, old(disk.now), old(index).packages - {name})
      ensures r.Rejected? ==> disk.now == old(disk.now)
      ensures !r.Rejected? ==> disk.now.visible.packages == old(index).packages - {name}
      ensures disk.faults >= old(disk.faults)
      ensures r.Done? <==>
                && PackageId(name) && (name in old(index).packages || old(Housed(Slug(name))))
                && HexTokens(old(index).packages - {name}) && disk.faults == old(disk.faults)
      ensures !PackageId(name) || (name !in old(index).packages && !old(Housed(Slug(name)))) ==> r.Rejected?
      ensures forall g :: g in disk.now.generations ==>
                            g in old(disk.now.generations) && disk.now.generations[g] == old(disk.now.generations[g])
      ensures forall g :: g in old(disk.now.generations) && g.0 != Slug(name) ==> g in disk.now.generations
      ensures r.UnsyncedFailure? ==>
                && disk.now == old(disk.now).(visible := index, durable := old(disk.now.durable) + {index})
                && index == old(index).(packages := old(index).packages - {name})
                && Backed(old(index), disk.now) && Backed(index, disk.now)
      ensures r.Done? ==>
                && Opened() && disk.Settled()
                && !Housed(Slug(name))
                && PoolTokens(disk.now.pool) == Tokens(index.packages)
    {
      HomeMeans(Slug(name));
      if !PackageId(name) || (name !in index.packages && !disk.HasHome(Slug(name))) {
        return Rejected;
      }
      var rest := index.packages - {name};
      RestBacked(index, name, rest, disk.now);
      index := index.(packages := rest);
      var p := PublishIndex(exempt);
      if !p.Synced? {
        return if p.Unsynced? then UnsyncedFailure else Rejected;
      }
      ghost var published := disk.log;
      r := ClearShelf(Slug(name), exempt);
      LoggedJoin(published, disk.log, |old(disk.log)|, exempt);
    }

    /** Delete a package directory no entry of the index uses, then the runtimes nobody uses. */
    method ClearShelf(slug: string, ghost exempt: set<Index>) returns (r: Outcome)
      requires Opened() && disk.Settled() && disk.Shelf(slug) !! Generations(index.packages)
      modifies this`index, disk
      ensures Logged(disk.log, |old(disk.log)|, exempt) && old(disk.log) <= disk.log
      ensures AllOldOrNew(disk.log, |old(disk.log)|, old(disk.now), old(index.packages))
      ensures disk.now.visible.packages == old(index.packages)
      ensures Shrunk(old(disk.now), old(disk.Shelf(slug)), old(disk.now).(generations := disk.now.generations))
      ensures r.Done? || r.CleanupFailure?
      ensures disk.faults >= old(disk.faults)
      ensures r.Done? <==> HexTokens(old(index.packages)) && disk.faults == old(disk.faults)
      ensures r.Done? ==>
                && Opened() && disk.Settled()
                && !Housed(slug)
                && PoolTokens(disk.now.pool) == Tokens(index.packages)
    {
      ghost var before := disk.now;
      var doomed := disk.Shelf(slug);
      HomeMeans(slug);
      if disk.HasHome(slug) {
        var ok := disk.RemoveGenerations(doomed);
        forall k | |old(disk.log)| <= k < |disk.log|
          ensures Good(disk.log[k], exempt) && SameIndexes(before, disk.log[k])
        {
          ShrunkGood(before, doomed, disk.log[k], exempt);
        }
        if !ok {
          return CleanupFailure;
        }
        disk.homes := disk.homes - {slug};
        HomeMeans(slug);
      }
      ghost var cleared := disk.log;
      r := CollectRuntimes(exempt);
      LoggedJoin(cleared, disk.log, |old(disk.log)|, exempt);
    }

    /**
     Check the records of the index, then drop unused runtimes. Once that is done, an index that a
     power loss may bring back has all its files exactly if it was not exposed before; and what was
     exposed lacks a file then, or did so from the start.
     */
    method Open() returns (r: Outcome)
      requires index == disk.now.visible && Backed(index, disk.now)
      modifies this`index, disk
      ensures Logged(disk.log, |old(disk.log)|, Exposed(old(disk.now))) && old(disk.log) <= disk.log
      ensures AllOldOrNew(disk.log, |old(disk.log)|, old(disk.now), old(index.packages))
      ensures disk.now.visible.packages == old(disk.now.visible.packages)
      ensures disk.now.generations == old(disk.now.generations)
      ensures disk.homes == old(disk.homes) && disk.debris == old(disk.debris)
      ensures r.Rejected? <==> !ValidRecords(old(index))
      ensures r.Rejected? ==> index == old(index) && disk.now == old(disk.now) && disk.log == old(disk.log)
      ensures r.Rejected? || r.Done? || r.CleanupFailure?
      ensures r.Done? ==>
                && Opened() && Guarded(disk.now, Exposed(old(disk.now)))
                && PoolTokens(disk.now.pool) == Tokens(index.packages)
                && disk.now.durable == (if Minimal(old(index)) then old(disk.now.durable) else {index})
                && (forall i :: i in disk.now.durable ==> (Backed(i, disk.now) <==> i !in Exposed(old(disk.now))))
                && forall i :: i in Exposed(old(disk.now)) ==> i in disk.now.durable || !Backed(i, old(disk.now))
      ensures r.Done? <==> ValidRecords(old(index)) && HexTokens(old(index).packages) && disk.faults == old(disk.faults)
      ensures disk.faults >= old(disk.faults)
    {
      if n :| n in index.packages && !(PackageId(n) && Hex(index.packages[n].version.generation, 32)) {
        return Rejected;
      }
      if n :| n in index.runtimes && !(Hex(index.runtimes[n].sha256, 64) && Hex(index.runtimes[n].md5, 32)) {
        return Rejected;
      }
      ghost var start, exempt := disk.now, Exposed(disk.now);
      r := CollectRuntimes(exempt);
      if r.Done? {
        forall i | i in disk.now.durable ensures Backed(i, disk.now) <==> i !in exempt {
          CollectedExactly(start, disk.now, i);
        }
      }
    }
  }

  ghost predicate ValidRecords(index: Index) {
    && (forall n :: n in index.packages ==> PackageId(n) && Hex(index.packages[n].version.generation, 32))
    && (forall n :: n in index.runtimes ==> Hex(index.runtimes[n].sha256, 64) && Hex(index.runtimes[n].md5, 32))
  }

  ghost predicate CanRollback(name: string, packages: map<string, Record>) {
    && PackageId(name) && name in packages && packages[name].previous.Some?
    && Hex(packages[name].previous.value.version.generation, 32)
  }

  lemma SwapBacked(index: Index, name: string, s: Snapshot)
    requires Backed(index, s) && name in index.packages && index.packages[name].previous.Some?
    ensures Backed(index.(packages := index.packages[name := Swap(index.packages[name])]), s)
    ensures Tokens(index.packages[name := Swap(index.packages[name])]) == Tokens(index.packages)
  {
    var next := index.packages[name := Swap(index.packages[name])];
    assert Versions(next[name]) == Versions(index.packages[name]);
    assert Live(next) == Live(index.packages);
  }

  lemma RestBacked(index: Index, name: string, rest: map<string, Record>, s: Snapshot)
    requires Backed(index, s) && rest == index.packages - {name}
    requires PackageId(name) && forall n :: n in index.packages ==> PackageId(n)
    ensures Backed(index.(packages := rest), s)
    ensures forall g :: g in Generations(rest) ==> g.0 != Slug(name)
  {
    assert Live(rest) <= Live(index.packages);
    forall g | g in Generations(rest) ensures g.0 != Slug(name) && g in Generations(index.packages) {
      var nv :| nv in Live(rest) && g == (Slug(nv.0), nv.1.generation);
      if Slug(nv.0) == Slug(name) {
        SlugInjective(nv.0, name);
      }
    }
  }

  ghost function NewVersion(generation: string, used: map<string, CacheItem>, d: Download): Version {
    Version(generation, d.md5, Digests(used), d.info)
  }

  /** The generation directories on a package's shelf that are neither current nor previous. */
  function Obsolete(slug: string, keep: set<string>, shelf: set<(string, string)>): set<(string, string)> {
    set g | g in shelf && g.0 == slug && g.1 !in keep && Hex(g.1, 32)
  }

  function Kept(r: Record): set<string> {
    {r.version.generation} + if r.previous.Some? then {r.previous.value.version.generation} else {}
  }

  /** The index an install publishes is backed once its runtimes and its generation are in place. */
  lemma NewIndexBacked(index: Index, name: string, version: Version, next: Index, s: Snapshot)
    requires Backed(index, s)
    requires next.packages == Installed(index.packages, name, version)
    requires (Slug(name), version.generation) in s.generations && version.runtimes.Values <= s.pool.Keys
    ensures Backed(next, s) && version.runtimes.Values <= Tokens(next.packages)
    ensures (Slug(name), version.generation) in Generations(next.packages)
  {
    assert (name, version) in Live(next.packages);
    forall nv | nv in Live(next.packages) ensures nv in Live(index.packages) || nv == (name, version) {
    }
    forall t | t in Tokens(next.packages) ensures t in s.pool {
      var nv, rt :| nv in Live(next.packages) && rt in nv.1.runtimes && t == nv.1.runtimes[rt];
      assert nv in Live(index.packages) ==> t in Tokens(index.packages);
    }
    forall g | g in Generations(next.packages) ensures g in s.generations {
      var nv :| nv in Live(next.packages) && g == (Slug(nv.0), nv.1.generation);
      assert nv in Live(index.packages) ==> g in Generations(index.packages);
    }
  }

  /** Publishing a backed index protects both it and the index before it, at every step. */
  lemma PublicationGood(s: Snapshot, next: Index, exempt: set<Index>)
    requires Good(s, exempt) && Backed(next, s)
    ensures Good(s.(visible := next, durable := s.durable + {next}), exempt)
    ensures Backed(s.visible, s.(visible := next, durable := s.durable + {next}))
    ensures Good(s.(visible := next, durable := {next}), {})
  {
  }

  lemma LoggedJoin(first: seq<Snapshot>, log: seq<Snapshot>, from: nat, exempt: set<Index>)
    requires first <= log && Logged(first, from, exempt) && Logged(log, |first|, exempt)
    ensures Logged(log, from, exempt)
  {
    forall k | from <= k < |log| ensures Good(log[k], exempt) {
      if k < |first| {
        assert log[k] == first[k];
      }
    }
  }

  /** Two stretches of a log, where the second starts with indexes that are old or new already. */
  lemma OldOrNewJoin(first: seq<Snapshot>, log: seq<Snapshot>, from: nat, before: Snapshot, middle: Snapshot,
                     packages: map<string, Record>, later: map<string, Record>)
    requires first <= log && AllOldOrNew(first, from, before, packages) && AllOldOrNew(log, |first|, middle, later)
    requires OldOrNew(middle, before, packages)
    requires middle.visible.packages == packages || middle.visible.packages == before.visible.packages
    requires later == packages || later == before.visible.packages
    ensures AllOldOrNew(log, from, before, packages)
  {
    forall k | from <= k < |log| ensures OldOrNew(log[k], before, packages) {
      if k < |first| {
        assert log[k] == first[k];
      } else {
        assert OldOrNew(log[k], middle, later);
      }
    }
  }

  /** Taking back a generation no protected index names. */
  lemma FreshGenerationGood(s: Snapshot, at: (string, string), exempt: set<Index>)
    requires Guarded(s, exempt) && at !in Generations(s.visible.packages)
    requires forall i :: i in s.durable && i !in exempt ==> at !in Generations(i.packages)
    ensures Guarded(s.(generations := s.generations - {at}), exempt)
  {
  }

  /** Taking away directories the visible index does not name leaves every protected index backed. */
  lemma ShrunkGood(before: Snapshot, doomed: set<(string, string)>, s: Snapshot, exempt: set<Index>)
    requires Shrunk(before, doomed, s) && Alone(before, exempt)
    requires doomed !! Generations(before.visible.packages)
    ensures Good(s, exempt) && Alone(s, exempt) && SameIndexes(before, s)
  {
  }

  /** Once the cache is minimal, deleting a pool file the visible index does not need spoils no protected index. */
  lemma SweptGood(s: Snapshot, name: string, exempt: set<Index>)
    requires Guarded(s, exempt) && Minimal(s.visible)
    requires name !in Tokens(s.visible.packages) && Hex(name, 64)
    ensures Guarded(s.(pool := s.pool - {name}), exempt)
  {
    var after := s.(pool := s.pool - {name});
    forall i | i in s.durable && i !in exempt ensures Backed(i, after) && Sheltered(i, after) {
      assert Sheltered(i, s) && Backed(i, s);
      assert name !in Tokens(i.packages);
    }
  }

  lemma GrownGuarded(s: Snapshot, after: Snapshot, exempt: set<Index>)
    requires Guarded(s, exempt) && SameIndexes(s, after)
    requires s.generations.Keys <= after.generations.Keys && s.pool.Keys <= after.pool.Keys
    ensures Guarded(after, exempt)
  {
  }

  /** A download that lands in the pool under its own digest makes no other runtime unready. */
  lemma ReadyStays(shelves: Shelves, used: map<string, CacheItem>, staged: map<string, Blob>, name: string)
    requires shelves.Ready(used, staged) && name in used && name in staged
    ensures shelves.(pool := shelves.pool[used[name].sha256 := staged[name]]).Ready(used, staged)
  {
  }

  /** A completed collection leaves an index without a file exactly if it was exposed. */
  lemma CollectedExactly(s: Snapshot, after: Snapshot, i: Index)
    requires Backed(s.visible, s) && after.visible.packages == s.visible.packages
    requires after == Collected(s).(visible := after.visible, durable := after.durable)
    requires after.durable == if Minimal(s.visible) then s.durable else {after.visible}
    requires i in after.durable
    ensures Backed(i, after) <==> i !in Exposed(s)
  {
    if Minimal(s.visible) {
      CollectionAfterUnsynced(s, i);
    } else {
      assert Tokens(i.packages) <= after.pool.Keys;
    }
  }

  /** Different packages have different directories, so only a package's own entry names its generations. */
  lemma GenerationsOfPackage(index: Index, name: string)
    requires name in index.packages && forall n :: n in index.packages ==> PackageId(n)
    ensures forall g :: g in Generations(index.packages) && g.0 == Slug(name) ==> g.1 in Kept(index.packages[name])
    ensures forall k :: k in Kept(index.packages[name]) ==> (Slug(name), k) in Generations(index.packages)
  {
    forall g | g in Generations(index.packages) && g.0 == Slug(name)
      ensures g.1 in Kept(index.packages[name])
    {
      var nv :| nv in Live(index.packages) && g == (Slug(nv.0), nv.1.generation);
      SlugInjective(nv.0, name);
    }
    forall k | k in Kept(index.packages[name])
      ensures (Slug(name), k) in Generations(index.packages)
    {
      var v :| v in Versions(index.packages[name]) && v.generation == k;
      assert (name, v) in Live(index.packages);
    }
  }

  lemma SlugInjective(a: string, b: string)
    requires PackageId(a) && PackageId(b) && Slug(a) == Slug(b)
    ensures a == b
  {
    assert a == Slug(a) + ".zip" && b == Slug(b) + ".zip";
  }

  datatype Action =
    | InstallAction(name: string, download: Option<Download>, unpacked: bool, generation: string)
    | RollbackAction(name: string)
    | UninstallAction(name: string)
    | ReadAction

  /** One action of an opened store. */
  method Act(store: Store, action: Action, ghost exempt: set<Index>)
    requires store.Opened() && Guarded(store.disk.now, exempt)
    requires action.InstallAction? ==> Hex(action.generation, 32)
    modifies store`index, store.disk
    ensures Logged(store.disk.log, |old(store.disk.log)|, exempt) && old(store.disk.log) <= store.disk.log
    ensures AllShallow(old(store.disk.now)) ==> LoggedShallow(store.disk.log, |old(store.disk.log)|)
  {
    ghost var before, from, packages := store.disk.now, |store.disk.log|, store.index.packages;
    match action {
      case InstallAction(name, download, unpacked, generation) =>
        var _, used := store.Install(name, download, unpacked, generation, exempt);
        if download.Some? {
          HistoryDepth(Lookup(packages, name), NewVersion(generation, used, download.value));
          packages := Installed(packages, name, NewVersion(generation, used, download.value));
        }
      case RollbackAction(name) =>
        var _ := store.Rollback(name, exempt);
        if CanRollback(name, packages) {
          RollbackTwice(packages[name]);
          packages := packages[name := Swap(packages[name])];
        }
      case UninstallAction(name) =>
        var _ := store.Uninstall(name, exempt);
        packages := packages - {name};
      case ReadAction =>
    }
    AllShallowKept(store.disk.log, from, before, packages);
  }

  /** One process: open the store, then carry out one action. */
  method Perform(disk: Disk, sha: Blob -> Token, md5: Blob -> string, action: Action)
    requires Backed(disk.now.visible, disk.now)
    requires action.InstallAction? ==> Hex(action.generation, 32)
    modifies disk
    ensures Logged(disk.log, |old(disk.log)|, Exposed(old(disk.now))) && old(disk.log) <= disk.log
    ensures AllShallow(old(disk.now)) ==> LoggedShallow(disk.log, |old(disk.log)|)
  {
    var store := new Store(disk, sha, md5);
    ghost var exempt, start, from := Exposed(disk.now), disk.now, |disk.log|;
    var r := store.Open();
    AllShallowKept(disk.log, from, start, start.visible.packages);
    if r.Done? {
      ghost var atOpen := disk.log;
      Act(store, action, exempt);
      LoggedJoin(atOpen, disk.log, from, exempt);
      forall k | from <= k < |disk.log| && AllShallow(start) ensures AllShallow(disk.log[k]) {
        assert k < |atOpen| ==> disk.log[k] == atOpen[k];
      }
    }
  }

  lemma AllShallowKept(log: seq<Snapshot>, from: nat, before: Snapshot, packages: map<string, Record>)
    requires AllOldOrNew(log, from, before, packages)
    ensures AllShallow(before) && Shallow(packages) ==> LoggedShallow(log, from)
  {
    if AllShallow(before) && Shallow(packages) {
      forall k | from <= k < |log| ensures AllShallow(log[k]) {
        assert OldOrNew(log[k], before, packages);
      }
    }
  }

  /**
   Any sequence of processes, each ended after any of its steps, by its own end, by a kill or by a
   power loss that brings back any index still possible but for those exposed when the process began:
   no index that can ever be read lacks its files, and no entry gets a second version of history.
   */
  method Run(disk: Disk, sha: Blob -> Token, md5: Blob -> string, actions: seq<Action>)
    requires disk.log == [disk.now] && Backed(disk.now.visible, disk.now)
    requires forall a :: a in actions && a.InstallAction? ==> Hex(a.generation, 32)
    modifies disk
    ensures forall k :: 0 <= k < |disk.log| ==> Backed(disk.log[k].visible, disk.log[k])
    ensures AllShallow(old(disk.now)) ==> LoggedShallow(disk.log, 0)
  {
    ghost var shallow := AllShallow(disk.now);
    for i := 0 to |actions|
      invariant |disk.log| > 0 && disk.now == disk.log[|disk.log| - 1]
      invariant forall k :: 0 <= k < |disk.log| ==> Backed(disk.log[k].visible, disk.log[k])
      invariant shallow ==> LoggedShallow(disk.log, 0)
    {
      var exempt := Exposed(disk.now);
      var first := |disk.log| - 1;
      ghost var start := disk.log;
      Perform(disk, sha, md5, actions[i]);
      forall k | 0 <= k < |disk.log|
        ensures Backed(disk.log[k].visible, disk.log[k])
        ensures first <= k ==> Good(disk.log[k], exempt)
        ensures shallow ==> AllShallow(disk.log[k])
      {
        assert k < |start| ==> disk.log[k] == start[k];
      }
      var k: nat := *;
      if first <= k < |disk.log| {
        var found, powerLost := *, *;
        if powerLost && found in disk.log[k].durable && found !in exempt {
          disk.Interrupt(k, found, true);
        } else {
          disk.Interrupt(k, disk.log[k].visible, false);
        }
      } else {
        disk.Interrupt(|disk.log| - 1, disk.log[|disk.log| - 1].visible, false);
      }
    }
  }

  /** Two rollbacks in a row restore an entry exactly when its previous version has no history of its own. */
  lemma RollbackTwice(r: Record)
    requires r.previous.Some?
    ensures Swap(r).previous.Some? && Depth(Swap(r)) == 2
    ensures Swap(Swap(r)) == r <==> r.previous.value.previous.None?
  {
    assert Swap(Swap(r)) == Record(r.version, Some(Strip(r.previous.value)));
  }

  /** The same of the store: a second rollback undoes the first, index file and all, under that condition. */
  method RollbackAndBack(store: Store, name: string, ghost exempt: set<Index>) returns (first: Outcome, second: Outcome)
    requires store.Opened() && Guarded(store.disk.now, exempt)
    modifies store`index, store.disk
    ensures store.disk.now == old(store.disk.now).(visible := store.disk.now.visible, durable := store.disk.now.durable)
    ensures first.Done? && second.Done? <==>
              CanRollback(name, old(store.index).packages) && store.disk.faults == old(store.disk.faults)
    ensures first.Done? && second.Done? ==>
              && CanRollback(name, old(store.index).packages) && store.disk.Settled()
              && (store.disk.now.visible == old(store.index) <==>
                  old(store.index).packages[name].previous.value.previous.None?)
  {
    first := store.Rollback(name, exempt);
    if !first.Done? {
      return first, Rejected;
    }
    RollbackTwice(old(store.index).packages[name]);
    second := store.Rollback(name, exempt);
    if second.Done? {
      BackAgain(old(store.index), name, store.index);
    }
  }

  lemma BackAgain(index: Index, name: string, back: Index)
    requires name in index.packages && index.packages[name].previous.Some?
    requires Swap(index.packages[name]).previous.Some?
    requires back.packages == index.packages[name := Swap(Swap(index.packages[name]))]
    requires back.runtimes == index.runtimes
    ensures back == index <==> index.packages[name].previous.value.previous.None?
  {
    RollbackTwice(index.packages[name]);
    assert back == index <==> back.packages[name] == index.packages[name];
  }

  /** The entry an install writes has one version of history, and two rollbacks bring it back. */
  lemma HistoryDepth(entry: Option<Record>, version: Version)
    ensures Depth(Succeed(entry, version)) == (if entry.Some? then 2 else 1)
    ensures entry.Some? ==>
              && Swap(Succeed(entry, version)).version == entry.value.version
              && Swap(Swap(Succeed(entry, version))) == Succeed(entry, version)
  {
    if entry.Some? {
      RollbackTwice(Succeed(entry, version));
    }
  }

  /**
   After an unsynced publication, the next process collects without syncing when the cache is already
   minimal. An index a power loss may bring back stays backed exactly when it refers only to runtimes
   of the visible index (or to pool files a collection never deletes).
   */
  lemma CollectionAfterUnsynced(s: Snapshot, i: Index)
    requires Backed(s.visible, s)
    ensures Backed(i, Collected(s)) <==> Backed(i, s) && Sheltered(i, s)
  {
    var after := Collected(s);
    if Backed(i, after) {
      forall t | t in Tokens(i.packages) ensures t in Tokens(s.visible.packages) || !Hex(t, 64) {
        assert t in after.pool;
      }
    }
  }

  /**
   What opening makes of an index that was replaced by one not synced: it may still come back, without one of
   its runtimes, exactly if the new cache has nothing to forget and the new versions do without one of its runtimes.
   */
  ghost predicate LosesRuntime(index: Index, next: Index) {
    && Minimal(next)
    && exists t :: t in Tokens(index.packages) && t !in Tokens(next.packages) && Hex(t, 64)
  }

  /** The next process opens the store after a publication that was not synced. */
  method OpenAfterUnsynced(disk: Disk, sha: Blob -> Token, md5: Blob -> string, ghost before: Index)
    returns (o: Outcome)
    requires disk.now.durable == {before, disk.now.visible}
    requires Backed(before, disk.now) && Backed(disk.now.visible, disk.now)
    modifies disk
    ensures o.Done? ==>
              (before in disk.now.durable && !Backed(before, disk.now) <==> LosesRuntime(before, old(disk.now.visible)))
  {
    ghost var start := disk.now;
    var later := new Store(disk, sha, md5);
    o := later.Open();
    assert before in start.durable;
    if o.Done? && !Minimal(start.visible) {
      assert before in disk.now.durable ==> before == later.index;
    }
  }

  /** An uninstall that is not synced, then the next process: exactly when the index before may come back incomplete. */
  method UninstallThenOpen(store: Store, name: string) returns (u: Outcome, o: Outcome)
    requires store.Opened() && store.disk.Settled()
    modifies store`index, store.disk
    ensures u.UnsyncedFailure? && o.Done? ==>
              (old(store.index) in store.disk.now.durable && !Backed(old(store.index), store.disk.now) <==>
               LosesRuntime(old(store.index), Without(old(store.index), name)))
  {
    ghost var before := store.index;
    u := store.Uninstall(name, {});
    if !u.UnsyncedFailure? {
      return u, Rejected;
    }
    o := OpenAfterUnsynced(store.disk, store.sha, store.md5, before);
  }

  ghost function Without(index: Index, name: string): Index {
    index.(packages := index.packages - {name})
  }

  /** The same of an install; what is lost is a runtime of the previous version, which the new entry drops. */
  method InstallThenOpen(store: Store, name: string, download: Download, generation: string)
    returns (i: Outcome, used: map<string, CacheItem>, o: Outcome)
    requires store.Opened() && store.disk.Settled() && Hex(generation, 32)
    modifies store`index, store.disk
    ensures i.UnsyncedFailure? && o.Done? ==>
              (old(store.index) in store.disk.now.durable && !Backed(old(store.index), store.disk.now) <==>
               LosesRuntime(old(store.index),
                            With(old(store.index), name, NewVersion(generation, used, download), used)))
  {
    ghost var before := store.index;
    i, used := store.Install(name, Some(download), true, generation, {});
    if !i.UnsyncedFailure? {
      return i, used, Rejected;
    }
    assert store.disk.now.visible == With(before, name, NewVersion(generation, used, download), used);
    o := OpenAfterUnsynced(store.disk, store.sha, store.md5, before);
  }

  ghost function With(index: Index, name: string, version: Version, used: map<string, CacheItem>): Index {
    Index(Installed(index.packages, name, version), index.runtimes + used)
  }

  /** On a concrete store: after an unsynced uninstall and the next opening, the old index would lack its runtime. */
  method LoseRuntime(sha: Blob -> Token, md5: Blob -> string, token: Token, generation: string)
    returns (disk: Disk, u: Outcome, o: Outcome)
    requires Hex(generation, 32)
    ensures u.UnsyncedFailure? && o.Done? ==>
              exists i :: i in disk.now.durable && i.packages.Keys == {"a.zip"} && !Backed(i, disk.now)
  {
    var start := OnePackage(token, generation);
    UnsyncedUninstallCanLoseRuntime(token, generation);
    disk := new Disk(start);
    var store := new Store(disk, sha, md5);
    u, o := UninstallThenOpen(store, "a.zip");
    assert u.UnsyncedFailure? && o.Done? ==> start.visible in disk.now.durable && !Backed(start.visible, disk.now);
  }

  /** A store with one package whose runtime the cache has already forgotten. */
  function OnePackage(token: Token, generation: string): Snapshot {
    var index := Index(map["a.zip" := Record(Version(generation, "", map["r" := token], map[]), None)], map[]);
    Snapshot(index, {index}, map[("a", generation) := []], map[token := []])
  }

  /** In it the condition is met. */
  lemma UnsyncedUninstallCanLoseRuntime(token: Token, generation: string)
    requires Hex(generation, 32)
    ensures var s := OnePackage(token, generation);
            && Backed(s.visible, s) && ValidRecords(s.visible) && Minimal(s.visible)
            && PoolTokens(s.pool) == Tokens(s.visible.packages)
            && s.visible.packages.Keys == {"a.zip"} && LosesRuntime(s.visible, Without(s.visible, "a.zip"))
  {
    var s := OnePackage(token, generation);
    var packages := s.visible.packages;
    var v := packages["a.zip"].version;
    assert Live(packages) == {("a.zip", v)};
    assert token in Tokens(packages) by {
      assert ("a.zip", v) in Live(packages) && "r" in v.runtimes;
    }
    assert Tokens(packages) == {token};
    assert Slug("a.zip") == "a";
    assert Generations(packages) == {("a", generation)};
    assert packages - {"a.zip"} == map[];
    assert Live(map[]) == {} && Tokens(map[]) == {};
  }

  /** A store whose one package had a runtime before its last update, and has none since. */
  ghost function TwoVersions(token: Token, former: string, current: string): Snapshot {
    var before := Record(Version(former, "", map["r" := token], map[]), None);
    var index := Index(map["a.zip" := Record(Version(current, "", map[], map[]), Some(before))], map[]);
    Snapshot(index, {index}, map[("a", former) := [], ("a", current) := []], map[token := []])
  }

  lemma TwoVersionsNeed(token: Token, former: string, current: string)
    ensures var packages := TwoVersions(token, former, current).visible.packages;
            Tokens(packages) == {token} && Generations(packages) == {("a", former), ("a", current)}
  {
    var packages := TwoVersions(token, former, current).visible.packages;
    var v, w := packages["a.zip"].version, packages["a.zip"].previous.value.version;
    assert Live(packages) == {("a.zip", v), ("a.zip", w)};
    assert token in Tokens(packages) by {
      assert ("a.zip", w) in Live(packages) && "r" in w.runtimes;
    }
    assert Tokens(packages) == {token};
    assert Slug("a.zip") == "a";
    assert Generations(packages) == {("a", former), ("a", current)};
  }

  /** There a further update without runtimes meets the condition. */
  lemma UnsyncedInstallCanLoseRuntime(token: Token, former: string, current: string, version: Version)
    requires Hex(former, 32) && Hex(current, 32) && former != current && version.runtimes == map[]
    ensures var s := TwoVersions(token, former, current);
            && Backed(s.visible, s) && ValidRecords(s.visible) && Minimal(s.visible)
            && PoolTokens(s.pool) == Tokens(s.visible.packages)
            && LosesRuntime(s.visible, With(s.visible, "a.zip", version, map[]))
  {
    var s := TwoVersions(token, former, current);
    TwoVersionsNeed(token, former, current);
    var next := With(s.visible, "a.zip", version, map[]);
    assert Live(next.packages) == {("a.zip", version), ("a.zip", s.visible.packages["a.zip"].version)};
    assert Tokens(next.packages) == {};
  }
}
