/** Packing a forest of files into an archive and unpacking an archive into a new directory. */
module Zip {
  import opened Common
  import opened FileTree
  import opened EntryTree
  import EntryNames
  import Utf8
  import ZipContainer

  const SIZE_LIMIT := 16 * 1024 * 1024 * 1024
  const DEPTH_LIMIT := 64

  /** An entry as it is written to an archive. */
  datatype Stored = Stored(name: string, folder: bool, content: seq<byte>)

  /** The names under which entries are stored. */
  ghost function Labels(es: seq<Laid>): (r: seq<Stored>)
    requires Placed(es)
    ensures |r| == |es|
  {
    seq(|es|, i requires 0 <= i < |es| => Stored(EntryNames.NameOf(es[i].path), es[i].folder, es[i].content))
  }

  ghost function Bulk(es: seq<Laid>): nat {
    if es == [] then 0 else |es[0].content| + Bulk(es[1..])
  }

  lemma {:induction false} BulkJoined(a: seq<Laid>, b: seq<Laid>)
    ensures Bulk(a + b) == Bulk(a) + Bulk(b)
  {
    if a == [] {
      assert a + b == b;
    } else {
      BulkJoined(a[1..], b);
      assert (a + b)[1..] == a[1..] + b;
    }
  }

  lemma LabelsJoined(a: seq<Laid>, b: seq<Laid>)
    requires Placed(a) && Placed(b)
    ensures Placed(a + b) && Labels(a + b) == Labels(a) + Labels(b)
  {
  }

  lemma {:induction false} EntriesPlaced(p: Path, node: Node)
    requires p != []
    ensures Placed(Entries(p, node))
    decreases node
  {
    if node.Folder? { ForestPlaced(p, node.children); }
  }

  lemma {:induction false} ForestPlaced(p: Path, forest: Forest)
    ensures Placed(EntriesOf(p, forest))
    decreases forest
  {
    if forest.More? {
      EntriesPlaced(p + [forest.name], forest.node);
      ForestPlaced(p, forest.rest);
    }
  }

  // Packing.

  /** A node the packer takes: names safe, nesting bounded, no link, special file or nested mount anywhere. */
  ghost predicate Packable(p: Path, node: Node, depth: nat, safe: string -> bool)
    requires p != []
    decreases node
  {
    && depth <= 64 && safe(EntryNames.NameOf(p)) && !node.Foreign?
    && (node.Folder? ==> PackableAll(p, node.children, depth + 1, safe))
  }

  ghost predicate PackableAll(p: Path, forest: Forest, depth: nat, safe: string -> bool)
    decreases forest
  {
    forest.More? ==> Packable(p + [forest.name], forest.node, depth, safe) && PackableAll(p, forest.rest, depth, safe)
  }

  /** The counters after adding entries stay within the limits. */
  ghost predicate Room(count: nat, total: nat, es: seq<Laid>) {
    count + |es| <= 50_000 && total + Bulk(es) <= 17_179_869_184
  }

  class Packer {
    const safe: string -> bool
    var count: nat
    var total: nat
    var written: seq<Stored>
    var faults: nat

    constructor (safe: string -> bool)
      ensures this.safe == safe && count == total == faults == 0 && written == []
    {
      this.safe := safe;
      count, total, written, faults := 0, 0, [], 0;
    }

    /**
     Copies a file into the archive in blocks. The file may change while it is read; its size when opened and
     its time of change decide whether what was copied is what the file held.
     */
    method AddContent(content: seq<byte>) returns (ok: bool, stored: seq<byte>)
      requires total + |content| <= SIZE_LIMIT
      modifies this`faults, this`total
      ensures old(faults) <= faults
      ensures ok <==> faults == old(faults)
      ensures ok ==> stored == content && total == old(total) + |content|
      ensures total <= SIZE_LIMIT
    {
      var size, touched := |content|, false;
      stored := [];
      while true
        invariant |stored| <= size && total == old(total) + |stored|
        invariant !touched ==> stored == content[..|stored|]
        invariant faults == old(faults)
        decreases size - |stored|
      {
        var change: bool, atEnd: bool, data: seq<byte> := *, *, *;
        touched := touched || change;
        if !touched {
          atEnd := |stored| == size;
          data := if 1 <= |data| <= size - |stored| then content[|stored|..|stored| + |data|] else content[|stored|..];
        }
        if atEnd { break; }
        var failed: bool;
        failed, faults := MayFail(faults);
        if failed { return false, stored; }
        if data == [] || |data| > size - |stored| {
          faults := faults + 1;
          return false, stored;
        }
        stored := stored + data;
        total := total + |data|;
      }
      if |stored| != size || touched {
        faults := faults + 1;
        return false, stored;
      }
      ok := true;
    }

    /** The checks on one entry before its header is written. */
    method Header(node: Node, name: string, depth: nat) returns (ok: bool)
      requires count <= ZipContainer.ENTRY_LIMIT && total <= SIZE_LIMIT
      modifies this`count, this`faults
      ensures old(faults) <= faults
      ensures ok <==> && faults == old(faults) && depth <= DEPTH_LIMIT && old(count) + 1 <= ZipContainer.ENTRY_LIMIT
                      && safe(name) && !node.Foreign? && (node.Leaf? ==> total + |node.content| <= SIZE_LIMIT)
      ensures ok ==> count == old(count) + 1
    {
      var failed: bool;
      failed, faults := MayFail(faults);
      if failed { return false; }
      if depth > DEPTH_LIMIT { return false; }
      count := count + 1;
      if count > ZipContainer.ENTRY_LIMIT || !safe(name) || node.Foreign? { return false; }
      var size := if node.Folder? then 0 else |node.content|;
      if size > SIZE_LIMIT - total { return false; }
      failed, faults := MayFail(faults);
      ok := !failed;
    }

    /**
     Adds one file or directory with all it holds. Counters may only grow within the limits, so a failure deep
     inside means that the whole would not have fitted.
     */
    method Add(ghost p: Path, node: Node, name: string, depth: nat) returns (ok: bool)
      requires p != [] && name == EntryNames.NameOf(p) && count <= ZipContainer.ENTRY_LIMIT && total <= SIZE_LIMIT
      modifies this
      ensures old(faults) <= faults && total <= SIZE_LIMIT
      ensures ok <==> && faults == old(faults) && Packable(p, node, depth, safe)
                      && old(Room(count, total, Entries(p, node)))
      ensures ok ==> Placed(Entries(p, node)) && written == old(written) + Labels(Entries(p, node))
      ensures ok ==> count == old(count) + |Entries(p, node)| && total == old(total) + Bulk(Entries(p, node))
      decreases node
    {
      EntryFacts(p, node);
      ok := Header(node, name, depth);
      if !ok { return; }
      if node.Folder? {
        written := written + [Stored(name, true, [])];
        ok := AddChildren(p, node.children, name, depth + 1);
        if !ok { return; }
      } else {
        var stored;
        ok, stored := AddContent(node.content);
        if !ok { return; }
        written := written + [Stored(name, false, stored)];
      }
      var failed: bool;
      failed, faults := MayFail(faults);
      ok := !failed;
    }

    method AddChildren(ghost p: Path, forest: Forest, name: string, depth: nat) returns (ok: bool)
      requires p != [] && name == EntryNames.NameOf(p) && count <= ZipContainer.ENTRY_LIMIT && total <= SIZE_LIMIT
      modifies this
      ensures old(faults) <= faults && total <= SIZE_LIMIT
      ensures ok <==> && faults == old(faults) && PackableAll(p, forest, depth, safe)
                      && old(Room(count, total, EntriesOf(p, forest)))
      ensures ok ==> Placed(EntriesOf(p, forest)) && written == old(written) + Labels(EntriesOf(p, forest))
      ensures ok ==> count == old(count) + |EntriesOf(p, forest)| && total == old(total) + Bulk(EntriesOf(p, forest))
      decreases forest
    {
      if forest.Bare? { return true; }
      ForestFacts(p, forest);
      var childName := name + "/" + forest.name.text;
      assert childName == EntryNames.NameOf(p + [forest.name]) by { EntryNames.NameOfChild(p, forest.name); }
      ok := Add(p + [forest.name], forest.node, childName, depth);
      if !ok { return; }
      ghost var before, first := old(written), Labels(Entries(p + [forest.name], forest.node));
      ok := AddChildren(p, forest.rest, name, depth);
      Associate(before, first, Labels(EntriesOf(p, forest.rest)));
    }
  }

  /** What a forest's entries count, weigh and are called: those of its first node and those of the rest. */
  lemma ForestFacts(p: Path, forest: Forest)
    requires forest.More?
    ensures var all, others := EntriesOf(p, forest), EntriesOf(p, forest.rest);
            var first := Entries(p + [forest.name], forest.node);
            && Placed(all) && Placed(first) && Placed(others)
            && |all| == |first| + |others| && Bulk(all) == Bulk(first) + Bulk(others)
            && Labels(all) == Labels(first) + Labels(others)
  {
    ForestPlaced(p, forest);
    EntriesPlaced(p + [forest.name], forest.node);
    ForestPlaced(p, forest.rest);
    BulkJoined(Entries(p + [forest.name], forest.node), EntriesOf(p, forest.rest));
    LabelsJoined(Entries(p + [forest.name], forest.node), EntriesOf(p, forest.rest));
  }

  /** What a node's entries count, weigh and are called. */
  lemma EntryFacts(p: Path, node: Node)
    requires p != []
    ensures Placed(Entries(p, node))
    ensures node.Leaf? ==> |Entries(p, node)| == 1 && Bulk(Entries(p, node)) == |node.content|
                           && Labels(Entries(p, node)) == [Stored(EntryNames.NameOf(p), false, node.content)]
    ensures node.Folder? ==> var es := EntriesOf(p, node.children);
              && |Entries(p, node)| == 1 + |es| && Bulk(Entries(p, node)) == Bulk(es) && Placed(es)
              && Labels(Entries(p, node)) == [Stored(EntryNames.NameOf(p), true, [])] + Labels(es)
  {
    EntriesPlaced(p, node);
    if node.Folder? {
      var es := EntriesOf(p, node.children);
      ForestPlaced(p, node.children);
      BulkJoined([Laid(p, true, [])], es);
      LabelsJoined([Laid(p, true, [])], es);
    }
  }

  /** Something the user selected: where it is, and what is there. */
  datatype Source = Source(path: Path, node: Node)

  function LastName(s: Source): Name
    requires s.path != []
  {
    s.path[|s.path| - 1]
  }

  ghost predicate Rootless(sources: seq<Source>) {
    forall i :: 0 <= i < |sources| ==> sources[i].path != []
  }

  /** The selection as one forest, in the order selected. */
  ghost function ForestOf(sources: seq<Source>): Forest
    requires Rootless(sources)
  {
    if sources == [] then Bare else More(LastName(sources[0]), sources[0].node, ForestOf(sources[1..]))
  }

  ghost predicate Distinct(sources: seq<Source>)
    requires Rootless(sources)
  {
    forall i, j :: 0 <= i < j < |sources| ==> LastName(sources[i]) != LastName(sources[j])
  }

  /** A source may not be a root or mount point, nor a directory that the archive would be written into. */
  ghost predicate Allowed(s: Source, destination: Path, guarded: set<Path>) {
    s.path != [] && s.path !in guarded && !(s.node.Folder? && destination != [] && s.path <= Parent(destination))
  }

  ghost predicate AllAllowed(sources: seq<Source>, destination: Path, guarded: set<Path>) {
    forall i :: 0 <= i < |sources| ==> Allowed(sources[i], destination, guarded)
  }

  /** Exactly what must hold of a selection for it to be packed. */
  ghost predicate Packs(sources: seq<Source>, destination: Path, occupied: bool, guarded: set<Path>,
                        safe: string -> bool) {
    && sources != [] && !occupied && destination != [] && destination !in guarded
    && AllAllowed(sources, destination, guarded) && Distinct(sources)
    && Fitting(sources, safe)
  }

  /** One more source: its entries come last. */
  lemma {:induction false} ForestMore(a: seq<Source>, s: Source, safe: string -> bool)
    requires Rootless(a) && s.path != []
    ensures Rootless(a + [s])
    ensures EntriesOf([], ForestOf(a + [s])) == EntriesOf([], ForestOf(a)) + Entries([LastName(s)], s.node)
    ensures PackableAll([], ForestOf(a + [s]), 0, safe)
            <==> PackableAll([], ForestOf(a), 0, safe) && Packable([LastName(s)], s.node, 0, safe)
  {
    if a == [] {
      assert a + [s] == [s] && [s][1..] == [];
      assert [] + [LastName(s)] == [LastName(s)];
    } else {
      ForestMore(a[1..], s, safe);
      assert (a + [s])[1..] == a[1..] + [s];
    }
  }

  lemma ForestSplit(sources: seq<Source>, i: nat, safe: string -> bool)
    requires Rootless(sources) && i < |sources|
    ensures EntriesOf([], ForestOf(sources[..i + 1]))
            == EntriesOf([], ForestOf(sources[..i])) + Entries([LastName(sources[i])], sources[i].node)
    ensures PackableAll([], ForestOf(sources[..i + 1]), 0, safe)
            <==> && PackableAll([], ForestOf(sources[..i]), 0, safe)
                 && Packable([LastName(sources[i])], sources[i].node, 0, safe)
  {
    ForestMore(sources[..i], sources[i], safe);
    assert sources[..i + 1] == sources[..i] + [sources[i]];
  }

  /** What the first sources need, the whole selection needs. */
  lemma {:induction false} ForestPart(sources: seq<Source>, i: nat, safe: string -> bool)
    requires Rootless(sources) && i <= |sources|
    ensures var part, whole := ForestOf(sources[..i]), ForestOf(sources);
            && |EntriesOf([], part)| <= |EntriesOf([], whole)|
            && Bulk(EntriesOf([], part)) <= Bulk(EntriesOf([], whole))
            && (PackableAll([], whole, 0, safe) ==> PackableAll([], part, 0, safe))
    decreases |sources| - i
  {
    if i < |sources| {
      ForestPart(sources, i + 1, safe);
      ForestSplit(sources, i, safe);
      BulkJoined(EntriesOf([], ForestOf(sources[..i])), Entries([LastName(sources[i])], sources[i].node));
    } else {
      assert sources[..i] == sources;
    }
  }

  /**
   Packing publishes an archive exactly when the selection may be packed and nothing disturbed it; the archive
   then holds the selection's entries, each directory before what it holds. Otherwise nothing is published.
   */
  method Pack(sources: seq<Source>, destination: Path, occupied: bool, guarded: set<Path>, safe: string -> bool)
    returns (archive: Option<seq<Stored>>, disturbed: bool)
    ensures archive.Some? <==> !disturbed && Packs(sources, destination, occupied, guarded, safe)
    ensures disturbed ==> && sources != [] && !occupied && destination != [] && destination !in guarded
                          && AllAllowed(sources, destination, guarded)
    ensures archive.Some? ==> Placed(EntriesOf([], ForestOf(sources)))
                              && archive.value == Labels(EntriesOf([], ForestOf(sources)))
  {
    disturbed := false;
    if sources == [] || occupied || destination == [] || destination in guarded { return None, false; }
    for i := 0 to |sources|
      invariant AllAllowed(sources[..i], destination, guarded)
    {
      var s := sources[i];
      if s.path == [] || s.path in guarded || (s.node.Folder? && s.path <= Parent(destination)) { return None, false; }
      assert sources[..i + 1] == sources[..i] + [s];
    }
    assert sources[..|sources|] == sources;
    var packer := new Packer(safe);
    var failed: bool;
    failed, packer.faults := MayFail(packer.faults);
    if failed { return None, true; }
    var ok := AddSources(packer, sources);
    if !ok { return None, packer.faults > 0; }
    failed, packer.faults := MayFail(packer.faults);
    if failed { return None, true; }
    archive := Some(packer.written);
  }

  /** What may be added, and fits. */
  ghost predicate Fitting(sources: seq<Source>, safe: string -> bool)
    requires Rootless(sources)
  {
    PackableAll([], ForestOf(sources), 0, safe) && Room(0, 0, EntriesOf([], ForestOf(sources)))
  }

  /** The packer has taken exactly these sources. */
  ghost predicate Taken(packer: Packer, sources: seq<Source>)
    requires Rootless(sources)
    reads packer
  {
    var es := EntriesOf([], ForestOf(sources));
    && packer.faults == 0 && packer.count == |es| && packer.total == Bulk(es)
    && Fitting(sources, packer.safe) && Placed(es) && packer.written == Labels(es)
  }

  method AddSource(packer: Packer, sources: seq<Source>, i: nat) returns (ok: bool)
    requires Rootless(sources) && i < |sources| && Taken(packer, sources[..i])
    modifies packer
    ensures ok ==> Taken(packer, sources[..i + 1])
    ensures !ok && packer.faults == 0 ==> !Fitting(sources, packer.safe)
  {
    var s := sources[i];
    ghost var before, here := EntriesOf([], ForestOf(sources[..i])), Entries([LastName(s)], s.node);
    ForestSplit(sources, i, packer.safe);
    ForestPart(sources, i + 1, packer.safe);
    BulkJoined(before, here);
    ok := packer.Add([LastName(s)], s.node, LastName(s).text, 0);
    if ok { LabelsJoined(before, here); }
  }

  method AddSources(packer: Packer, sources: seq<Source>) returns (ok: bool)
    requires Rootless(sources) && packer.count == packer.total == packer.faults == 0 && packer.written == []
    modifies packer
    ensures ok <==> packer.faults == 0 && Distinct(sources) && Fitting(sources, packer.safe)
    ensures ok ==> Taken(packer, sources)
  {
    var names: set<Name> := {};
    assert sources[..0] == [];
    for i := 0 to |sources|
      invariant names == set j | 0 <= j < i :: LastName(sources[j])
      invariant Distinct(sources[..i]) && Taken(packer, sources[..i])
    {
      if LastName(sources[i]) in names { return false; }
      ok := AddSource(packer, sources, i);
      if !ok { return false; }
      names := names + {LastName(sources[i])};
    }
    assert sources[..|sources|] == sources;
    ok := true;
  }

  // Unpacking.

  datatype Kind = AFile | ADir | AnOther

  /**
   An entry as the archive reader delivers it: the bytes of its name, the size its header declares, whether it is
   stored or deflated and neither encrypted nor a link, the blocks of its data, and whether they ended without an error.
   */
  datatype Item = Item(raw: seq<byte>, kind: Kind, declared: int, plain: bool, blocks: seq<seq<byte>>, intact: bool)

  /**
   How entry names are written and read: as which bytes, which are safe, and the path below the destination that
   each one spells.
   */
  datatype Naming = Naming(write: string -> seq<byte>, read: seq<byte> -> string, safe: string -> bool,
                           place: string -> Path)

  ghost function Meaning(i: Item, names: Naming): Laid {
    Laid(names.place(names.read(i.raw)), i.kind.ADir?, if i.kind.AFile? then Concat(i.blocks) else [])
  }

  ghost function Meanings(items: seq<Item>, names: Naming): (r: seq<Laid>)
    ensures |r| == |items|
  {
    seq(|items|, i requires 0 <= i < |items| => Meaning(items[i], names))
  }

  ghost function Size(i: Item): nat {
    if i.kind.AFile? then |Concat(i.blocks)| else 0
  }

  ghost function SizeOf(items: seq<Item>): nat {
    if items == [] then 0 else SizeOf(items[..|items| - 1]) + Size(items[|items| - 1])
  }

  /** What one entry must be when `total` bytes were extracted before it. */
  ghost predicate Takes(i: Item, total: nat, names: Naming) {
    && names.safe(names.read(i.raw)) && i.plain && !i.kind.AnOther? && 0 <= i.declared <= 17_179_869_184 - total
    && (i.kind.AFile? ==> i.intact && total + Size(i) <= 17_179_869_184 && !EndsWith(names.read(i.raw), "/"))
  }

  ghost predicate TakesAt(items: seq<Item>, i: nat, names: Naming)
    requires i < |items|
  {
    Takes(items[i], SizeOf(items[..i]), names)
  }

  ghost predicate TakesAll(items: seq<Item>, names: Naming) {
    forall i :: 0 <= i < |items| ==> TakesAt(items, i, names)
  }

  lemma SizeOfPrefix(items: seq<Item>, i: nat)
    requires i < |items|
    ensures SizeOf(items[..i + 1]) == SizeOf(items[..i]) + Size(items[i])
  {
    assert items[..i + 1][..i] == items[..i];
  }

  lemma {:induction false} LayPrefix(t: Tree, es: seq<Laid>, i: nat)
    requires i <= |es| && LayAll(t, es).Some?
    ensures LayAll(t, es[..i]).Some?
  {
    if i < |es| {
      LayPrefix(t, es[..|es| - 1], i);
      assert es[..|es| - 1][..i] == es[..i];
    } else {
      assert es[..i] == es;
    }
  }

  lemma MeaningsPrefix(items: seq<Item>, names: Naming, t: Tree, i: nat)
    requires i < |items|
    ensures var es := Meanings(items, names);
            && es[..i] == Meanings(items[..i], names) && es[..i + 1] == Meanings(items[..i + 1], names)
            && LayAll(t, es[..i + 1]) == match LayAll(t, es[..i]) case None => None case Some(u) => Lay(u, es[i])
    ensures LayAll(t, Meanings(items, names)).Some? ==> LayAll(t, Meanings(items[..i + 1], names)).Some?
  {
    var es := Meanings(items, names);
    assert es[..i] == Meanings(items[..i], names);
    assert es[..i + 1] == Meanings(items[..i + 1], names);
    LayNext(t, es, i);
    if LayAll(t, es).Some? { LayPrefix(t, es, i + 1); }
  }

  lemma LayNext(t: Tree, es: seq<Laid>, i: nat)
    requires i < |es|
    ensures LayAll(t, es[..i + 1]) == match LayAll(t, es[..i]) case None => None case Some(u) => Lay(u, es[i])
  {
    assert es[..i + 1][..i] == es[..i];
  }

  lemma {:induction false} ConcatStep(blocks: seq<seq<byte>>, i: nat)
    requires i < |blocks|
    ensures Concat(blocks[..i + 1]) == Concat(blocks[..i]) + blocks[i]
  {
    if i > 0 {
      ConcatStep(blocks[1..], i - 1);
      assert blocks[..i + 1][1..] == blocks[1..][..i] && blocks[..i][1..] == blocks[1..][..i - 1];
    }
  }

  lemma {:induction false} ConcatPart(blocks: seq<seq<byte>>, i: nat)
    requires i <= |blocks|
    ensures |Concat(blocks[..i])| <= |Concat(blocks)|
    decreases |blocks| - i
  {
    if i < |blocks| {
      ConcatPart(blocks, i + 1);
      ConcatStep(blocks, i);
    } else {
      assert blocks[..i] == blocks;
    }
  }

  /** Where a whole tree lands when its root is renamed to a path. */
  function Landing(stage: Tree, at: Path): (r: set<Path>)
    ensures forall q {:trigger q in r} :: q in r <==> at <= q && q[|at|..] in stage
  {
    var r := set p | p in stage :: at + p;
    assert forall q :: q in r <==> at <= q && q[|at|..] in stage by {
      forall q | at <= q && q[|at|..] in stage ensures q in r {
        assert q == at + q[|at|..];
      }
    }
    r
  }

  function Grafted(t: Tree, at: Path, stage: Tree): Tree {
    t + map q | q in Landing(stage, at) :: stage[q[|at|..]]
  }

  /** What is published is the staged tree itself, and nothing else changes. */
  lemma GraftedExactly(t: Tree, at: Path, stage: Tree)
    requires Nothing(t, at)
    ensures Mirrors(stage, [], Grafted(t, at, stage), at) && SameOutside(t, Grafted(t, at, stage), at)
  {
    var u := Grafted(t, at, stage);
    forall q | q in u && at <= q ensures Shift(at, [], q) in stage && stage[Shift(at, [], q)] == u[q] {
      assert Shift(at, [], q) == q[|at|..];
    }
    forall p | p in stage ensures Shift([], at, p) in u && u[Shift([], at, p)] == stage[p] {
      assert Shift([], at, p)[|at|..] == p;
    }
  }

  lemma CountUnique(file: seq<byte>, a: nat, b: nat, safe: seq<byte> -> bool)
    ensures ZipContainer.Described(file, a, safe) && ZipContainer.Described(file, b, safe) ==> a == b
  {
    if ZipContainer.Described(file, a, safe) && ZipContainer.Described(file, b, safe) {
      var p, r :| ZipContainer.Describes(file, p, r, safe) && |r| == a;
      var q, s :| ZipContainer.Describes(file, q, s, safe) && |s| == b;
      ZipContainer.DescriptionUnique(file, p, r, q, s, safe);
    }
  }

  class Unpacker {
    const names: Naming
    const guarded: set<Path>
    var tree: Tree
    var stage: Tree
    var total: nat
    var faults: nat

    constructor (names: Naming, guarded: set<Path>, tree: Tree)
      ensures this.names == names && this.guarded == guarded && this.tree == tree && faults == 0
    {
      this.names, this.guarded, this.tree := names, guarded, tree;
      stage, total, faults := EMPTY, 0, 0;
    }

    /** Writes an entry's data block by block, never letting the total pass the limit. */
    method WriteBlocks(i: Item) returns (ok: bool, content: seq<byte>)
      requires total <= SIZE_LIMIT
      modifies this`total, this`faults
      ensures old(faults) <= faults && total <= SIZE_LIMIT
      ensures ok <==> faults == old(faults) && i.intact && old(total) + |Concat(i.blocks)| <= SIZE_LIMIT
      ensures ok ==> content == Concat(i.blocks) && total == old(total) + |content|
    {
      content := [];
      for k := 0 to |i.blocks|
        invariant faults == old(faults) && total <= SIZE_LIMIT
        invariant content == Concat(i.blocks[..k]) && total == old(total) + |content|
      {
        var failed: bool;
        failed, faults := MayFail(faults);
        if failed { return false, content; }
        ConcatStep(i.blocks, k);
        ConcatPart(i.blocks, k + 1);
        if |i.blocks[k]| > SIZE_LIMIT - total { return false, content; }
        failed, faults := MayFail(faults);
        if failed { return false, content; }
        content := content + i.blocks[k];
        total := total + |i.blocks[k]|;
      }
      assert i.blocks[..|i.blocks|] == i.blocks;
      if !i.intact { return false, content; }
      var unsynced: bool;
      unsynced, faults := MayFail(faults);
      ok := !unsynced;
    }

    method ExtractFile(i: Item, name: string) returns (ok: bool)
      requires total <= SIZE_LIMIT && i.kind.AFile? && name == names.read(i.raw)
      modifies this`stage, this`total, this`faults
      ensures old(faults) <= faults && total <= SIZE_LIMIT
      ensures ok <==> faults == old(faults) && i.intact && old(total) + Size(i) <= SIZE_LIMIT && !EndsWith(name, "/")
                      && Lay(old(stage), Meaning(i, names)).Some?
      ensures ok ==> Lay(old(stage), Meaning(i, names)) == Some(stage) && total == old(total) + Size(i)
    {
      var path := names.place(name);
      if path == [] { return false; }
      var made := MakePath(stage, Parent(path));
      if made.None? { return false; }
      stage := made.value;
      if EndsWith(name, "/") || path in stage { return false; }
      var failed: bool;
      failed, faults := MayFail(faults);
      if failed { return false; }
      var content;
      ok, content := WriteBlocks(i);
      if ok { stage := stage[path := File(content)]; }
    }

    /** One entry: refused by its name, its kind or its size before anything is created for it. */
    method Extract(i: Item) returns (ok: bool)
      requires total <= SIZE_LIMIT
      modifies this`stage, this`total, this`faults
      ensures old(faults) <= faults && total <= SIZE_LIMIT
      ensures ok <==> faults == old(faults) && Takes(i, old(total), names) && Lay(old(stage), Meaning(i, names)).Some?
      ensures ok ==> Lay(old(stage), Meaning(i, names)) == Some(stage) && total == old(total) + Size(i)
    {
      var failed: bool;
      failed, faults := MayFail(faults);
      if failed { return false; }
      var name := names.read(i.raw);
      if !i.plain || !names.safe(name) { return false; }
      if i.kind.AnOther? || i.declared < 0 || i.declared > SIZE_LIMIT - total { return false; }
      if i.kind.AFile? {
        ok := ExtractFile(i, name);
        return;
      }
      failed, faults := MayFail(faults);
      if failed { return false; }
      var made := MakePath(stage, names.place(name));
      if made.None? { return false; }
      stage := made.value;
      ok := true;
    }

    /** Exactly what must hold of an archive for it to be unpacked. */
    ghost predicate Unpacks(t: Tree, items: seq<Item>, expected: nat, destination: Path) {
      && destination !in guarded && destination !in t && destination != [] && IsDir(t, Parent(destination))
      && |items| == expected <= 50_000
      && TakesAll(items, names) && LayAll(EMPTY, Meanings(items, names)).Some?
    }

    /**
     Unpacking publishes the complete tree under the new name in one step, exactly when the archive may be
     unpacked and nothing disturbed it; otherwise the file system is as it was.
     */
    method Unpack(items: seq<Item>, expected: nat, destination: Path) returns (ok: bool)
      requires Rooted(tree)
      modifies this
      ensures old(faults) <= faults
      ensures ok <==> faults == old(faults) && Unpacks(old(tree), items, expected, destination)
      ensures ok ==> Mirrors(LayAll(EMPTY, Meanings(items, names)).value, [], tree, destination)
                     && SameOutside(old(tree), tree, destination)
      ensures !ok ==> tree == old(tree)
    {
      if destination in guarded || destination in tree { return false; }
      if destination == [] || !IsDir(tree, Parent(destination)) { return false; }
      NothingBelow(tree, destination);
      ok := ExtractAll(items, expected);
      if !ok { return false; }
      var failed: bool;
      failed, faults := MayFail(faults);
      if failed { return false; }
      GraftedExactly(tree, destination, stage);
      tree := Grafted(tree, destination, stage);
    }

    /**
     The whole operation: the container is checked first, and extraction must meet exactly the entries that its
     directory counts.
     */
    method UnpackZip(file: seq<byte>, items: seq<Item>, destination: Path, cancel: set<nat>) returns (ok: bool)
      requires Rooted(tree)
      modifies this
      ensures old(faults) <= faults
      ensures ok ==> && ZipContainer.Described(file, |items|, ZipContainer.SafeName)
                     && !ZipContainer.Interrupted(file, ZipContainer.SafeName, cancel)
                     && Unpacks(old(tree), items, |items|, destination)
      ensures !ok && faults == old(faults) && !ZipContainer.Interrupted(file, ZipContainer.SafeName, cancel) ==>
                || !ZipContainer.Described(file, |items|, ZipContainer.SafeName)
                || !Unpacks(old(tree), items, |items|, destination)
      ensures ok ==> Mirrors(LayAll(EMPTY, Meanings(items, names)).value, [], tree, destination)
                     && SameOutside(old(tree), tree, destination)
      ensures !ok ==> tree == old(tree)
    {
      if destination in guarded || destination in tree { return false; }
      var verdict, expected := ZipContainer.Check(file, cancel);
      if !verdict.Accepted? { return false; }
      CountUnique(file, |items|, expected, ZipContainer.SafeName);
      ok := Unpack(items, expected, destination);
    }

    /** The first entries have been extracted, and nothing has failed. */
    ghost predicate Done(items: seq<Item>)
      reads this
    {
      && total == SizeOf(items) <= SIZE_LIMIT && TakesAll(items, names)
      && LayAll(EMPTY, Meanings(items, names)) == Some(stage)
    }

    method ExtractNext(items: seq<Item>, count: nat) returns (ok: bool)
      requires count < |items| && Done(items[..count])
      modifies this`stage, this`total, this`faults
      ensures old(faults) <= faults
      ensures ok ==> faults == old(faults) && Done(items[..count + 1])
      ensures !ok && faults == old(faults) ==>
                !(TakesAll(items, names) && LayAll(EMPTY, Meanings(items, names)).Some?)
    {
      SizeOfPrefix(items, count);
      MeaningsPrefix(items, names, EMPTY, count);
      TakesOneMore(items, count, names);
      ok := Extract(items[count]);
    }

    method ExtractAll(items: seq<Item>, expected: nat) returns (ok: bool)
      modifies this`stage, this`total, this`faults
      ensures old(faults) <= faults
      ensures ok <==> && faults == old(faults) && |items| == expected <= ZipContainer.ENTRY_LIMIT
                      && TakesAll(items, names) && LayAll(EMPTY, Meanings(items, names)).Some?
      ensures ok ==> LayAll(EMPTY, Meanings(items, names)) == Some(stage)
    {
      stage, total := EMPTY, 0;
      var failed: bool;
      failed, faults := MayFail(faults);
      if failed { return false; }
      var count := 0;
      assert items[..0] == [];
      while count < |items|
        invariant 0 <= count <= |items| && count <= ZipContainer.ENTRY_LIMIT
        invariant faults == old(faults) && Done(items[..count])
      {
        if count + 1 > ZipContainer.ENTRY_LIMIT { return false; }
        ok := ExtractNext(items, count);
        if !ok { return false; }
        count := count + 1;
      }
      assert items[..count] == items;
      if count != expected { return false; }
      failed, faults := MayFail(faults);
      ok := !failed;
    }
  }

  lemma TakesOneMore(items: seq<Item>, i: nat, names: Naming)
    requires i < |items| && TakesAll(items[..i], names)
    ensures TakesAll(items[..i + 1], names) <==> TakesAt(items, i, names)
    ensures TakesAll(items, names) ==> TakesAt(items, i, names)
  {
    var more, part := items[..i + 1], items[..i];
    assert more[..i] == part;
    forall j | 0 <= j < i ensures TakesAt(more, j, names) {
      assert more[..j] == items[..j] == part[..j];
      assert TakesAt(part, j, names);
    }
    assert TakesAt(more, i, names) <==> TakesAt(items, i, names);
  }

  // Packing, then unpacking.

  /** A directory lists names without slashes, each once. */
  ghost predicate Listed(node: Node) {
    node.Folder? ==> ListedAll(node.children)
  }

  ghost predicate ListedAll(forest: Forest) {
    forest.More? ==> && EntryNames.Proper(forest.name) && forest.name !in Names(forest.rest)
                     && Listed(forest.node) && ListedAll(forest.rest)
  }

  /** A well-formed entry of a pack: a proper path with a safe name, and no content for a directory. */
  ghost predicate Good(e: Laid, safe: string -> bool) {
    EntryNames.ProperPath(e.path) && safe(EntryNames.NameOf(e.path)) && (e.folder ==> e.content == [])
  }

  lemma {:induction false} PackedGood(p: Path, node: Node, depth: nat, safe: string -> bool)
    requires EntryNames.ProperPath(p) && Listed(node) && Packable(p, node, depth, safe)
    ensures Sound(node) && forall e :: e in Entries(p, node) ==> Good(e, safe)
    decreases node
  {
    if node.Folder? { PackedForestGood(p, node.children, depth + 1, safe); }
  }

  lemma {:induction false} PackedForestGood(p: Path, forest: Forest, depth: nat, safe: string -> bool)
    requires (p == [] || EntryNames.ProperPath(p)) && ListedAll(forest) && PackableAll(p, forest, depth, safe)
    ensures SoundAll(forest) && forall e :: e in EntriesOf(p, forest) ==> Good(e, safe)
    decreases forest
  {
    if forest.More? {
      PackedGood(p + [forest.name], forest.node, depth, safe);
      PackedForestGood(p, forest.rest, depth, safe);
    }
  }

  /**
   What the archive library promises of a stored entry when it reads it back: the bytes of the name are the same, with
   a final slash to mark a directory, the data is the same however it is cut into blocks, and the declared size is
   not above the true one.
   */
  ghost predicate Returns(s: Stored, i: Item, names: Naming) {
    && i.raw == names.write(s.name) + (if s.folder && !EndsWith(s.name, "/") then SLASH else [])
    && i.kind == (if s.folder then ADir else AFile) && i.plain && i.intact
    && Concat(i.blocks) == s.content && 0 <= i.declared <= |s.content|
  }

  const SLASH: seq<byte> := [0x2F]

  ghost predicate ReadBack(archive: seq<Stored>, items: seq<Item>, names: Naming) {
    |items| == |archive| && forall i :: 0 <= i < |items| ==> Returns(archive[i], items[i], names)
  }

  /** The names of proper paths are read back without a leading U+FEFF, and lead to the paths so changed. */
  ghost predicate Faithful(names: Naming) {
    forall p {:trigger EntryNames.NameOf(p)} :: EntryNames.ProperPath(p) ==> FaithfulAt(p, names)
  }

  ghost predicate FaithfulAt(p: Path, names: Naming)
    requires p != []
  {
    var stored := names.write(EntryNames.NameOf(p));
    var plain, marked := names.read(stored), names.read(stored + SLASH);
    && names.place(plain) == names.place(marked) == EntryNames.Shown(p)
    && !EndsWith(EntryNames.NameOf(p), "/") && !EndsWith(plain, "/")
    && (names.safe(marked) <==> names.safe(plain))
    && (!Utf8.Marked(p[0].text) ==> plain == EntryNames.NameOf(p))
  }

  const ZIP_NAMES := Naming(Utf8.Encode, Utf8.FromUtf8, EntryNames.SafeEntry, EntryNames.EntryPath)

  /** A name and its directory form, encoded as they are stored, decoded as they are read. */
  lemma NamesRead(name: string)
    requires name != ""
    ensures Utf8.FromUtf8(Utf8.Encode(name)) == Utf8.WithoutMark(name)
    ensures Utf8.FromUtf8(Utf8.Encode(name) + SLASH) == Utf8.WithoutMark(name) + "/"
  {
    Utf8.FromEncoded(name);
    Utf8.FromEncoded(name + "/");
    Utf8.EncodeJoined(name, "/");
    assert Utf8.Encode("/") == SLASH;
    assert Utf8.WithoutMark(name + "/") == Utf8.WithoutMark(name) + "/";
  }

  lemma ZipNamesFaithful()
    ensures Faithful(ZIP_NAMES)
  {
    forall p | EntryNames.ProperPath(p) ensures FaithfulAt(p, ZIP_NAMES) {
      EntryNames.NameShown(p);
      NamesRead(EntryNames.NameOf(p));
      EntryNames.LastCharacter(p);
      EntryNames.LastCharacter(EntryNames.Shown(p));
      EntryNames.NameRoundTrip(EntryNames.Shown(p));
    }
  }

  lemma {:induction false} SameSizes(es: seq<Laid>, items: seq<Item>, i: nat)
    requires |items| == |es| && i <= |es|
    requires forall j :: 0 <= j < |es| ==> Size(items[j]) == |es[j].content|
    ensures SizeOf(items[..i]) == Bulk(es[..i]) <= Bulk(es)
  {
    if i > 0 {
      SameSizes(es, items, i - 1);
      SizeOfPrefix(items, i - 1);
      assert es[..i] == es[..i - 1] + [es[i - 1]];
      BulkJoined(es[..i - 1], [es[i - 1]]);
    }
    assert es == es[..i] + es[i..];
    BulkJoined(es[..i], es[i..]);
  }

  /** The entries as they are read back: paths without a leading U+FEFF, the rest unchanged. */
  ghost function Reread(es: seq<Laid>): (r: seq<Laid>)
    requires Placed(es)
    ensures |r| == |es| && Placed(r)
  {
    seq(|es|, i requires 0 <= i < |es| => es[i].(path := EntryNames.Shown(es[i].path)))
  }

  ghost predicate Unmarked(es: seq<Laid>)
    requires Placed(es)
  {
    forall i :: 0 <= i < |es| ==> !Utf8.Marked(es[i].path[0].text)
  }

  lemma ReadBackMeans(es: seq<Laid>, items: seq<Item>, names: Naming)
    requires Faithful(names) && Placed(es) && (forall e :: e in es ==> Good(e, names.safe))
    requires ReadBack(Labels(es), items, names) && Bulk(es) <= SIZE_LIMIT
    ensures Meanings(items, names) == Reread(es)
    ensures Unmarked(es) ==> TakesAll(items, names)
  {
    forall j | 0 <= j < |es|
      ensures Meaning(items[j], names) == Reread(es)[j] && Size(items[j]) == |es[j].content|
    {
      OneReadBack(es[j], Labels(es)[j], items[j], names);
    }
    if Unmarked(es) {
      forall j | 0 <= j < |items| ensures TakesAt(items, j, names) {
        SameSizes(es, items, j);
        SameSizes(es, items, j + 1);
        SizeOfPrefix(items, j);
        OneReadBack(es[j], Labels(es)[j], items[j], names);
      }
    }
  }

  lemma OneReadBack(e: Laid, s: Stored, i: Item, names: Naming)
    requires Faithful(names) && e.path != [] && Good(e, names.safe) && Returns(s, i, names)
    requires s == Stored(EntryNames.NameOf(e.path), e.folder, e.content)
    ensures Meaning(i, names) == e.(path := EntryNames.Shown(e.path)) && Size(i) == |e.content|
    ensures i.plain && i.intact && !i.kind.AnOther? && 0 <= i.declared <= Size(i)
    ensures !Utf8.Marked(e.path[0].text) ==> names.safe(names.read(i.raw))
    ensures i.kind.AFile? ==> !EndsWith(names.read(i.raw), "/")
  {
    assert FaithfulAt(e.path, names);
    if !e.folder {
      assert i.raw == names.write(s.name);
    }
  }

  // When the same forest comes back.

  /** Whether some selected file or directory has a name that begins with U+FEFF. */
  ghost predicate SomeMarked(sources: seq<Source>)
    requires Rootless(sources)
  {
    exists i :: 0 <= i < |sources| && Utf8.Marked(LastName(sources[i]).text)
  }

  lemma {:induction false} EntriesBelow(p: Path, node: Node)
    ensures forall e :: e in Entries(p, node) ==> p <= e.path
    decreases node
  {
    if node.Folder? { ForestBelow(p, node.children); }
  }

  lemma {:induction false} ForestBelow(p: Path, forest: Forest)
    ensures forall e :: e in EntriesOf(p, forest) ==> p <= e.path
    decreases forest
  {
    if forest.More? {
      EntriesBelow(p + [forest.name], forest.node);
      ForestBelow(p, forest.rest);
    }
  }

  /** Every entry lies at or below some source. */
  ghost predicate Begun(sources: seq<Source>, e: Laid)
    requires Rootless(sources)
  {
    e.path != [] && exists i :: 0 <= i < |sources| && LastName(sources[i]) == e.path[0]
  }

  lemma {:induction false} EntriesBegun(sources: seq<Source>)
    requires Rootless(sources)
    ensures forall e :: e in EntriesOf([], ForestOf(sources)) ==> Begun(sources, e)
  {
    if sources != [] {
      var s, rest := sources[0], sources[1..];
      var at := [LastName(s)];
      assert [] + at == at;
      EntriesBegun(rest);
      EntriesBelow(at, s.node);
      forall e | e in Entries(at, s.node) ensures Begun(sources, e) {
        assert LastName(sources[0]) == e.path[0];
      }
      forall e | e in EntriesOf([], ForestOf(rest)) ensures Begun(sources, e) {
        assert Begun(rest, e);
        var i :| 0 <= i < |rest| && LastName(rest[i]) == e.path[0];
        assert LastName(sources[i + 1]) == e.path[0];
      }
    }
  }

  /** Every source is planted under its own name. */
  lemma {:induction false} SourcePlanted(sources: seq<Source>, i: nat, safe: string -> bool)
    requires Rootless(sources) && PackableAll([], ForestOf(sources), 0, safe) && i < |sources|
    ensures [LastName(sources[i])] in GrownOf([], ForestOf(sources))
  {
    assert [] + [LastName(sources[0])] == [LastName(sources[0])];
    if i > 0 {
      SourcePlanted(sources[1..], i - 1, safe);
    }
  }

  /** No marked name is longer than that of the i-th source, which is marked. */
  ghost predicate Longest(sources: seq<Source>, i: nat)
    requires Rootless(sources)
  {
    && i < |sources| && Utf8.Marked(LastName(sources[i]).text)
    && forall j :: 0 <= j < |sources| && Utf8.Marked(LastName(sources[j]).text) ==>
         |LastName(sources[j]).text| <= |LastName(sources[i]).text|
  }

  lemma {:induction false} LongestMarked(sources: seq<Source>) returns (i: nat)
    requires Rootless(sources) && SomeMarked(sources)
    ensures Longest(sources, i)
  {
    var k :| 0 <= k < |sources| && Utf8.Marked(LastName(sources[k]).text);
    if j :| 0 <= j < |sources| - 1 && Utf8.Marked(LastName(sources[j]).text) {
      var init, last := sources[..|sources| - 1], |sources| - 1;
      assert init[j] == sources[j];
      i := LongestMarked(init);
      if Utf8.Marked(LastName(sources[last]).text) && |LastName(sources[i]).text| < |LastName(sources[last]).text| {
        i := last;
      }
      forall j | 0 <= j < |sources| && Utf8.Marked(LastName(sources[j]).text)
        ensures |LastName(sources[j]).text| <= |LastName(sources[i]).text|
      {
        assert j < last ==> init[j] == sources[j];
      }
    } else {
      i := k;
    }
  }

  /** A marked name no shorter than the first names of the entries is no first name once they are reread. */
  lemma LongestLost(es: seq<Laid>, lost: Name)
    requires Placed(es) && Utf8.Marked(lost.text)
    requires forall i :: 0 <= i < |es| && Utf8.Marked(es[i].path[0].text) ==> |es[i].path[0].text| <= |lost.text|
    ensures LayAll(EMPTY, Reread(es)).Some? ==> [lost] !in LayAll(EMPTY, Reread(es)).value
  {
    LaysExactly(Reread(es));
    forall k | 0 <= k < |es| ensures !([lost] <= Reread(es)[k].path) {
      assert Reread(es)[k].path[0].text == Utf8.WithoutMark(es[k].path[0].text);
    }
    assert !Reaches(Reread(es), [lost]);
  }

  /** Of the selected names that begin with U+FEFF, the longest are not to be found after unpacking. */
  lemma MarkedNameLost(sources: seq<Source>, es: seq<Laid>, safe: string -> bool, i: nat)
    requires Rootless(sources) && Longest(sources, i) && PackableAll([], ForestOf(sources), 0, safe)
    requires es == EntriesOf([], ForestOf(sources)) && Placed(es)
    ensures LayAll(EMPTY, Reread(es)).Some? ==> [LastName(sources[i])] !in LayAll(EMPTY, Reread(es)).value
    ensures [LastName(sources[i])] in Planted(ForestOf(sources))
    ensures LayAll(EMPTY, Reread(es)) != Some(Planted(ForestOf(sources)))
  {
    var lost := LastName(sources[i]);
    SourcePlanted(sources, i, safe);
    EntriesBegun(sources);
    forall k | 0 <= k < |es| && Utf8.Marked(es[k].path[0].text) ensures |es[k].path[0].text| <= |lost.text| {
      assert Begun(sources, es[k]);
    }
    LongestLost(es, lost);
  }

  lemma UnmarkedReread(sources: seq<Source>, es: seq<Laid>)
    requires Rootless(sources) && !SomeMarked(sources)
    requires es == EntriesOf([], ForestOf(sources)) && Placed(es)
    ensures Unmarked(es) && Reread(es) == es
  {
    EntriesBegun(sources);
    forall i | 0 <= i < |es| ensures !Utf8.Marked(es[i].path[0].text) && Reread(es)[i] == es[i] {
      assert Begun(sources, es[i]);
      assert EntryNames.Shown(es[i].path) == es[i].path;
    }
  }

  /**
   Whatever was packed from sources that did not change, read back from the archive, is taken by the unpacker and
   unpacks to the same forest - names, kinds and contents, empty directories included - exactly when no selected name
   begins with U+FEFF. (A name deeper inside may: its mark is not at the front of the entry's name.)
   */
  lemma PackThenUnpack(sources: seq<Source>, destination: Path, occupied: bool, guarded: set<Path>, items: seq<Item>)
    requires Packs(sources, destination, occupied, guarded, ZIP_NAMES.safe) && ListedAll(ForestOf(sources))
    requires Placed(EntriesOf([], ForestOf(sources)))
    requires ReadBack(Labels(EntriesOf([], ForestOf(sources))), items, ZIP_NAMES)
    ensures |items| <= ZipContainer.ENTRY_LIMIT
    ensures Meanings(items, ZIP_NAMES) == Reread(EntriesOf([], ForestOf(sources)))
    ensures !SomeMarked(sources) ==> TakesAll(items, ZIP_NAMES)
    ensures LayAll(EMPTY, Meanings(items, ZIP_NAMES)) == Some(Planted(ForestOf(sources))) <==> !SomeMarked(sources)
  {
    ZipNamesFaithful();
    PackThenRead(sources, EntriesOf([], ForestOf(sources)), items, ZIP_NAMES);
  }

  lemma PackThenRead(sources: seq<Source>, es: seq<Laid>, items: seq<Item>, names: Naming)
    requires Faithful(names) && Rootless(sources) && ListedAll(ForestOf(sources))
    requires es == EntriesOf([], ForestOf(sources)) && Placed(es)
    requires Fitting(sources, names.safe) && ReadBack(Labels(es), items, names)
    ensures Meanings(items, names) == Reread(es)
    ensures !SomeMarked(sources) ==> TakesAll(items, names)
    ensures LayAll(EMPTY, Reread(es)) == Some(Planted(ForestOf(sources))) <==> !SomeMarked(sources)
  {
    PackedForestGood([], ForestOf(sources), 0, names.safe);
    ReadBackMeans(es, items, names);
    if SomeMarked(sources) {
      var i := LongestMarked(sources);
      MarkedNameLost(sources, es, names.safe, i);
    } else {
      UnmarkedReread(sources, es);
      ForestRoundTrip(ForestOf(sources));
    }
  }

  // A name that changes.

  const MARKED_A := [Utf8.ZERO_WIDTH_NO_BREAK, 'a']

  ghost function AFileNamed(n: string, content: seq<byte>): (s: Source)
    ensures s.path != [] && LastName(s) == Name(n)
  {
    Source([Name(n)], Leaf(content))
  }

  ghost function LaidFile(n: string, content: seq<byte>): (e: Laid)
    ensures e.path != []
  {
    Laid([Name(n)], false, content)
  }

  lemma OneFile(n: string, content: seq<byte>)
    requires EntryNames.Proper(Name(n))
    ensures Rootless([AFileNamed(n, content)])
    ensures ForestOf([AFileNamed(n, content)]) == More(Name(n), Leaf(content), Bare)
    ensures EntriesOf([], ForestOf([AFileNamed(n, content)])) == [LaidFile(n, content)]
    ensures Placed([LaidFile(n, content)]) && Labels([LaidFile(n, content)]) == [Stored(n, false, content)]
  {
    assert [AFileNamed(n, content)][1..] == [] && [] + [Name(n)] == [Name(n)];
    assert EntryNames.Texts([Name(n)]) == [n];
  }

  lemma TwoFiles(m: string, n: string, content: seq<byte>, other: seq<byte>)
    requires EntryNames.Proper(Name(m)) && EntryNames.Proper(Name(n))
    ensures var sources := [AFileNamed(m, content), AFileNamed(n, other)];
            var es := [LaidFile(m, content), LaidFile(n, other)];
            && Rootless(sources)
            && ForestOf(sources) == More(Name(m), Leaf(content), More(Name(n), Leaf(other), Bare))
            && EntriesOf([], ForestOf(sources)) == es
            && Placed(es) && Labels(es) == [Stored(m, false, content), Stored(n, false, other)]
            && Bulk(es) == |content| + |other|
  {
    var sources, es := [AFileNamed(m, content), AFileNamed(n, other)], [LaidFile(m, content), LaidFile(n, other)];
    OneFile(n, other);
    assert sources[1..] == [AFileNamed(n, other)];
    assert [] + [Name(m)] == [Name(m)];
    assert EntriesOf([], ForestOf(sources)) == [LaidFile(m, content)] + [LaidFile(n, other)] == es;
    assert EntryNames.Texts([Name(m)]) == [m];
    assert EntryNames.Texts([Name(n)]) == [n];
    assert es[1..] == [LaidFile(n, other)] && [LaidFile(n, other)][1..] == [];
    assert Bulk([LaidFile(n, other)]) == |other|;
  }

  lemma RereadFile(n: string, content: seq<byte>)
    ensures LaidFile(n, content).(path := EntryNames.Shown([Name(n)])) == LaidFile(Utf8.WithoutMark(n), content)
  {
  }

  lemma FilesPack(sources: seq<Source>, safe: string -> bool)
    requires sources != [] && Rootless(sources) && Distinct(sources) && Fitting(sources, safe)
    requires forall i :: 0 <= i < |sources| ==> sources[i].node.Leaf?
    ensures Packs(sources, [Name("z")], false, {}, safe)
  {
  }

  lemma ShortNameSafe(n: string)
    requires n == MARKED_A || n == "a"
    ensures EntryNames.Proper(Name(n)) && EntryNames.SafeEntry(n)
  {
    SplitJoin([n], '/');
    assert Join([n], '/') == n;
    Utf8.EncodeFirst(n[0], n[1..]);
    Utf8.EncodeFirst('a', []);
    assert n == [n[0]] + n[1..];
  }

  /** For instance a file named U+FEFF "a": it is packed, and unpacks as "a". */
  lemma MarkedNameChanges(content: seq<byte>, items: seq<Item>)
    requires |content| <= SIZE_LIMIT
    requires ReadBack([Stored(MARKED_A, false, content)], items, ZIP_NAMES)
    ensures Packs([AFileNamed(MARKED_A, content)], [Name("z")], false, {}, ZIP_NAMES.safe)
    ensures LayAll(EMPTY, Meanings(items, ZIP_NAMES)) == Some(EMPTY[[Name("a")] := File(content)])
  {
    ShortNameSafe(MARKED_A);
    ZipNamesFaithful();
    OneChanges(MARKED_A, "a", content, items, ZIP_NAMES);
  }

  lemma OneChanges(m: string, n: string, content: seq<byte>, items: seq<Item>, names: Naming)
    requires |content| <= SIZE_LIMIT && EntryNames.Proper(Name(m)) && Utf8.WithoutMark(m) == n
    requires Faithful(names) && names.safe(m) && ReadBack([Stored(m, false, content)], items, names)
    ensures Packs([AFileNamed(m, content)], [Name("z")], false, {}, names.safe)
    ensures LayAll(EMPTY, Meanings(items, names)) == Some(EMPTY[[Name(n)] := File(content)])
  {
    OneFile(m, content);
    assert EntryNames.NameOf([Name(m)]) == m;
    FilesPack([AFileNamed(m, content)], names.safe);
    PackThenRead([AFileNamed(m, content)], [LaidFile(m, content)], items, names);
    RereadFile(m, content);
    assert Reread([LaidFile(m, content)]) == [LaidFile(n, content)];
    LayOne(EMPTY, LaidFile(n, content));
    OnTheWay(EMPTY, []);
  }

  /** Together with a file named "a" it cannot be unpacked at all. */
  lemma MarkedNameCollides(content: seq<byte>, other: seq<byte>, items: seq<Item>)
    requires |content| + |other| <= SIZE_LIMIT
    requires ReadBack([Stored(MARKED_A, false, content), Stored("a", false, other)], items, ZIP_NAMES)
    ensures Packs([AFileNamed(MARKED_A, content), AFileNamed("a", other)], [Name("z")], false, {}, ZIP_NAMES.safe)
    ensures LayAll(EMPTY, Meanings(items, ZIP_NAMES)).None?
  {
    ShortNameSafe(MARKED_A);
    ShortNameSafe("a");
    ZipNamesFaithful();
    TwoCollide(MARKED_A, "a", content, other, items, ZIP_NAMES);
  }

  lemma TwoCollide(m: string, n: string, content: seq<byte>, other: seq<byte>, items: seq<Item>, names: Naming)
    requires |content| + |other| <= SIZE_LIMIT && m != Utf8.WithoutMark(m) == n == Utf8.WithoutMark(n)
    requires EntryNames.Proper(Name(m)) && EntryNames.Proper(Name(n)) && Faithful(names)
    requires names.safe(m) && names.safe(n)
    requires ReadBack([Stored(m, false, content), Stored(n, false, other)], items, names)
    ensures Packs([AFileNamed(m, content), AFileNamed(n, other)], [Name("z")], false, {}, names.safe)
    ensures LayAll(EMPTY, Meanings(items, names)).None?
  {
    var sources, es := [AFileNamed(m, content), AFileNamed(n, other)], [LaidFile(m, content), LaidFile(n, other)];
    TwoFiles(m, n, content, other);
    TwoFit(m, n, content, other, names.safe);
    FilesPack(sources, names.safe);
    PackThenRead(sources, es, items, names);
    RereadFile(m, content);
    RereadFile(n, other);
    var laid := [LaidFile(n, content), LaidFile(n, other)];
    assert Reread(es) == laid;
    LaysExactly(laid);
    assert laid[0].path <= laid[1].path;
  }

  lemma TwoFit(m: string, n: string, content: seq<byte>, other: seq<byte>, safe: string -> bool)
    requires |content| + |other| <= SIZE_LIMIT && m != n && safe(m) && safe(n)
    requires EntryNames.Proper(Name(m)) && EntryNames.Proper(Name(n))
    ensures var sources := [AFileNamed(m, content), AFileNamed(n, other)];
            Rootless(sources) && Distinct(sources) && Fitting(sources, safe) && ListedAll(ForestOf(sources))
  {
    TwoFiles(m, n, content, other);
    assert EntryNames.NameOf([Name(m)]) == m && EntryNames.NameOf([Name(n)]) == n;
    assert [] + [Name(m)] == [Name(m)] && [] + [Name(n)] == [Name(n)];
  }
}
