/** What a list of archive entries makes of an empty directory, and which lists describe a forest of files. */
module EntryTree {
  import opened Common
  import opened FileTree

  /** One entry of an archive, by the place it is extracted to. */
  datatype Laid = Laid(path: Path, folder: bool, content: seq<byte>)

  const EMPTY: Tree := map[[] := Dir]

  /** Creating a directory with every missing parent; a file in the way makes it fail. */
  function MakePath(t: Tree, p: Path): Option<Tree> {
    if exists n :: 0 <= n <= |p| && p[..n] in t && !IsDir(t, p[..n]) then None
    else Some(Paved(t, p))
  }

  /** The tree with a directory at every prefix of p. */
  function Paved(t: Tree, p: Path): (r: Tree)
    ensures forall q :: q in r <==> q in t || q <= p
    ensures forall q :: q in r ==> r[q] == if q <= p then Dir else t[q]
  {
    t + map q | q in Prefixes(p) :: Dir
  }

  function Prefixes(p: Path): (r: set<Path>)
    ensures forall q :: q in r <==> q <= p
  {
    var r := set n | 0 <= n <= |p| :: p[..n];
    assert forall q :: q <= p ==> q == p[..|q|];
    r
  }

  /** Extracting one entry; a file must be new. */
  ghost function Lay(t: Tree, e: Laid): Option<Tree> {
    if e.folder then MakePath(t, e.path)
    else if e.path == [] then None
    else
      match MakePath(t, Parent(e.path))
      case None => None
      case Some(u) => if e.path in u then None else Some(u[e.path := File(e.content)])
  }

  ghost predicate Placed(es: seq<Laid>) {
    forall i :: 0 <= i < |es| ==> es[i].path != []
  }

  /** Extracting a list of entries, in order. */
  ghost function LayAll(t: Tree, es: seq<Laid>): Option<Tree> {
    if es == [] then Some(t)
    else
      match LayAll(t, es[..|es| - 1])
      case None => None
      case Some(u) => Lay(u, es[|es| - 1])
  }

  // Which lists can be extracted, and into what.

  ghost predicate Reaches(es: seq<Laid>, p: Path) {
    exists i :: 0 <= i < |es| && p <= es[i].path
  }

  ghost predicate IsFile(es: seq<Laid>, p: Path) {
    exists i :: 0 <= i < |es| && es[i].path == p && !es[i].folder
  }

  /** The tree is the root, what the entries name, and the directories that lead there: no more, no less. */
  ghost predicate Holds(t: Tree, es: seq<Laid>) {
    && (forall p :: p in t <==> p == [] || Reaches(es, p))
    && (forall i :: 0 <= i < |es| && !es[i].folder ==> es[i].path in t && t[es[i].path] == File(es[i].content))
    && (forall p :: p in t && !IsFile(es, p) ==> t[p] == Dir)
  }

  /** A file neither appears twice nor lies on the way to another entry. */
  ghost predicate Compatible(es: seq<Laid>) {
    forall i, j :: 0 <= i < |es| && 0 <= j < |es| && i != j && !es[i].folder ==> !(es[i].path <= es[j].path)
  }

  /** A further entry does not collide with the others. */
  ghost predicate Fits(es: seq<Laid>, e: Laid) {
    forall i :: 0 <= i < |es| ==> (!es[i].folder ==> !(es[i].path <= e.path)) && (!e.folder ==> !(e.path <= es[i].path))
  }

  lemma WayIsFree(t: Tree, es: seq<Laid>, p: Path)
    requires Holds(t, es) && Placed(es)
    ensures MakePath(t, p).Some? <==> forall i :: 0 <= i < |es| && !es[i].folder ==> !(es[i].path <= p)
  {
    if i :| 0 <= i < |es| && !es[i].folder && es[i].path <= p {
      var n := |es[i].path|;
      assert p[..n] == es[i].path;
    }
    if n :| 0 <= n <= |p| && p[..n] in t && !IsDir(t, p[..n]) {
      assert IsFile(es, p[..n]);
    }
  }

  lemma LayStep(t: Tree, es: seq<Laid>, e: Laid)
    requires Placed(es) && e.path != [] && Holds(t, es)
    ensures Lay(t, e).Some? <==> Fits(es, e)
    ensures Lay(t, e).Some? ==> Holds(Lay(t, e).value, es + [e])
  {
    var way := if e.folder then e.path else Parent(e.path);
    WayIsFree(t, es, way);
    if !e.folder {
      assert e.path in t <==> Reaches(es, e.path);
      assert !(e.path <= Parent(e.path));
      forall i | 0 <= i < |es| && es[i].path <= e.path ensures es[i].path == e.path || es[i].path <= Parent(e.path) {
      }
    }
    if Lay(t, e).Some? {
      HoldsStep(t, es, e, Lay(t, e).value);
    }
  }

  lemma PrefixSteps(p: Path, q: Path)
    requires q != []
    ensures p <= q <==> p == q || p <= Parent(q)
  {
    if p <= q && p != q {
      assert p == q[..|p|] == Parent(q)[..|p|];
    }
  }

  /** What one entry changes. */
  lemma LayAdds(t: Tree, e: Laid, u: Tree)
    requires e.path != [] && Lay(t, e) == Some(u)
    ensures forall p :: p in u <==> p in t || p <= e.path
    ensures forall p :: p in u ==>
              u[p] == if p == e.path && !e.folder then File(e.content) else if p <= e.path then Dir else t[p]
  {
    if !e.folder {
      forall p ensures p in u <==> p in t || p <= e.path {
        PrefixSteps(p, e.path);
      }
      forall p | p in u
        ensures u[p] == if p == e.path then File(e.content) else if p <= e.path then Dir else t[p]
      {
        PrefixSteps(p, e.path);
      }
    }
  }

  lemma HoldsStep(t: Tree, es: seq<Laid>, e: Laid, u: Tree)
    requires Placed(es) && e.path != [] && Holds(t, es) && Fits(es, e)
    requires Lay(t, e) == Some(u)
    ensures Holds(u, es + [e])
  {
    ReachesStep(es, e);
    LayAdds(t, e, u);
    var all := es + [e];
    forall i | 0 <= i < |all| && !all[i].folder ensures all[i].path in u && u[all[i].path] == File(all[i].content) {
      if i < |es| { assert !(es[i].path <= e.path); }
    }
    forall p | p in u && !IsFile(all, p) ensures u[p] == Dir {
    }
  }

  lemma ReachesStep(es: seq<Laid>, e: Laid)
    ensures forall p :: Reaches(es + [e], p) <==> Reaches(es, p) || p <= e.path
    ensures forall p :: IsFile(es + [e], p) <==> IsFile(es, p) || (p == e.path && !e.folder)
  {
    var all := es + [e];
    forall p ensures Reaches(all, p) <==> Reaches(es, p) || p <= e.path {
      if i :| 0 <= i < |es| && p <= es[i].path { assert all[i] == es[i]; }
      if p <= e.path { assert all[|es|] == e; }
    }
    forall p ensures IsFile(all, p) <==> IsFile(es, p) || (p == e.path && !e.folder) {
      if i :| 0 <= i < |es| && es[i].path == p && !es[i].folder { assert all[i] == es[i]; }
      if p == e.path && !e.folder { assert all[|es|] == e; }
    }
  }

  /** A list extracts exactly when no file is in another entry's way, and then into exactly what it names. */
  lemma {:induction false} LaysExactly(es: seq<Laid>)
    requires Placed(es)
    ensures LayAll(EMPTY, es).Some? <==> Compatible(es)
    ensures LayAll(EMPTY, es).Some? ==> Holds(LayAll(EMPTY, es).value, es)
  {
    if es != [] {
      var init, e := es[..|es| - 1], es[|es| - 1];
      LaysExactly(init);
      assert es == init + [e];
      assert Compatible(es) <==> Compatible(init) && Fits(init, e);
      if LayAll(EMPTY, init).Some? {
        LayStep(LayAll(EMPTY, init).value, init, e);
      }
    }
  }

  /** The entries alone decide the tree. */
  lemma HoldsDecides(t: Tree, u: Tree, es: seq<Laid>)
    requires Holds(t, es) && Holds(u, es)
    ensures t == u
  {
    assert t.Keys == u.Keys;
    forall p | p in t ensures t[p] == u[p] {
      if IsFile(es, p) {
        var i :| 0 <= i < |es| && es[i].path == p && !es[i].folder;
      }
    }
  }

  // Forests.

  /** Something in a directory; anything that is neither a regular file nor a plain directory is foreign. */
  datatype Node = Leaf(content: seq<byte>) | Folder(children: Forest) | Foreign

  /** What a directory lists, in the order it lists it. */
  datatype Forest = Bare | More(name: Name, node: Node, rest: Forest)

  ghost function Names(forest: Forest): set<Name> {
    match forest
    case Bare => {}
    case More(name, _, rest) => {name} + Names(rest)
  }

  /** The entries of a node in the order they are stored: a folder before what it holds. */
  ghost function Entries(p: Path, node: Node): seq<Laid>
    decreases node
  {
    match node
    case Leaf(content) => [Laid(p, false, content)]
    case Folder(children) => [Laid(p, true, [])] + EntriesOf(p, children)
    case Foreign => []
  }

  ghost function EntriesOf(p: Path, forest: Forest): seq<Laid>
    decreases forest
  {
    match forest
    case Bare => []
    case More(name, node, rest) => Entries(p + [name], node) + EntriesOf(p, rest)
  }

  /** The tree a node is, at p. */
  ghost function Grown(p: Path, node: Node): Tree
    decreases node
  {
    match node
    case Leaf(content) => map[p := File(content)]
    case Folder(children) => map[p := Dir] + GrownOf(p, children)
    case Foreign => map[]
  }

  ghost function GrownOf(p: Path, forest: Forest): Tree
    decreases forest
  {
    match forest
    case Bare => map[]
    case More(name, node, rest) => Grown(p + [name], node) + GrownOf(p, rest)
  }

  /** No directory holds two things of one name, and nothing is foreign. */
  ghost predicate Sound(node: Node) {
    match node
    case Leaf(_) => true
    case Folder(children) => SoundAll(children)
    case Foreign => false
  }

  ghost predicate SoundAll(forest: Forest) {
    match forest
    case Bare => true
    case More(name, node, rest) => Sound(node) && SoundAll(rest) && name !in Names(rest)
  }

  lemma {:induction false} GrownBelow(p: Path, node: Node)
    ensures forall q :: q in Grown(p, node) ==> p <= q
    decreases node
  {
    if node.Folder? { GrownOfBelow(p, node.children); }
  }

  lemma {:induction false} GrownOfBelow(p: Path, forest: Forest)
    ensures forall q :: q in GrownOf(p, forest) ==> p < q && q[|p|] in Names(forest)
    decreases forest
  {
    if forest.More? {
      GrownBelow(p + [forest.name], forest.node);
      GrownOfBelow(p, forest.rest);
      forall q | q in Grown(p + [forest.name], forest.node) ensures p < q && q[|p|] == forest.name {
        Child(p, forest.name, q);
      }
    }
  }

  lemma {:induction false} LayJoined(t: Tree, a: seq<Laid>, b: seq<Laid>)
    ensures LayAll(t, a + b) == match LayAll(t, a) case None => None case Some(u) => LayAll(u, b)
  {
    if b == [] {
      assert a + b == a;
    } else {
      var init := b[..|b| - 1];
      LayJoined(t, a, init);
      assert (a + b)[..|a + b| - 1] == a + init;
    }
  }

  lemma LayOne(t: Tree, e: Laid)
    ensures LayAll(t, [e]) == Lay(t, e)
  {
    assert [e][..0] == [];
  }

  lemma OnTheWay(t: Tree, p: Path)
    requires Rooted(t) && IsDir(t, p)
    ensures forall q :: q <= p ==> IsDir(t, q)
    ensures MakePath(t, p) == Some(t)
  {
    forall q | q <= p ensures IsDir(t, q) {
      if |q| < |p| {
        Ancestors(t, p, |q|);
        assert p[..|q|] == q;
      } else {
        assert q == p;
      }
    }
    var paved := Paved(t, p);
    forall q | q in paved ensures q in t && paved[q] == t[q] {
      if q <= p { assert IsDir(t, q); }
    }
    assert paved == t;
  }

  lemma NewLeaf(t: Tree, p: Path, content: seq<byte>)
    requires p != [] && Rooted(t) && IsDir(t, Parent(p)) && p !in t
    ensures LayAll(t, [Laid(p, false, content)]) == Some(t[p := File(content)]) && Rooted(t[p := File(content)])
  {
    LayOne(t, Laid(p, false, content));
    OnTheWay(t, Parent(p));
  }

  lemma NewFolder(t: Tree, p: Path)
    requires p != [] && Rooted(t) && IsDir(t, Parent(p)) && p !in t
    ensures LayAll(t, [Laid(p, true, [])]) == Some(t[p := Dir]) && Rooted(t[p := Dir])
  {
    LayOne(t, Laid(p, true, []));
    OnTheWay(t, Parent(p));
    forall q ensures q <= p ==> q == p || IsDir(t, q) {
      PrefixSteps(q, p);
    }
    assert MakePath(t, p).Some? by {
      forall n | 0 <= n <= |p| && p[..n] in t ensures IsDir(t, p[..n]) {
        assert p[..n] <= p;
      }
    }
    var paved := Paved(t, p);
    forall q | q in paved && q != p ensures q in t && paved[q] == t[q] {
      if q <= p { assert IsDir(t, q); }
    }
    assert paved == t[p := Dir];
  }

  /** Extracting a node's entries into its parent adds exactly the node. */
  lemma {:induction false} LayNode(t: Tree, p: Path, node: Node)
    requires p != [] && Rooted(t) && IsDir(t, Parent(p)) && Nothing(t, p) && Sound(node)
    ensures LayAll(t, Entries(p, node)) == Some(t + Grown(p, node))
    ensures Rooted(t + Grown(p, node))
    decreases node
  {
    assert p !in t;
    match node
    case Leaf(content) =>
      NewLeaf(t, p, content);
      AddOne(t, p, File(content));
    case Folder(children) =>
      var u, grown := t[p := Dir], GrownOf(p, children);
      NewFolder(t, p);
      assert Clear(u, p, children);
      LayForest(u, p, children);
      LayJoined(t, [Laid(p, true, [])], EntriesOf(p, children));
      AddOne(t, p, Dir);
      MergeThree(t, map[p := Dir], grown);
      assert t + Grown(p, node) == u + grown;
  }

  lemma AddOne(t: Tree, p: Path, e: Entry)
    ensures t + map[p := e] == t[p := e]
  {
  }

  lemma MergeThree(a: Tree, b: Tree, c: Tree)
    ensures a + b + c == a + (b + c)
  {
  }

  /** Nothing is yet where the forest will be. */
  ghost predicate Clear(t: Tree, p: Path, forest: Forest) {
    forall q :: q in t && p < q ==> q[|p|] !in Names(forest)
  }

  lemma StillClear(t: Tree, p: Path, forest: Forest, u: Tree)
    requires forest.More? && SoundAll(forest) && Clear(t, p, forest) && u == t + Grown(p + [forest.name], forest.node)
    ensures Nothing(t, p + [forest.name]) && Clear(u, p, forest.rest)
  {
    forall q | q in t ensures !(p + [forest.name] <= q) {
      Child(p, forest.name, q);
    }
    GrownBelow(p + [forest.name], forest.node);
    forall q | q in Grown(p + [forest.name], forest.node) ensures p < q && q[|p|] == forest.name {
      Child(p, forest.name, q);
    }
  }

  lemma {:induction false} LayForest(t: Tree, p: Path, forest: Forest)
    requires Rooted(t) && IsDir(t, p) && SoundAll(forest) && Clear(t, p, forest)
    ensures LayAll(t, EntriesOf(p, forest)) == Some(t + GrownOf(p, forest))
    ensures Rooted(t + GrownOf(p, forest))
    decreases forest
  {
    match forest
    case Bare =>
      assert t + map[] == t;
    case More(name, node, rest) =>
      var at := p + [name];
      var grown, more := Grown(at, node), GrownOf(p, rest);
      StillClear(t, p, forest, t + grown);
      assert Parent(at) == p;
      LayNode(t, at, node);
      LayForest(t + grown, p, rest);
      LayJoined(t, Entries(at, node), EntriesOf(p, rest));
      MergeThree(t, grown, more);
  }

  /** The tree of a forest, below its root. */
  ghost function Planted(forest: Forest): Tree {
    EMPTY + GrownOf([], forest)
  }

  /** Extracting the entries of a forest into an empty directory gives the forest, empty directories included. */
  lemma ForestRoundTrip(forest: Forest)
    requires SoundAll(forest)
    ensures LayAll(EMPTY, EntriesOf([], forest)) == Some(Planted(forest))
  {
    LayForest(EMPTY, [], forest);
  }
}
