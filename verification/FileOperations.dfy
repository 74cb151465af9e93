/**
 Copying, moving, trashing and restoring directory trees. Every write of the volume is appended to
 a trail, so "at every step" means "in every entry of the trail".
 */
module FileOperations {
  import opened Common
  import opened FileTree

  const MAX_DEPTH := 64
  const MAX_ENTRIES := 100000

  /** What CopyTree refuses whatever the system does: too deep, special files, long links, nested mounts. */
  ghost predicate Copyable(t: Tree, src: Path, guarded: set<Path>, depth: nat) {
    forall p :: p in t && src <= p ==> CopyableAt(t[p], depth + (|p| - |src|), p in guarded)
  }

  ghost predicate CopyableAt(e: Entry, depth: nat, guarded: bool) {
    match e
    case File(_) => depth <= 64
    case Link(target) => depth <= 64 && |target| < 4096
    case Dir => depth <= 64 && (guarded ==> depth == 0)
    case Special => false
  }

  /** The names directly inside a directory. */
  function Children(t: Tree, a: Path): set<Name> {
    set p | p in t && a < p && |p| == |a| + 1 :: p[|a|]
  }

  /** The part of a region that lies below some of its children. */
  ghost function Below(t: Tree, a: Path, names: set<Name>): set<Path> {
    set p | p in t && a < p && p[|a|] in names
  }

  /** The state of a directory copy when the children in `done` have been copied. */
  ghost predicate CopiedChildren(s: Tree, a: Path, t: Tree, b: Path, done: set<Name>) {
    && (forall p {:trigger Shift(a, b, p)} :: p in s && a < p && p[|a|] in done ==>
          Shift(a, b, p) in t && t[Shift(a, b, p)] == s[p])
    && (forall q {:trigger Shift(b, a, q)} :: q in t && b < q ==>
          q[|b|] in done && Shift(b, a, q) in s && s[Shift(b, a, q)] == t[q])
  }

  lemma CopiedChild(s: Tree, a: Path, t: Tree, u: Tree, b: Path, done: set<Name>, n: Name)
    requires CopiedChildren(s, a, t, b, done) && n !in done
    requires SameOutside(t, u, b + [n]) && Mirrors(s, a + [n], u, b + [n])
    ensures CopiedChildren(s, a, u, b, done + {n})
  {
    forall p | p in s && a < p && p[|a|] in done + {n}
      ensures Shift(a, b, p) in u && u[Shift(a, b, p)] == s[p]
    {
      ShiftChild(a, b, p);
      Child(b, n, Shift(a, b, p));
    }
    forall q | q in u && b < q
      ensures q[|b|] in done + {n} && Shift(b, a, q) in s && s[Shift(b, a, q)] == u[q]
    {
      ShiftChild(b, a, q);
      Child(b, n, q);
    }
  }

  lemma NotYet(s: Tree, a: Path, t: Tree, b: Path, done: set<Name>, n: Name)
    requires CopiedChildren(s, a, t, b, done) && n !in done
    ensures b + [n] !in t
  {
    assert Shift(b, a, b + [n]) == a + [n];
  }

  lemma CopiedPart(s: Tree, a: Path, t: Tree, u: Tree, b: Path, done: set<Name>, n: Name)
    requires CopiedChildren(s, a, t, b, done)
    requires b in t && a in s && t[b] == s[a]
    requires SameOutside(t, u, b + [n]) && Fragment(s, a + [n], u, b + [n])
    ensures Fragment(s, a, u, b)
  {
    forall q | q in u && b <= q
      ensures Shift(b, a, q) in s && s[Shift(b, a, q)] == u[q]
    {
      if b < q {
        ShiftChild(b, a, q);
        Child(b, n, q);
      } else {
        assert q == b && Shift(b, a, q) == a;
      }
    }
  }

  lemma CopiedAll(s: Tree, a: Path, t: Tree, b: Path, done: set<Name>)
    requires CopiedChildren(s, a, t, b, done) && Rooted(s) && Children(s, a) <= done
    requires b in t && a in s && t[b] == s[a]
    ensures Mirrors(s, a, t, b)
  {
    forall q | q in t && b <= q
      ensures Shift(b, a, q) in s && s[Shift(b, a, q)] == t[q]
    {
      if !(b < q) {
        assert q == b && Shift(b, a, q) == a;
      }
    }
    forall p | p in s && a <= p
      ensures Shift(a, b, p) in t && t[Shift(a, b, p)] == s[p]
    {
      if a < p {
        FirstStep(s, a, p);
      } else {
        assert p == a && Shift(a, b, p) == b;
      }
    }
  }

  /** The first name below a on the way to p is one of a's children. */
  lemma FirstStep(t: Tree, a: Path, p: Path)
    requires Rooted(t) && p in t && a < p
    ensures p[|a|] in Children(t, a)
  {
    var c := p[..|a| + 1];
    if |a| + 1 < |p| {
      Ancestors(t, p, |a| + 1);
    } else {
      assert c == p;
    }
    assert a < c && c[|a|] == p[|a|];
  }

  /** Two places apart from each other have their children apart too. */
  lemma Apart(a: Path, b: Path, n: Name)
    requires !(a <= b) && !(b <= a)
    ensures !(a + [n] <= b + [n]) && !(b + [n] <= a + [n])
    ensures !(a <= b + [n]) && !(b <= a + [n])
  {
    if b <= a + [n] {
      Comparable(a, b, a + [n]);
    }
    if a <= b + [n] {
      Comparable(a, b, b + [n]);
    }
  }

  /** Every tree recorded from some point on agrees with t outside a. */
  ghost predicate TrailOutside(t: Tree, trail: seq<Tree>, from: nat, a: Path) {
    forall k :: from <= k < |trail| ==> SameOutside(t, trail[k], a)
  }

  lemma TrailJoin(t: Tree, first: seq<Tree>, trail: seq<Tree>, from: nat, a: Path)
    requires first <= trail && from <= |first| && TrailOutside(t, first, from, a) && TrailOutside(t, trail, |first|, a)
    ensures TrailOutside(t, trail, from, a)
  {
    forall k | from <= k < |trail| ensures SameOutside(t, trail[k], a) {
      if k < |first| {
        assert trail[k] == first[k];
      }
    }
  }

  /** The same where the later part stays within one child of a. */
  lemma TrailInside(t: Tree, middle: Tree, first: seq<Tree>, trail: seq<Tree>, from: nat, a: Path, n: Name)
    requires first <= trail && from <= |first| && TrailOutside(t, first, from, a) && SameOutside(t, middle, a)
    requires TrailOutside(middle, trail, |first|, a + [n])
    ensures TrailOutside(t, trail, from, a)
  {
    forall k | from <= k < |trail| ensures SameOutside(t, trail[k], a) {
      if k < |first| {
        assert trail[k] == first[k];
      } else {
        InsideOnly(t, middle, trail[k], a, n);
      }
    }
  }

  class Volume {
    const guarded: set<Path>   // the root, the home directory and the mount points
    const bin: Path            // the files directory of the trash
    var origins: map<Path, Path>   // what the trash remembers of each entry: where it came from
    var tree: Tree
    var faults: nat            // cancellations and failed system calls so far
    var trail: seq<Tree>

    constructor (tree: Tree, guarded: set<Path>, bin: Path)
      ensures this.tree == tree && this.guarded == guarded && this.bin == bin
      ensures faults == 0 && trail == [tree] && origins == map[]
    {
      this.tree, this.guarded, this.bin, origins, faults, trail := tree, guarded, bin, map[], 0, [tree];
    }

    /** Create an entry whole: mkdir, symlink, or a temporary file renamed to a name that is still free. */
    method Create(p: Path, e: Entry) returns (ok: bool)
      modifies this`tree, this`faults, this`trail
      ensures ok ==> tree == old(tree)[p := e] && trail == old(trail) + [tree] && faults == old(faults)
      ensures !ok ==> tree == old(tree) && trail == old(trail) && faults == old(faults) + 1
    {
      var bad: bool;
      bad, faults := MayFail(faults);
      ok := !bad;
      if ok {
        tree := tree[p := e];
        trail := trail + [tree];
      }
    }

    /** Copy src to dst entry by entry, stopping at the first problem; `count` entries were copied before. */
    method CopyTree(src: Path, dst: Path, depth: nat, count: nat) returns (ok: bool, total: nat)
      requires Rooted(tree) && src in tree && dst != [] && IsDir(tree, Parent(dst))
      requires !(src <= dst) && !(dst <= src)
      modifies this`tree, this`faults, this`trail
      ensures Rooted(tree) && SameOutside(old(tree), tree, dst)
      ensures old(trail) <= trail && TrailOutside(old(tree), trail, |old(trail)|, dst)
      ensures dst in old(tree) ==> tree == old(tree)
      ensures dst !in old(tree) ==> Fragment(old(tree), src, tree, dst)
      ensures ok ==> Mirrors(old(tree), src, tree, dst) && total == count + |Region(old(tree), src)|
      ensures faults >= old(faults)
      ensures ok <==>
                && dst !in old(tree) && Copyable(old(tree), src, guarded, depth)
                && count + |Region(old(tree), src)| <= 100_000
                && faults == old(faults)
      decreases MAX_DEPTH + 1 - depth, 2
    {
      total := count;
      if dst !in tree {
        NothingBelow(tree, dst);
        assert Fragment(tree, src, tree, dst);
      }
      var cancelled: bool;
      cancelled, faults := MayFail(faults);
      if cancelled {
        return false, total;
      }
      RegionHas(tree, src);
      if depth > MAX_DEPTH {
        return false, total;
      }
      total := total + 1;
      if total > MAX_ENTRIES {
        return false, total;
      }
      if dst in tree {
        return false, total;
      }
      var e := tree[src];
      if !e.Dir? {
        LeafRegion(tree, src, guarded, depth);
        if e.Special? || (e.Link? && |e.target| >= 4096) {
          return false, total;
        }
        LeafCopy(tree, src, dst);
        ok := Create(dst, e);
        return ok, total;
      }
      if src in guarded && depth > 0 {
        return false, total;
      }
      ghost var s := tree;
      ok := Create(dst, Dir);
      if ok {
        StartCopying(s, src, dst);
        ghost var made := trail;
        assert TrailOutside(s, made, |old(trail)|, dst);
        ok, total := CopyChildren(s, src, dst, depth, total);
        TrailJoin(s, made, trail, |old(trail)|, dst);
      }
    }

    /** The loop of CopyTree over a directory's entries, which come in any order. */
    method CopyChildren(ghost s: Tree, src: Path, dst: Path, depth: nat, count: nat) returns (ok: bool, total: nat)
      requires Rooted(s) && IsDir(s, src) && Copying(s, src, dst, {})
      requires !(src <= dst) && !(dst <= src)
      requires depth <= MAX_DEPTH && (src in guarded ==> depth == 0) && 0 < count <= MAX_ENTRIES
      modifies this`tree, this`faults, this`trail
      ensures Rooted(tree) && SameOutside(s, tree, dst)
      ensures old(trail) <= trail && TrailOutside(s, trail, |old(trail)|, dst)
      ensures Fragment(s, src, tree, dst)
      ensures ok ==> Mirrors(s, src, tree, dst) && total == count - 1 + |Region(s, src)|
      ensures faults >= old(faults)
      ensures ok <==> Affordable(s, src, guarded, depth, count) && faults == old(faults)
      decreases MAX_DEPTH + 1 - depth, 1
    {
      var todo := List(s, src, dst);
      ghost var all := todo;
      assert all - todo == {};
      total := count;
      while todo != {}
        invariant todo <= all
        invariant Copying(s, src, dst, all - todo)
        invariant Costed(s, src, all - todo, guarded, depth, count, total)
        invariant old(trail) <= trail && TrailOutside(s, trail, |old(trail)|, dst)
        invariant faults == old(faults)
        decreases todo
      {
        ok, total, todo := CopyNext(s, src, dst, all, todo, depth, count, total, |old(trail)|);
        if !ok {
          return;
        }
      }
      assert all - todo == all;
      Finished(s, src, tree, dst, all, guarded, depth, count, total);
      return true, total;
    }

    /** One turn of that loop. */
    method CopyNext(ghost s: Tree, src: Path, dst: Path, ghost all: set<Name>, todo: set<Name>, depth: nat,
                    ghost start: nat, count: nat, ghost from: nat)
      returns (ok: bool, total: nat, rest: set<Name>)
      requires Rooted(s) && IsDir(s, src) && todo != {} && todo <= all == Children(s, src)
      requires !(src <= dst) && !(dst <= src) && depth <= MAX_DEPTH && (src in guarded ==> depth == 0) && start > 0
      requires Copying(s, src, dst, all - todo)
      requires Costed(s, src, all - todo, guarded, depth, start, count)
      requires from <= |trail| && TrailOutside(s, trail, from, dst)
      modifies this`tree, this`faults, this`trail
      ensures old(trail) <= trail && TrailOutside(s, trail, from, dst)
      ensures ok ==>
                && rest < todo && Copying(s, src, dst, all - rest)
                && Costed(s, src, all - rest, guarded, depth, start, total)
      ensures !ok ==> Rooted(tree) && SameOutside(s, tree, dst) && Fragment(s, src, tree, dst)
      ensures faults >= old(faults) && (ok ==> faults == old(faults))
      ensures !ok && faults == old(faults) ==> !Affordable(s, src, guarded, depth, start)
      decreases MAX_DEPTH + 1 - depth, 0, 1
    {
      var n :| n in todo;
      rest := todo - {n};
      ghost var done := all - todo;
      assert all - rest == done + {n};
      ok, total := CopyChild(s, src, dst, n, done, depth, start, count, from);
    }

    /** List a directory that the copy leaves alone. */
    method List(ghost s: Tree, src: Path, ghost dst: Path) returns (names: set<Name>)
      requires SameOutside(s, tree, dst) && !(src <= dst) && !(dst <= src)
      ensures names == Children(s, src) && Below(s, src, {}) == {}
    {
      UnchangedSource(s, tree, src, dst, {}, 0);
      ChildrenOf(s, tree, src);
      names := Children(tree, src);
    }

    ghost predicate Copying(s: Tree, src: Path, dst: Path, done: set<Name>)
      reads this
    {
      Rooted(tree) && SameOutside(s, tree, dst) && IsDir(tree, dst) && CopiedChildren(s, src, tree, dst, done)
    }

    method CopyChild(ghost s: Tree, src: Path, dst: Path, n: Name, ghost done: set<Name>, depth: nat,
                     ghost start: nat, count: nat, ghost from: nat)
      returns (ok: bool, total: nat)
      requires Rooted(s) && IsDir(s, src) && n in Children(s, src) - done
      requires !(src <= dst) && !(dst <= src) && depth <= MAX_DEPTH && (src in guarded ==> depth == 0) && start > 0
      requires Copying(s, src, dst, done) && Costed(s, src, done, guarded, depth, start, count)
      requires from <= |trail| && TrailOutside(s, trail, from, dst)
      modifies this`tree, this`faults, this`trail
      ensures old(trail) <= trail && TrailOutside(s, trail, from, dst)
      ensures ok ==> Copying(s, src, dst, done + {n}) && Costed(s, src, done + {n}, guarded, depth, start, total)
      ensures !ok ==> Rooted(tree) && SameOutside(s, tree, dst) && Fragment(s, src, tree, dst)
      ensures faults >= old(faults) && (ok ==> faults == old(faults))
      ensures !ok && faults == old(faults) ==> !Affordable(s, src, guarded, depth, start)
      decreases MAX_DEPTH + 1 - depth, 0, 0
    {
      ghost var before, first := tree, trail;
      ChildExists(s, src, n);
      ChildCost(s, src, done, n);
      CopyableParts(s, src, guarded, depth);
      Apart(src, dst, n);
      NotYet(s, src, tree, dst, done, n);
      UnchangedSource(s, tree, src + [n], dst, guarded, depth + 1);
      ok, total := CopyTree(src + [n], dst + [n], depth + 1, count);
      InsideOnly(s, before, tree, dst, n);
      TrailInside(s, before, first, trail, from, dst, n);
      SameSource(s, before, src + [n], tree, dst + [n]);
      if ok {
        CopiedChild(s, src, before, tree, dst, done, n);
      } else {
        CopiedPart(s, src, before, tree, dst, done, n);
      }
    }

    /** Rename within one volume; an existing destination is never replaced. */
    method Rename(a: Path, b: Path) returns (ok: bool)
      requires Rooted(tree) && a in tree && a != [] && !(a <= b)
      requires b !in tree && b != [] && IsDir(tree, Parent(b))
      modifies this`tree, this`faults, this`trail
      ensures Rooted(tree)
      ensures ok ==> Relocated(old(tree), a, tree, b) && trail == old(trail) + [tree] && faults == old(faults)
      ensures !ok ==> tree == old(tree) && trail == old(trail) && faults == old(faults) + 1
    {
      var bad: bool;
      bad, faults := MayFail(faults);
      ok := !bad;
      if ok {
        RenamedRelocates(tree, a, b);
        RelocatedRooted(tree, a, Renamed(tree, a, b), b);
        tree := Renamed(tree, a, b);
        trail := trail + [tree];
      }
    }

    /** Rename p to a free name in the trash, and remember where it was. */
    method MoveToTrash(p: Path) returns (ok: bool, at: Path)
      requires Rooted(tree) && p in tree && p != []
      modifies this
      ensures Rooted(tree)
      ensures ok ==>
                && at != [] && Parent(at) == bin && at !in old(tree) && Relocated(old(tree), p, tree, at)
                && trail == old(trail) + [tree] && faults == old(faults) && origins == old(origins)[at := p]
      ensures !ok ==> tree == old(tree) && trail == old(trail) && faults == old(faults) + 1 && origins == old(origins)
    {
      var n: Name := *;
      at := bin + [n];
      if at in tree || !IsDir(tree, bin) || p <= at {
        faults := faults + 1;
        return false, at;
      }
      assert Parent(at) == bin;
      ok := Rename(p, at);
      if ok {
        origins := origins[at := p];
      }
    }

    /** What Transfer does not refuse before it touches anything. */
    ghost predicate Allowed(src: Path, dst: Path)
      reads this
    {
      && src in tree && src !in guarded && dst !in tree && dst != [] && IsDir(tree, Parent(dst))
      && !(IsDir(tree, src) && src <= Parent(dst))
    }

    /**
     Copy src to dst, or move it: by a rename on one volume, otherwise by a copy followed by moving the
     original to the trash.
     */
    method Transfer(src: Path, dst: Path, move: bool, sameVolume: bool) returns (ok: bool, trashed: Path)
      requires Rooted(tree) && IsDir(tree, bin) && src != []
      modifies this
      ensures Rooted(tree)
      ensures ok ==> Mirrors(old(tree), src, tree, dst)
      ensures dst !in old(tree) ==> Fragment(old(tree), src, tree, dst)
      ensures !ok || !move ==> SameInside(old(tree), tree, src)
      ensures ok && move ==> Nothing(tree, src)
      ensures ok && move && sameVolume ==> Relocated(old(tree), src, tree, dst)
      ensures origins == if ok && move && !sameVolume then old(origins)[trashed := src] else old(origins)
      ensures ok && move && !sameVolume ==>
                && trashed != [] && Parent(trashed) == bin && trashed !in old(tree)
                && Mirrors(old(tree), src, tree, trashed)
      ensures forall p :: p in old(tree) && !(src <= p) ==> p in tree && tree[p] == old(tree)[p]
      ensures forall p :: p in tree && p !in old(tree) ==> dst <= p || (ok && move && !sameVolume && trashed <= p)
      ensures old(trail) <= trail
      ensures forall k, p :: |old(trail)| <= k < |trail| && p in old(tree) && !(src <= p) ==>
                               p in trail[k] && trail[k][p] == old(tree)[p]
      ensures forall k :: |old(trail)| <= k < |trail| ==>
                            SameInside(old(tree), trail[k], src) || Mirrors(old(tree), src, trail[k], dst)
      ensures faults >= old(faults)
      ensures ok <==>
                && old(Allowed(src, dst)) && faults == old(faults)
                && ((move && sameVolume) || Affordable(old(tree), src, guarded, 0, 1))
    {
      trashed := [];
      if dst !in tree { NothingBelow(tree, dst); }
      if src in guarded || src !in tree || dst in tree || dst == [] || !IsDir(tree, Parent(dst)) {
        return false, trashed;
      }
      if IsDir(tree, src) && src <= Parent(dst) {
        return false, trashed;
      }
      NotInside(tree, src, dst);
      var cancelled: bool;
      cancelled, faults := MayFail(faults);
      if cancelled {
        return false, trashed;
      }
      if move && sameVolume {
        ok := Rename(src, dst);
        return ok, trashed;
      }
      ok, trashed := TransferByCopy(src, dst, move);
    }

    /** A copy, and for a move across volumes the original goes to the trash afterwards. */
    method TransferByCopy(src: Path, dst: Path, move: bool) returns (ok: bool, trashed: Path)
      requires Rooted(tree) && IsDir(tree, bin) && src in tree && src != [] && src !in guarded
      requires dst !in tree && dst != [] && IsDir(tree, Parent(dst)) && !(src <= dst) && !(dst <= src)
      modifies this
      ensures Rooted(tree)
      ensures ok ==> Mirrors(old(tree), src, tree, dst)
      ensures Fragment(old(tree), src, tree, dst)
      ensures if ok && move then Nothing(tree, src) else SameInside(old(tree), tree, src)
      ensures origins == if ok && move then old(origins)[trashed := src] else old(origins)
      ensures ok && move ==>
                && trashed != [] && Parent(trashed) == bin && trashed !in old(tree)
                && Mirrors(old(tree), src, tree, trashed)
      ensures forall p :: p in old(tree) && !(src <= p) ==> p in tree && tree[p] == old(tree)[p]
      ensures forall p :: p in tree && p !in old(tree) ==> dst <= p || (ok && move && trashed <= p)
      ensures old(trail) <= trail
      ensures forall k, p :: |old(trail)| <= k < |trail| && p in old(tree) && !(src <= p) ==>
                               p in trail[k] && trail[k][p] == old(tree)[p]
      ensures forall k :: |old(trail)| <= k < |trail| ==>
                            SameInside(old(tree), trail[k], src) || Mirrors(old(tree), src, trail[k], dst)
      ensures faults >= old(faults)
      ensures ok <==> faults == old(faults) && Affordable(old(tree), src, guarded, 0, 1)
    {
      trashed := [];
      ghost var s := tree;
      NothingBelow(s, dst);
      var count;
      ok, count := CopyTree(src, dst, 0, 0);
      UnchangedSource(s, tree, src, dst, guarded, 0);
      CopyTrail(s, trail, |old(trail)|, src, dst);
      if !ok || !move {
        return ok, trashed;
      }
      var cancelled: bool;
      cancelled, faults := MayFail(faults);
      if cancelled {
        return false, trashed;
      }
      ghost var copied := tree;
      ok, trashed := MoveToTrash(src);
      if ok {
        TrashKeepsCopy(s, copied, tree, src, dst, trashed, bin);
      }
    }

    /** Delete p and what is below it, stopping at the first problem. */
    method EraseTree(p: Path, depth: nat) returns (ok: bool)
      requires Rooted(tree) && p in tree && p != []
      modifies this`tree, this`faults, this`trail
      ensures Rooted(tree) && SameOutside(old(tree), tree, p)
      ensures forall q :: q in tree ==> q in old(tree) && tree[q] == old(tree)[q]
      ensures ok ==> Nothing(tree, p)
      ensures faults >= old(faults)
      ensures ok <==> Erasable(old(tree), p, guarded, depth) && faults == old(faults)
      decreases MAX_DEPTH + 1 - depth, 1
    {
      var cancelled: bool;
      cancelled, faults := MayFail(faults);
      if cancelled || p in guarded || depth > MAX_DEPTH {
        return false;
      }
      if !tree[p].Dir? {
        NothingBelow(tree, p);
        if tree[p].Special? {
          return false;
        }
        ok := Unlink(p);
        return;
      }
      ok := EraseChildren(p, depth);
      if ok {
        ok := Unlink(p);
      }
    }

    /** The loop of EraseTree over a directory's entries, which come in any order. */
    method EraseChildren(p: Path, depth: nat) returns (ok: bool)
      requires Rooted(tree) && IsDir(tree, p) && p !in guarded && depth <= MAX_DEPTH
      modifies this`tree, this`faults, this`trail
      ensures Rooted(tree) && SameOutside(old(tree), tree, p) && IsDir(tree, p)
      ensures forall q :: q in tree ==> q in old(tree) && tree[q] == old(tree)[q]
      ensures ok ==> forall q :: q in tree ==> !(p < q)
      ensures faults >= old(faults)
      ensures ok <==> Erasable(old(tree), p, guarded, depth) && faults == old(faults)
      decreases MAX_DEPTH + 1 - depth, 0
    {
      ghost var s := tree;
      var todo := Children(tree, p);
      while todo != {}
        invariant todo <= Children(s, p)
        invariant Rooted(tree) && SameOutside(s, tree, p) && IsDir(tree, p)
        invariant forall q :: q in tree ==> q in s && tree[q] == s[q]
        invariant forall n :: n in todo ==> Region(tree, p + [n]) == Region(s, p + [n])
        invariant forall n :: n in Children(s, p) - todo ==>
                                Nothing(tree, p + [n]) && Erasable(s, p + [n], guarded, depth + 1)
        invariant faults == old(faults)
        decreases todo
      {
        var n :| n in todo;
        ghost var before := tree;
        ChildExists(s, p, n);
        assert p + [n] in Region(s, p + [n]);
        SameErasable(s, tree, p + [n], guarded, depth + 1);
        ok := EraseTree(p + [n], depth + 1);
        ErasedChild(s, before, tree, p, n);
        if !ok {
          ErasableParts(s, p, guarded, depth);
          return;
        }
        todo := todo - {n};
      }
      AllErased(s, tree, p);
      ErasableParts(s, p, guarded, depth);
      return true;
    }

    /** Remove one entry that has nothing below it. */
    method Unlink(p: Path) returns (ok: bool)
      requires Rooted(tree) && p in tree && forall q :: q in tree ==> !(p < q)
      modifies this`tree, this`faults, this`trail
      ensures Rooted(tree)
      ensures ok ==> tree == old(tree) - {p} && trail == old(trail) + [tree] && faults == old(faults)
      ensures ok ==> Nothing(tree, p) && SameOutside(old(tree), tree, p)
      ensures !ok ==> tree == old(tree) && trail == old(trail) && faults == old(faults) + 1
    {
      var bad: bool;
      bad, faults := MayFail(faults);
      ok := !bad;
      if ok {
        assert forall q :: q in tree && q != [] && Parent(q) == p ==> p < q;
        assert forall q :: q in tree && p <= q ==> q == p || p < q;
        tree := tree - {p};
        trail := trail + [tree];
      }
    }

    /** Whether an entry of the trash has an origin that it can go back to. */
    ghost predicate Restorable(p: Path)
      requires p != []
      reads this
    {
      Parent(p) == bin && p in origins && origins[p] !in guarded && Allowed(p, origins[p])
    }

    /** Put one entry of the trash back where it came from, then forget its metadata. */
    method RestoreTrash(p: Path, sameVolume: bool) returns (ok: bool)
      requires Rooted(tree) && IsDir(tree, bin) && p != []
      modifies this
      ensures Rooted(tree)
      ensures p !in old(origins) || Parent(p) != bin ==> !ok && tree == old(tree)
      ensures ok ==>
                && p in old(origins) && Mirrors(old(tree), p, tree, old(origins)[p]) && Nothing(tree, p)
                && (sameVolume ==> Relocated(old(tree), p, tree, old(origins)[p]) && origins == old(origins) - {p})
      ensures !ok && p in old(origins) ==> p in origins && origins[p] == old(origins)[p]
      ensures SameInside(old(tree), tree, p) || (p in old(origins) && Mirrors(old(tree), p, tree, old(origins)[p]))
      ensures forall q :: q in old(tree) && !(p <= q) ==> q in tree && tree[q] == old(tree)[q]
      ensures faults >= old(faults)
      ensures ok <==>
                old(Restorable(p)) && (sameVolume || Affordable(old(tree), p, guarded, 0, 1)) && faults == old(faults)
    {
      if Parent(p) != bin || p !in origins {
        return false;
      }
      var d := origins[p];
      if d in guarded || d in tree || d == [] || !IsDir(tree, Parent(d)) {
        return false;
      }
      NothingBelow(tree, d);
      var trashed;
      ok, trashed := Transfer(p, d, true, sameVolume);
      if ok {
        var bad: bool;
        bad, faults := MayFail(faults);
        ok := !bad;
        if ok {
          origins := origins - {p};
        }
      }
    }

    /** Move an ordinary entry to the trash. */
    method Trash(p: Path) returns (ok: bool, at: Path)
      requires Rooted(tree) && IsDir(tree, bin) && p != []
      modifies this
      ensures Rooted(tree)
      ensures ok ==>
                && p in old(tree) && at != [] && Parent(at) == bin && at !in old(tree)
                && Relocated(old(tree), p, tree, at) && origins == old(origins)[at := p]
      ensures !ok ==> tree == old(tree) && origins == old(origins)
      ensures ok <==> p in old(tree) && p !in guarded && !old(tree)[p].Special? && faults == old(faults)
      ensures faults >= old(faults)
    {
      at := [];
      var cancelled: bool;
      cancelled, faults := MayFail(faults);
      if cancelled || p in guarded || p !in tree || tree[p].Special? {
        return false, at;
      }
      ok, at := MoveToTrash(p);
    }

    /** A move within the volume and the move back leave the tree as it was, and fail only as said here. */
    method MoveAndBack(src: Path, dst: Path) returns (ok: bool)
      requires Rooted(tree) && IsDir(tree, bin) && src != [] && !(src <= bin)
      modifies this
      ensures ok ==> tree == old(tree) && origins == old(origins)
      ensures faults >= old(faults)
      ensures ok <==>
                && src in old(tree) && src !in guarded && dst !in guarded
                && dst !in old(tree) && dst != [] && IsDir(old(tree), Parent(dst))
                && !(IsDir(old(tree), src) && src <= Parent(dst))
                && faults == old(faults)
    {
      ghost var s := tree;
      var trashed;
      ok, trashed := Transfer(src, dst, true, true);
      if ok {
        ghost var t := tree;
        NotInside(s, src, dst);
        NothingBelow(s, dst);
        WayBack(s, src, t, dst);
        ok, trashed := Transfer(dst, src, true, true);
        if ok {
          ThereAndBack(s, src, t, dst, tree);
        }
      }
    }

    /** Moving to the trash and restoring on the same volume leaves the tree exactly as it was. */
    method TrashAndRestore(p: Path) returns (ok: bool, at: Path)
      requires Rooted(tree) && IsDir(tree, bin) && p != []
      modifies this
      ensures ok ==> tree == old(tree) && origins == old(origins) - {at}
      ensures faults >= old(faults)
      ensures ok <==>
                && p in old(tree) && p !in guarded && !old(tree)[p].Special?
                && at !in guarded && faults == old(faults)
    {
      ghost var s := tree;
      ok, at := Trash(p);
      if ok {
        ghost var t := tree;
        NothingBelow(s, at);
        TrashStays(s, p, t, at, bin);
        assert at in t && p !in t && IsDir(t, Parent(p)) && !(at <= Parent(p)) by {
          assert Shift(p, at, p) == at;
          assert !(p <= Parent(p));
        }
        ok := RestoreTrash(at, true);
        if ok {
          ThereAndBack(s, p, t, at, tree);
        }
      }
    }
  }

  /** A destination that does not exist cannot be inside a source that the check let through, nor around it. */
  lemma NotInside(t: Tree, src: Path, dst: Path)
    requires Rooted(t) && src in t && dst !in t && dst != [] && IsDir(t, Parent(dst))
    requires !(IsDir(t, src) && src <= Parent(dst))
    ensures !(src <= dst) && !(dst <= src)
  {
    NothingBelow(t, dst);
    if src <= dst {
      assert src <= Parent(dst);
      if !IsDir(t, src) {
        NothingBelow(t, src);
      }
    }
  }

  /** After a move the way back is free. */
  lemma WayBack(s: Tree, src: Path, t: Tree, dst: Path)
    requires Rooted(s) && src in s && src != [] && dst !in s && Relocated(s, src, t, dst)
    requires !(src <= dst) && !(dst <= src)
    ensures dst in t && src !in t && IsDir(t, Parent(src)) && !(dst <= Parent(src))
  {
    assert Shift(src, dst, src) == dst;
    assert !(src <= Parent(src));
    assert dst <= Parent(src) ==> dst <= src;
  }

  lemma CopyTrail(s: Tree, trail: seq<Tree>, from: nat, src: Path, dst: Path)
    requires TrailOutside(s, trail, from, dst) && !(src <= dst) && !(dst <= src)
    ensures forall k :: from <= k < |trail| ==> SameInside(s, trail[k], src)
  {
    forall k | from <= k < |trail| ensures SameInside(s, trail[k], src) {
      UnchangedSource(s, trail[k], src, dst, {}, 0);
    }
  }

  /** Moving the original to the trash leaves the finished copy alone. */
  lemma TrashKeepsCopy(s: Tree, copied: Tree, t: Tree, src: Path, dst: Path, at: Path, bin: Path)
    requires Rooted(s) && SameOutside(s, copied, dst) && Mirrors(s, src, copied, dst)
    requires dst !in s && src in s && IsDir(s, bin) && at != [] && Parent(at) == bin
    requires Rooted(copied) && at !in copied && !(src <= dst) && !(dst <= src)
    requires Relocated(copied, src, t, at)
    ensures Mirrors(s, src, t, dst) && Mirrors(s, src, t, at)
  {
    NothingBelow(s, dst);
    NothingBelow(copied, at);
    UnchangedSource(s, copied, src, dst, {}, 0);
    SameSource(s, copied, src, t, at);
    assert Shift(src, dst, src) == dst && dst in copied;
    forall q | dst <= q && (q in t || q in copied)
      ensures q in t <==> q in copied
      ensures q in t ==> t[q] == copied[q]
    {
      if at <= q {
        Comparable(at, dst, q);
      }
      if src <= q {
        Comparable(src, dst, q);
      }
    }
  }

  /** What EraseTree refuses whatever the system does. */
  ghost predicate Erasable(t: Tree, p: Path, guarded: set<Path>, depth: nat) {
    forall q :: q in t && p <= q ==> q !in guarded && !t[q].Special? && depth + (|q| - |p|) <= 64
  }

  lemma SameErasable(s: Tree, t: Tree, p: Path, guarded: set<Path>, depth: nat)
    requires Region(s, p) == Region(t, p) && forall q :: q in t ==> q in s && t[q] == s[q]
    ensures Erasable(s, p, guarded, depth) <==> Erasable(t, p, guarded, depth)
  {
    forall q | p <= q ensures q in s <==> q in t {
      assert q in Region(s, p) <==> q in s;
    }
  }

  lemma ErasableParts(t: Tree, p: Path, guarded: set<Path>, depth: nat)
    requires Rooted(t) && IsDir(t, p) && depth <= MAX_DEPTH && p !in guarded
    ensures Erasable(t, p, guarded, depth) <==>
              forall n :: n in Children(t, p) ==> Erasable(t, p + [n], guarded, depth + 1)
  {
    forall n | Erasable(t, p, guarded, depth) && n in Children(t, p)
      ensures Erasable(t, p + [n], guarded, depth + 1)
    {
      forall q | q in t && p + [n] <= q
        ensures q !in guarded && !t[q].Special? && depth + 1 + (|q| - |p + [n]|) <= MAX_DEPTH
      {
        Child(p, n, q);
      }
    }
    if forall n :: n in Children(t, p) ==> Erasable(t, p + [n], guarded, depth + 1) {
      forall q | q in t && p <= q
        ensures q !in guarded && !t[q].Special? && depth + (|q| - |p|) <= MAX_DEPTH
      {
        if p < q {
          FirstStep(t, p, q);
          Child(p, q[|p|], q);
          assert Erasable(t, p + [q[|p|]], guarded, depth + 1);
        } else {
          assert q == p;
        }
      }
    }
  }

  lemma ErasedChild(s: Tree, t: Tree, u: Tree, p: Path, n: Name)
    requires SameOutside(s, t, p) && SameOutside(t, u, p + [n]) && IsDir(t, p)
    ensures SameOutside(s, u, p) && IsDir(u, p)
    ensures forall m :: m != n ==> Region(u, p + [m]) == Region(t, p + [m])
  {
    InsideOnly(s, t, u, p, n);
    forall m | m != n ensures Region(u, p + [m]) == Region(t, p + [m]) {
      forall q | p + [m] <= q && (q in t || q in u) ensures !(p + [n] <= q) {
        Child(p, m, q);
        Child(p, n, q);
      }
    }
  }

  lemma AllErased(s: Tree, t: Tree, p: Path)
    requires Rooted(s) && forall q :: q in t ==> q in s
    requires forall n :: n in Children(s, p) ==> Nothing(t, p + [n])
    ensures forall q :: q in t ==> !(p < q)
  {
    forall q | q in t && p < q ensures false {
      FirstStep(s, p, q);
      Child(p, q[|p|], q);
    }
  }

  lemma TrashStays(s: Tree, p: Path, t: Tree, at: Path, bin: Path)
    requires Rooted(s) && Relocated(s, p, t, at) && Rooted(t) && p in s && at != [] && Parent(at) == bin
    ensures IsDir(t, bin)
  {
    assert Shift(p, at, p) == at;
    assert IsDir(t, Parent(at));
  }

  lemma ThereAndBack(s: Tree, a: Path, t: Tree, b: Path, u: Tree)
    requires Relocated(s, a, t, b) && Relocated(t, b, u, a) && Nothing(s, b)
    ensures u == s
  {
    forall p | p in s ensures p in u && u[p] == s[p] {
      if a <= p {
        ShiftBack(a, b, p);
      }
    }
    forall p | p in u ensures p in s {
      if a <= p {
        ShiftBack(a, b, p);
      }
    }
  }

  /** A tree that can be copied within the limits when count - 1 entries were copied before it. */
  ghost predicate Affordable(t: Tree, src: Path, guarded: set<Path>, depth: nat, count: nat)
    requires count > 0
  {
    Copyable(t, src, guarded, depth) && count - 1 + |Region(t, src)| <= 100_000
  }

  /** The children in `done` could be copied, and brought the count from `start` to `total`. */
  ghost predicate Costed(s: Tree, src: Path, done: set<Name>, guarded: set<Path>, depth: nat, start: nat, total: nat) {
    && (forall n :: n in done ==> Copyable(s, src + [n], guarded, depth + 1))
    && total == start + |Below(s, src, done)| <= MAX_ENTRIES
  }

  lemma Finished(s: Tree, src: Path, t: Tree, dst: Path, done: set<Name>, guarded: set<Path>, depth: nat,
                 start: nat, total: nat)
    requires Rooted(s) && IsDir(s, src) && depth <= MAX_DEPTH && (src in guarded ==> depth == 0) && start > 0
    requires CopiedChildren(s, src, t, dst, done) && Children(s, src) == done && IsDir(t, dst)
    requires Costed(s, src, done, guarded, depth, start, total)
    ensures Mirrors(s, src, t, dst) && Affordable(s, src, guarded, depth, start)
    ensures total == start - 1 + |Region(s, src)|
  {
    CopiedAll(s, src, t, dst, done);
    CopyableParts(s, src, guarded, depth);
    WholeCost(s, src, done);
  }

  /** A fresh empty directory is the copy of a directory none of whose children have been copied. */
  lemma StartCopying(s: Tree, src: Path, dst: Path)
    requires Rooted(s) && dst != [] && IsDir(s, Parent(dst)) && dst !in s
    ensures var t := s[dst := Dir];
            Rooted(t) && SameOutside(s, t, dst) && CopiedChildren(s, src, t, dst, {})
    ensures IsDir(s, src) ==> Fragment(s, src, s[dst := Dir], dst)
  {
    NothingBelow(s, dst);
    assert Shift(dst, src, dst) == src;
  }

  lemma ChildrenOf(s: Tree, t: Tree, a: Path)
    requires Region(s, a) == Region(t, a)
    ensures Children(s, a) == Children(t, a)
  {
    forall p | a < p ensures p in s <==> p in t {
      assert p in Region(s, a) <==> p in s;
    }
  }

  /** A copy of what lies at src in t is one of what lies there in s, when the two agree there. */
  lemma SameSource(s: Tree, t: Tree, src: Path, u: Tree, dst: Path)
    requires forall p :: src <= p ==> (p in s <==> p in t)
    requires forall p :: src <= p && p in s ==> s[p] == t[p]
    ensures Fragment(s, src, u, dst) <==> Fragment(t, src, u, dst)
    ensures Mirrors(s, src, u, dst) <==> Mirrors(t, src, u, dst)
  {
  }

  lemma RegionHas(t: Tree, a: Path)
    requires a in t
    ensures |Region(t, a)| >= 1
  {
    assert a in Region(t, a);
  }

  lemma LeafRegion(t: Tree, a: Path, guarded: set<Path>, depth: nat)
    requires Rooted(t) && a in t && !t[a].Dir?
    ensures Region(t, a) == {a}
    ensures Copyable(t, a, guarded, depth) <==> CopyableAt(t[a], depth, a in guarded)
  {
    NothingBelow(t, a);
  }

  lemma LeafCopy(t: Tree, src: Path, dst: Path)
    requires Rooted(t) && src in t && !t[src].Dir? && dst !in t && dst != [] && IsDir(t, Parent(dst))
    ensures Mirrors(t, src, t[dst := t[src]], dst) && Rooted(t[dst := t[src]])
    ensures SameOutside(t, t[dst := t[src]], dst)
  {
    NothingBelow(t, src);
    NothingBelow(t, dst);
    assert Shift(src, dst, src) == dst && Shift(dst, src, dst) == src;
  }

  lemma ChildExists(t: Tree, a: Path, n: Name)
    requires n in Children(t, a)
    ensures a + [n] in t
  {
    var p :| p in t && a < p && |p| == |a| + 1 && p[|a|] == n;
    assert p == a + [n];
  }

  lemma ChildCost(t: Tree, a: Path, done: set<Name>, n: Name)
    requires n !in done && a in t
    ensures |Below(t, a, done + {n})| == |Below(t, a, done)| + |Region(t, a + [n])|
    ensures 1 + |Below(t, a, done + {n})| <= |Region(t, a)|
  {
    var x, y, z := Below(t, a, done), Region(t, a + [n]), Below(t, a, done + {n});
    forall p | p in z ensures p in x + y {
      Child(a, n, p);
    }
    forall p | p in y ensures p in z && p !in x {
      Child(a, n, p);
    }
    assert z == x + y && x !! y;
    assert {a} + z <= Region(t, a) && a !in z;
    SubsetCardinality({a} + z, Region(t, a));
  }

  lemma SubsetCardinality<T>(a: set<T>, b: set<T>)
    requires a <= b
    ensures |a| <= |b|
  {
    assert b == a + (b - a);
  }

  lemma WholeCost(t: Tree, a: Path, names: set<Name>)
    requires Rooted(t) && a in t && Children(t, a) <= names
    ensures |Region(t, a)| == 1 + |Below(t, a, names)|
  {
    forall p | p in Region(t, a) && p != a ensures p in Below(t, a, names) {
      FirstStep(t, a, p);
    }
    assert Region(t, a) == {a} + Below(t, a, names);
  }

  /** A directory can be copied exactly when it is not too deep or guarded itself and each child can be copied. */
  lemma CopyableParts(t: Tree, a: Path, guarded: set<Path>, depth: nat)
    requires Rooted(t) && IsDir(t, a) && depth <= MAX_DEPTH && (a in guarded ==> depth == 0)
    ensures Copyable(t, a, guarded, depth) <==>
              forall n :: n in Children(t, a) ==> Copyable(t, a + [n], guarded, depth + 1)
  {
    forall n | Copyable(t, a, guarded, depth) && n in Children(t, a)
      ensures Copyable(t, a + [n], guarded, depth + 1)
    {
      forall p | p in t && a + [n] <= p
        ensures CopyableAt(t[p], depth + 1 + (|p| - |a + [n]|), p in guarded)
      {
        Child(a, n, p);
      }
    }
    if forall n :: n in Children(t, a) ==> Copyable(t, a + [n], guarded, depth + 1) {
      forall p | p in t && a <= p
        ensures CopyableAt(t[p], depth + (|p| - |a|), p in guarded)
      {
        if a < p {
          FirstStep(t, a, p);
          Child(a, p[|a|], p);
          assert Copyable(t, a + [p[|a|]], guarded, depth + 1);
        } else {
          assert p == a;
        }
      }
    }
  }

  /** What lies apart from dst is the same in two trees that differ only there. */
  lemma UnchangedSource(s: Tree, t: Tree, src: Path, dst: Path, guarded: set<Path>, depth: nat)
    requires SameOutside(s, t, dst) && !(src <= dst) && !(dst <= src)
    ensures forall p :: src <= p ==> (p in s <==> p in t)
    ensures forall p :: src <= p && p in s ==> s[p] == t[p]
    ensures Region(s, src) == Region(t, src)
    ensures Copyable(s, src, guarded, depth) <==> Copyable(t, src, guarded, depth)
  {
    forall p | (p in s || p in t) && src <= p ensures !(dst <= p) {
      if dst <= p {
        Comparable(src, dst, p);
      }
    }
  }

  lemma InsideOnly(s: Tree, t: Tree, u: Tree, dst: Path, n: Name)
    requires SameOutside(s, t, dst) && SameOutside(t, u, dst + [n])
    ensures SameOutside(s, u, dst)
  {
    forall p | (p in s || p in t || p in u) && !(dst <= p) ensures !(dst + [n] <= p) {
      Child(dst, n, p);
    }
  }
}
