/**
 A file system seen as a finite map from paths to entries. A path is the sequence of names from the
 root, so `a <= p` says that p is a or lies below it.
 */
module FileTree {
  import opened Common

  datatype Name = Name(text: string)

  type Path = seq<Name>

  datatype Entry = File(content: seq<byte>) | Link(target: string) | Dir | Special

  type Tree = map<Path, Entry>

  predicate IsDir(t: Tree, p: Path) { p in t && t[p].Dir? }

  function Parent(p: Path): Path
    requires p != []
  {
    p[..|p| - 1]
  }

  /** Every entry sits in a directory. */
  ghost predicate Rooted(t: Tree) {
    forall p {:trigger Parent(p)} :: p in t && p != [] ==> IsDir(t, Parent(p))
  }

  /** The paths of a and everything below it. */
  ghost function Region(t: Tree, a: Path): set<Path> {
    set p | p in t && a <= p
  }

  /** Where p goes when a is carried to b. */
  function Shift(a: Path, b: Path, p: Path): Path
    requires a <= p
  {
    b + p[|a|..]
  }

  /** Carrying p from a to b is carrying it between the children it lies in. */
  lemma ShiftChild(a: Path, b: Path, p: Path)
    requires a < p
    ensures var n, q := p[|a|], Shift(a, b, p);
            && b < q && q[|b|] == n && Shift(b, a, q) == p
            && a + [n] <= p && b + [n] <= q && Shift(a + [n], b + [n], p) == q
  {
  }

  lemma ShiftBack(a: Path, b: Path, p: Path)
    requires a <= p
    ensures b <= Shift(a, b, p) && Shift(b, a, Shift(a, b, p)) == p
  {
  }

  lemma Child(a: Path, n: Name, p: Path)
    ensures a + [n] <= p <==> a < p && p[|a|] == n
  {
  }

  /** Of two paths leading to the same place, one leads through the other. */
  lemma Comparable(a: Path, b: Path, p: Path)
    requires a <= p && b <= p
    ensures a <= b || b <= a
  {
  }

  /** All that is at and below b in t is part of what is at and below a in s. */
  ghost predicate Fragment(s: Tree, a: Path, t: Tree, b: Path) {
    forall q {:trigger Shift(b, a, q)} :: q in t && b <= q ==> Shift(b, a, q) in s && s[Shift(b, a, q)] == t[q]
  }

  /** b in t is an exact copy of a in s. */
  ghost predicate Mirrors(s: Tree, a: Path, t: Tree, b: Path) {
    && Fragment(s, a, t, b)
    && forall p {:trigger Shift(a, b, p)} :: p in s && a <= p ==> Shift(a, b, p) in t && t[Shift(a, b, p)] == s[p]
  }

  /** s and t agree on every path that is not at or below a. */
  ghost predicate SameOutside(s: Tree, t: Tree, a: Path) {
    && (forall p :: p in s && !(a <= p) ==> p in t && t[p] == s[p])
    && (forall p :: p in t && !(a <= p) ==> p in s)
  }

  /** s and t agree on everything at and below a. */
  ghost predicate SameInside(s: Tree, t: Tree, a: Path) {
    && (forall p :: p in s && a <= p ==> p in t && t[p] == s[p])
    && (forall p :: p in t && a <= p ==> p in s)
  }

  ghost predicate Nothing(t: Tree, a: Path) {
    forall p :: p in t ==> !(a <= p)
  }

  /** t is s after what was at a was renamed to b. */
  ghost predicate Relocated(s: Tree, a: Path, t: Tree, b: Path) {
    && Mirrors(s, a, t, b) && Nothing(t, a)
    && (forall p :: p in s && !(a <= p) ==> p in t && t[p] == s[p])
    && (forall p :: p in t && !(b <= p) ==> p in s)
  }

  /** The tree after renaming a to b. */
  function Renamed(t: Tree, a: Path, b: Path): Tree {
    (map p | p in t && !(a <= p) :: t[p]) + map q | q in Landed(t, a, b) :: t[Shift(b, a, q)]
  }

  function Landed(t: Tree, a: Path, b: Path): (r: set<Path>)
    ensures forall q {:trigger Shift(b, a, q)} {:trigger q in r} ::
              q in r <==> b <= q && Shift(b, a, q) in t && a <= Shift(b, a, q)
  {
    var r := set p | p in t && a <= p :: Shift(a, b, p);
    assert forall q :: q in r <==> b <= q && Shift(b, a, q) in t && a <= Shift(b, a, q) by {
      forall q | q in r ensures b <= q && Shift(b, a, q) in t && a <= Shift(b, a, q) {
        var p :| p in t && a <= p && q == Shift(a, b, p);
        ShiftBack(a, b, p);
      }
      forall q | b <= q && Shift(b, a, q) in t && a <= Shift(b, a, q) ensures q in r {
        ShiftBack(b, a, q);
      }
    }
    r
  }

  lemma RenamedRelocates(t: Tree, a: Path, b: Path)
    requires Rooted(t) && a in t && a != [] && b !in t && !(a <= b)
    ensures Relocated(t, a, Renamed(t, a, b), b)
  {
    NothingBelow(t, b);
    var u := Renamed(t, a, b);
    forall p | p in t && a <= p
      ensures Shift(a, b, p) in u && u[Shift(a, b, p)] == t[p]
    {
      ShiftBack(a, b, p);
    }
    forall p | p in u ensures !(a <= p) {
      if p in Landed(t, a, b) && a <= p {
        Comparable(a, b, p);
      }
    }
  }

  /** Below b the parent of an entry is where the parent of the entry it was went. */
  lemma ParentShifted(s: Tree, a: Path, t: Tree, b: Path, p: Path)
    requires Rooted(s) && Mirrors(s, a, t, b) && p in t && b < p
    ensures IsDir(t, Parent(p))
  {
    var q := Shift(b, a, p);
    ShiftBack(b, a, p);
    assert q in s && q != [] && IsDir(s, Parent(q));
    assert |q| > |a| && a <= Parent(q);
    assert Shift(a, b, Parent(q)) == Parent(p);
  }

  lemma RelocatedRooted(s: Tree, a: Path, t: Tree, b: Path)
    requires Rooted(s) && Relocated(s, a, t, b) && a in s && b !in s && b != [] && IsDir(s, Parent(b)) && !(a <= b)
    ensures Rooted(t)
  {
    forall p | p in t && p != [] ensures IsDir(t, Parent(p)) {
      if p == b {
        assert !(a <= Parent(b));
      } else if b <= p {
        ParentShifted(s, a, t, b, p);
      } else {
        assert IsDir(s, Parent(p)) && !(a <= Parent(p));
      }
    }
  }

  lemma {:induction false} Ancestors(t: Tree, p: Path, n: nat)
    requires Rooted(t) && p in t && n < |p|
    ensures IsDir(t, p[..n])
    decreases |p|
  {
    assert IsDir(t, Parent(p)) && Parent(p)[..n] == p[..n];
    if n < |p| - 1 {
      Ancestors(t, Parent(p), n);
    } else {
      assert Parent(p) == p[..n];
    }
  }

  /** Nothing lies below a path that does not exist, or below one that is not a directory. */
  lemma NothingBelow(t: Tree, a: Path)
    requires Rooted(t) && !IsDir(t, a)
    ensures forall p :: p in t && a <= p ==> p == a && a in t
  {
    forall p | p in t && a <= p ensures p == a && a in t {
      assert p[..|a|] == a;
      if |p| > |a| {
        Ancestors(t, p, |a|);
      }
    }
  }
}
