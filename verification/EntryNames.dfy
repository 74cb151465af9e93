/** Which archive entry names are accepted, and the place each one names. */
module EntryNames {
  import opened Common
  import opened FileTree
  import Utf8

  predicate ValidName(n: string) {
    && n != "" && n != "." && n != ".." && |Utf8.Encode(n)| <= 255
    && forall c :: c in n ==> c != '/' && c as int >= 32 && c as int != 127
  }

  /** The name without one final slash. */
  function Chopped(name: string): string {
    if EndsWith(name, "/") then name[..|name| - 1] else name
  }

  predicate SafeEntry(name: string) {
    var n := Chopped(name);
    && n != "" && '\\' !in n && ':' !in n && |Utf8.Encode(n)| <= 4096
    && var parts := Split(n, '/');
       |parts| <= 64 && forall i :: 0 <= i < |parts| ==> ValidName(parts[i])
  }

  /** A part of an entry's name: its characters by their codes, and its length in bytes. */
  ghost predicate SafePart(part: string) {
    && part != "" && part != "." && part != ".." && |Utf8.Encode(part)| <= 255
    && forall i :: 0 <= i < |part| ==> part[i] as int >= 32 && part[i] as int !in {47, 58, 92, 127}
  }

  ghost predicate SafeParts(parts: seq<string>) {
    && 1 <= |parts| <= 64 && (forall i :: 0 <= i < |parts| ==> SafePart(parts[i]))
    && |Utf8.Encode(Join(parts, '/'))| <= 4096
  }

  /** The name is made of these parts, with or without a slash behind them. */
  ghost predicate MadeOf(name: string, parts: seq<string>) {
    SafeParts(parts) && (name == Join(parts, '/') || name == Join(parts, '/') + "/")
  }

  lemma {:induction false} JoinEnd(parts: seq<string>)
    requires |parts| >= 1 && forall i :: 0 <= i < |parts| ==> parts[i] != "" && '/' !in parts[i]
    ensures Join(parts, '/') != "" && !EndsWith(Join(parts, '/'), "/")
  {
    if |parts| > 1 {
      JoinEnd(parts[1..]);
      var rest := Join(parts[1..], '/');
      assert Join(parts, '/')[|Join(parts, '/')| - 1] == rest[|rest| - 1];
      assert rest[|rest| - 1..] == [rest[|rest| - 1]];
    } else {
      var last := parts[0][|parts[0]| - 1];
      assert last in parts[0];
    }
  }

  lemma ChoppedSlash(n: string)
    requires !EndsWith(n, "/")
    ensures Chopped(n + "/") == n == Chopped(n)
  {
    assert (n + "/")[|n|..] == "/";
  }

  /** The names accepted are exactly those that are made of safe parts. */
  lemma SafeEntryExactly(name: string)
    ensures SafeEntry(name) <==> exists parts :: MadeOf(name, parts)
  {
    var n := Chopped(name);
    if SafeEntry(name) {
      var parts := Split(n, '/');
      JoinSplit(n, '/');
      forall i | 0 <= i < |parts| ensures SafePart(parts[i]) {
        SafeValid(parts, i);
      }
      assert name == n || name == n + "/";
      assert MadeOf(name, parts);
    }
    if parts :| MadeOf(name, parts) {
      forall i | 0 <= i < |parts| ensures parts[i] != "" && '/' !in parts[i] && ValidName(parts[i]) {
        assert SafePart(parts[i]);
      }
      JoinEnd(parts);
      ChoppedSlash(Join(parts, '/'));
      SplitJoin(parts, '/');
      InJoined(parts, '/', '\\');
      InJoined(parts, '/', ':');
    }
  }

  lemma SafeValid(parts: seq<string>, i: nat)
    requires |parts| >= 1 && i < |parts| && ValidName(parts[i])
    requires '\\' !in Join(parts, '/') && ':' !in Join(parts, '/')
    ensures SafePart(parts[i])
  {
    InJoined(parts, '/', '\\');
    InJoined(parts, '/', ':');
    forall k | 0 <= k < |parts[i]|
      ensures parts[i][k] as int >= 32 && parts[i][k] as int !in {47, 58, 92, 127}
    {
      assert parts[i][k] in parts[i];
    }
  }

  function Named(parts: seq<string>): (r: Path)
    ensures |r| == |parts|
  {
    seq(|parts|, i requires 0 <= i < |parts| => Name(parts[i]))
  }

  function Texts(p: Path): (r: seq<string>)
    ensures |r| == |p|
  {
    seq(|p|, i requires 0 <= i < |p| => p[i].text)
  }

  /** The path below the extraction root that an entry name spells. */
  function EntryPath(name: string): (r: Path)
    ensures r != []
  {
    Named(Split(Chopped(name), '/'))
  }

  /** The entry name of a path. */
  function NameOf(p: Path): string
    requires p != []
  {
    Join(Texts(p), '/')
  }

  /** A part of a name that leads nowhere new, or back up. */
  ghost predicate Dots(part: string) {
    part == "" || part == "." || part == ".."
  }

  /** The place the kernel would reach from a directory by following the parts of a name. */
  ghost function Resolve(at: Path, parts: seq<string>): Path
    decreases |parts|
  {
    if parts == [] then at
    else if !Dots(parts[0]) then Resolve(at + [Name(parts[0])], parts[1..])
    else Resolve(if parts[0] == ".." && at != [] then Parent(at) else at, parts[1..])
  }

  lemma {:induction false} ResolvePlain(at: Path, parts: seq<string>)
    requires forall i :: 0 <= i < |parts| ==> !Dots(parts[i])
    ensures Resolve(at, parts) == at + Named(parts)
    decreases |parts|
  {
    if parts == [] {
    } else {
      var next := at + [Name(parts[0])];
      ResolvePlain(next, parts[1..]);
      assert at + Named(parts) == next + Named(parts[1..]);
    }
  }

  /** A safe entry never leaves the directory it is extracted into, and lands below it. */
  lemma SafeEntryStaysInside(root: Path, name: string)
    requires SafeEntry(name)
    ensures root < Resolve(root, Split(Chopped(name), '/')) == root + EntryPath(name)
  {
    ResolvePlain(root, Split(Chopped(name), '/'));
  }

  /** Two safe names reach the same place only when they differ in nothing but a final slash. */
  lemma EntryPathInjective(a: string, b: string)
    requires EntryPath(a) == EntryPath(b)
    ensures Chopped(a) == Chopped(b)
  {
    var p, q := Split(Chopped(a), '/'), Split(Chopped(b), '/');
    assert forall i :: 0 <= i < |p| ==> Named(p)[i].text == p[i] && Named(q)[i].text == q[i];
    assert p == q;
    JoinSplit(Chopped(a), '/');
    JoinSplit(Chopped(b), '/');
  }

  /** A name a directory can hold. */
  predicate Proper(n: Name) {
    n.text != "" && '/' !in n.text
  }

  ghost predicate ProperPath(p: Path) {
    p != [] && forall i :: 0 <= i < |p| ==> Proper(p[i])
  }

  lemma NameOfChild(p: Path, n: Name)
    requires p != []
    ensures NameOf(p + [n]) == NameOf(p) + "/" + n.text
  {
    JoinSnoc(Texts(p), n.text, '/');
    assert Texts(p + [n]) == Texts(p) + [n.text];
  }

  /** A path whose entry name spells it: no part holds a slash, and the name does not end in one. */
  ghost predicate Spelled(p: Path) {
    && p != [] && (forall i :: 0 <= i < |p| ==> '/' !in p[i].text)
    && (|p| == 1 || p[|p| - 1].text != "")
  }

  lemma LastCharacter(p: Path)
    requires Spelled(p)
    ensures !EndsWith(NameOf(p), "/")
  {
    var n := p[|p| - 1];
    assert n.text != "" ==> n.text[|n.text| - 1] in n.text;
    if |p| == 1 {
      assert NameOf(p) == n.text;
    } else {
      assert p == Parent(p) + [n];
      NameOfChild(Parent(p), n);
      assert NameOf(p)[|NameOf(p)| - 1] == n.text[|n.text| - 1];
    }
  }

  /** The entry name of a path leads back to the path, whether or not it is marked as a directory. */
  lemma NameRoundTrip(p: Path)
    requires Spelled(p)
    ensures EntryPath(NameOf(p)) == p && EntryPath(NameOf(p) + "/") == p
    ensures SafeEntry(NameOf(p) + "/") <==> SafeEntry(NameOf(p))
  {
    LastCharacter(p);
    ChoppedSlash(NameOf(p));
    SplitJoin(Texts(p), '/');
    assert Named(Texts(p)) == p;
  }

  /** The path whose entry name is the one of p without a leading U+FEFF. */
  ghost function Shown(p: Path): (r: Path)
    requires p != []
    ensures |r| == |p|
  {
    [Name(Utf8.WithoutMark(p[0].text))] + p[1..]
  }

  lemma NameShown(p: Path)
    requires ProperPath(p)
    ensures Spelled(p) && Spelled(Shown(p)) && NameOf(Shown(p)) == Utf8.WithoutMark(NameOf(p))
  {
    var first, short := p[0].text, Texts(Shown(p));
    assert Texts(p)[0] == first && short[0] == Utf8.WithoutMark(first) && short[1..] == Texts(p)[1..];
    if |p| > 1 {
      assert NameOf(p) == first + ['/'] + Join(Texts(p)[1..], '/');
    }
  }
}
