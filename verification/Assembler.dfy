/** The two-pass assembler of the NES smoke program: labels, emitted bytes, and references patched at the end. */
module Assembler {
  import opened Common

  const ORIGIN := 0xC000

  datatype Kind = Absolute | Relative

  datatype Fixup = Fixup(kind: Kind, position: nat, name: string)

  /** The bytes a fixup writes: a little-endian address, or one displacement. */
  ghost function Width(f: Fixup): nat {
    if f.kind.Absolute? then 2 else 1
  }

  /** The address that follows a branch. */
  function NextPc(f: Fixup): nat {
    ORIGIN + f.position + 1
  }

  /** The low byte of a displacement in two's complement. */
  function LowByte(delta: int): byte
    requires -128 <= delta <= 127
  {
    delta % 256
  }

  /** The displacement a processor reads from a byte. */
  ghost function SignExtended(b: byte): int {
    if b < 128 then b else b as int - 256
  }

  lemma DisplacementRoundTrip(delta: int)
    requires -128 <= delta <= 127
    ensures SignExtended(LowByte(delta)) == delta
  {
  }

  /** A reference that can be patched: its label exists and its target fits where it is written. */
  ghost predicate Resolvable(f: Fixup, labels: map<string, nat>) {
    && f.name in labels
    && (if f.kind.Absolute? then labels[f.name] < 0x1_0000 else -128 <= labels[f.name] - NextPc(f) <= 127)
  }

  ghost predicate AllResolvable(fixups: seq<Fixup>, labels: map<string, nat>) {
    forall i :: 0 <= i < |fixups| ==> Resolvable(fixups[i], labels)
  }

  /** What the processor finds where a reference was patched leads it to the label. */
  ghost predicate Leads(code: seq<byte>, f: Fixup, labels: map<string, nat>) {
    && f.name in labels && f.position + Width(f) <= |code|
    && (if f.kind.Absolute? then LittleEndian16(code, f.position) == labels[f.name]
        else NextPc(f) + SignExtended(code[f.position]) == labels[f.name])
  }

  /** Whether some fixup writes the byte at p. */
  ghost predicate Patched(fixups: seq<Fixup>, p: nat) {
    exists i :: 0 <= i < |fixups| && fixups[i].position <= p < fixups[i].position + Width(fixups[i])
  }

  /** The places that fixups write lie in the code, in order, and do not overlap. */
  ghost predicate Disjoint(fixups: seq<Fixup>, size: nat) {
    && (forall i, j :: 0 <= i < j < |fixups| ==> fixups[i].position + Width(fixups[i]) <= fixups[j].position)
    && (forall i :: 0 <= i < |fixups| ==> fixups[i].position + Width(fixups[i]) <= size)
  }

  class Assembler {
    var code: seq<byte>
    var labels: map<string, nat>
    var fixups: seq<Fixup>

    /** References do not overlap, and every label is an address the program has reached. */
    ghost predicate Valid()
      reads this
    {
      && Disjoint(fixups, |code|)
      && forall name :: name in labels ==> ORIGIN <= labels[name] <= ORIGIN + |code|
    }

    constructor ()
      ensures Valid() && code == [] && labels == map[] && fixups == []
    {
      code, labels, fixups := [], map[], [];
    }

    function Pc(): nat
      reads this
    {
      ORIGIN + |code|
    }

    method Label(name: string) returns (ok: bool)
      requires Valid()
      modifies this`labels
      ensures Valid() && (ok <==> name !in old(labels))
      ensures labels == if ok then old(labels)[name := Pc()] else old(labels)
    {
      if name in labels { return false; }
      labels := labels[name := Pc()];
      return true;
    }

    method Emit(values: seq<int>) returns (ok: bool)
      requires Valid()
      modifies this`code
      ensures Valid() && (ok <==> forall i :: 0 <= i < |values| ==> 0 <= values[i] <= 0xFF)
      ensures if ok then |code| == |old(code)| + |values| && old(code) <= code
                         && forall i :: 0 <= i < |values| ==> code[|old(code)| + i] == values[i]
              else code == old(code)
    {
      for i := 0 to |values|
        invariant forall j :: 0 <= j < i ==> 0 <= values[j] <= 0xFF
      {
        if values[i] < 0 || values[i] > 0xFF { return false; }
      }
      code := code + seq(|values|, i requires 0 <= i < |values| && 0 <= values[i] <= 0xFF => values[i]);
      return true;
    }

    method Reference(kind: Kind, opcode: int, name: string) returns (ok: bool)
      requires Valid()
      modifies this`code, this`fixups
      ensures Valid() && (ok <==> 0 <= opcode <= 0xFF)
      ensures ok ==> fixups == old(fixups) + [Fixup(kind, |old(code)| + 1, name)]
                     && |code| == |old(code)| + (if kind.Absolute? then 3 else 2)
                     && old(code) <= code && code[|old(code)|] == opcode
      ensures !ok ==> code == old(code) && fixups == old(fixups)
    {
      var values := if kind.Absolute? then [opcode, 0, 0] else [opcode, 0];
      assert values[0] == opcode && forall i :: 0 < i < |values| ==> values[i] == 0;
      ok := Emit(values);
      if !ok { return; }
      assert code[|old(code)| + 0] == opcode;
      fixups := fixups + [Fixup(kind, |code| - (if kind.Absolute? then 2 else 1), name)];
    }

    /** Patches one reference, writing no byte but its own. */
    method Patch(f: Fixup) returns (ok: bool)
      requires f.position + Width(f) <= |code|
      modifies this`code
      ensures |code| == |old(code)| && (ok <==> Resolvable(f, labels)) && (ok ==> Leads(code, f, labels))
      ensures Apart(old(code), code, f)
    {
      if f.name !in labels { return false; }
      var target := labels[f.name];
      if f.kind.Absolute? {
        code := code[f.position := target % 0x100];
        if target / 0x100 >= 0x100 { return false; }
        code := code[f.position + 1 := target / 0x100];
      } else {
        var delta := target - NextPc(f);
        if delta < -128 || delta > 127 { return false; }
        DisplacementRoundTrip(delta);
        code := code[f.position := LowByte(delta)];
      }
      return true;
    }

    /**
     Finishing succeeds exactly when every reference can be patched. Then only the bytes that references own have
     changed, and each reference leads to its label.
     */
    method Finish() returns (ok: bool)
      requires Valid()
      modifies this`code
      ensures Valid() && |code| == |old(code)|
      ensures ok <==> AllResolvable(fixups, labels)
      ensures forall p :: 0 <= p < |code| && !Patched(fixups, p) ==> code[p] == old(code)[p]
      ensures ok ==> forall i :: 0 <= i < |fixups| ==> Leads(code, fixups[i], labels)
    {
      for i := 0 to |fixups|
        invariant |code| == |old(code)|
        invariant forall j :: 0 <= j < i ==> Resolvable(fixups[j], labels) && Leads(code, fixups[j], labels)
        invariant forall p :: 0 <= p < |code| && !Patched(fixups, p) ==> code[p] == old(code)[p]
      {
        ghost var before := code;
        ok := Patch(fixups[i]);
        forall p | 0 <= p < |code| && !Patched(fixups, p) ensures code[p] == before[p] {
          assert !(fixups[i].position <= p < fixups[i].position + Width(fixups[i]));
        }
        if !ok { return; }
        forall j | 0 <= j < i ensures Leads(code, fixups[j], labels) {
          LeadsStill(before, code, fixups[j], fixups[i], labels);
        }
      }
      return true;
    }
  }

  /** The code differs only where the fixup writes. */
  ghost predicate Apart(before: seq<byte>, after: seq<byte>, f: Fixup) {
    |after| == |before|
    && forall p :: 0 <= p < |before| && !(f.position <= p < f.position + Width(f)) ==> after[p] == before[p]
  }

  lemma LeadsStill(before: seq<byte>, after: seq<byte>, f: Fixup, g: Fixup, labels: map<string, nat>)
    requires Leads(before, f, labels) && Apart(before, after, g) && f.position + Width(f) <= g.position
    ensures Leads(after, f, labels)
  {
  }

  /** Everything a program can ask of the assembler before it is finished. */
  datatype Step = Here(name: string) | Bytes(values: seq<int>) | Reference(kind: Kind, opcode: int, target: string)

  // What a list of steps means, without any state.

  ghost function Extent(s: Step): nat {
    match s
    case Here(_) => 0
    case Bytes(values) => |values|
    case Reference(kind, _, _) => if kind.Absolute? then 3 else 2
  }

  /** How many bytes the first n steps make. */
  ghost function Offset(steps: seq<Step>, n: nat): nat
    requires n <= |steps|
  {
    if n == 0 then 0 else Offset(steps, n - 1) + Extent(steps[n - 1])
  }

  ghost predicate Proper(s: Step) {
    match s
    case Here(_) => true
    case Bytes(values) => forall i :: 0 <= i < |values| ==> 0 <= values[i] <= 0xFF
    case Reference(_, opcode, _) => 0 <= opcode <= 0xFF
  }

  ghost predicate NewName(steps: seq<Step>, n: nat)
    requires n < |steps|
  {
    steps[n].Here? ==> forall i :: 0 <= i < n ==> steps[i] != steps[n]
  }

  ghost function FixupOf(steps: seq<Step>, j: nat): Fixup
    requires j < |steps| && steps[j].Reference?
  {
    Fixup(steps[j].kind, Offset(steps, j) + 1, steps[j].target)
  }

  /** The label of step i is the one that step j refers to. */
  ghost predicate Names(steps: seq<Step>, i: nat, j: nat)
    requires i < |steps| && j < |steps| && steps[j].Reference?
  {
    steps[i] == Here(steps[j].target)
  }

  /** A label that step j can reach: an address of 16 bits, or within a signed byte of the next instruction. */
  ghost predicate InReach(steps: seq<Step>, i: nat, j: nat)
    requires i < |steps| && j < |steps| && steps[j].Reference?
  {
    match steps[j].kind
    case Absolute => 0xC000 + Offset(steps, i) <= 0xFFFF
    case Relative => -128 <= Offset(steps, i) - (Offset(steps, j) + 2) <= 127
  }

  ghost predicate Resolves(steps: seq<Step>, j: nat)
    requires j < |steps| && steps[j].Reference?
  {
    exists i :: 0 <= i < |steps| && Names(steps, i, j) && InReach(steps, i, j)
  }

  /** Bytes in range, no label twice, and every reference to a label that it can reach. */
  ghost predicate Assembles(steps: seq<Step>) {
    forall n :: 0 <= n < |steps| ==>
      Proper(steps[n]) && NewName(steps, n) && (steps[n].Reference? ==> Resolves(steps, n))
  }

  /** The bytes a step stands for are where they belong. */
  ghost predicate Holds(code: seq<byte>, steps: seq<Step>, j: nat)
    requires j < |steps|
  {
    var at := Offset(steps, j);
    && at + Extent(steps[j]) <= |code|
    && match steps[j]
       case Here(_) => true
       case Bytes(values) => forall k :: 0 <= k < |values| ==> code[at + k] == values[k]
       case Reference(_, opcode, _) => code[at] == opcode
  }

  /**
   Where the processor goes when it executes the instruction of two or three bytes at an offset of the program: to the
   little-endian address behind the opcode, or as far from the next instruction as the signed byte behind it says.
   */
  ghost function Destination(program: seq<byte>, kind: Kind, at: nat): int
    requires at + (if kind.Absolute? then 3 else 2) <= |program|
  {
    match kind
    case Absolute => program[at + 1] as int + 256 * program[at + 2] as int
    case Relative => 0xC000 + at + 2 + if program[at + 1] < 128 then program[at + 1] as int
                                       else program[at + 1] as int - 256
  }

  ghost predicate LeadsTo(program: seq<byte>, steps: seq<Step>, j: nat)
    requires j < |steps| && steps[j].Reference?
  {
    && Offset(steps, j) + (if steps[j].kind.Absolute? then 3 else 2) <= |program|
    && exists i :: 0 <= i < |steps| && Names(steps, i, j)
                   && Destination(program, steps[j].kind, Offset(steps, j)) == 0xC000 + Offset(steps, i)
  }

  /** A program is the steps' bytes, one after the other, with every reference leading to its label. */
  ghost predicate Realizes(program: seq<byte>, steps: seq<Step>) {
    && |program| == Offset(steps, |steps|)
    && forall j :: 0 <= j < |steps| ==> Holds(program, steps, j) && (steps[j].Reference? ==> LeadsTo(program, steps, j))
  }

  /** Every byte of a program belongs to a step. */
  lemma {:induction false} StepAt(steps: seq<Step>, n: nat, x: nat) returns (j: nat)
    requires n <= |steps| && x < Offset(steps, n)
    ensures j < n && Offset(steps, j) <= x < Offset(steps, j) + Extent(steps[j])
  {
    if x < Offset(steps, n - 1) {
      j := StepAt(steps, n - 1, x);
    } else {
      j := n - 1;
    }
  }

  /** With no label twice, both programs lead to the same place. */
  lemma SameDestination(a: seq<byte>, b: seq<byte>, steps: seq<Step>, j: nat)
    requires Assembles(steps) && j < |steps| && steps[j].Reference? && LeadsTo(a, steps, j) && LeadsTo(b, steps, j)
    ensures Destination(a, steps[j].kind, Offset(steps, j)) == Destination(b, steps[j].kind, Offset(steps, j))
  {
    var at := Offset(steps, j);
    var m :| 0 <= m < |steps| && Names(steps, m, j)
             && Destination(a, steps[j].kind, at) == 0xC000 + Offset(steps, m);
    var n :| 0 <= n < |steps| && Names(steps, n, j)
             && Destination(b, steps[j].kind, at) == 0xC000 + Offset(steps, n);
    assert NewName(steps, m) && NewName(steps, n) && steps[m] == steps[n];
  }

  /** The bytes that a step fixes by itself. */
  lemma SameOwn(a: seq<byte>, b: seq<byte>, steps: seq<Step>, j: nat, k: nat)
    requires j < |steps| && k < Extent(steps[j]) && Holds(a, steps, j) && Holds(b, steps, j)
    requires steps[j].Reference? ==> k == 0
    ensures a[Offset(steps, j) + k] == b[Offset(steps, j) + k]
  {
    if steps[j].Bytes? {
      var values := steps[j].values;
      assert a[Offset(steps, j) + k] == values[k] == b[Offset(steps, j) + k];
    }
  }

  /** Both operands lead to the same place, so they are the same bytes. */
  lemma SameOperand(a: seq<byte>, b: seq<byte>, kind: Kind, at: nat, k: nat)
    requires at + (if kind.Absolute? then 3 else 2) <= |a| == |b| && 0 < k < if kind.Absolute? then 3 else 2
    requires Destination(a, kind, at) == Destination(b, kind, at)
    ensures a[at + k] == b[at + k]
  {
  }

  lemma SameByte(a: seq<byte>, b: seq<byte>, steps: seq<Step>, j: nat, k: nat)
    requires Assembles(steps) && j < |steps| && k < Extent(steps[j]) && |a| == |b|
    requires Holds(a, steps, j) && (steps[j].Reference? ==> LeadsTo(a, steps, j))
    requires Holds(b, steps, j) && (steps[j].Reference? ==> LeadsTo(b, steps, j))
    ensures a[Offset(steps, j) + k] == b[Offset(steps, j) + k]
  {
    if steps[j].Reference? && k > 0 {
      SameDestination(a, b, steps, j);
      SameOperand(a, b, steps[j].kind, Offset(steps, j), k);
    } else {
      SameOwn(a, b, steps, j, k);
    }
  }

  lemma SameAt(a: seq<byte>, b: seq<byte>, steps: seq<Step>, x: nat)
    requires Assembles(steps) && Realizes(a, steps) && Realizes(b, steps) && x < |a| == |b|
    ensures a[x] == b[x]
  {
    var j := StepAt(steps, |steps|, x);
    assert Holds(a, steps, j) && Holds(b, steps, j);
    SameByte(a, b, steps, j, x - Offset(steps, j));
  }

  /** The steps leave no choice: at most one program realizes them. */
  lemma ProgramUnique(a: seq<byte>, b: seq<byte>, steps: seq<Step>)
    requires Assembles(steps) && Realizes(a, steps) && Realizes(b, steps)
    ensures a == b
  {
    forall x | 0 <= x < |a| ensures a[x] == b[x] {
      SameAt(a, b, steps, x);
    }
  }

  /** A step's bytes end before those of a later one begin. */
  lemma {:induction false} Before(steps: seq<Step>, i: nat, j: nat)
    requires i < j <= |steps|
    ensures Offset(steps, i) + Extent(steps[i]) <= Offset(steps, j)
    decreases j
  {
    if i < j - 1 {
      Before(steps, i, j - 1);
    }
  }

  // What the assembler has after some of the steps.

  ghost predicate FromStep(f: Fixup, steps: seq<Step>, n: nat)
    requires n <= |steps|
  {
    exists j :: 0 <= j < n && steps[j].Reference? && f == FixupOf(steps, j)
  }

  ghost predicate Labelled(labels: map<string, nat>, steps: seq<Step>, n: nat)
    requires n <= |steps|
  {
    && (forall i :: 0 <= i < n ==> Entered(labels, steps, i))
    && (forall name :: name in labels ==> SetBefore(name, steps, n))
  }

  ghost predicate Entered(labels: map<string, nat>, steps: seq<Step>, i: nat)
    requires i < |steps|
  {
    steps[i].Here? ==> steps[i].name in labels && labels[steps[i].name] == ORIGIN + Offset(steps, i)
  }

  ghost predicate SetBefore(name: string, steps: seq<Step>, n: nat)
    requires n <= |steps|
  {
    exists i :: 0 <= i < n && steps[i] == Here(name)
  }

  ghost predicate Referred(fixups: seq<Fixup>, steps: seq<Step>, n: nat)
    requires n <= |steps|
  {
    && (forall j :: 0 <= j < n && steps[j].Reference? ==> FixupOf(steps, j) in fixups)
    && (forall f :: f in fixups ==> FromStep(f, steps, n))
  }

  ghost predicate Held(code: seq<byte>, steps: seq<Step>, n: nat)
    requires n <= |steps|
  {
    |code| == Offset(steps, n) && forall j :: 0 <= j < n ==> Holds(code, steps, j)
  }

  ghost predicate Taken(steps: seq<Step>, n: nat)
    requires n <= |steps|
  {
    forall j :: 0 <= j < n ==> Proper(steps[j]) && NewName(steps, j)
  }

  ghost predicate Built(code: seq<byte>, labels: map<string, nat>, fixups: seq<Fixup>, steps: seq<Step>, n: nat)
    requires n <= |steps|
  {
    Held(code, steps, n) && Labelled(labels, steps, n) && Referred(fixups, steps, n) && Taken(steps, n)
  }

  lemma HeldMore(code: seq<byte>, more: seq<byte>, steps: seq<Step>, n: nat)
    requires n < |steps| && Held(code, steps, n) && code <= more && |more| == |code| + Extent(steps[n])
    requires Holds(more, steps, n)
    ensures Held(more, steps, n + 1)
  {
    forall j | 0 <= j < n + 1 ensures Holds(more, steps, j) {
      assert j < n ==> Holds(code, steps, j);
    }
  }

  lemma StillEntered(labels: map<string, nat>, table: map<string, nat>, steps: seq<Step>, n: nat, i: nat)
    requires i < n < |steps| && Entered(labels, steps, i) && NewName(steps, n)
    requires table == if steps[n].Here? then labels[steps[n].name := ORIGIN + Offset(steps, n)] else labels
    ensures Entered(table, steps, i)
  {
    assert steps[n].Here? ==> steps[i] != steps[n];
  }

  lemma StillSet(name: string, steps: seq<Step>, n: nat)
    requires n < |steps| && (SetBefore(name, steps, n) || steps[n] == Here(name))
    ensures SetBefore(name, steps, n + 1)
  {
  }

  lemma LabelledMore(labels: map<string, nat>, table: map<string, nat>, steps: seq<Step>, n: nat)
    requires n < |steps| && Labelled(labels, steps, n) && NewName(steps, n)
    requires table == if steps[n].Here? then labels[steps[n].name := ORIGIN + Offset(steps, n)] else labels
    ensures Labelled(table, steps, n + 1)
  {
    forall i | 0 <= i < n + 1 ensures Entered(table, steps, i) {
      if i < n {
        StillEntered(labels, table, steps, n, i);
      }
    }
    forall name | name in table ensures SetBefore(name, steps, n + 1) {
      StillSet(name, steps, n);
    }
  }

  lemma ReferredMore(fixups: seq<Fixup>, all: seq<Fixup>, steps: seq<Step>, n: nat)
    requires n < |steps| && Referred(fixups, steps, n)
    requires all == if steps[n].Reference? then fixups + [FixupOf(steps, n)] else fixups
    ensures Referred(all, steps, n + 1)
  {
    forall f | f in all ensures FromStep(f, steps, n + 1) {
      if f in fixups {
        assert FromStep(f, steps, n);
      }
    }
  }

  /** A label is in the table exactly if some step before has set it. */
  lemma LabelKnown(labels: map<string, nat>, steps: seq<Step>, n: nat)
    requires n < |steps| && Labelled(labels, steps, n) && steps[n].Here?
    ensures steps[n].name in labels <==> !NewName(steps, n)
  {
    if steps[n].name in labels {
      assert SetBefore(steps[n].name, steps, n);
      var i :| 0 <= i < n && steps[i] == Here(steps[n].name);
      assert steps[i] == steps[n];
    } else {
      forall i | 0 <= i < n ensures steps[i] != steps[n] {
        assert Entered(labels, steps, i);
      }
    }
  }

  /** The next step, which fails only for a byte out of range or a label that is there already. */
  method TakeStep(a: Assembler, steps: seq<Step>, n: nat) returns (ok: bool)
    requires n < |steps| && a.Valid() && Built(a.code, a.labels, a.fixups, steps, n)
    modifies a
    ensures a.Valid()
    ensures ok <==> Proper(steps[n]) && NewName(steps, n)
    ensures ok ==> Built(a.code, a.labels, a.fixups, steps, n + 1)
  {
    ghost var code, labels, fixups := a.code, a.labels, a.fixups;
    if steps[n].Here? { LabelKnown(labels, steps, n); }
    ok := Carry(a, steps[n]);
    if ok { BuiltMore(code, a.code, labels, a.labels, fixups, a.fixups, steps, n); }
  }

  lemma HoldsNext(code: seq<byte>, steps: seq<Step>, n: nat)
    requires n < |steps| && |code| == Offset(steps, n) + Extent(steps[n])
    requires steps[n].Bytes? ==>
               forall k :: 0 <= k < |steps[n].values| ==> code[Offset(steps, n) + k] == steps[n].values[k]
    requires steps[n].Reference? ==> code[Offset(steps, n)] == steps[n].opcode
    ensures Holds(code, steps, n)
  {
  }

  lemma BuiltMore(code: seq<byte>, more: seq<byte>, labels: map<string, nat>, table: map<string, nat>,
                  fixups: seq<Fixup>, all: seq<Fixup>, steps: seq<Step>, n: nat)
    requires n < |steps| && Built(code, labels, fixups, steps, n) && Proper(steps[n]) && NewName(steps, n)
    requires code <= more && |more| == |code| + Extent(steps[n])
    requires steps[n].Bytes? ==> forall k :: 0 <= k < |steps[n].values| ==> more[|code| + k] == steps[n].values[k]
    requires steps[n].Reference? ==> more[|code|] == steps[n].opcode
    requires table == if steps[n].Here? then labels[steps[n].name := ORIGIN + |code|] else labels
    requires all == if steps[n].Reference? then fixups + [FixupOf(steps, n)] else fixups
    ensures Built(more, table, all, steps, n + 1)
  {
    HoldsNext(more, steps, n);
    HeldMore(code, more, steps, n);
    LabelledMore(labels, table, steps, n);
    ReferredMore(fixups, all, steps, n);
  }

  /** One step's call of the assembler. */
  method Carry(a: Assembler, s: Step) returns (ok: bool)
    requires a.Valid()
    modifies a
    ensures a.Valid() && (ok <==> Proper(s) && (s.Here? ==> s.name !in old(a.labels)))
    ensures ok ==> old(a.code) <= a.code && |a.code| == |old(a.code)| + Extent(s)
    ensures ok && s.Bytes? ==> forall k :: 0 <= k < |s.values| ==> a.code[|old(a.code)| + k] == s.values[k]
    ensures ok && s.Reference? ==> a.code[|old(a.code)|] == s.opcode
    ensures ok ==> a.labels == if s.Here? then old(a.labels)[s.name := ORIGIN + |old(a.code)|] else old(a.labels)
    ensures ok ==> a.fixups == if s.Reference? then old(a.fixups) + [Fixup(s.kind, |old(a.code)| + 1, s.target)]
                               else old(a.fixups)
  {
    match s {
      case Here(name) => ok := a.Label(name);
      case Bytes(values) => ok := a.Emit(values);
      case Reference(kind, opcode, target) => ok := a.Reference(kind, opcode, target);
    }
  }

  /** The operand of step m is no byte that step j writes itself. */
  lemma Elsewhere(steps: seq<Step>, m: nat, j: nat, k: nat)
    requires m < |steps| && j < |steps| && steps[m].Reference?
    requires if steps[j].Reference? then k == 0 else k < Extent(steps[j])
    ensures var f := FixupOf(steps, m); !(f.position <= Offset(steps, j) + k < f.position + Width(f))
  {
    if m < j {
      Before(steps, m, j);
    } else if j < m {
      Before(steps, j, m);
    }
  }

  /** References write nothing but their own operands. */
  lemma Unpatched(fixups: seq<Fixup>, steps: seq<Step>, j: nat, k: nat)
    requires j < |steps| && forall f :: f in fixups ==> FromStep(f, steps, |steps|)
    requires if steps[j].Reference? then k == 0 else k < Extent(steps[j])
    ensures !Patched(fixups, Offset(steps, j) + k)
  {
    var p := Offset(steps, j) + k;
    forall i | 0 <= i < |fixups| ensures !(fixups[i].position <= p < fixups[i].position + Width(fixups[i])) {
      assert FromStep(fixups[i], steps, |steps|);
      var m :| 0 <= m < |steps| && steps[m].Reference? && fixups[i] == FixupOf(steps, m);
      Elsewhere(steps, m, j, k);
    }
  }

  /** Patching the references leaves every step's own bytes alone. */
  lemma StillHolds(code: seq<byte>, after: seq<byte>, fixups: seq<Fixup>, steps: seq<Step>, j: nat)
    requires j < |steps| && forall f :: f in fixups ==> FromStep(f, steps, |steps|)
    requires |after| == |code| && forall p :: 0 <= p < |code| && !Patched(fixups, p) ==> after[p] == code[p]
    requires Holds(code, steps, j)
    ensures Holds(after, steps, j)
  {
    match steps[j]
    case Here(_) =>
    case Bytes(values) =>
      forall k | 0 <= k < |values| ensures after[Offset(steps, j) + k] == values[k] {
        Unpatched(fixups, steps, j, k);
      }
    case Reference(_, _, _) => Unpatched(fixups, steps, j, 0);
  }

  /** A label's entry in the assembler's table says what the label's own step says. */
  lemma SameLabel(labels: map<string, nat>, steps: seq<Step>, j: nat)
    requires Labelled(labels, steps, |steps|) && j < |steps| && steps[j].Reference?
    ensures Resolvable(FixupOf(steps, j), labels) <==> Resolves(steps, j)
    ensures forall program :: Leads(program, FixupOf(steps, j), labels) ==> LeadsTo(program, steps, j)
  {
    var f := FixupOf(steps, j);
    if f.name in labels {
      assert SetBefore(f.name, steps, |steps|);
      var i :| 0 <= i < |steps| && steps[i] == Here(f.name);
      assert Entered(labels, steps, i);
      assert Names(steps, i, j) && (Resolvable(f, labels) ==> InReach(steps, i, j));
      forall program | Leads(program, f, labels) ensures LeadsTo(program, steps, j) {
        assert Destination(program, steps[j].kind, Offset(steps, j)) == 0xC000 + Offset(steps, i);
      }
    }
    if Resolves(steps, j) {
      var i :| 0 <= i < |steps| && Names(steps, i, j) && InReach(steps, i, j);
      assert Entered(labels, steps, i);
    }
  }

  /** Exactly the lists of steps that assemble give a program, and the program realizes the steps. */
  method Assemble(steps: seq<Step>) returns (program: Option<seq<byte>>)
    ensures program.Some? <==> Assembles(steps)
    ensures program.Some? ==> Realizes(program.value, steps)
  {
    var a := new Assembler();
    for n := 0 to |steps|
      invariant a.Valid() && fresh(a) && Built(a.code, a.labels, a.fixups, steps, n)
    {
      var ok := TakeStep(a, steps, n);
      if !ok { return None; }
    }
    program := FinishSteps(a, steps);
  }

  method FinishSteps(a: Assembler, steps: seq<Step>) returns (program: Option<seq<byte>>)
    requires a.Valid() && Built(a.code, a.labels, a.fixups, steps, |steps|)
    modifies a
    ensures program.Some? <==> Assembles(steps)
    ensures program.Some? ==> Realizes(program.value, steps)
  {
    ghost var code := a.code;
    var ok := a.Finish();
    forall j | 0 <= j < |steps| ensures Holds(a.code, steps, j) {
      StillHolds(code, a.code, a.fixups, steps, j);
    }
    forall j | 0 <= j < |steps| && steps[j].Reference?
      ensures ok ==> Resolves(steps, j) && LeadsTo(a.code, steps, j)
    {
      SameLabel(a.labels, steps, j);
      var i :| 0 <= i < |a.fixups| && a.fixups[i] == FixupOf(steps, j);
    }
    if !ok {
      ghost var i :| 0 <= i < |a.fixups| && !Resolvable(a.fixups[i], a.labels);
      assert a.fixups[i] in a.fixups;
      ghost var j :| 0 <= j < |steps| && steps[j].Reference? && a.fixups[i] == FixupOf(steps, j);
      SameLabel(a.labels, steps, j);
      return None;
    }
    return Some(a.code);
  }
}
