/** Changing the CPU's frequency limits node by node, with readback and rollback. */
module CpuControl {
  datatype Scene = Desktop | Game | Off

  /** The highest frequency a scene may use, in kHz. */
  ghost function Cap(scene: Scene): nat {
    match scene
    case Desktop => 816000
    case Game => 1008000
    case Off => 600000
  }

  datatype Governor = Schedutil | Other(name: string)

  datatype Profile = Profile(governor: Governor, minimum: nat, maximum: nat)

  datatype Request = ForScene(scene: Scene) | Manual(profile: Profile)

  /** What the device offers, and the profile recorded when the lease began. */
  datatype Device = Device(frequencies: set<nat>, governors: set<Governor>, lowest: nat, highest: nat,
                           original: Profile)

  /** The profile that a request asks for. */
  ghost function Wanted(r: Request, d: Device): Profile {
    match r
    case Manual(profile) => profile
    case ForScene(scene) =>
      Profile(Schedutil, d.original.minimum, if d.original.maximum < Cap(scene) then d.original.maximum else Cap(scene))
  }

  ghost predicate Supported(r: Request, d: Device, current: Profile) {
    && (match r
        case Manual(p) => p.governor in d.governors && d.lowest <= p.minimum && p.maximum <= d.highest
        case ForScene(_) => d.original.governor == Schedutil && current.governor == Schedutil)
    && Wanted(r, d).minimum in d.frequencies && Wanted(r, d).maximum in d.frequencies
    && Wanted(r, d).minimum <= Wanted(r, d).maximum
  }

  datatype Node = Minimum | Maximum

  datatype Result = Applied | Refused | WriteFailed | RollbackFailed

  class Cpu {
    var governor: Governor
    var minimum: nat
    var maximum: nat
    /** Reads and writes that failed. */
    var faults: nat
    /** The limits after each write to a node. */
    ghost var trail: seq<(nat, nat)>

    ghost function Now(): Profile
      reads this
    {
      Profile(governor, minimum, maximum)
    }

    /** The lower limit has never been above the upper one. */
    ghost predicate Ordered()
      reads this
    {
      minimum <= maximum && forall i :: 0 <= i < |trail| ==> trail[i].0 <= trail[i].1
    }

    constructor (governor: Governor, minimum: nat, maximum: nat)
      requires minimum <= maximum
      ensures Ordered() && Now() == Profile(governor, minimum, maximum)
    {
      this.governor, this.minimum, this.maximum, faults, trail := governor, minimum, maximum, 0, [];
    }

    /**
     Writes a limit and reads it back. Success means that the node has the value; a failure may leave the old or
     the new one.
     */
    method Write(node: Node, value: nat) returns (ok: bool)
      modifies this`minimum, this`maximum, this`trail, this`faults
      ensures faults == if ok then old(faults) else old(faults) + 1
      ensures node.Minimum? ==> maximum == old(maximum) && minimum in {old(minimum), value} && (ok ==> minimum == value)
      ensures node.Maximum? ==> minimum == old(minimum) && maximum in {old(maximum), value} && (ok ==> maximum == value)
      ensures trail == old(trail) + [(minimum, maximum)]
    {
      var taken: bool := *;
      ok := *;
      if taken {
        match node
        case Minimum => minimum := value;
        case Maximum => maximum := value;
      } else {
        ok := ok && value == (if node.Minimum? then minimum else maximum);
      }
      if !ok { faults := faults + 1; }
      trail := trail + [(minimum, maximum)];
    }

    method WriteGovernor(value: Governor) returns (ok: bool)
      modifies this`governor, this`trail, this`faults
      ensures faults == if ok then old(faults) else old(faults) + 1
      ensures governor in {old(governor), value} && (ok ==> governor == value)
      ensures trail == old(trail) + [(minimum, maximum)]
    {
      var taken: bool := *;
      ok := *;
      if taken { governor := value; } else { ok := ok && value == governor; }
      if !ok { faults := faults + 1; }
      trail := trail + [(minimum, maximum)];
    }

    /** Widens before it narrows, so that the limits stay in order at every write, whichever write fails. */
    method WriteProfile(p: Profile) returns (ok: bool)
      requires Ordered() && p.minimum <= p.maximum
      modifies this
      ensures Ordered() && old(trail) <= trail && (ok ==> Now() == p)
      ensures faults == if ok then old(faults) else old(faults) + 1
      ensures governor in {old(governor), p.governor}
      ensures minimum in {old(minimum), p.minimum} && maximum in {old(maximum), p.maximum}
    {
      var unreadable: bool := *;
      if unreadable {
        faults := faults + 1;
        return false;
      }
      if p.maximum < minimum {
        ok := Write(Minimum, p.minimum);
        if ok { ok := Write(Maximum, p.maximum); }
      } else {
        ok := Write(Maximum, p.maximum);
        if ok { ok := Write(Minimum, p.minimum); }
      }
      if ok { ok := WriteGovernor(p.governor); }
    }

    /**
     One request. The nodes end as asked for, as they were, or, if even the rollback failed, somewhere between; the
     limits are in order throughout. `healthy` is what supply and temperature allow, `readable` whether the nodes and
     the lease could be read.
     */
    method Apply(r: Request, d: Device, healthy: bool, readable: bool) returns (result: Result)
      requires Ordered()
      modifies this
      ensures Ordered() && old(trail) <= trail
      ensures result == Refused <==> !(healthy && readable && Supported(r, d, old(Now())))
      ensures result == Refused ==> Now() == old(Now()) && trail == old(trail)
      ensures result == Applied ==> Now() == Wanted(r, d) && minimum in d.frequencies && maximum in d.frequencies
                                    && (r.ForScene? ==> maximum <= Cap(r.scene) && maximum <= d.original.maximum)
      ensures result == Applied <==> healthy && readable && Supported(r, d, old(Now())) && faults == old(faults)
      ensures result == WriteFailed ==> Now() == old(Now()) && faults == old(faults) + 1
      ensures result == RollbackFailed ==> faults == old(faults) + 2
      ensures governor in {old(governor), Wanted(r, d).governor}
              && minimum in {old(minimum), Wanted(r, d).minimum} && maximum in {old(maximum), Wanted(r, d).maximum}
    {
      var previous := Profile(governor, minimum, maximum);
      if !healthy || !readable { return Refused; }
      var target;
      match r {
        case Manual(p) =>
          if p.governor !in d.governors || p.minimum < d.lowest || p.maximum > d.highest { return Refused; }
          target := p;
        case ForScene(scene) =>
          if d.original.governor != Schedutil || governor != Schedutil { return Refused; }
          var cap := if scene.Desktop? then 816000 else if scene.Game? then 1008000 else 600000;
          var most := if cap < d.original.maximum then cap else d.original.maximum;
          target := Profile(Schedutil, d.original.minimum, most);
      }
      if target.minimum !in d.frequencies || target.maximum !in d.frequencies || target.minimum > target.maximum {
        return Refused;
      }
      var ok := WriteProfile(target);
      if ok { return Applied; }
      ok := WriteProfile(previous);
      return if ok then WriteFailed else RollbackFailed;
    }
  }

  /** Whatever is asked for and whatever fails, the limits are in order after every single write of the whole run. */
  method Run(cpu: Cpu, requests: seq<Request>, d: Device) returns (last: Result)
    requires cpu.Ordered()
    modifies cpu
    ensures cpu.Ordered() && old(cpu.trail) <= cpu.trail
  {
    last := Refused;
    for i := 0 to |requests|
      invariant cpu.Ordered() && old(cpu.trail) <= cpu.trail
    {
      var healthy: bool, readable: bool := *, *;
      last := cpu.Apply(requests[i], d, healthy, readable);
    }
  }
}
