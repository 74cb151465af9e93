/** Brightness, dimming and switching the screen off: the user's level is never lost. */
module Backlight {
  import opened Common

  const RANGE_LIMIT := 65535

  /** The level is the whole number nearest to the percentage, a half rounded up. */
  ghost predicate Nearest(level: nat, maximum: nat, percent: nat) {
    100 * level - 50 <= maximum * percent < 100 * level + 50
  }

  /** The level for a percentage: the nearest, but at least 1, so that the screen stays readable. */
  function Level(maximum: nat, percent: nat): (level: nat)
    requires maximum > 0 && percent <= 100
    ensures 1 <= level <= maximum && (percent == 100 ==> level == maximum)
    ensures if maximum * percent >= 50 then Nearest(level, maximum, percent) else level == 1
  {
    var scaled := maximum * percent;
    Scaled(maximum, percent);
    var rounded := (2 * scaled + 100) / 200;
    if rounded < 1 then 1 else rounded
  }

  lemma Scaled(maximum: nat, percent: nat)
    requires percent <= 100
    ensures 0 <= maximum * percent <= 100 * maximum && (percent == 100 ==> maximum * percent == 100 * maximum)
  {
  }

  /** There is only one such level. */
  lemma LevelUnique(level: nat, other: nat, maximum: nat, percent: nat)
    requires Nearest(level, maximum, percent) && Nearest(other, maximum, percent)
    ensures level == other
  {
    var scaled := maximum * percent;
    assert 100 * level - 50 <= scaled < 100 * level + 50 && 100 * other - 50 <= scaled < 100 * other + 50;
  }

  class Device {
    var controls: bool
    var node: nat
    var beforeDim: Option<nat>
    var beforeOff: Option<nat>
    /** Reads and writes that failed. */
    var faults: nat
    /** The level the user chose last. */
    ghost var user: nat

    /**
     While controls are enabled, at most one level is saved; a saved level is the user's; and with none saved the
     screen has the user's level.
     */
    ghost predicate Valid()
      reads this
    {
      controls ==>
        && !(beforeDim.Some? && beforeOff.Some?)
        && (beforeDim.Some? ==> beforeDim == Some(user))
        && (beforeOff.Some? ==> beforeOff == Some(user))
        && (beforeDim.None? && beforeOff.None? ==> node == user)
    }

    constructor (controls: bool, node: nat)
      ensures Valid() && user == node
    {
      this.controls, this.node, beforeDim, beforeOff, faults, user := controls, node, None, None, 0, node;
    }

    /** Writes the backlight and reads it back; a failure may leave the old or the new value. */
    method WriteValue(value: nat) returns (ok: bool)
      modifies this`node, this`faults
      ensures node in {old(node), value} && (ok ==> node == value)
      ensures faults == if ok then old(faults) else old(faults) + 1
    {
      var taken: bool := *;
      ok := *;
      if taken { node := value; } else { ok := ok && value == node; }
      if !ok { faults := faults + 1; }
    }

    /** What the node says, if it can be read. */
    method Read() returns (level: Option<nat>)
      modifies this`faults
      ensures level.Some? ==> level == Some(node)
      ensures faults == if level.Some? then old(faults) else old(faults) + 1
    {
      var unreadable: bool := *;
      if unreadable {
        faults := faults + 1;
        return None;
      }
      return Some(node);
    }

    /** Sets the user's level, and with it ends dimming. */
    method SetBrightness(percent: nat, maximum: nat) returns (ok: bool)
      requires Valid()
      modifies this
      ensures Valid() && old(faults) <= faults
      ensures ok <==> && old(controls && beforeOff.None?) && 10 <= percent <= 100
                      && 0 < maximum <= 65535 && old(node) <= maximum
                      && faults == old(faults)
      ensures ok ==> && controls && 1 <= node <= maximum && node == user && beforeDim.None? && beforeOff.None?
                     && if maximum * percent >= 50 then Nearest(node, maximum, percent) else node == 1
      ensures !ok ==> user == old(user) && beforeDim == old(beforeDim) && beforeOff == old(beforeOff)
      ensures !ok && controls ==> node == old(node)
      ensures controls <==> old(controls) && faults <= old(faults) + 1
    {
      if !controls || beforeOff.Some? || percent < 10 || percent > 100 { return false; }
      var before := Read();
      if maximum == 0 || maximum > RANGE_LIMIT || before.None? || before.value > maximum { return false; }
      ok := WriteValue(Level(maximum, percent));
      if !ok {
        var restored := WriteValue(before.value);
        if !restored { controls := false; }
        return false;
      }
      beforeDim, user := None, Level(maximum, percent);
    }

    /** A quarter of the level, rounded down, but never dark. */
    ghost predicate Quarter(dim: nat, level: nat) {
      if level < 4 then dim == 1 else 4 * dim <= level < 4 * dim + 4
    }

    method SetDimmed(dimmed: bool) returns (ok: bool)
      requires Valid()
      modifies this`controls, this`node, this`beforeDim, this`faults
      ensures Valid() && beforeOff == old(beforeOff) && old(faults) <= faults && (controls ==> old(controls))
      ensures ok <==> && old(controls && beforeOff.None?) && faults == old(faults)
                      && (dimmed && old(beforeDim).None? ==> old(node) >= 1)
      ensures ok && dimmed ==>
                beforeDim == Some(user) && if old(beforeDim).Some? then node == old(node) else Quarter(node, user)
      ensures ok && !dimmed ==> beforeDim.None? && node == user
      ensures !ok && controls ==> beforeDim == old(beforeDim) && (dimmed ==> node == old(node))
      ensures controls <==> old(controls) && faults <= old(faults) + 1
    {
      if !controls || beforeOff.Some? { return false; }
      if dimmed && beforeDim.None? {
        var before := Read();
        if before.None? || before.value < 1 { return false; }
        beforeDim := before;
        ok := WriteValue(if before.value / 4 < 1 then 1 else before.value / 4);
        if !ok {
          var restored := WriteValue(before.value);
          if restored { beforeDim := None; } else { controls := false; }
          return false;
        }
      } else if !dimmed && beforeDim.Some? {
        ok := WriteValue(beforeDim.value);
        if !ok { return false; }
        beforeDim := None;
      }
      return true;
    }

    method SetScreenOff(off: bool, maximum: nat) returns (ok: bool)
      requires Valid()
      modifies this`controls, this`node, this`beforeDim, this`beforeOff, this`faults
      ensures Valid() && old(faults) <= faults && (controls ==> old(controls))
      ensures ok <==> && old(controls) && faults == old(faults)
                      && (off && old(beforeOff).None? ==> 1 <= old(node) <= maximum)
      ensures ok && off ==> beforeOff == Some(user) && beforeDim.None? && (old(beforeOff).None? ==> node == 0)
      ensures ok && !off ==> beforeOff.None? && (old(beforeOff).Some? ==> node == user && beforeDim.None?)
      ensures !ok && controls ==> beforeOff == old(beforeOff) && beforeDim == old(beforeDim)
                                  && (off ==> node == old(node))
      ensures controls <==> old(controls) && faults <= old(faults) + 1
    {
      if !controls { return false; }
      if off && beforeOff.None? {
        var current := Read();
        if current.None? || current.value < 1 || maximum < 1 || current.value > maximum { return false; }
        var restore := if beforeDim.Some? then beforeDim.value else current.value;
        ok := WriteValue(0);
        if !ok {
          var restored := WriteValue(current.value);
          if !restored { controls := false; }
          return false;
        }
        beforeOff, beforeDim := Some(restore), None;
      } else if !off && beforeOff.Some? {
        ok := WriteValue(beforeOff.value);
        if !ok { return false; }
        beforeOff := None;
      }
      return true;
    }

    /** The end of the session: with controls enabled and writes that succeed, the user's level is back. */
    method Close()
      requires Valid()
      modifies this`controls, this`node, this`beforeDim, this`beforeOff, this`faults
      ensures Valid() && old(faults) <= faults && (controls ==> old(controls))
      ensures old(controls) && faults == old(faults) ==> controls && node == user
    {
      if beforeOff.Some? { var _ := SetScreenOff(false, 0); }
      if beforeDim.Some? { var _ := SetDimmed(false); }
    }
  }

  datatype Step = Brightness(percent: nat, maximum: nat) | Dim(dimmed: bool) | Screen(off: bool, limit: nat)

  /**
   After any sequence of changes and failures that leaves controls enabled, a close whose writes succeed brings back the
   level that the user chose last, even if the screen was dimmed before it went off. `faults` counts those before
   the close.
   */
  method Run(d: Device, steps: seq<Step>) returns (ghost faults: nat)
    requires d.Valid()
    modifies d
    ensures d.Valid() && faults <= d.faults && (d.controls && d.faults == faults ==> d.node == d.user)
  {
    for i := 0 to |steps|
      invariant d.Valid()
    {
      match steps[i]
      case Brightness(percent, maximum) => var _ := d.SetBrightness(percent, maximum);
      case Dim(dimmed) => var _ := d.SetDimmed(dimmed);
      case Screen(off, limit) => var _ := d.SetScreenOff(off, limit);
    }
    faults := d.faults;
    d.Close();
  }
}
