/**
 * The encrypted partitions: the table of LUKS partitions and the names they
 * are opened under, its inversion from name to partition, the check that
 * every partition already is a LUKS volume (`setup_luks`), and the plan that
 * opens the volumes that are not open yet (`open_luks`).
 */
module Luks {
  import opened Wrappers
  import opened Text
  import opened Plan

  /** `LUKS_DEVICES`: partition and LUKS name, in the dictionary's order. */
  const LuksDevices: seq<(string, string)> := [("/dev/sda5", "system"), ("/dev/sdb3", "data")]

  /** `dict(pairs)`: a key maps to the value of its last pair. */
  function DictOf(pairs: seq<(string, string)>): map<string, string> {
    if pairs == [] then map[]
    else DictOf(pairs[..|pairs| - 1])[pairs[|pairs| - 1].0 := pairs[|pairs| - 1].1]
  }

  /** The keys of a dictionary built from pairs are the pairs' first components. */
  lemma {:induction false} DictOfKeys(pairs: seq<(string, string)>)
    ensures forall key :: key in DictOf(pairs) <==> exists k :: 0 <= k < |pairs| && pairs[k].0 == key
  {
    if pairs != [] {
      var init := pairs[..|pairs| - 1];
      DictOfKeys(init);
      assert forall k :: 0 <= k < |init| ==> init[k] == pairs[k];
    }
  }

  /** A pair whose key does not come again later gives that key its value. */
  lemma {:induction false} DictOfLastWins(pairs: seq<(string, string)>, k: nat)
    requires k < |pairs|
    requires forall j :: k < j < |pairs| ==> pairs[j].0 != pairs[k].0
    ensures pairs[k].0 in DictOf(pairs) && DictOf(pairs)[pairs[k].0] == pairs[k].1
  {
    if k < |pairs| - 1 {
      var init := pairs[..|pairs| - 1];
      assert init[k] == pairs[k];
      DictOfLastWins(init, k);
    }
  }

  /** Every pair turned around: `(value, key) for key, value in pairs`. */
  function Swapped(pairs: seq<(string, string)>): (r: seq<(string, string)>)
    ensures |r| == |pairs|
  {
    seq(|pairs|, k requires 0 <= k < |pairs| => (pairs[k].1, pairs[k].0))
  }

  /** `LUKS_NAME_MAP`: from LUKS name back to partition. */
  function LuksNameMap(): map<string, string> {
    DictOf(Swapped(LuksDevices))
  }

  /**
   * Inverting a table whose values are distinct undoes it: every value maps
   * back to its own key, and nothing else is a key of the inverse.
   */
  lemma InvertDistinct(pairs: seq<(string, string)>)
    requires forall i, j :: 0 <= i < j < |pairs| ==> pairs[i].1 != pairs[j].1
    ensures forall name :: name in DictOf(Swapped(pairs)) <==> exists k :: 0 <= k < |pairs| && pairs[k].1 == name
    ensures forall k :: 0 <= k < |pairs| ==> DictOf(Swapped(pairs))[pairs[k].1] == pairs[k].0
  {
    var swapped := Swapped(pairs);
    assert forall k :: 0 <= k < |pairs| ==> swapped[k] == (pairs[k].1, pairs[k].0);
    DictOfKeys(swapped);
    forall k | 0 <= k < |pairs|
      ensures pairs[k].1 in DictOf(swapped) && DictOf(swapped)[pairs[k].1] == pairs[k].0
    {
      DictOfLastWins(swapped, k);
    }
  }

  /** When two partitions share a name, the inverse keeps the later partition. */
  lemma InvertKeepsLater(pairs: seq<(string, string)>, k: nat)
    requires k < |pairs|
    requires forall j :: k < j < |pairs| ==> pairs[j].1 != pairs[k].1
    ensures pairs[k].1 in DictOf(Swapped(pairs)) && DictOf(Swapped(pairs))[pairs[k].1] == pairs[k].0
  {
    DictOfLastWins(Swapped(pairs), k);
  }

  /** The concrete inverse, and it undoes `LUKS_DEVICES` in both directions. */
  lemma LuksNameMapInverts()
    ensures LuksNameMap() == map["system" := "/dev/sda5", "data" := "/dev/sdb3"]
    ensures forall k :: 0 <= k < |LuksDevices| ==>
      && LuksNameMap()[LuksDevices[k].1] == LuksDevices[k].0
      && DictOf(LuksDevices)[LuksNameMap()[LuksDevices[k].1]] == LuksDevices[k].1
  {
    InvertDistinct(LuksDevices);
    assert DictOf(LuksDevices) == map["/dev/sda5" := "system", "/dev/sdb3" := "data"];
  }

  // ----- setup_luks -----

  /** The first partition, in table order, that the `cryptsetup isLuks` probe rejects. */
  function FirstNotLuks(devices: seq<(string, string)>, isLuks: string -> int): Option<string> {
    if devices == [] then None
    else if isLuks(devices[0].0) != 0 then Some(devices[0].0)
    else FirstNotLuks(devices[1..], isLuks)
  }

  /**
   * The check passes exactly when every partition is a LUKS volume; otherwise
   * it names the first partition that is not, all before it being LUKS volumes.
   */
  lemma {:induction false} FirstNotLuksCases(devices: seq<(string, string)>, isLuks: string -> int)
    ensures FirstNotLuks(devices, isLuks).None? <==> forall k :: 0 <= k < |devices| ==> isLuks(devices[k].0) == 0
    ensures FirstNotLuks(devices, isLuks).Some? ==>
      exists k :: 0 <= k < |devices| && devices[k].0 == FirstNotLuks(devices, isLuks).value
        && isLuks(devices[k].0) != 0 && forall j :: 0 <= j < k ==> isLuks(devices[j].0) == 0
  {
    if devices != [] && isLuks(devices[0].0) == 0 {
      var later := devices[1..];
      FirstNotLuksCases(later, isLuks);
      assert forall k :: 0 <= k < |later| ==> later[k] == devices[k + 1];
      if FirstNotLuks(later, isLuks).Some? {
        var k :| 0 <= k < |later| && later[k].0 == FirstNotLuks(later, isLuks).value
          && isLuks(later[k].0) != 0 && forall j :: 0 <= j < k ==> isLuks(later[j].0) == 0;
        assert devices[k + 1] == later[k];
        forall j | 0 <= j < k + 1
          ensures isLuks(devices[j].0) == 0
        {
          if j > 0 {
            assert devices[j] == later[j - 1];
          }
        }
      }
    }
  }

  /**
   * `setup_luks` without the verbose confirmation: walks the table and stops
   * at the first partition that is not a LUKS volume (the script raises an
   * error naming it there).
   */
  method SetupLuks(devices: seq<(string, string)>, isLuks: string -> int) returns (missing: Option<string>)
    ensures missing == FirstNotLuks(devices, isLuks)
  {
    var i := 0;
    while i < |devices|
      invariant 0 <= i <= |devices|
      invariant FirstNotLuks(devices, isLuks) == FirstNotLuks(devices[i..], isLuks)
    {
      var device := devices[i].0;
      if isLuks(device) != 0 {
        return Some(device);
      }
      assert devices[i..][1..] == devices[i + 1..];
      i := i + 1;
    }
    return None;
  }

  // ----- open_luks -----

  /** The `dmsetup info <name>` probe shows the mapping open: it succeeded and reports ACTIVE. */
  predicate IsActive(info: Probe) {
    info.returncode == 0 && Contains(info.stdout, "ACTIVE")
  }

  function LuksOpen(device: string, name: string): Command {
    ["sudo", "cryptsetup", "luksOpen", device, name]
  }

  /** What `open_luks` does for one partition, given the probe of its name. */
  function OpenStep(entry: (string, string), info: string -> Probe): seq<Command> {
    if IsActive(info(entry.1)) then [] else [LuksOpen(entry.0, entry.1)]
  }

  function OpenSteps(devices: seq<(string, string)>, info: string -> Probe): (steps: seq<seq<Command>>)
    ensures |steps| == |devices|
  {
    seq(|devices|, k requires 0 <= k < |devices| => OpenStep(devices[k], info))
  }

  /** The plan of `open_luks`. */
  function OpenLuksPlan(devices: seq<(string, string)>, info: string -> Probe): seq<Command> {
    Flatten(OpenSteps(devices, info))
  }

  /** `open_luks`: probe each name and open the partition unless its mapping is active. */
  method OpenLuks(devices: seq<(string, string)>, info: string -> Probe) returns (cmds: seq<Command>)
    ensures cmds == OpenLuksPlan(devices, info)
  {
    ghost var steps := OpenSteps(devices, info);
    cmds := [];
    for i := 0 to |devices|
      invariant cmds == Flatten(steps[..i])
    {
      var device := devices[i].0;
      var name := devices[i].1;
      var p := info(name);
      if p.returncode != 0 || !Contains(p.stdout, "ACTIVE") {
        cmds := cmds + [LuksOpen(device, name)];
      }
      assert steps[..i + 1] == steps[..i] + [steps[i]];
      FlattenSnoc(steps[..i], steps[i]);
    }
    assert steps[..|devices|] == steps;
  }

  /**
   * A `luksOpen` is planned exactly for the partitions whose mapping is not
   * active, and the plan is empty (a re-run changes nothing) exactly when all
   * mappings are active.
   */
  lemma OpenLuksPlanCases(devices: seq<(string, string)>, info: string -> Probe)
    ensures forall c :: c in OpenLuksPlan(devices, info) <==>
      exists k :: 0 <= k < |devices| && !IsActive(info(devices[k].1)) && c == LuksOpen(devices[k].0, devices[k].1)
    ensures OpenLuksPlan(devices, info) == [] <==> forall k :: 0 <= k < |devices| ==> IsActive(info(devices[k].1))
  {
    var steps := OpenSteps(devices, info);
    forall c
      ensures c in OpenLuksPlan(devices, info) <==>
        exists k :: 0 <= k < |devices| && !IsActive(info(devices[k].1)) && c == LuksOpen(devices[k].0, devices[k].1)
    {
      FlattenMember(steps, c);
      if c in OpenLuksPlan(devices, info) {
        var k :| 0 <= k < |steps| && c in steps[k];
        assert steps[k] == OpenStep(devices[k], info);
      }
      if exists k :: 0 <= k < |devices| && !IsActive(info(devices[k].1)) && c == LuksOpen(devices[k].0, devices[k].1) {
        var k :| 0 <= k < |devices| && !IsActive(info(devices[k].1)) && c == LuksOpen(devices[k].0, devices[k].1);
        assert c in steps[k];
      }
    }
    FlattenEmpty(steps);
    assert forall k :: 0 <= k < |devices| ==> (steps[k] == [] <==> IsActive(info(devices[k].1)));
  }

  /**
   * On a machine where no mapping is active (its probe fails, or succeeds
   * without reporting ACTIVE), both partitions are opened, in table order.
   */
  lemma OpenLuksFresh(info: string -> Probe)
    requires forall name :: !IsActive(info(name))
    ensures OpenLuksPlan(LuksDevices, info) ==
      [["sudo", "cryptsetup", "luksOpen", "/dev/sda5", "system"],
       ["sudo", "cryptsetup", "luksOpen", "/dev/sdb3", "data"]]
  {
    var steps := OpenSteps(LuksDevices, info);
    assert !IsActive(info("system")) && !IsActive(info("data"));
    assert steps[0] == [LuksOpen("/dev/sda5", "system")];
    assert steps[1] == [LuksOpen("/dev/sdb3", "data")];
    assert steps == [steps[0]] + [steps[1]];
    FlattenSnoc([steps[0]], steps[1]);
    FlattenSnoc([], steps[0]);
  }
}
