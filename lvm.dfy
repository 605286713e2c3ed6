/**
 * The LVM layer on top of the opened LUKS volumes: the physical volume on
 * each mapping (`check_physical_volumes`), the volume groups and their
 * physical volumes (`check_volume_groups`), and the logical volumes with their
 * file systems (`check_logical_volumes`). Each step probes first and plans a
 * change only where the probe says it is missing.
 */
module Lvm {
  import opened Wrappers
  import opened Text
  import opened Plan
  import opened Luks

  /** `VOLUME_GROUPS`: volume group and its physical volumes, in the dictionary's order. */
  const VolumeGroups: seq<(string, seq<string>)> := [
    ("system", ["/dev/mapper/system"]),
    ("data", ["/dev/mapper/data"])
  ]

  /** One entry of `LOGICAL_VOLUMES`: name, `lvcreate` size arguments, file-system type and formatting command. */
  datatype LogicalVolume = LogicalVolume(name: string, size: seq<string>, fsType: string, filesystemCommand: seq<string>)

  /** `LOGICAL_VOLUMES`: volume group and its logical volumes, in the dictionaries' order. */
  const LogicalVolumes: seq<(string, seq<LogicalVolume>)> := [
    ("system", [
      LogicalVolume("boot", ["--size", "1024M"], "ext3", ["mkfs.ext3", "-L", "boot"]),
      LogicalVolume("swap", ["--size", "24576M"], "swap", ["mkswap", "--label=swap"]),
      LogicalVolume("root", ["--extents=100%FREE"], "ext4", ["mkfs.ext4", "-L", "root"])
    ]),
    ("data", [
      LogicalVolume("home", ["--extents=100%FREE"], "ext4", ["mkfs.ext4", "-L", "home"])
    ])
  ]

  /** The device node of an opened LUKS mapping. */
  function MapperDevice(name: string): string {
    "/dev/mapper/" + name
  }

  /** The physical volumes of the volume groups are the opened LUKS mappings, group by group and name by name. */
  lemma TablesAgree()
    ensures |VolumeGroups| == |LuksDevices| == |LogicalVolumes|
    ensures forall k :: 0 <= k < |VolumeGroups| ==>
      && VolumeGroups[k].0 == LuksDevices[k].1 == LogicalVolumes[k].0
      && VolumeGroups[k].1 == [MapperDevice(LuksDevices[k].1)]
  {
    assert MapperDevice("system") == "/dev/mapper/system";
    assert MapperDevice("data") == "/dev/mapper/data";
  }

  // ----- check_physical_volumes -----

  function PvCreate(name: string): Command {
    ["sudo", "pvcreate", MapperDevice(name)]
  }

  /** What `check_physical_volumes` does for one LUKS name, given the `pvs` probe. */
  function PvStep(name: string, pvs: string -> int): seq<Command> {
    if pvs(MapperDevice(name)) == 0 then [] else [PvCreate(name)]
  }

  function PvSteps(devices: seq<(string, string)>, pvs: string -> int): (steps: seq<seq<Command>>)
    ensures |steps| == |devices|
  {
    seq(|devices|, k requires 0 <= k < |devices| => PvStep(devices[k].1, pvs))
  }

  /** The plan of `check_physical_volumes`. */
  function PhysicalVolumesPlan(devices: seq<(string, string)>, pvs: string -> int): seq<Command> {
    Flatten(PvSteps(devices, pvs))
  }

  /** `check_physical_volumes`: a physical volume on every mapping that has none. */
  method CheckPhysicalVolumes(devices: seq<(string, string)>, pvs: string -> int) returns (cmds: seq<Command>)
    ensures cmds == PhysicalVolumesPlan(devices, pvs)
  {
    ghost var steps := PvSteps(devices, pvs);
    cmds := [];
    for i := 0 to |devices|
      invariant cmds == Flatten(steps[..i])
    {
      var device := "/dev/mapper/" + devices[i].1;
      if pvs(device) != 0 {
        cmds := cmds + [["sudo", "pvcreate", device]];
      }
      assert steps[..i + 1] == steps[..i] + [steps[i]];
      FlattenSnoc(steps[..i], steps[i]);
    }
    assert steps[..|devices|] == steps;
  }

  /** A `pvcreate` is planned exactly for the mappings the probe does not know, and nothing when it knows them all. */
  lemma PhysicalVolumesPlanCases(devices: seq<(string, string)>, pvs: string -> int)
    ensures forall c :: c in PhysicalVolumesPlan(devices, pvs) <==>
      exists k :: 0 <= k < |devices| && pvs(MapperDevice(devices[k].1)) != 0 && c == PvCreate(devices[k].1)
    ensures PhysicalVolumesPlan(devices, pvs) == [] <==>
      forall k :: 0 <= k < |devices| ==> pvs(MapperDevice(devices[k].1)) == 0
  {
    var steps := PvSteps(devices, pvs);
    forall c
      ensures c in PhysicalVolumesPlan(devices, pvs) <==>
        exists k :: 0 <= k < |devices| && pvs(MapperDevice(devices[k].1)) != 0 && c == PvCreate(devices[k].1)
    {
      FlattenMember(steps, c);
      if c in PhysicalVolumesPlan(devices, pvs) {
        var k :| 0 <= k < |steps| && c in steps[k];
        assert steps[k] == PvStep(devices[k].1, pvs);
      }
      if exists k :: 0 <= k < |devices| && pvs(MapperDevice(devices[k].1)) != 0 && c == PvCreate(devices[k].1) {
        var k :| 0 <= k < |devices| && pvs(MapperDevice(devices[k].1)) != 0 && c == PvCreate(devices[k].1);
        assert c in steps[k];
      }
    }
    FlattenEmpty(steps);
    assert forall k :: 0 <= k < |devices| ==> (steps[k] == [] <==> pvs(MapperDevice(devices[k].1)) == 0);
  }

  // ----- check_volume_groups -----

  /** The command for the physical volume at `index` of a group: the first creates the group, later ones extend it. */
  function VgCommand(name: string, index: nat, pv: string): Command {
    if index == 0 then ["sudo", "vgcreate", name, pv] else ["sudo", "vgextend", name, pv]
  }

  /** What `check_volume_groups` does for one group, given the `vgs` probe. */
  function VgStep(name: string, pvs: seq<string>, vgs: string -> int): (step: seq<Command>)
    ensures |step| == if vgs(name) == 0 then 0 else |pvs|
  {
    if vgs(name) == 0 then [] else seq(|pvs|, i requires 0 <= i < |pvs| => VgCommand(name, i, pvs[i]))
  }

  function VgSteps(groups: seq<(string, seq<string>)>, vgs: string -> int): (steps: seq<seq<Command>>)
    ensures |steps| == |groups|
  {
    seq(|groups|, k requires 0 <= k < |groups| => VgStep(groups[k].0, groups[k].1, vgs))
  }

  /** The plan of `check_volume_groups`. */
  function VolumeGroupsPlan(groups: seq<(string, seq<string>)>, vgs: string -> int): seq<Command> {
    Flatten(VgSteps(groups, vgs))
  }

  /** One pass of the outer loop of `check_volume_groups`: probe the group, and if it is unknown create it on its first physical volume and extend it by the rest. */
  method CheckVolumeGroup(name: string, physicalVolumes: seq<string>, vgs: string -> int) returns (cmds: seq<Command>)
    ensures cmds == VgStep(name, physicalVolumes, vgs)
  {
    ghost var step := VgStep(name, physicalVolumes, vgs);
    cmds := [];
    if vgs(name) != 0 {
      for index := 0 to |physicalVolumes|
        invariant cmds == step[..index]
      {
        var pv := physicalVolumes[index];
        if index == 0 {
          cmds := cmds + [["sudo", "vgcreate", name, pv]];
        } else {
          cmds := cmds + [["sudo", "vgextend", name, pv]];
        }
        assert step[..index + 1] == step[..index] + [step[index]];
      }
      assert step[..|step|] == step;
    }
  }

  /** `check_volume_groups`: one pass per group, in table order. */
  method CheckVolumeGroups(groups: seq<(string, seq<string>)>, vgs: string -> int) returns (cmds: seq<Command>)
    ensures cmds == VolumeGroupsPlan(groups, vgs)
  {
    ghost var steps := VgSteps(groups, vgs);
    cmds := [];
    for k := 0 to |groups|
      invariant cmds == Flatten(steps[..k])
    {
      var step := CheckVolumeGroup(groups[k].0, groups[k].1, vgs);
      cmds := cmds + step;
      assert steps[..k + 1] == steps[..k] + [steps[k]];
      FlattenSnoc(steps[..k], steps[k]);
    }
    assert steps[..|groups|] == steps;
  }

  /**
   * For a group the probe does not know, one command per physical volume in
   * list order: only the first is `vgcreate`, every later one `vgextend`,
   * each naming the group and its volume. A known group gets no command.
   */
  lemma VgStepCases(name: string, pvs: seq<string>, vgs: string -> int)
    ensures vgs(name) == 0 ==> VgStep(name, pvs, vgs) == []
    ensures vgs(name) != 0 ==> var step := VgStep(name, pvs, vgs);
      && |step| == |pvs|
      && forall i :: 0 <= i < |step| ==>
        && |step[i]| == 4 && step[i][0] == "sudo" && step[i][2] == name && step[i][3] == pvs[i]
        && (step[i][1] == "vgcreate" <==> i == 0)
        && (step[i][1] == "vgextend" <==> i > 0)
  {
  }

  /**
   * A group command is planned exactly for the physical volumes of the groups
   * the probe does not know; nothing is planned exactly when every group is
   * known or has no physical volume.
   */
  lemma VolumeGroupsPlanCases(groups: seq<(string, seq<string>)>, vgs: string -> int)
    ensures forall c :: c in VolumeGroupsPlan(groups, vgs) <==>
      exists k, i :: 0 <= k < |groups| && 0 <= i < |groups[k].1| && vgs(groups[k].0) != 0
        && c == VgCommand(groups[k].0, i, groups[k].1[i])
    ensures VolumeGroupsPlan(groups, vgs) == [] <==>
      forall k :: 0 <= k < |groups| ==> vgs(groups[k].0) == 0 || groups[k].1 == []
  {
    var steps := VgSteps(groups, vgs);
    forall c
      ensures c in VolumeGroupsPlan(groups, vgs) <==>
        exists k, i :: 0 <= k < |groups| && 0 <= i < |groups[k].1| && vgs(groups[k].0) != 0
          && c == VgCommand(groups[k].0, i, groups[k].1[i])
    {
      FlattenMember(steps, c);
      if c in VolumeGroupsPlan(groups, vgs) {
        var k :| 0 <= k < |steps| && c in steps[k];
        var step := VgStep(groups[k].0, groups[k].1, vgs);
        assert steps[k] == step;
        var i :| 0 <= i < |step| && step[i] == c;
        assert c == VgCommand(groups[k].0, i, groups[k].1[i]);
      }
      if exists k, i :: 0 <= k < |groups| && 0 <= i < |groups[k].1| && vgs(groups[k].0) != 0
          && c == VgCommand(groups[k].0, i, groups[k].1[i]) {
        var k, i :| 0 <= k < |groups| && 0 <= i < |groups[k].1| && vgs(groups[k].0) != 0
          && c == VgCommand(groups[k].0, i, groups[k].1[i]);
        assert steps[k][i] == c;
      }
    }
    FlattenEmpty(steps);
    assert forall k :: 0 <= k < |groups| ==> (steps[k] == [] <==> vgs(groups[k].0) == 0 || groups[k].1 == []);
  }

  /** On a machine with no volume group yet, each group is created on its one physical volume. */
  lemma VolumeGroupsFresh(vgs: string -> int)
    requires forall name :: vgs(name) != 0
    ensures VolumeGroupsPlan(VolumeGroups, vgs) ==
      [["sudo", "vgcreate", "system", "/dev/mapper/system"],
       ["sudo", "vgcreate", "data", "/dev/mapper/data"]]
  {
    var steps := VgSteps(VolumeGroups, vgs);
    assert steps[0] == [["sudo", "vgcreate", "system", "/dev/mapper/system"]];
    assert steps[1] == [["sudo", "vgcreate", "data", "/dev/mapper/data"]];
    assert steps == [steps[0]] + [steps[1]];
    FlattenSnoc([steps[0]], steps[1]);
    FlattenSnoc([], steps[0]);
  }

  // ----- check_logical_volumes -----

  /** The device-mapper path of a logical volume. */
  function MapperPath(group: string, volume: string): string {
    "/dev/mapper/" + group + "-" + volume
  }

  /**
   * With hyphen-free group names the path names one volume: different
   * (group, volume) pairs never share a path.
   */
  lemma {:induction false} MapperPathInjective(g1: string, v1: string, g2: string, v2: string)
    requires '-' !in g1 && '-' !in g2
    requires MapperPath(g1, v1) == MapperPath(g2, v2)
    ensures g1 == g2 && v1 == v2
  {
    var prefix := "/dev/mapper/";
    var s := MapperPath(g1, v1);
    assert s == prefix + (g1 + "-" + v1) && s == prefix + (g2 + "-" + v2);
    var t1 := g1 + "-" + v1;
    var t2 := g2 + "-" + v2;
    assert t1 == s[|prefix|..] == t2;
    HyphenSplit(g1, v1, g2, v2);
  }

  /** The first hyphen of `g + "-" + v`, for a hyphen-free `g`, ends `g`; so the split is unique. */
  lemma HyphenSplit(g1: string, v1: string, g2: string, v2: string)
    requires '-' !in g1 && '-' !in g2
    requires g1 + "-" + v1 == g2 + "-" + v2
    ensures g1 == g2 && v1 == v2
  {
    var t := g1 + "-" + v1;
    assert forall i :: 0 <= i < |g1| ==> t[i] == g1[i];
    assert forall i :: 0 <= i < |g2| ==> t[i] == g2[i];
    assert t[|g1|] == '-' && t[|g2|] == '-';
    assert |g1| == |g2|;
    assert g1 == t[..|g1|] && g2 == t[..|g2|];
    assert v1 == t[|g1| + 1..] && v2 == t[|g2| + 1..];
  }

  /** `sudo lvcreate <size...> --name=<volume> <group>`. */
  function LvCreate(group: string, v: LogicalVolume): Command {
    ["sudo", "lvcreate"] + v.size + ["--name=" + v.name, group]
  }

  /** `sudo <filesystem command...> <path>`. */
  function Format(v: LogicalVolume, path: string): Command {
    ["sudo"] + v.filesystemCommand + [path]
  }

  /** Reads an `lvcreate` command back into its group, volume name and size arguments. */
  function ParseLvCreate(c: Command): Option<(string, string, seq<string>)> {
    if |c| >= 4 && c[..2] == ["sudo", "lvcreate"] && StartsWith(c[|c| - 2], "--name=")
    then Some((c[|c| - 1], c[|c| - 2][7..], c[2..|c| - 2]))
    else None
  }

  /** The create command carries the group, the volume name and the table's size arguments, recoverably. */
  lemma LvCreateParses(group: string, v: LogicalVolume)
    ensures ParseLvCreate(LvCreate(group, v)) == Some((group, v.name, v.size))
  {
    var c := LvCreate(group, v);
    assert c[..2] == ["sudo", "lvcreate"];
    assert c[|c| - 2] == "--name=" + v.name;
    assert ("--name=" + v.name)[..7] == "--name=";
    assert ("--name=" + v.name)[7..] == v.name;
    assert c[2..|c| - 2] == v.size;
  }

  /** What `check_logical_volumes` does for one volume, given the `lvs` and `blkid` probes of its path. */
  function LvStep(group: string, v: LogicalVolume, lvs: string -> int, blkid: string -> string): seq<Command> {
    var path := MapperPath(group, v.name);
    (if lvs(path) == 0 then [] else [LvCreate(group, v)])
    + (if Contains(blkid(path), v.fsType) then [] else [Format(v, path)])
  }

  function VolumeSteps(group: string, volumes: seq<LogicalVolume>, lvs: string -> int, blkid: string -> string)
    : (steps: seq<seq<Command>>)
    ensures |steps| == |volumes|
  {
    seq(|volumes|, j requires 0 <= j < |volumes| => LvStep(group, volumes[j], lvs, blkid))
  }

  function GroupSteps(table: seq<(string, seq<LogicalVolume>)>, lvs: string -> int, blkid: string -> string)
    : (steps: seq<seq<Command>>)
    ensures |steps| == |table|
  {
    seq(|table|, k requires 0 <= k < |table| => Flatten(VolumeSteps(table[k].0, table[k].1, lvs, blkid)))
  }

  /** The plan of `check_logical_volumes`. */
  function LogicalVolumesPlan(table: seq<(string, seq<LogicalVolume>)>, lvs: string -> int, blkid: string -> string)
    : seq<Command>
  {
    Flatten(GroupSteps(table, lvs, blkid))
  }

  /** One pass of the inner loop of `check_logical_volumes`: create the volume if needed, then format it if needed. */
  method CheckLogicalVolume(group: string, v: LogicalVolume, lvs: string -> int, blkid: string -> string)
    returns (cmds: seq<Command>)
    ensures cmds == LvStep(group, v, lvs, blkid)
  {
    cmds := [];
    var path := "/dev/mapper/" + group + "-" + v.name;
    if lvs(path) != 0 {
      cmds := cmds + [["sudo", "lvcreate"] + v.size + ["--name=" + v.name, group]];
    }
    if !Contains(blkid(path), v.fsType) {
      cmds := cmds + [["sudo"] + v.filesystemCommand + [path]];
    }
  }

  /** The inner loop of `check_logical_volumes`: the volumes of one group, in table order. */
  method CheckGroupVolumes(group: string, volumes: seq<LogicalVolume>, lvs: string -> int, blkid: string -> string)
    returns (cmds: seq<Command>)
    ensures cmds == Flatten(VolumeSteps(group, volumes, lvs, blkid))
  {
    ghost var steps := VolumeSteps(group, volumes, lvs, blkid);
    cmds := [];
    for j := 0 to |volumes|
      invariant cmds == Flatten(steps[..j])
    {
      var step := CheckLogicalVolume(group, volumes[j], lvs, blkid);
      cmds := cmds + step;
      assert steps[..j + 1] == steps[..j] + [steps[j]];
      FlattenSnoc(steps[..j], steps[j]);
    }
    assert steps[..|volumes|] == steps;
  }

  /**
   * `check_logical_volumes`: for every volume of every group, create it when
   * the `lvs` probe does not know its path, then format it when `blkid` does
   * not report its file-system type.
   */
  method CheckLogicalVolumes(table: seq<(string, seq<LogicalVolume>)>, lvs: string -> int, blkid: string -> string)
    returns (cmds: seq<Command>)
    ensures cmds == LogicalVolumesPlan(table, lvs, blkid)
  {
    ghost var groupSteps := GroupSteps(table, lvs, blkid);
    cmds := [];
    for k := 0 to |table|
      invariant cmds == Flatten(groupSteps[..k])
    {
      var step := CheckGroupVolumes(table[k].0, table[k].1, lvs, blkid);
      cmds := cmds + step;
      assert groupSteps[..k + 1] == groupSteps[..k] + [groupSteps[k]];
      FlattenSnoc(groupSteps[..k], groupSteps[k]);
    }
    assert groupSteps[..|table|] == groupSteps;
  }

  /** A command is planned exactly when it is planned for some volume of some group. */
  lemma LogicalVolumesPlanMember(table: seq<(string, seq<LogicalVolume>)>, lvs: string -> int, blkid: string -> string, c: Command)
    ensures c in LogicalVolumesPlan(table, lvs, blkid) <==>
      exists k, j :: 0 <= k < |table| && 0 <= j < |table[k].1| && c in LvStep(table[k].0, table[k].1[j], lvs, blkid)
  {
    var groupSteps := GroupSteps(table, lvs, blkid);
    FlattenMember(groupSteps, c);
    if c in LogicalVolumesPlan(table, lvs, blkid) {
      var k :| 0 <= k < |groupSteps| && c in groupSteps[k];
      var steps := VolumeSteps(table[k].0, table[k].1, lvs, blkid);
      FlattenMember(steps, c);
      var j :| 0 <= j < |steps| && c in steps[j];
      assert c in LvStep(table[k].0, table[k].1[j], lvs, blkid);
    }
    if exists k, j :: 0 <= k < |table| && 0 <= j < |table[k].1| && c in LvStep(table[k].0, table[k].1[j], lvs, blkid) {
      var k, j :| 0 <= k < |table| && 0 <= j < |table[k].1| && c in LvStep(table[k].0, table[k].1[j], lvs, blkid);
      var steps := VolumeSteps(table[k].0, table[k].1, lvs, blkid);
      FlattenMember(steps, c);
      assert c in steps[j];
      assert c in groupSteps[k];
    }
  }

  /** Nothing is planned (a re-run changes nothing) exactly when every volume exists and shows its file-system type. */
  lemma LogicalVolumesPlanEmpty(table: seq<(string, seq<LogicalVolume>)>, lvs: string -> int, blkid: string -> string)
    ensures LogicalVolumesPlan(table, lvs, blkid) == [] <==>
      forall k, j :: 0 <= k < |table| && 0 <= j < |table[k].1| ==>
        lvs(MapperPath(table[k].0, table[k].1[j].name)) == 0
        && Contains(blkid(MapperPath(table[k].0, table[k].1[j].name)), table[k].1[j].fsType)
  {
    var groupSteps := GroupSteps(table, lvs, blkid);
    FlattenEmpty(groupSteps);
    forall k | 0 <= k < |table|
      ensures groupSteps[k] == [] <==> forall j :: 0 <= j < |table[k].1| ==>
        lvs(MapperPath(table[k].0, table[k].1[j].name)) == 0
        && Contains(blkid(MapperPath(table[k].0, table[k].1[j].name)), table[k].1[j].fsType)
    {
      var steps := VolumeSteps(table[k].0, table[k].1, lvs, blkid);
      FlattenEmpty(steps);
      assert groupSteps[k] == Flatten(steps);
      assert forall j :: 0 <= j < |steps| ==> (steps[j] == [] <==>
        lvs(MapperPath(table[k].0, table[k].1[j].name)) == 0
        && Contains(blkid(MapperPath(table[k].0, table[k].1[j].name)), table[k].1[j].fsType));
    }
  }

  /** When every volume exists, only formatting commands are planned: nothing is created twice. */
  lemma ExistingVolumesAreNotCreated(table: seq<(string, seq<LogicalVolume>)>, lvs: string -> int, blkid: string -> string)
    requires forall k, j :: 0 <= k < |table| && 0 <= j < |table[k].1| ==>
      lvs(MapperPath(table[k].0, table[k].1[j].name)) == 0
    ensures forall c :: c in LogicalVolumesPlan(table, lvs, blkid) ==>
      exists k, j :: (0 <= k < |table| && 0 <= j < |table[k].1|
        && c == Format(table[k].1[j], MapperPath(table[k].0, table[k].1[j].name)))
  {
    forall c | c in LogicalVolumesPlan(table, lvs, blkid)
      ensures exists k, j :: (0 <= k < |table| && 0 <= j < |table[k].1|
        && c == Format(table[k].1[j], MapperPath(table[k].0, table[k].1[j].name)))
    {
      LogicalVolumesPlanMember(table, lvs, blkid, c);
      var k, j :| 0 <= k < |table| && 0 <= j < |table[k].1| && c in LvStep(table[k].0, table[k].1[j], lvs, blkid);
      assert c == Format(table[k].1[j], MapperPath(table[k].0, table[k].1[j].name));
    }
  }

  /**
   * Per volume: the create command is planned exactly when `lvs` does not
   * know the path, the format command exactly when `blkid` does not report
   * the file-system type, and nothing else is planned.
   */
  lemma LvStepCases(group: string, v: LogicalVolume, lvs: string -> int, blkid: string -> string)
    ensures var path := MapperPath(group, v.name); var step := LvStep(group, v, lvs, blkid);
      && (LvCreate(group, v) in step <==> lvs(path) != 0)
      && (Format(v, path) in step <==> !Contains(blkid(path), v.fsType))
      && forall c :: c in step ==> c == LvCreate(group, v) || c == Format(v, path)
  {
    var path := MapperPath(group, v.name);
    LastArguments(group, v, v, path);
    assert |path| > |group|;
  }

  /** The last argument of the create command is the group, that of the format command the path. */
  lemma LastArguments(group: string, v: LogicalVolume, w: LogicalVolume, path: string)
    ensures |LvCreate(group, v)| >= 1 && LvCreate(group, v)[|LvCreate(group, v)| - 1] == group
    ensures |Format(w, path)| >= 1 && Format(w, path)[|Format(w, path)| - 1] == path
    ensures LvCreate(group, v) == Format(w, path) ==> group == path
  {
  }

  /** A create command for a hyphen-free group is never a format command: a mapper path holds a hyphen. */
  lemma CreateIsNotFormat(group: string, v: LogicalVolume, other: string, w: LogicalVolume)
    requires '-' !in group
    ensures LvCreate(group, v) != Format(w, MapperPath(other, w.name))
  {
    var path := MapperPath(other, w.name);
    LastArguments(group, v, w, path);
    assert path[12 + |other|] == '-';
  }

  /** Every group name of the table is free of hyphens. */
  predicate GroupsHyphenFree(table: seq<(string, seq<LogicalVolume>)>) {
    forall k :: 0 <= k < |table| ==> '-' !in table[k].0
  }

  /** No two volumes of the table share a mapper path. */
  predicate PathsDistinct(table: seq<(string, seq<LogicalVolume>)>) {
    forall k1, j1, k2, j2 ::
      0 <= k1 < |table| && 0 <= j1 < |table[k1].1| &&
      0 <= k2 < |table| && 0 <= j2 < |table[k2].1| &&
      MapperPath(table[k1].0, table[k1].1[j1].name) == MapperPath(table[k2].0, table[k2].1[j2].name)
      ==> k1 == k2 && j1 == j2
  }

  /**
   * Over the whole plan, for a table whose groups are hyphen-free and whose
   * volumes have distinct paths: a volume's create command is planned exactly
   * when `lvs` does not know its path, and its format command exactly when
   * `blkid` does not report its file-system type.
   */
  lemma LogicalVolumesPlanCases(table: seq<(string, seq<LogicalVolume>)>, lvs: string -> int, blkid: string -> string,
                                k: nat, j: nat)
    requires GroupsHyphenFree(table) && PathsDistinct(table)
    requires k < |table| && j < |table[k].1|
    ensures var group := table[k].0; var v := table[k].1[j]; var path := MapperPath(group, v.name);
      && (LvCreate(group, v) in LogicalVolumesPlan(table, lvs, blkid) <==> lvs(path) != 0)
      && (Format(v, path) in LogicalVolumesPlan(table, lvs, blkid) <==> !Contains(blkid(path), v.fsType))
  {
    var group := table[k].0;
    var v := table[k].1[j];
    LvStepCases(group, v, lvs, blkid);
    CreatePlanned(table, lvs, blkid, k, j);
    FormatPlanned(table, lvs, blkid, k, j);
  }

  lemma CreatePlanned(table: seq<(string, seq<LogicalVolume>)>, lvs: string -> int, blkid: string -> string,
                      k: nat, j: nat)
    requires GroupsHyphenFree(table)
    requires k < |table| && j < |table[k].1|
    ensures var group := table[k].0; var v := table[k].1[j];
      LvCreate(group, v) in LogicalVolumesPlan(table, lvs, blkid) <==> lvs(MapperPath(group, v.name)) != 0
  {
    var group := table[k].0;
    var v := table[k].1[j];
    var c := LvCreate(group, v);
    LogicalVolumesPlanMember(table, lvs, blkid, c);
    LvStepCases(group, v, lvs, blkid);
    if c in LogicalVolumesPlan(table, lvs, blkid) {
      var k', j' :| 0 <= k' < |table| && 0 <= j' < |table[k'].1| && c in LvStep(table[k'].0, table[k'].1[j'], lvs, blkid);
      var w := table[k'].1[j'];
      LvStepCases(table[k'].0, w, lvs, blkid);
      CreateIsNotFormat(group, v, table[k'].0, w);
      LvCreateParses(group, v);
      LvCreateParses(table[k'].0, w);
      assert table[k'].0 == group && w.name == v.name;
    }
  }

  lemma FormatPlanned(table: seq<(string, seq<LogicalVolume>)>, lvs: string -> int, blkid: string -> string,
                      k: nat, j: nat)
    requires GroupsHyphenFree(table) && PathsDistinct(table)
    requires k < |table| && j < |table[k].1|
    ensures var group := table[k].0; var v := table[k].1[j]; var path := MapperPath(group, v.name);
      Format(v, path) in LogicalVolumesPlan(table, lvs, blkid) <==> !Contains(blkid(path), v.fsType)
  {
    var group := table[k].0;
    var v := table[k].1[j];
    var path := MapperPath(group, v.name);
    var c := Format(v, path);
    LogicalVolumesPlanMember(table, lvs, blkid, c);
    LvStepCases(group, v, lvs, blkid);
    if c in LogicalVolumesPlan(table, lvs, blkid) {
      var k', j' :| 0 <= k' < |table| && 0 <= j' < |table[k'].1| && c in LvStep(table[k'].0, table[k'].1[j'], lvs, blkid);
      var w := table[k'].1[j'];
      var path' := MapperPath(table[k'].0, w.name);
      LvStepCases(table[k'].0, w, lvs, blkid);
      CreateIsNotFormat(table[k'].0, w, group, v);
      LastArguments(group, v, w, path');
      LastArguments(group, v, v, path);
      assert path' == path;
      assert k' == k && j' == j;
    }
  }

  /** On a volume that neither exists nor carries a file system, the step creates it and then formats it. */
  lemma FreshVolumeStep(group: string, v: LogicalVolume, lvs: string -> int, blkid: string -> string)
    requires v.fsType != "" && forall path :: lvs(path) != 0 && blkid(path) == ""
    ensures LvStep(group, v, lvs, blkid) == [LvCreate(group, v), Format(v, MapperPath(group, v.name))]
  {
    var path := MapperPath(group, v.name);
    assert lvs(path) != 0 && blkid(path) == "";
    assert !Contains("", v.fsType);
  }

  /** Three steps one after the other. */
  lemma Flatten3(a: seq<Command>, b: seq<Command>, c: seq<Command>)
    ensures Flatten([a, b, c]) == a + b + c
  {
    FlattenSnoc([a, b], c);
    FlattenSnoc([a], b);
    FlattenSnoc([], a);
    assert [a, b] + [c] == [a, b, c];
    assert [a] + [b] == [a, b];
  }

  // The create and format commands of each of the four volumes of the table.
  lemma BootCommands()
    ensures LvCreate("system", LogicalVolumes[0].1[0]) == ["sudo", "lvcreate", "--size", "1024M", "--name=boot", "system"]
    ensures Format(LogicalVolumes[0].1[0], MapperPath("system", "boot")) == ["sudo", "mkfs.ext3", "-L", "boot", "/dev/mapper/system-boot"]
  {
    assert "--name=" + "boot" == "--name=boot";
    assert MapperPath("system", "boot") == "/dev/mapper/system-boot";
  }

  lemma SwapCommands()
    ensures LvCreate("system", LogicalVolumes[0].1[1]) == ["sudo", "lvcreate", "--size", "24576M", "--name=swap", "system"]
    ensures Format(LogicalVolumes[0].1[1], MapperPath("system", "swap")) == ["sudo", "mkswap", "--label=swap", "/dev/mapper/system-swap"]
  {
    assert "--name=" + "swap" == "--name=swap";
    assert MapperPath("system", "swap") == "/dev/mapper/system-swap";
  }

  lemma RootCommands()
    ensures LvCreate("system", LogicalVolumes[0].1[2]) == ["sudo", "lvcreate", "--extents=100%FREE", "--name=root", "system"]
    ensures Format(LogicalVolumes[0].1[2], MapperPath("system", "root")) == ["sudo", "mkfs.ext4", "-L", "root", "/dev/mapper/system-root"]
  {
    assert "--name=" + "root" == "--name=root";
    assert MapperPath("system", "root") == "/dev/mapper/system-root";
  }

  lemma HomeCommands()
    ensures LvCreate("data", LogicalVolumes[1].1[0]) == ["sudo", "lvcreate", "--extents=100%FREE", "--name=home", "data"]
    ensures Format(LogicalVolumes[1].1[0], MapperPath("data", "home")) == ["sudo", "mkfs.ext4", "-L", "home", "/dev/mapper/data-home"]
  {
    assert "--name=" + "home" == "--name=home";
    assert MapperPath("data", "home") == "/dev/mapper/data-home";
  }

  /**
   * On a fresh machine every volume of the table is created with its size
   * arguments and then formatted with its command, group by group in table
   * order.
   */
  lemma LogicalVolumesFresh(lvs: string -> int, blkid: string -> string)
    requires forall path :: lvs(path) != 0 && blkid(path) == ""
    ensures LogicalVolumesPlan(LogicalVolumes, lvs, blkid) == [
      ["sudo", "lvcreate", "--size", "1024M", "--name=boot", "system"],
      ["sudo", "mkfs.ext3", "-L", "boot", "/dev/mapper/system-boot"],
      ["sudo", "lvcreate", "--size", "24576M", "--name=swap", "system"],
      ["sudo", "mkswap", "--label=swap", "/dev/mapper/system-swap"],
      ["sudo", "lvcreate", "--extents=100%FREE", "--name=root", "system"],
      ["sudo", "mkfs.ext4", "-L", "root", "/dev/mapper/system-root"],
      ["sudo", "lvcreate", "--extents=100%FREE", "--name=home", "data"],
      ["sudo", "mkfs.ext4", "-L", "home", "/dev/mapper/data-home"]]
  {
    var system := LogicalVolumes[0].1;
    var data := LogicalVolumes[1].1;
    var sys := VolumeSteps("system", system, lvs, blkid);
    var dat := VolumeSteps("data", data, lvs, blkid);
    FreshVolumeStep("system", system[0], lvs, blkid);
    FreshVolumeStep("system", system[1], lvs, blkid);
    FreshVolumeStep("system", system[2], lvs, blkid);
    FreshVolumeStep("data", data[0], lvs, blkid);
    BootCommands();
    SwapCommands();
    RootCommands();
    HomeCommands();
    assert sys == [sys[0], sys[1], sys[2]];
    Flatten3(sys[0], sys[1], sys[2]);
    assert dat == [] + [dat[0]];
    FlattenSnoc([], dat[0]);
    var groupSteps := GroupSteps(LogicalVolumes, lvs, blkid);
    assert groupSteps == [] + [groupSteps[0]] + [groupSteps[1]];
    FlattenSnoc([groupSteps[0]], groupSteps[1]);
    FlattenSnoc([], groupSteps[0]);
  }

  /** The table's group names are hyphen-free and its volume names distinct, so every volume has its own path. */
  lemma TablePathsDistinct()
    ensures forall k :: 0 <= k < |LogicalVolumes| ==> '-' !in LogicalVolumes[k].0
    ensures forall k1, j1, k2, j2 ::
      0 <= k1 < |LogicalVolumes| && 0 <= j1 < |LogicalVolumes[k1].1| &&
      0 <= k2 < |LogicalVolumes| && 0 <= j2 < |LogicalVolumes[k2].1| &&
      MapperPath(LogicalVolumes[k1].0, LogicalVolumes[k1].1[j1].name)
        == MapperPath(LogicalVolumes[k2].0, LogicalVolumes[k2].1[j2].name)
      ==> k1 == k2 && j1 == j2
  {
    assert '-' !in "system" && '-' !in "data";
    forall k1, j1, k2, j2 |
      0 <= k1 < |LogicalVolumes| && 0 <= j1 < |LogicalVolumes[k1].1| &&
      0 <= k2 < |LogicalVolumes| && 0 <= j2 < |LogicalVolumes[k2].1| &&
      MapperPath(LogicalVolumes[k1].0, LogicalVolumes[k1].1[j1].name)
        == MapperPath(LogicalVolumes[k2].0, LogicalVolumes[k2].1[j2].name)
      ensures k1 == k2 && j1 == j2
    {
      MapperPathInjective(LogicalVolumes[k1].0, LogicalVolumes[k1].1[j1].name,
                          LogicalVolumes[k2].0, LogicalVolumes[k2].1[j2].name);
    }
  }

  /**
   * For the script's own table: each volume is created exactly when `lvs`
   * does not know its path, and formatted exactly when `blkid` does not
   * report its file-system type.
   */
  lemma LogicalVolumesTableCases(lvs: string -> int, blkid: string -> string, k: nat, j: nat)
    requires k < |LogicalVolumes| && j < |LogicalVolumes[k].1|
    ensures var group := LogicalVolumes[k].0; var v := LogicalVolumes[k].1[j]; var path := MapperPath(group, v.name);
      && (LvCreate(group, v) in LogicalVolumesPlan(LogicalVolumes, lvs, blkid) <==> lvs(path) != 0)
      && (Format(v, path) in LogicalVolumesPlan(LogicalVolumes, lvs, blkid) <==> !Contains(blkid(path), v.fsType))
  {
    TablePathsDistinct();
    LogicalVolumesPlanCases(LogicalVolumes, lvs, blkid, k, j);
  }

  // ----- the file-system test of check_logical_volumes -----

  /**
   * `blkid -s TYPE <path>` prints the device path, then the tag, as in
   * `/dev/mapper/system-swap: TYPE="ext4"`. The script asks whether the
   * configured type occurs anywhere in that line, and the swap volume's path
   * already holds `swap`: whatever type blkid reports for it, no `mkswap` is
   * planned.
   */
  lemma SwapSkippedWhenReported(lvs: string -> int, blkid: string -> string)
    requires StartsWith(blkid(MapperPath("system", "swap")), MapperPath("system", "swap"))
    ensures Format(LogicalVolumes[0].1[1], MapperPath("system", "swap"))
      !in LogicalVolumesPlan(LogicalVolumes, lvs, blkid)
  {
    var path := MapperPath("system", "swap");
    assert path == "/dev/mapper/system-swap";
    var out := blkid(path);
    assert out[..|path|] == path;
    assert out[19..23] == path[19..23] == "swap";
    assert OccursAt(out, "swap", 19);
    LogicalVolumesTableCases(lvs, blkid, 0, 1);
  }

  /** The tag blkid prints for a file-system type. */
  function TypeTag(fsType: string): string {
    "TYPE=\"" + fsType + "\""
  }

  /** What blkid prints for a volume holding a file system of type `fsType`. */
  function BlkidReport(path: string, fsType: string): string {
    path + ": " + TypeTag(fsType) + "\n"
  }

  /** One volume's step with the file-system test on the reported tag rather than on the whole line. */
  function LvStepByTag(group: string, v: LogicalVolume, lvs: string -> int, blkid: string -> string): seq<Command> {
    var path := MapperPath(group, v.name);
    (if lvs(path) == 0 then [] else [LvCreate(group, v)])
    + (if Contains(blkid(path), TypeTag(v.fsType)) then [] else [Format(v, path)])
  }

  /** The only quotes of a report are the two around the type. */
  lemma ReportQuotes(path: string, t: string, j: int)
    requires '"' !in path && '"' !in t
    requires 0 <= j < |BlkidReport(path, t)| && BlkidReport(path, t)[j] == '"'
    ensures j == |path| + 7 || j == |path| + 8 + |t|
  {
    var out := BlkidReport(path, t);
    assert out == path + ": TYPE=\"" + t + "\"\n";
    assert forall k :: 0 <= k < |path| ==> out[k] == path[k];
    assert forall k :: 0 <= k < |t| ==> out[|path| + 8 + k] == t[k];
  }

  /** A tag occurs in a report exactly when it is the reported type (no quotes in the path or the types). */
  lemma TagInReport(path: string, t: string, f: string)
    requires '"' !in path && '"' !in t && '"' !in f
    ensures Contains(BlkidReport(path, t), TypeTag(f)) <==> t == f
  {
    var out := BlkidReport(path, t);
    var tag := TypeTag(f);
    assert out == path + ": " + TypeTag(t) + "\n";
    if t == f {
      assert out[|path| + 2..|path| + 2 + |tag|] == tag;
      assert OccursAt(out, tag, |path| + 2);
    }
    if Contains(out, tag) {
      var i :| 0 <= i <= |out| - |tag| && OccursAt(out, tag, i);
      assert out[i..i + |tag|] == tag;
      assert tag[5] == '"' && tag[6 + |f|] == '"';
      assert out[i + 5] == tag[5] && out[i + 6 + |f|] == tag[6 + |f|];
      ReportQuotes(path, t, i + 5);
      ReportQuotes(path, t, i + 6 + |f|);
      assert i + 5 == |path| + 7 && |f| == |t|;
      assert f == tag[6..6 + |f|] == out[|path| + 8..|path| + 8 + |t|];
      assert out[|path| + 8..|path| + 8 + |t|] == t;
    }
  }

  /**
   * With the test on the tag, a volume is formatted exactly when blkid
   * reports no file system or a different type; so the swap volume holding a
   * leftover `ext4` gets its `mkswap`.
   */
  lemma LvStepByTagFormats(group: string, v: LogicalVolume, lvs: string -> int, blkid: string -> string, t: string)
    requires '"' !in group && '"' !in v.name && '"' !in v.fsType && '"' !in t
    ensures var path := MapperPath(group, v.name);
      && (blkid(path) == "" ==> Format(v, path) in LvStepByTag(group, v, lvs, blkid))
      && (blkid(path) == BlkidReport(path, t) ==>
            (Format(v, path) in LvStepByTag(group, v, lvs, blkid) <==> t != v.fsType))
  {
    var path := MapperPath(group, v.name);
    assert '"' !in path by {
      assert path == "/dev/mapper/" + group + "-" + v.name;
    }
    LastArguments(group, v, v, path);
    assert |path| > |group|;
    if blkid(path) == BlkidReport(path, t) {
      TagInReport(path, t, v.fsType);
    }
  }
}
