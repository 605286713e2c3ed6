# Ubuntu custom encryption: the verified decisions of the provisioning script

`ubuntu_custom_encryption.py` prepares a Ubuntu installation on full-disk
encryption with LVM on top of LUKS. It checks the partition layout, confirms
that the LUKS volumes are there, and opens them. Then it creates the physical
volumes, volume groups and logical volumes. After the operator installs the
system, it patches the installed system's GRUB defaults. Most of the script
calls system tools. This project models the decisions and text
transformations around those calls, and proves what the script promises
about them.

- `Text` holds the Python string operations the script relies on:
  - `str.startswith`, `in`, `str.join` and `str.split`;
  - `str.splitlines(True)`, `str.strip`;
  - iterating a text file line by line.
- `Grub` is the rewrite of the GRUB defaults file in `fix_grub`.
  - `Grub.FixGrub` is the loop, with its `crypto_present` flag.
  - `Grub.FixGrubLines` is what the loop computes.
  - `Grub.FixGrubIntended` is the corrected rewrite (see Findings).
- `Prompt` is the yes/no gate `query_yes_no`.
  - Console input is the sequence of responses the operator will type.
- `Partitions` holds `expected_partitions` and the acceptance test of
  `check_partitions`.
  - The output of `parted` is an input string.
  - Whether the run is verbose (`--safe`) is an input; only a verbose run asks the operator.
  - The result is one of `Proceed`, `Mismatch`, `Declined` and `NoAnswer`.
- `Plan`, `Luks` and `Lvm` are the provisioning steps.
  - Every probe is an input: `cryptsetup isLuks`, `dmsetup info`, `pvs`, `vgs`, `lvs` and `blkid`. Each is given as a function of its argument: `isLuks`, `pvs`, `vgs` and `lvs` give their exit status only (`string -> int`); `dmsetup info` gives its exit status and output (a `Probe`); `blkid` gives its output only (`string -> string`).
  - Every changing call is an entry of a command plan: the argument list the script hands to the tool, in order.
  - Each step is a method whose loops build the plan. Its `ensures` ties the plan to a specification function, and lemmas state what that function plans.
  - `Lvm.LvStepByTag` is one volume's step with the corrected file-system test (see Findings).
- `Wrappers` holds `Option`.

## Model

| member | source | states |
|---|---|---|
| Grub.FixGrub | ubuntu_custom_encryption.py:405-418 | the one-pass loop with its `crypto_present` flag computes `FixGrubLines`: the lines written, then the cryptodisk line if and only if no input line enabled cryptodisk |
| Grub.NotBoth | ubuntu_custom_encryption.py:408-412 | the three prefixes the loop tests are pairwise exclusive, so no line matches two branches |
| Grub.SubstituteCases | ubuntu_custom_encryption.py:408-415 | for a line that is not a cryptodisk line: `GRUB_HIDDEN_TIMEOUT=0…` becomes exactly `#GRUB_HIDDEN_TIMEOUT=0\n`, and `GRUB_HIDDEN_TIMEOUT_QUIET=true…` becomes exactly `GRUB_HIDDEN_TIMEOUT_QUIET=false\n`; any other line is copied unchanged; no replacement enables cryptodisk; substituting twice equals substituting once; terminated lines stay terminated |
| Grub.WrittenShape | ubuntu_custom_encryption.py:407-415 | no written line enables cryptodisk; one line is written per non-cryptodisk input line; with no cryptodisk input, line k of the output is line k of the input substituted |
| Grub.WrittenIdempotent | ubuntu_custom_encryption.py:408-411 | the two timeout substitutions alone are idempotent |
| Grub.FixGrubAppends | ubuntu_custom_encryption.py:406-418 | with no cryptodisk line in the input, the output is the input substituted line by line plus exactly one `GRUB_ENABLE_CRYPTODISK=y\n` at the end, one line longer |
| Grub.FixGrubDrops | ubuntu_custom_encryption.py:412-418 | when some input line enables cryptodisk: all such lines are dropped; nothing is appended; the output has no cryptodisk line |
| Grub.FixGrubFlips | ubuntu_custom_encryption.py:412-418 | the output enables cryptodisk if and only if the input does not |
| Grub.FixGrubNotIdempotent | ubuntu_custom_encryption.py:412-418 | for every input, a second pass gives a different file |
| Grub.FixGrubDisablesEnabled | ubuntu_custom_encryption.py:412-418 | a file whose only line is `GRUB_ENABLE_CRYPTODISK=y\n` is rewritten to an empty file |
| Grub.FixGrubPeriodTwo | ubuntu_custom_encryption.py:408-418 | a third pass gives the first pass's output again; without cryptodisk in the input, two passes leave only the substitutions |
| Grub.FixGrubTextReadsBack | ubuntu_custom_encryption.py:405-418 | for a file ending in a newline, or empty, reading back the written file gives exactly the lines the loop wrote |
| Grub.FixGrubText | ubuntu_custom_encryption.py:405-418 | definition: the text written is the concatenation of `FixGrubLines` of the lines read; see the `FixGrubText*` rows |
| Grub.FixGrubTextGlues | ubuntu_custom_encryption.py:405-418 | for any file whose earlier lines end in a newline and enable no cryptodisk, and whose last line lacks its newline and matches none of the three prefixes: the earlier lines are rewritten, the last one is written unchanged, and the appended setting is glued onto it; reading back gives the rewritten lines then that one glued line, and cryptodisk is enabled only if the glued line starts with the setting |
| Grub.FixGrubTextGluesLastLine | ubuntu_custom_encryption.py:415-418 | `GRUB_TIMEOUT=10` without a final newline reads back as one line that does not enable cryptodisk |
| Grub.FixGrubIntendedCorrect | ubuntu_custom_encryption.py:412-418 | the corrected rewrite leaves exactly one cryptodisk line and is idempotent; it agrees with the written one when the input has no cryptodisk line |
| Grub.FixGrubTextIntendedCorrect | ubuntu_custom_encryption.py:405-418 | for every file, the corrected rewrite writes a file with exactly one cryptodisk line, and a second run changes nothing |
| Prompt.LowerIsYes | ubuntu_custom_encryption.py:222-224 | a response lower-cases to `y` if and only if it is `y` or `Y` |
| Prompt.LowerIsNo | ubuntu_custom_encryption.py:222-226 | a response lower-cases to `n` if and only if it is `n` or `N` |
| Prompt.QueryYesNo | ubuntu_custom_encryption.py:218-228 | the prompt loop returns what `Ask` gives for the responses: the answer and the number of re-prompts |
| Prompt.AskAnswersFirstChoice | ubuntu_custom_encryption.py:220-228 | the gate answers if and only if some response is `y` or `n` after lower-casing; it re-prompts once for each earlier response; its answer is yes if and only if that first choice is `y`; with no choice it reads every response |
| Prompt.AskYesCases | ubuntu_custom_encryption.py:220-226 | the answer is yes if and only if some response is `y` or `Y` and no earlier response was a choice |
| Text.SplitLines | ubuntu_custom_encryption.py:246-247 | the `splitlines(True)` pieces concatenate back to the text |
| Text.JoinSplit | ubuntu_custom_encryption.py:244 | joining the pieces of `split(sep)` with `sep` gives back the text |
| Text.SplitPiecesAvoidSep | ubuntu_custom_encryption.py:244 | no piece of `split(sep)` contains the separator |
| Text.StripSurrounded | ubuntu_custom_encryption.py:200-214 | `strip()` of a text that starts and ends with non-whitespace, surrounded by whitespace, gives that text |
| Partitions.ExpectedPartitions | ubuntu_custom_encryption.py:199-215 | definition: the stripped literal plus a newline; see the two rows below |
| Partitions.ExpectedIsLayout | ubuntu_custom_encryption.py:199-215 | the stripped layout plus a newline is the two `parted --machine` blocks, sda then sdb, split by a blank line, with one final newline |
| Partitions.ExpectedPartitionsShape | ubuntu_custom_encryption.py:199-215 | the expected text has no leading whitespace and ends in exactly one newline; it splits on blank lines into exactly two blocks, each beginning `BYT;` |
| Partitions.TruncatedIsPrefix | ubuntu_custom_encryption.py:244 | the kept text is the whole output, or a prefix of it that a blank line follows |
| Partitions.TruncatedKeepsTwoBlocks | ubuntu_custom_encryption.py:244 | an output of at most two blocks is kept whole |
| Partitions.TruncatedIgnoresRest | ubuntu_custom_encryption.py:244 | everything after the second block is ignored |
| Partitions.TruncatedIsTwoBlocks | ubuntu_custom_encryption.py:244 | the kept text is two given blocks if and only if the output is those blocks, alone or followed by a blank line and anything |
| Partitions.SplitLinesInjective | ubuntu_custom_encryption.py:245-249 | two texts have equal `splitlines(True)` lists if and only if they are equal, so the diff is empty exactly when the texts agree |
| Partitions.Truncated | ubuntu_custom_encryption.py:244 | definition: the first two blank-line-separated blocks of the output, joined by a blank line; see the `Truncated*` rows |
| Partitions.CheckPartitions | ubuntu_custom_encryption.py:229-258 | definition: the gate against `expected_partitions()`, given `parted`'s output, the verbose flag and the operator's responses; see the two rows below |
| Partitions.CheckAgainstCases | ubuntu_custom_encryption.py:244-258 | `Mismatch` if and only if the kept text plus a newline differs from the expected one; otherwise, without `--safe`, `Proceed` with no prompt; with `--safe`, `Proceed`, `Declined` or `NoAnswer` exactly as the operator answers yes, no or nothing, and `Declined` and `NoAnswer` only with `--safe` |
| Partitions.CheckPartitionsCases | ubuntu_custom_encryption.py:244-258 | against `expected_partitions()`: `Mismatch` if and only if the texts differ; without `--safe`, `Proceed` if and only if they agree; with `--safe`, `Proceed` if and only if they agree and the operator says yes |
| Partitions.AcceptedLayouts | ubuntu_custom_encryption.py:244-253 | the layout passes if and only if parted printed exactly the two expected blocks, alone or followed by a blank line and anything |
| Luks.DictOfKeys | ubuntu_custom_encryption.py:34 | the keys of `dict(pairs)` are exactly the first components of the pairs |
| Luks.DictOfLastWins | ubuntu_custom_encryption.py:34 | a pair whose key does not come again later gives `dict(pairs)` that key's value |
| Luks.InvertDistinct | ubuntu_custom_encryption.py:34 | for distinct names, the inverted table's keys are exactly the names, and each maps back to its partition |
| Luks.InvertKeepsLater | ubuntu_custom_encryption.py:34 | when names repeat, the inverse of a name is the partition of its last occurrence |
| Luks.LuksNameMap | ubuntu_custom_encryption.py:34 | definition: `dict` of the swapped pairs of `LUKS_DEVICES`; see `Luks.LuksNameMapInverts` |
| Luks.LuksNameMapInverts | ubuntu_custom_encryption.py:29-34 | `LUKS_NAME_MAP` is `{"system": "/dev/sda5", "data": "/dev/sdb3"}`; it and `LUKS_DEVICES` undo each other |
| Luks.SetupLuks | ubuntu_custom_encryption.py:261-273 | the loop stops at `FirstNotLuks`: the first partition the `isLuks` probe rejects, or none |
| Luks.FirstNotLuksCases | ubuntu_custom_encryption.py:264-273 | setup passes if and only if every partition is a LUKS volume; otherwise it names a rejected partition, and every earlier one was accepted |
| Luks.OpenLuks | ubuntu_custom_encryption.py:276-288 | the loop's commands are `OpenLuksPlan`, one step per partition in table order |
| Luks.OpenLuksPlanCases | ubuntu_custom_encryption.py:280-286 | a `luksOpen <device> <name>` is planned if and only if that mapping's `dmsetup info` fails or lacks `ACTIVE`; the plan is empty if and only if every mapping is active |
| Luks.OpenLuksFresh | ubuntu_custom_encryption.py:280-286 | with no mapping active (each `dmsetup info` fails or does not report `ACTIVE`), the plan opens `/dev/sda5` as `system`, then `/dev/sdb3` as `data` |
| Lvm.TablesAgree | ubuntu_custom_encryption.py:29-41 | the volume groups, the LUKS names and the logical-volume groups line up; each group's one physical volume is its LUKS mapping |
| Lvm.CheckPhysicalVolumes | ubuntu_custom_encryption.py:291-298 | the loop's commands are `PhysicalVolumesPlan` |
| Lvm.PhysicalVolumesPlanCases | ubuntu_custom_encryption.py:292-298 | a `pvcreate /dev/mapper/<name>` is planned if and only if `pvs` rejects that mapping; nothing is planned if and only if every mapping is known |
| Lvm.CheckVolumeGroup | ubuntu_custom_encryption.py:303-311 | one pass of the outer loop: the `vgs` probe and the inner loop over the physical volumes plan exactly `VgStep` for the group |
| Lvm.CheckVolumeGroups | ubuntu_custom_encryption.py:301-311 | the nested loops' commands are `VolumeGroupsPlan` |
| Lvm.VgStepCases | ubuntu_custom_encryption.py:303-311 | a known group gets no command; an unknown one gets one command per physical volume, in list order; only the first is `vgcreate <name> <pv>`, every later one is `vgextend <name> <pv>` |
| Lvm.VolumeGroupsPlanCases | ubuntu_custom_encryption.py:302-311 | a group command is planned if and only if its group is unknown to `vgs` and it is for one of that group's physical volumes; nothing is planned if and only if every group is known or empty |
| Lvm.VolumeGroupsFresh | ubuntu_custom_encryption.py:302-311 | with no group known, the plan is `vgcreate system /dev/mapper/system`, then `vgcreate data /dev/mapper/data` |
| Lvm.MapperPathInjective | ubuntu_custom_encryption.py:320 | with hyphen-free group names, `/dev/mapper/<group>-<volume>` determines the group and the volume |
| Lvm.LvCreateParses | ubuntu_custom_encryption.py:325-327 | the create command is `sudo lvcreate`, the size arguments, `--name=<volume>`, `<group>`; reading it back gives exactly that group, name and size |
| Lvm.CheckLogicalVolume | ubuntu_custom_encryption.py:319-336 | one inner pass plans `LvStep`, the create command then the format command, about which `Lvm.LvStepCases` states when each is planned |
| Lvm.CheckGroupVolumes | ubuntu_custom_encryption.py:318-336 | the inner loop plans the steps of one group's volumes, one after the other in table order |
| Lvm.CheckLogicalVolumes | ubuntu_custom_encryption.py:314-336 | the nested loops' commands are `LogicalVolumesPlan`, volume by volume and group by group |
| Lvm.LvStepCases | ubuntu_custom_encryption.py:319-334 | for one volume: `lvcreate` is planned if and only if `lvs` rejects its mapper path; the format command is planned if and only if the `blkid` output lacks its file-system type; nothing else is planned |
| Lvm.LogicalVolumesPlanCases | ubuntu_custom_encryption.py:317-336 | over the whole plan, for any table with hyphen-free groups and distinct mapper paths: a volume's `lvcreate` is planned if and only if `lvs` rejects its path, and its format command if and only if `blkid` lacks its type |
| Lvm.LogicalVolumesTableCases | ubuntu_custom_encryption.py:44-72 | the same two if-and-only-ifs for every volume of the script's own `LOGICAL_VOLUMES` table |
| Lvm.LogicalVolumesPlanMember | ubuntu_custom_encryption.py:317-336 | a command is planned if and only if the step of some volume of some group plans it |
| Lvm.LogicalVolumesPlanEmpty | ubuntu_custom_encryption.py:317-336 | nothing is planned if and only if every volume's path is known to `lvs` and `blkid` reports its type |
| Lvm.ExistingVolumesAreNotCreated | ubuntu_custom_encryption.py:321-336 | when `lvs` knows the mapper path of every volume of the table, only format commands are planned |
| Lvm.LogicalVolumesFresh | ubuntu_custom_encryption.py:44-72 | on a fresh machine, the plan creates and then formats boot, swap, root and home, with the table's sizes, commands and paths, in table order |
| Lvm.TablePathsDistinct | ubuntu_custom_encryption.py:44-72 | the table's group names are hyphen-free, and no two of its volumes share a mapper path |
| Lvm.SwapSkippedWhenReported | ubuntu_custom_encryption.py:329-331 | as written: when `blkid` reports the swap volume under its path `/dev/mapper/system-swap`, whatever type it names, `mkswap` is not planned, because the path itself contains `swap` |
| Lvm.TagInReport | ubuntu_custom_encryption.py:329-331 | in a `blkid -s TYPE` report `<path>: TYPE="<t>"` with no quotes in the path or the types, the tag `TYPE="<f>"` occurs if and only if `t` is `f` |
| Lvm.LvStepByTagFormats | ubuntu_custom_encryption.py:329-336 | corrected test on the reported tag: a volume is formatted when `blkid` prints nothing, and, when it reports type `t`, if and only if `t` differs from the configured type |

## Left out

- Side effects of the external tools are not modelled. Their probe results are inputs, and their changing calls are plan entries. The tools are parted, cryptsetup, dmsetup, pvs, vgs, lvs, blkid, the mkfs tools, mount, dd, chmod and cp.
- Tool results between steps are not modelled. Each probe is a fixed function of its argument. A `blkid` probe therefore does not see the volume that the `lvcreate` just before it created. Nor does a later step see what an earlier step changed.
- File I/O is not modelled: copying the GRUB file to a temporary file, moving it back, and `os.remove`. `Grub.FixGrubText` starts from the text read and ends at the text written.
- Text-mode newline translation is not modelled. The GRUB text is the text after Python's universal-newline handling, so lines end at `\n`.
- `difflib.unified_diff` output and its printing are not modelled. The model keeps one fact about it: the diff is empty exactly when the two line lists are equal.
- Prompt.Lower: lower-casing is modelled on ASCII letters only. No other character lower-cases to `y` or `n`, so the gate's answers are the same as Python's.
- Prompt.Ask: running out of input is `None`. The script raises `EOFError` there instead. Prompt texts and the reminder line are printing and are not modelled.
- Luks.SetupLuks: the verbose `luksDump` and its confirmation are not modelled. The model states where the loop stops; the script raises `RuntimeError` there.
- The command-line flag `--safe` sets the global `VERBOSE`, which only adds prompts and printing. In `check_partitions` it is the `verbose` parameter: only then is the operator asked to confirm a matching layout. Elsewhere it is not modelled. The `parted` listing shown before that confirmation is not modelled.
- The prompts at ubuntu_custom_encryption.py:434, :439, :461 and :476 ask for confirmation, but the script ignores their answer. Only `check_partitions` (whose docstring at :235-237 says it aborts when the user elects to quit) and `setup_luks` act on the answer, and only in verbose mode, the only mode in which they ask. The ignored prompts are in `main` and `fix_chroot_stuff`, which are not part of this model.
- These steps are fixed command sequences and operator hand-offs, and are not part of this model:
  - `mount_partitions`, `create_key_files`, `get_luks_uuid`;
  - `fix_crypttab` and its file handling;
  - `fix_chroot_stuff` and `main`.
- The shell templates `GET_INIT_SCRIPT`, `LOAD_INIT_SCRIPT` and `REFRESHGRUB` are written out verbatim and are not modelled.
- setup_desktop.py is a list of single external calls and a download; it is not part of this model.
- Partitions.Layout: the expected layout is built from its colon-separated fields, record by record. `Partitions.ExpectedIsLayout` ties it to the stripped text plus a newline, as `expected_partitions` builds it.

## Findings

| source | as written | input that shows it | evidently intended | confidence | as-written member | corrected member |
|---|---|---|---|---|---|---|
| ubuntu_custom_encryption.py:412-418 | a line that already enables cryptodisk sets the flag but is not written, and then nothing is appended | a GRUB file whose only line is `GRUB_ENABLE_CRYPTODISK=y\n` becomes an empty file; so the file from a first run loses cryptodisk on a second run | keep the existing cryptodisk line, so that the output always enables cryptodisk and a second run changes nothing | not executed | Grub.FixGrubDisablesEnabled | Grub.FixGrubIntendedCorrect |
| ubuntu_custom_encryption.py:415-418 | the last line is copied as read, without a newline if the file had none, and the cryptodisk line is written straight after it | `GRUB_TIMEOUT=10` with no final newline becomes the single line `GRUB_TIMEOUT=10GRUB_ENABLE_CRYPTODISK=y`, which does not enable cryptodisk | the appended setting on a line of its own | not executed | Grub.FixGrubTextGluesLastLine | Grub.FixGrubTextIntendedCorrect |
| ubuntu_custom_encryption.py:329-331 | the configured type is looked for anywhere in the `blkid -s TYPE` output, which begins with the device path | the swap volume `/dev/mapper/system-swap` still holding an old `ext4` file system: `blkid` prints `/dev/mapper/system-swap: TYPE="ext4"`, which contains `swap`, so no `mkswap` runs | format unless the reported `TYPE` is the configured type | not executed | Lvm.SwapSkippedWhenReported | Lvm.LvStepByTagFormats |
