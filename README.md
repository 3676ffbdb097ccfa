# rdrlatency in Dafny

This project models the part of rdrlatency that builds OpenShift
`MachineConfig` documents. Those documents inject network latency between
the zones of a Regional Disaster Recovery set-up. It then proves properties
of that model.

**`machineconfig.py`** builds the documents.
- `get_new_mc` gives an almost empty `MachineConfig`. Its name is
  `<priority>-<role>-<suffix>`, its role label is the role, and it uses
  Ignition 3.1.0.
- `create_file_dict` gives an Ignition storage file entry:
  - it rejects an empty basename and a relative target directory;
  - it normalises the target directory the way `posixpath.normpath` does;
  - it refuses any result that does not start with `/etc` or `/var`;
  - it joins the basename with `posixpath.join`;
  - the content goes into an RFC 2397 `data:` URL, as base64 of its UTF-8
    bytes;
  - the mode is `0444` (292), owned by root.
- `create_unit_dict` and `create_systemdunit_dict` give an enabled systemd
  unit entry.

**`rdr.py`** puts one latency bundle together per role.
- `create_latency_mc_dict` builds the bundle:
  - a module-load file for `sch_netem`;
  - the traffic-shaping script, with the peer address list spliced in and
    mode `0o544` (356);
  - the `network-latency.service` unit. Its `LATENCY_VALUE` is replaced by
    half the latency, truncated toward zero as Python's `int(latency / 2)`
    does. Then the directive text `EnvironmentFile=/etc/network-split.env`
    is removed wherever it occurs. The rest of its line, newline included,
    stays.
- `get_ip_address` collects the nodes' addresses, each quoted and followed by
  a space. It keeps an address when its type passes `not in ("ExternalIP")`,
  which in Python is a substring test on a plain string. The model keeps
  that test as written.
- `generate_mc_files` builds the `master` bundle, then the `worker` bundle.

Modules:
- `MachineConfig` and `Rdr` model the two source files. `MachineConfig` is
  the document itself: a datatype with functions that append a file, append a
  unit and set a file's mode.
- `PosixPath`, `PyStr`, `Base64`, `Utf8` and `Decimal` model the Python
  library behaviour the core relies on:
  - `PyStr`: `str.startswith`, `str.endswith`, `in` and `str.replace`;
  - `PosixPath`: `os.path.normpath`, including POSIX's two kept leading
    slashes, and `os.path.join`;
  - `Base64`: `base64.b64encode`;
  - `Utf8`: `str.encode`;
  - `Decimal`: `str(int)`.
- `Wrappers` and `Bytes` hold `Option`, `Result` and the byte type.

The YAML skeletons `MACHINECONFIG_SKELL`, `FILE_SKEL` and `UNIT_SKEL` become
the constants `MachineConfig.MachineConfigSkeleton`,
`MachineConfig.FileSkeleton` and `MachineConfig.UnitSkeleton`.

Python's `dict` mutation becomes a new value of the document datatype. The
three loops of `rdr.py` become methods with loops:
- the two address loops of `get_ip_address` are proved equal to the
  function `Rdr.PeerAddresses`;
- the role loop of `generate_mc_files` is proved to give documents that meet
  the predicate `Rdr.IsLatencyBundle`, one per role;
- `create_latency_mc_dict` has no loop and is proved to meet that same
  predicate.

A note on normalisation: the code normalises only `target_dir`, not the
joined path, and it never checks the basename. The model follows the code, so
two kinds of basename escape the allowed roots:
- a basename that starts with `/` replaces the directory when the path is
  joined (`MachineConfig.AbsoluteBasenameEscapes`);
- a relative basename with `..` is joined as text. The path still starts
  with `/etc` or `/var`, but it names a place outside them once it is
  resolved: `../tmp` under `/etc` gives `/etc/../tmp`, which is `/tmp`
  (`MachineConfig.DotDotBasenameEscapes`).

## Model

| member | source | states |
|---|---|---|
| MachineConfig.GetNewMc | rdrlatency/machineconfig.py:146-157 | name is `str(priority)-role-suffix`; the role label is the only label; no files or units; Ignition version 3.1.0; apiVersion and kind come from the skeleton |
| MachineConfig.GetNewMcDefaults | rdrlatency/machineconfig.py:146-155 | with the default priority, the name is `99-role-suffix` |
| MachineConfig.GetNewMcPriorityRecoverable | rdrlatency/machineconfig.py:155 | for a non-negative priority, the name's text up to the first `-` is its decimal, and it parses back to the priority; the rest is `role-suffix` |
| MachineConfig.ModesAreOctal | rdrlatency/machineconfig.py:69 | the YAML `0444` of the file skeleton is 292, and 356 is `0o544` |
| MachineConfig.MachineConfig.AppendFile | rdrlatency/rdr.py:39 | the file list gains the entry at its end; units and every other field are unchanged |
| MachineConfig.MachineConfig.AppendUnit | rdrlatency/rdr.py:109 | the unit list gains the entry at its end; files and every other field are unchanged |
| MachineConfig.MachineConfig.SetFileMode | rdrlatency/rdr.py:101 | only the mode of file `i` changes; every other file, the units and all other fields are kept |
| MachineConfig.CreateFileDict | rdrlatency/machineconfig.py:104-123 | succeeds iff the basename is present, the directory is absolute and its normal form starts with `/etc` or `/var`; each failure is its own error in check order; the source URL decodes back to the content; mode 292, owner and group root |
| MachineConfig.CreateFileDictPath | rdrlatency/machineconfig.py:112-117 | for a relative basename, the path is the normalised directory, `/` and the basename, with no second normalisation; as text it still starts with `/etc` or `/var`; with a plain-name basename it is already normal |
| MachineConfig.AbsoluteBasenameEscapes | rdrlatency/machineconfig.py:117 | a basename starting with `/` becomes the whole path, whatever the directory |
| MachineConfig.DotDotBasenameEscapes | rdrlatency/machineconfig.py:112-117 | `../n` under a directory `/d` that passes the test is accepted; its path `/d/../n` passes the prefix test as text, yet normalises to `/n` |
| MachineConfig.NormalDirClassified | rdrlatency/machineconfig.py:112-116 | for an already-normal directory, success iff it starts with `/etc` or `/var`; otherwise the error names that directory |
| MachineConfig.ClimbingOutRefused | rdrlatency/machineconfig.py:112-116 | `/d/../n` is judged by `/n`: accepted iff `n` starts with `etc` or `var`, otherwise refused naming `/n` |
| MachineConfig.DoubleSlashRefused | rdrlatency/machineconfig.py:112-116 | `//n` keeps its two slashes under normalisation and is refused, even `//etc` |
| MachineConfig.RelativeRefused | rdrlatency/machineconfig.py:104-111 | a relative directory is refused as relative; a missing or empty basename is refused first |
| MachineConfig.EtceteraAccepted | rdrlatency/machineconfig.py:113-117 | the prefix test lets `/etcetera` through, giving the path `/etcetera/f` |
| MachineConfig.DataUrl | rdrlatency/machineconfig.py:120-122 | the URL starts with the data prefix, and the rest base64-decodes to the UTF-8 bytes of the content |
| MachineConfig.DataUrlRoundTrip | rdrlatency/machineconfig.py:120-122 | decoding the data URL gives back the content |
| MachineConfig.DataUrlCanonical | rdrlatency/machineconfig.py:120-122 | the data URL of a content is the only text that decodes to that content, so a file's `contents.source` is fixed by what it decodes to |
| MachineConfig.CreateUnitDict | rdrlatency/machineconfig.py:138-143 | succeeds iff the name is present; the error is the empty-name error; the entry has that name and content, and is enabled |
| MachineConfig.CreateSystemdUnitDict | rdrlatency/machineconfig.py:169-171 | the unit for a non-empty file name carries the file's text and is enabled; an empty name is an error |
| PosixPath.NormPathIdempotent | rdrlatency/machineconfig.py:112 | normalising an absolute path twice is the same as once |
| PosixPath.NormPathNoTrailingSlash | rdrlatency/machineconfig.py:112 | a normalised absolute path starts with `/` and ends in `/` only when it is `/` or `//` |
| PosixPath.NormPathAbsoluteShape | rdrlatency/machineconfig.py:112 | a normalised absolute path is one or two slashes followed by the resolved names |
| PosixPath.NormPathClimbs | rdrlatency/machineconfig.py:112 | `/d/../n` normalises to `/n` |
| PosixPath.NormPathKeepsTwoSlashes | rdrlatency/machineconfig.py:112 | exactly two leading slashes are kept |
| PosixPath.NormPathCollapsesThreeSlashes | rdrlatency/machineconfig.py:112 | three leading slashes collapse to one |
| PosixPath.NormPathOfNormal | rdrlatency/machineconfig.py:112 | a path of one or two slashes followed by plain names is left as it is |
| PosixPath.JoinSplit | rdrlatency/machineconfig.py:112 | joining the `/`-separated parts of a string with `/` gives it back |
| PosixPath.SplitJoin | rdrlatency/machineconfig.py:112 | splitting a `/`-join of slash-free parts gives the parts back |
| PosixPath.NormPath | rdrlatency/machineconfig.py:112 | `posixpath.normpath`; it has no ensures of its own. Its properties are stated by the `NormPath…` lemmas below and used by `MachineConfig.CreateFileDict` |
| PosixPath.JoinPath | rdrlatency/machineconfig.py:117 | `posixpath.join` with two arguments; it has no ensures of its own. Its effect on the file path is stated by `MachineConfig.CreateFileDictPath` and `MachineConfig.AbsoluteBasenameEscapes` |
| Utf8.Encode | rdrlatency/machineconfig.py:121 | `str.encode()`, the UTF-8 forms of the characters in order; it has no ensures of its own. `Utf8.EncodeChar` and `Utf8.DecodeEncode` state its properties |
| Base64.Encode | rdrlatency/machineconfig.py:121 | the encoding has four characters for every started group of three bytes |
| Base64.DecodeEncode | rdrlatency/machineconfig.py:121 | decoding the encoding gives back the bytes, padding included |
| Base64.EncodeDecode | rdrlatency/machineconfig.py:121 | decoding is canonical: any text that decodes is exactly the encoding of its octets, so no two texts decode to the same octets |
| Base64.ValueSymbol | rdrlatency/machineconfig.py:121 | each 6-bit value's alphabet symbol maps back to the value |
| Utf8.EncodeChar | rdrlatency/machineconfig.py:121 | one to four bytes; one byte exactly for ASCII; every byte after the first is a continuation byte |
| Utf8.DecodeEncode | rdrlatency/machineconfig.py:121 | decoding the UTF-8 encoding gives back the string |
| Utf8.EncodeDecode | rdrlatency/machineconfig.py:121 | decoding is canonical: any well-formed byte string is exactly the encoding of its text, so no two byte strings decode to the same text |
| Decimal.IntToString | rdrlatency/machineconfig.py:155 | never empty; all digits iff non-negative; a leading `-` iff negative |
| Decimal.ParseIntToString | rdrlatency/machineconfig.py:155 | the decimal text of an integer parses back to it |
| PyStr.Contains | rdrlatency/rdr.py:121 | the `in` test on two strings; it has no ensures of its own. `PyStr.ContainsIff` ties it to an occurrence index |
| PyStr.Replace | rdrlatency/rdr.py:105-108 | `str.replace`, leftmost and non-overlapping, with Python's rule for an empty target; it has no ensures of its own. The `PyStr.Replace…` lemmas below state its properties |
| PyStr.ContainsIff | rdrlatency/rdr.py:121 | the scanning `in` test holds iff the needle occurs at some index |
| PyStr.ReplaceAbsent | rdrlatency/rdr.py:105-108 | a string without the target is left unchanged |
| PyStr.ReplaceSelf | rdrlatency/rdr.py:105-108 | replacing the target by itself changes nothing |
| PyStr.ReplaceIntroduces | rdrlatency/rdr.py:105 | when the target occurs, the replacement text appears |
| PyStr.ReplaceRemovesAll | rdrlatency/rdr.py:105 | with a non-empty replacement that shares no character with the target, no target is left |
| PyStr.ReplacePreserves | rdrlatency/rdr.py:106-108 | a text whose characters are foreign to the target survives the replacement |
| PyStr.ReplacePreservesMarked | rdrlatency/rdr.py:106-108 | a character followed by text foreign to the target survives too, when the target does not end in that character |
| Rdr.HalfDelay | rdrlatency/rdr.py:31-32 | `latency / 2` truncated toward zero: the remainder is 0 or 1 for a non-negative latency, and 0 or -1 otherwise |
| Rdr.HalfDelayExamples | rdrlatency/rdr.py:31-32 | 100 and 101 give 50; -3 gives -1, where floor division would give -2 |
| Rdr.HalfDelayBounds | rdrlatency/rdr.py:31-32 | the half lies between 0 and the latency, and halving is odd in the sign |
| Rdr.ShapingScript | rdrlatency/rdr.py:41-97 | the script text with the address list spliced in; it has no ensures of its own. `Rdr.ShapingScriptSplice` and `Rdr.ShapingScriptInjective` state its properties |
| Rdr.ShapingScriptSplice | rdrlatency/rdr.py:41-97 | the script is the fixed preamble and `declare -a ip_list=(`, then the address list verbatim, then the fixed tail |
| Rdr.ShapingScriptInjective | rdrlatency/rdr.py:41-97 | different address lists give different scripts |
| Rdr.UnitContents | rdrlatency/rdr.py:105-108 | the unit text after the two substitutions, in order; it has no ensures of its own. `Rdr.UnitContentsUntouched`, `Rdr.LatencyTokenReplaced` and `Rdr.UnitCarriesDelay` state its properties |
| Rdr.UnitContentsUntouched | rdrlatency/rdr.py:105-108 | a unit text with neither token comes through unchanged |
| Rdr.LatencyTokenReplaced | rdrlatency/rdr.py:105 | no `LATENCY_VALUE` is left after the first substitution |
| Rdr.UnitCarriesDelay | rdrlatency/rdr.py:105-108 | a unit text with `LATENCY_VALUE` ends up containing the decimal delay, sign included, after both substitutions |
| Rdr.IsLatencyBundle | rdrlatency/rdr.py:31-111 | what `create_latency_mc_dict` returns, as a predicate with no ensures of its own. It states: a `machineconfiguration.openshift.io/v1` `MachineConfig` named `99-role-network-latency`, with the role label and Ignition 3.1.0; exactly the module file and the script, with their paths, decoded contents, modes and root owners; exactly the unit, with the halved delay. Since decoding is canonical, this fixes each file's `contents.source` text, and `Rdr.LatencyBundleUnique` shows the predicate fixes the whole document |
| Rdr.CreateLatencyMcDict | rdrlatency/rdr.py:31-111 | the result is the latency bundle: a `machineconfiguration.openshift.io/v1` `MachineConfig`, name `99-role-network-latency`, role label, the module file with `sch_netem`, the script for the address list with mode 356, root owners, and the unit with half the latency; with `Rdr.LatencyBundleUnique`, equal inputs give the same document |
| Rdr.BundleAssembled | rdrlatency/rdr.py:33-109 | appending the two files, setting the second file's mode and appending the unit to the empty document gives the bundle |
| Rdr.BundleName | rdrlatency/rdr.py:33 | the bundle is named `99-role-network-latency` |
| Rdr.ModuleFileEntry | rdrlatency/rdr.py:36-38 | the module file is accepted and lands at `/etc/modules-load.d/sch_netem.conf` |
| Rdr.ScriptFileEntry | rdrlatency/rdr.py:99 | the script is accepted under the default `/etc` and lands at `/etc/network-latency.sh` |
| Rdr.ModulesLoadDirAccepted | rdrlatency/rdr.py:37 | `/etc/modules-load.d` is absolute, normal and inside the roots |
| Rdr.LatencyBundleUnique | rdrlatency/rdr.py:31-111 | two documents that meet the bundle predicate for the same role, latency, addresses and unit text are equal, field for field, so the builder's output is determined by its inputs |
| Rdr.BundleFileUnique | rdrlatency/machineconfig.py:119-123 | two root-owned file entries with the same path and mode that decode to the same text are the same entry, `contents.source` included |
| Rdr.BundlesDifferInRole | rdrlatency/rdr.py:140-142 | the `master` and `worker` bundles have different names but the same unit, and the same file paths and modes |
| Rdr.KeptAddresses | rdrlatency/rdr.py:120-123 | the quoted kept addresses of one node, in order; it has no ensures of its own. `Rdr.KeptAddressesAppend` and `Rdr.KeptInNode` state its properties |
| Rdr.PeerAddresses | rdrlatency/rdr.py:119-123 | the quoted kept addresses of all nodes, in node order; it has no ensures of its own. `Rdr.GetIpAddress` is proved equal to it. `Rdr.KeptAddressListed`, `Rdr.NoKeptNoPeers` and `Rdr.PeerAddressesAppend` state its properties |
| Rdr.GetIpAddress | rdrlatency/rdr.py:114-124 | the loop's result is the quoted kept addresses of all nodes, in node and address order |
| Rdr.KeptKinds | rdrlatency/rdr.py:121 | `ExternalIP` is kept; `InternalIP` and `Hostname` are not; the substring test also keeps the types `""` and `IP` |
| Rdr.KeptAddressListed | rdrlatency/rdr.py:119-123 | every kept address appears quoted in the result |
| Rdr.NoKeptNoPeers | rdrlatency/rdr.py:119-124 | with no kept address the result is empty |
| Rdr.PeerAddressesAppend | rdrlatency/rdr.py:198-204 | the list for two clusters' nodes is the first cluster's list followed by the second's, as `c1 + c2` relies on |
| Rdr.GenerateMcFiles | rdrlatency/rdr.py:140-142 | two documents: the `master` bundle, then the `worker` bundle, for the same latency, address list and unit text |

## Left out

- Running `oc get nodes -o yaml` (`run_oc`) and parsing its YAML are not modelled. `Rdr.GetIpAddress` takes the parsed nodes as a sequence of address lists.
- YAML loading of the skeletons and `yaml.dump_all` are not modelled. The skeletons become datatype values, and YAML 1.1's octal `0444` becomes the number it denotes.
- Reading the unit file from the package's `systemd` directory is not modelled. Its text is a parameter of `MachineConfig.CreateSystemdUnitDict` and of the `Rdr` methods.
- MachineConfig.CreateSystemdUnitDict: for an empty file name the model returns the empty-name error. The source instead tries to open the `systemd` directory itself and fails there with an I/O error, before `create_unit_dict` is reached.
- Writing the output file, `os.makedirs`, `os.getcwd`, `argparse`, logging and `main_setup_rdr` are not modelled. `generate_mc_files` is modelled without its file name; it returns the two documents that would be dumped.
- Rdr.HalfDelay: integer halving truncated toward zero. Python's float division is exact only up to 2^53, so this does not model the rounding of larger latencies.
- Rdr.GetIpAddress: the right operand of the type test is a parameter that defaults to `ExternalIP`. No other value occurs in the source.
- Rdr.UnitContentsUntouched: the removal of the environment-file directive text is not claimed to leave no occurrence behind. Removing text can join the pieces around it into a new occurrence, so the source does not promise that either.
- Text with lone surrogates is not modelled. A Python `str` may hold them, and `content.encode()` raises `UnicodeEncodeError` on them. A Dafny `char` is a Unicode scalar value, so the model cannot represent that error. No call in the core passes such text.
- The behaviour of the shaping script under bash, and of `tc`, is outside the model. Only the script's text is modelled.
- `ocp.py` and `setup.py` are not part of this model.
