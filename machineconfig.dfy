/** The builders of `rdrlatency/machineconfig.py`: an OpenShift
    `MachineConfig` document and the Ignition (configuration specification
    3.1.0) storage-file and systemd-unit entries that go into it. Each builder
    starts from a fixed skeleton and fills in its fields. */
module MachineConfig {
  import opened Wrappers
  import opened PyStr
  import opened PosixPath
  import Decimal
  import Utf8
  import Base64

  /** The `ValueError`s the builders raise, with what their messages show. */
  datatype ValueError =
    | EmptyBasename
    | RelativeTargetDir(targetDir: string)   // the directory as given
    | OutsideRoots(targetDir: string)        // the directory after normpath
    | EmptyUnitName

  datatype Owner = Owner(name: string)

  datatype FileContents = FileContents(source: string)

  /** An Ignition `storage.files` entry. */
  datatype FileEntry = FileEntry(path: string, contents: FileContents, mode: int, user: Owner, group: Owner)

  /** An Ignition `systemd.units` entry. */
  datatype UnitEntry = UnitEntry(name: string, enabled: bool, contents: string)

  datatype Metadata = Metadata(name: string, labels: map<string, string>)

  datatype Ignition = Ignition(version: string)

  datatype Storage = Storage(files: seq<FileEntry>)

  datatype Systemd = Systemd(units: seq<UnitEntry>)

  datatype Config = Config(ignition: Ignition, storage: Storage, systemd: Systemd)

  datatype Spec = Spec(config: Config)

  /** A `MachineConfig` document. */
  datatype MachineConfig = MachineConfig(apiVersion: string, kind: string, metadata: Metadata, spec: Spec)
  {
    function Files(): seq<FileEntry> { spec.config.storage.files }

    function Units(): seq<UnitEntry> { spec.config.systemd.units }

    /** `mcd["spec"]["config"]["storage"]["files"].append(f)` */
    function AppendFile(f: FileEntry): (mc: MachineConfig)
      ensures mc.Files() == Files() + [f] && mc.Units() == Units()
      ensures mc.apiVersion == apiVersion && mc.kind == kind && mc.metadata == metadata
      ensures mc.spec.config.ignition == spec.config.ignition
    {
      this.(spec := spec.(config := spec.config.(storage := Storage(Files() + [f]))))
    }

    /** `mcd["spec"]["config"]["systemd"]["units"].append(u)` */
    function AppendUnit(u: UnitEntry): (mc: MachineConfig)
      ensures mc.Units() == Units() + [u] && mc.Files() == Files()
      ensures mc.apiVersion == apiVersion && mc.kind == kind && mc.metadata == metadata
      ensures mc.spec.config.ignition == spec.config.ignition
    {
      this.(spec := spec.(config := spec.config.(systemd := Systemd(Units() + [u]))))
    }

    /** `mcd["spec"]["config"]["storage"]["files"][i]["mode"] = mode` */
    function SetFileMode(i: nat, mode: int): (mc: MachineConfig)
      requires i < |Files()|
      ensures |mc.Files()| == |Files()| && mc.Units() == Units()
      ensures mc.Files()[i] == Files()[i].(mode := mode)
      ensures forall j :: 0 <= j < |Files()| && j != i ==> mc.Files()[j] == Files()[j]
      ensures mc.apiVersion == apiVersion && mc.kind == kind && mc.metadata == metadata
      ensures mc.spec.config.ignition == spec.config.ignition
    {
      var files := Files()[i := Files()[i].(mode := mode)];
      this.(spec := spec.(config := spec.config.(storage := Storage(files))))
    }
  }

  const RoleLabel := "machineconfiguration.openshift.io/role"

  /** The value of an octal numeral such as YAML 1.1 reads `0444` as. */
  function Octal(digits: string): nat
    requires forall i :: 0 <= i < |digits| ==> '0' <= digits[i] <= '7'
    decreases |digits|
  {
    if |digits| == 0 then 0
    else Octal(digits[..|digits| - 1]) * 8 + (digits[|digits| - 1] as int - '0' as int)
  }

  /** `mode: 0444` in the file skeleton: YAML 1.1 reads a leading zero as
      octal, so the mode is 292. */
  const DefaultMode: int := 292

  lemma ModesAreOctal()
    ensures Octal("0444") == DefaultMode
    ensures Octal("0544") == 356
  {
    assert "0444"[..3] == "044" && "044"[..2] == "04" && "04"[..1] == "0";
    assert "0544"[..3] == "054" && "054"[..2] == "05" && "05"[..1] == "0";
  }

  /** `MACHINECONFIG_SKELL` as `yaml.safe_load` reads it. */
  const MachineConfigSkeleton: MachineConfig :=
    MachineConfig(
      "machineconfiguration.openshift.io/v1",
      "MachineConfig",
      Metadata("TODO", map[RoleLabel := "TODO"]),
      Spec(Config(Ignition("3.1.0"), Storage([]), Systemd([]))))

  /** `FILE_SKEL` as `yaml.safe_load` reads it. */
  const FileSkeleton: FileEntry :=
    FileEntry("TODO", FileContents("TODO"), DefaultMode, Owner("root"), Owner("root"))

  /** `UNIT_SKEL` as `yaml.safe_load` reads it. */
  const UnitSkeleton: UnitEntry := UnitEntry("TODO", true, "TODO")

  /** The RFC 2397 `data:` URL prefix for Base64-encoded UTF-8 text. */
  const DataUrlPrefix := "data:text/plain;charset=utf-8;base64,"

  /** The `contents.source` for a text: the prefix followed by Base64 of the
      UTF-8 bytes. */
  function DataUrl(content: string): (url: string)
    ensures StartsWith(url, DataUrlPrefix)
    ensures Base64.Decode(url[|DataUrlPrefix|..]) == Some(Utf8.Encode(content))
  {
    var payload := Base64.Encode(Utf8.Encode(content));
    Base64.DecodeEncode(Utf8.Encode(content));
    assert (DataUrlPrefix + payload)[|DataUrlPrefix|..] == payload;
    DataUrlPrefix + payload
  }

  /** What a node gets back from a `data:` URL of this form: `None` for any
      other form. */
  function DecodeDataUrl(url: string): Option<string>
  {
    if !StartsWith(url, DataUrlPrefix) then None
    else match Base64.Decode(url[|DataUrlPrefix|..])
      case None => None
      case Some(bytes) => Utf8.Decode(bytes)
  }

  /** Round trip: the node reads back exactly the text that was embedded. */
  lemma DataUrlRoundTrip(content: string)
    ensures DecodeDataUrl(DataUrl(content)) == Some(content)
  {
    Utf8.DecodeEncode(content);
  }

  /** Decoding is canonical: the only text that decodes to a content is that
      content's `data:` URL, so a file's `contents.source` is fixed by what a
      node reads back from it. */
  lemma DataUrlCanonical(url: string, content: string)
    requires DecodeDataUrl(url) == Some(content)
    ensures url == DataUrl(content)
  {
    var payload := url[|DataUrlPrefix|..];
    var bytes := Base64.Decode(payload).value;
    Base64.EncodeDecode(payload);
    Utf8.EncodeDecode(bytes);
    assert url == DataUrlPrefix + payload;
  }

  /** The whitelist of `create_file_dict`: a textual prefix test, so
      `/etcetera` passes as well as `/etc/foo`. */
  predicate InRoots(dir: string) {
    StartsWith(dir, "/etc") || StartsWith(dir, "/var")
  }

  predicate IsPresent(name: Option<string>) {
    name.Some? && |name.value| > 0
  }

  /** `create_file_dict(basename, content, target_dir)`: the basename is
      checked first, then that the raw directory is absolute, then that its
      normal form lies in `/etc` or `/var`; the path joins the normal form
      and the basename, and the content travels as a `data:` URL. */
  function CreateFileDict(basename: Option<string>, content: string, targetDir: string := "/etc"): (r: Result<FileEntry, ValueError>)
    ensures r.Ok? <==> IsPresent(basename) && StartsWith(targetDir, "/") && InRoots(NormPath(targetDir))
    ensures !IsPresent(basename) ==> r == Err(EmptyBasename)
    ensures IsPresent(basename) && !StartsWith(targetDir, "/") ==> r == Err(RelativeTargetDir(targetDir))
    ensures IsPresent(basename) && StartsWith(targetDir, "/") && !InRoots(NormPath(targetDir))
            ==> r == Err(OutsideRoots(NormPath(targetDir)))
    ensures r.Ok? ==> DecodeDataUrl(r.value.contents.source) == Some(content)
    ensures r.Ok? ==> r.value.mode == DefaultMode && r.value.user == Owner("root") && r.value.group == Owner("root")
  {
    if basename.None? || |basename.value| == 0 then Err(EmptyBasename)
    else if !StartsWith(targetDir, "/") then Err(RelativeTargetDir(targetDir))
    else
      var dir := NormPath(targetDir);
      if !InRoots(dir) then Err(OutsideRoots(dir))
      else
        DataUrlRoundTrip(content);
        Ok(FileSkeleton.(path := JoinPath(dir, basename.value), contents := FileContents(DataUrl(content))))
  }

  /** A successful entry's path is the normalised directory, a slash and the
      basename; it starts with `/etc` or `/var`, and for a basename that is a
      plain name normalising it again changes nothing. */
  lemma CreateFileDictPath(basename: string, content: string, targetDir: string)
    requires CreateFileDict(Some(basename), content, targetDir).Ok?
    requires !StartsWith(basename, "/")
    ensures var path := CreateFileDict(Some(basename), content, targetDir).value.path;
      && path == NormPath(targetDir) + "/" + basename
      && InRoots(path)
      && (IsName(basename) ==> NormPath(path) == path)
  {
    var dir := NormPath(targetDir);
    FileDictJoin(basename, content, targetDir);
    InRootsExtends(dir, "/", basename);
    if IsName(basename) {
      var kept := RootedDirShape(targetDir);
      NormalSnoc(kept, basename);
    }
  }

  lemma FileDictJoin(basename: string, content: string, targetDir: string)
    requires CreateFileDict(Some(basename), content, targetDir).Ok?
    requires !StartsWith(basename, "/")
    ensures CreateFileDict(Some(basename), content, targetDir).value.path == NormPath(targetDir) + "/" + basename
  {
    var _ := RootedDirShape(targetDir);
  }

  /** Text appended to a directory in the roots stays in the roots. */
  lemma InRootsExtends(dir: string, a: string, b: string)
    requires InRoots(dir)
    ensures InRoots(dir + a + b)
  {
    assert (dir + a + b)[..4] == dir[..4];
  }

  /** One more name after a normal directory is still normal. */
  lemma NormalSnoc(kept: seq<string>, c: string)
    requires kept != [] && AllNames(kept) && IsName(c)
    ensures NormPath("/" + JoinSlash(kept) + "/" + c) == "/" + JoinSlash(kept) + "/" + c
  {
    var cs := SnocNames(kept, c);
    NormPathOfNormal("/", cs);
  }

  /** The names with one more appended, and their slash-joined text. */
  lemma SnocNames(kept: seq<string>, c: string) returns (cs: seq<string>)
    requires kept != [] && AllNames(kept) && IsName(c)
    ensures AllNames(cs)
    ensures "/" + JoinSlash(cs) == "/" + JoinSlash(kept) + "/" + c
  {
    cs := kept + [c];
    JoinSnoc(kept, c);
    assert "/" + JoinSlash(kept) + "/" + c == "/" + (JoinSlash(kept) + "/" + c);
  }

  /** A directory that passes the whitelist is one slash followed by at least
      one name, so it does not end in a slash. */
  lemma RootedDirShape(targetDir: string) returns (kept: seq<string>)
    requires StartsWith(targetDir, "/") && InRoots(NormPath(targetDir))
    ensures kept != [] && AllNames(kept)
    ensures NormPath(targetDir) == "/" + JoinSlash(kept)
    ensures !EndsWith(NormPath(targetDir), "/")
  {
    var dir := NormPath(targetDir);
    NormPathAbsoluteShape(targetDir);
    NormPathNoTrailingSlash(targetDir);
    kept := Resolve([], Split(targetDir), true);
    assert dir[..4] == "/etc" || dir[..4] == "/var";
    assert dir[1] != '/';
    assert LeadingSlashes(targetDir) == "/";
    assert dir != "/" && dir != "//";
  }

  lemma JoinSnoc(cs: seq<string>, c: string)
    requires cs != []
    ensures JoinSlash(cs + [c]) == JoinSlash(cs) + "/" + c
    decreases |cs|
  {
    if |cs| > 1 {
      JoinSnoc(cs[1..], c);
      assert (cs + [c])[1..] == cs[1..] + [c];
    }
  }

  /** An absolute basename replaces the directory in `os.path.join`, so the
      whitelist on the directory does not confine the path: the entry lands
      at the basename itself, in `/tmp` or anywhere else. */
  lemma AbsoluteBasenameEscapes(basename: string, content: string, targetDir: string)
    requires StartsWith(basename, "/")
    requires CreateFileDict(Some(basename), content, targetDir).Ok?
    ensures CreateFileDict(Some(basename), content, targetDir).value.path == basename
  {
  }

  /** A relative basename is not confined either: the whitelist only sees the
      directory, so `../n` under an accepted `/d` is accepted, its path still
      starts with `/etc` or `/var` as text, and yet the path names `/n`, such
      as `/tmp` for `../tmp` under `/etc`. */
  lemma DotDotBasenameEscapes(d: string, n: string, content: string)
    requires IsName(d) && IsName(n) && (StartsWith(d, "etc") || StartsWith(d, "var"))
    ensures var r := CreateFileDict(Some("../" + n), content, "/" + d);
      && r.Ok?
      && r.value.path == "/" + d + "/../" + n
      && InRoots(r.value.path)
      && NormPath(r.value.path) == "/" + n
  {
    DotDotJoined(d, n, content);
    RootDirAccepted(d);
    InRootsExtends("/" + d, "/../", n);
    NormPathClimbs(d, n);
  }

  /** `../n` under an accepted `/d` is accepted and joined as text. */
  lemma DotDotJoined(d: string, n: string, content: string)
    requires IsName(d) && (StartsWith(d, "etc") || StartsWith(d, "var"))
    ensures var r := CreateFileDict(Some("../" + n), content, "/" + d);
      r.Ok? && r.value.path == "/" + d + "/../" + n
  {
    var dir := "/" + d;
    var basename := "../" + n;
    DotDotAccepted(d, n, content);
    assert basename[0] == '.';
    FileDictJoin(basename, content, dir);
    RootDirAccepted(d);
    assert NormPath(dir) + "/" + basename == "/" + d + "/../" + n;
  }

  lemma DotDotAccepted(d: string, n: string, content: string)
    requires IsName(d) && (StartsWith(d, "etc") || StartsWith(d, "var"))
    ensures CreateFileDict(Some("../" + n), content, "/" + d).Ok?
  {
    RootDirAccepted(d);
    Classify(Some("../" + n), content, "/" + d, "/" + d);
  }

  /** One name starting with `etc` or `var`, after a slash, is an accepted
      normal directory. */
  lemma RootDirAccepted(d: string)
    requires IsName(d) && (StartsWith(d, "etc") || StartsWith(d, "var"))
    ensures NormPath("/" + d) == "/" + d && StartsWith("/" + d, "/") && InRoots("/" + d)
  {
    assert JoinSlash([d]) == d;
    NormalDir("/" + d, [d]);
    SlashPrefix(d, "etc");
    SlashPrefix(d, "var");
  }

  /** For a directory written as one slash and names, the whitelist is a
      textual test on those names: it passes exactly when their text starts
      with `etc` or `var`, so `/etcetera` passes and `/tmp` does not. */
  lemma NormalDirClassified(cs: seq<string>, basename: Option<string>, content: string)
    requires AllNames(cs) && IsPresent(basename)
    ensures var r := CreateFileDict(basename, content, "/" + JoinSlash(cs));
      && (r.Ok? <==> StartsWith(JoinSlash(cs), "etc") || StartsWith(JoinSlash(cs), "var"))
      && (r.Err? ==> r.error == OutsideRoots("/" + JoinSlash(cs)))
  {
    var dir := "/" + JoinSlash(cs);
    NormalDir(dir, cs);
    SlashPrefix(JoinSlash(cs), "etc");
    SlashPrefix(JoinSlash(cs), "var");
    assert "/" + "etc" == "/etc" && "/" + "var" == "/var";
    Classify(basename, content, dir, dir);
  }

  /** A leading slash on both sides does not change a prefix test. */
  lemma SlashPrefix(s: string, p: string)
    ensures StartsWith("/" + s, "/" + p) <==> StartsWith(s, p)
  {
    if |p| <= |s| {
      assert ("/" + s)[..|p| + 1] == "/" + s[..|p|];
      assert ("/" + s[..|p|])[1..] == s[..|p|];
      assert ("/" + p)[1..] == p;
    }
  }

  /** A `..` climbing out of a directory is resolved before the whitelist is
      applied, and the error names the directory reached: `/etc/../tmp` is
      refused as `/tmp`. */
  lemma ClimbingOutRefused(d: string, n: string, basename: Option<string>, content: string)
    requires IsName(d) && IsName(n) && IsPresent(basename)
    ensures var r := CreateFileDict(basename, content, "/" + d + "/../" + n);
      && (r.Ok? <==> StartsWith(n, "etc") || StartsWith(n, "var"))
      && (r.Err? ==> r.error == OutsideRoots("/" + n))
  {
    var dir := "/" + d + "/../" + n;
    NormPathClimbs(d, n);
    assert dir[..1] == "/";
    SlashPrefix(n, "etc");
    SlashPrefix(n, "var");
    assert "/" + "etc" == "/etc" && "/" + "var" == "/var";
    Classify(basename, content, dir, "/" + n);
  }

  /** `//n` is refused: `normpath` keeps both slashes, so the text does not
      start with `/etc` or `/var`. */
  lemma DoubleSlashRefused(n: string, basename: Option<string>, content: string)
    requires IsName(n) && IsPresent(basename)
    ensures CreateFileDict(basename, content, "//" + n) == Err(OutsideRoots("//" + n))
  {
    var dir := "//" + n;
    NormPathKeepsTwoSlashes(n);
    assert dir[..1] == "/";
    SecondSlashOutside(dir);
    Classify(basename, content, dir, dir);
  }

  /** A text whose second character is a slash starts with neither `/etc`
      nor `/var`. */
  lemma SecondSlashOutside(dir: string)
    requires |dir| >= 2 && dir[1] == '/'
    ensures !InRoots(dir)
  {
    assert "/etc"[1] == 'e' && "/var"[1] == 'v';
    if |dir| >= 4 {
      assert dir[..4][1] == '/';
    }
  }

  /** A relative directory is refused before it is normalised, and a missing
      basename before the directory is looked at. */
  lemma RelativeRefused(content: string)
    ensures CreateFileDict(Some("f"), content, "etc") == Err(RelativeTargetDir("etc"))
    ensures CreateFileDict(None, content, "etc") == Err(EmptyBasename)
    ensures CreateFileDict(Some(""), content, "/tmp") == Err(EmptyBasename)
  {
    assert "etc"[..1][0] == 'e';
  }

  /** `/etcetera` passes too, and the file lands in it. */
  lemma EtceteraAccepted(content: string)
    ensures CreateFileDict(Some("f"), content, "/etcetera").Ok?
    ensures CreateFileDict(Some("f"), content, "/etcetera").value.path == "/etcetera/f"
  {
    EtceteraNormal();
    Classify(Some("f"), content, "/etcetera", "/etcetera");
    assert "f"[0] != '/';
    CreateFileDictPath("f", content, "/etcetera");
  }

  lemma EtceteraNormal()
    ensures NormPath("/etcetera") == "/etcetera" && StartsWith("/etcetera", "/") && InRoots("/etcetera")
  {
    NormalDir("/etcetera", ["etcetera"]);
    assert "/etcetera"[..4] == "/etc";
  }

  /** The outcome for an absolute directory, given its normal form. */
  lemma Classify(basename: Option<string>, content: string, dir: string, normal: string)
    requires IsPresent(basename) && StartsWith(dir, "/") && NormPath(dir) == normal
    ensures InRoots(normal) ==> CreateFileDict(basename, content, dir).Ok?
    ensures !InRoots(normal) ==> CreateFileDict(basename, content, dir) == Err(OutsideRoots(normal))
  {
  }

  /** A directory spelled as names after one slash is its own normal form. */
  lemma NormalDir(dir: string, cs: seq<string>)
    requires AllNames(cs)
    requires dir == "/" + JoinSlash(cs)
    ensures NormPath(dir) == dir && StartsWith(dir, "/")
  {
    NormPathOfNormal("/", cs);
    assert dir[..1] == "/";
  }

  /** `create_unit_dict(name, content)`: a missing or empty name is refused;
      otherwise the name and the text are copied verbatim and the unit is
      enabled. */
  function CreateUnitDict(name: Option<string>, content: string): (r: Result<UnitEntry, ValueError>)
    ensures r.Ok? <==> IsPresent(name)
    ensures r.Err? ==> r.error == EmptyUnitName
    ensures r.Ok? ==> r.value.name == name.value && r.value.contents == content && r.value.enabled
  {
    if name.None? || |name.value| == 0 then Err(EmptyUnitName)
    else Ok(UnitSkeleton.(name := name.value, contents := content))
  }

  /** `create_systemdunit_dict(unit_filename)`, with the text of the unit file
      passed in instead of read from the bundled `systemd` directory. */
  function CreateSystemdUnitDict(unitFilename: string, unitFileText: string): (r: Result<UnitEntry, ValueError>)
    ensures |unitFilename| > 0 ==> r == Ok(UnitEntry(unitFilename, true, unitFileText))
    ensures |unitFilename| == 0 ==> r == Err(EmptyUnitName)
  {
    CreateUnitDict(Some(unitFilename), unitFileText)
  }

  /** `get_new_mc(role, name_suffix, priority=99)`: an empty document named
      `<priority>-<role>-<suffix>` and labelled with the role. Neither the
      role nor the suffix is checked. */
  function GetNewMc(role: string, nameSuffix: string, priority: int := 99): (mc: MachineConfig)
    ensures mc.metadata.name == Decimal.IntToString(priority) + "-" + role + "-" + nameSuffix
    ensures mc.metadata.labels == map[RoleLabel := role]
    ensures mc.Files() == [] && mc.Units() == []
    ensures mc.spec.config.ignition.version == "3.1.0"
    ensures mc.apiVersion == MachineConfigSkeleton.apiVersion && mc.kind == MachineConfigSkeleton.kind
  {
    var labels := MachineConfigSkeleton.metadata.labels[RoleLabel := role];
    assert labels == map[RoleLabel := role];
    MachineConfigSkeleton.(metadata := Metadata(Decimal.IntToString(priority) + "-" + role + "-" + nameSuffix, labels))
  }

  /** The name gives back the priority: for a non-negative priority it is the
      digits up to the first dash. */
  lemma GetNewMcPriorityRecoverable(role: string, nameSuffix: string, priority: nat)
    ensures var name := GetNewMc(role, nameSuffix, priority).metadata.name;
      var k := |Decimal.NatToString(priority)|;
      && k < |name| && name[k] == '-'
      && (forall i :: 0 <= i < k ==> name[i] != '-')
      && Decimal.ParseInt(name[..k]) == Some(priority)
      && name[k + 1..] == role + "-" + nameSuffix
  {
    var digits := Decimal.NatToString(priority);
    var rest := role + "-" + nameSuffix;
    var name := GetNewMc(role, nameSuffix, priority).metadata.name;
    assert name == digits + "-" + role + "-" + nameSuffix;
    assert name == digits + ("-" + rest);
    assert name[..|digits|] == digits;
    assert name[|digits| + 1..] == rest;
    assert name[|digits|] == '-';
    Decimal.ParseIntToString(priority);
    assert forall i :: 0 <= i < |digits| ==> name[i] == digits[i] && Decimal.IsDigit(digits[i]);
  }

  /** The default priority is 99, and neither part is refused, even empty. */
  lemma GetNewMcDefaults(role: string, nameSuffix: string)
    ensures GetNewMc(role, nameSuffix).metadata.name == "99-" + role + "-" + nameSuffix
  {
    NinetyNine();
  }

  lemma NinetyNine()
    ensures Decimal.IntToString(99) + "-" == "99-"
  {
    assert Decimal.NatToString(9) == "9";
    assert Decimal.NatToString(99) == "99";
  }
}
