/** The latency bundle of `rdrlatency/rdr.py`: for one node role, a
    `MachineConfig` that loads `sch_netem`, installs the traffic-shaping
    script and a systemd unit that runs it with half the requested latency;
    the peer addresses the script shapes traffic towards; and the pair of
    bundles for the `master` and `worker` roles. */
module Rdr {
  import opened Wrappers
  import opened PyStr
  import opened PosixPath
  import Decimal
  import opened MachineConfig

  /** `int(latency / 2)`: true division followed by truncation toward zero,
      so the half of an odd negative latency rounds up. */
  function HalfDelay(latency: int): (d: int)
    ensures latency >= 0 ==> 0 <= latency - 2 * d <= 1
    ensures latency < 0 ==> -1 <= latency - 2 * d <= 0
  {
    if latency >= 0 then latency / 2 else -((-latency) / 2)
  }

  lemma HalfDelayExamples()
    ensures HalfDelay(100) == 50 && HalfDelay(101) == 50 && HalfDelay(-3) == -1
    ensures (-3) / 2 == -2
  {
  }

  /** The halved delay never exceeds the latency in size and has its sign. */
  lemma HalfDelayBounds(latency: int)
    ensures latency >= 0 ==> 0 <= HalfDelay(latency) <= latency
    ensures latency <= 0 ==> latency <= HalfDelay(latency) <= 0
    ensures HalfDelay(-latency) == -HalfDelay(latency)
  {
  }

  /** The shaping script up to the peer-address list. */
  const ScriptPreamble: string := @"#!/bin/bash
# Copyright 2021 Martin Bukatovič <mbukatov@redhat.com>
#
# Licensed under the Apache License, Version 2.0 (the ""License"");
# you may not use this file except in compliance with the License.
# You may obtain a copy of the License at
#
#     http://www.apache.org/licenses/LICENSE-2.0
#
# Unless required by applicable law or agreed to in writing, software
# distributed under the License is distributed on an ""AS IS"" BASIS,
# WITHOUT WARRANTIES OR CONDITIONS OF ANY KIND, either express or implied.
# See the License for the specific language governing permissions and
# limitations under the License.


if [[ $# = 0 ]]; then
  show_help
  exit
fi

# debug mode
if [[ $1 = ""-d"" ]]; then
  # shellcheck disable=SC2209
  DEBUG_MODE=echo
  shift
else
  unset DEBUG_MODE
fi

# integer with egress latency is the only argument of the script
case $1 in
  help|-h)   show_help; exit;;
  [0-9]*)    latency=$1; shift;;
  *)         show_help; exit 1
esac


# locate main network interface (assuming all nodes are on a single network)
iface=$(ip route show default | cut -d' ' -f5)

# TODO: polish this to create as few changes in traffic queues as possible,
# so that the original configuration could be restored without node reboot
$DEBUG_MODE tc qdisc del dev ""${iface}"" root
$DEBUG_MODE tc qdisc add dev ""${iface}"" root handle 1: prio
$DEBUG_MODE tc qdisc add dev ""${iface}"" parent 1:1 handle 2: netem delay ""${latency}""ms

# create tc filter/classifier for nodes in other zones, and direct traffic
# heading to them via netem qdisc
"

  const ListOpen := "declare -a ip_list=("

  const ListClose := ")"

  /** The loop that directs traffic for each listed address through netem. */
  const ScriptLoop: string := @"


for ip_adddr in ""${ip_list[@]}""; do
    $DEBUG_MODE tc filter add dev ""${iface}"" parent 1: protocol ip prio 2 u32 match ip dst $ip_adddr/32 flowid 3:1
done

    "

  /** The text of `network-latency.sh`: fixed text with the peer-address
      string spliced verbatim into the bash array literal. */
  function ShapingScript(ipList: string): string {
    ScriptPreamble + ListOpen + ipList + ListClose + ScriptLoop
  }

  /** The address string sits between the array opener and its closing
      parenthesis and can be cut back out of the script. */
  lemma ShapingScriptSplice(ipList: string)
    ensures var s := ShapingScript(ipList);
      var k := |ScriptPreamble + ListOpen|;
      && StartsWith(s, ScriptPreamble + ListOpen)
      && k + |ipList| + |ListClose + ScriptLoop| == |s|
      && s[k..k + |ipList|] == ipList
      && s[k + |ipList|..] == ListClose + ScriptLoop
  {
    var s := ShapingScript(ipList);
    var h := ScriptPreamble + ListOpen;
    assert s == h + ipList + (ListClose + ScriptLoop);
  }

  /** Different address strings give different scripts. */
  lemma ShapingScriptInjective(a: string, b: string)
    requires ShapingScript(a) == ShapingScript(b)
    ensures a == b
  {
    ShapingScriptSplice(a);
    ShapingScriptSplice(b);
  }

  const LatencyToken := "LATENCY_VALUE"

  const EnvironmentLine := "EnvironmentFile=/etc/network-split.env"

  /** The unit text after the two substitutions, in order: every
      `LATENCY_VALUE` becomes the decimal delay, then the text of every
      environment-file directive is removed (the rest of its line stays). */
  function UnitContents(template: string, delay: int): string {
    Replace(Replace(template, LatencyToken, Decimal.IntToString(delay)), EnvironmentLine, "")
  }

  /** A template with neither token comes through unchanged. */
  lemma UnitContentsUntouched(template: string, delay: int)
    requires !Contains(template, LatencyToken) && !Contains(template, EnvironmentLine)
    ensures UnitContents(template, delay) == template
  {
    ReplaceAbsent(template, LatencyToken, Decimal.IntToString(delay));
    ReplaceAbsent(template, EnvironmentLine, "");
  }

  /** The first substitution leaves no `LATENCY_VALUE` behind: the decimal
      text of the delay shares no character with the token. */
  lemma LatencyTokenReplaced(template: string, delay: int)
    ensures !Contains(Replace(template, LatencyToken, Decimal.IntToString(delay)), LatencyToken)
  {
    var digits := Decimal.IntToString(delay);
    forall i | 0 <= i < |digits|
      ensures digits[i] !in LatencyToken
    {
      assert Decimal.IsDigit(digits[i]) || digits[i] == '-' by {
        DecimalChars(delay, i);
      }
    }
    ReplaceRemovesAll(template, LatencyToken, digits);
  }

  /** Every character of the decimal text of an integer is a digit or its
      leading minus sign. */
  lemma DecimalChars(n: int, i: int)
    requires 0 <= i < |Decimal.IntToString(n)|
    ensures Decimal.IsDigit(Decimal.IntToString(n)[i]) || Decimal.IntToString(n)[i] == '-'
  {
    if n < 0 {
      var s := Decimal.IntToString(n);
      assert s == "-" + Decimal.NatToString(-n);
      if i > 0 {
        assert s[i] == Decimal.NatToString(-n)[i - 1];
      }
    }
  }

  /** A template that mentions `LATENCY_VALUE` ends up carrying the decimal
      text of the delay, sign included: the second substitution cannot break
      it, since its target holds no digit and does not end in a minus sign. */
  lemma UnitCarriesDelay(template: string, delay: int)
    requires Contains(template, LatencyToken)
    ensures Contains(UnitContents(template, delay), Decimal.IntToString(delay))
  {
    var text := Decimal.IntToString(delay);
    var digits := Decimal.NatToString(if delay < 0 then -delay else delay);
    var step := Replace(template, LatencyToken, text);
    ReplaceIntroduces(template, LatencyToken, text);
    forall i | 0 <= i < |digits|
      ensures digits[i] !in EnvironmentLine
    {
      assert Decimal.IsDigit(digits[i]);
    }
    if delay < 0 {
      assert text == ['-'] + digits;
      assert EnvironmentLine[|EnvironmentLine| - 1] == 'v';
      ReplacePreservesMarked(step, '-', digits, EnvironmentLine, "");
    } else {
      assert text == digits;
      ReplacePreserves(step, digits, EnvironmentLine, "");
    }
  }

  const ModulesLoadDir := "/etc/modules-load.d"

  /** The text of the module-load file: the one module to load. */
  const ModuleText := "sch_netem"

  const ModuleFilePath := "/etc/modules-load.d/sch_netem.conf"

  const ScriptPath := "/etc/network-latency.sh"

  /** The mode `0o544` the script is given after it has been added. */
  const ScriptMode := 356

  /** What `create_latency_mc_dict(role, latency, ip_list)` returns: a
      `machineconfiguration.openshift.io/v1` `MachineConfig` named `99-<role>-network-latency` and labelled with the role,
      holding exactly the `sch_netem` module-load file, the shaping script
      with mode `0o544`, and the `network-latency.service` unit with the
      halved delay written in. */
  predicate IsLatencyBundle(mc: MachineConfig, role: string, latency: int, ipList: string, unitTemplate: string) {
    && mc.apiVersion == MachineConfigSkeleton.apiVersion && mc.kind == MachineConfigSkeleton.kind
    && mc.metadata.name == "99-" + role + "-network-latency"
    && mc.metadata.labels == map[RoleLabel := role]
    && mc.spec.config.ignition.version == "3.1.0"
    && |mc.Files()| == 2 && |mc.Units()| == 1
    && mc.Files()[0].path == ModuleFilePath
    && DecodeDataUrl(mc.Files()[0].contents.source) == Some(ModuleText)
    && mc.Files()[0].mode == DefaultMode
    && mc.Files()[1].path == ScriptPath
    && DecodeDataUrl(mc.Files()[1].contents.source) == Some(ShapingScript(ipList))
    && mc.Files()[1].mode == ScriptMode
    && (forall f :: f in mc.Files() ==> f.user == Owner("root") && f.group == Owner("root"))
    && mc.Units()[0] == UnitEntry("network-latency.service", true, UnitContents(unitTemplate, HalfDelay(latency)))
  }

  /** `create_latency_mc_dict(role, latency, ip_list)`, with the unit file's
      text passed in. */
  method CreateLatencyMcDict(role: string, latency: int, ipList: string, unitTemplate: string) returns (mcd: MachineConfig)
    ensures IsLatencyBundle(mcd, role, latency, ipList, unitTemplate)
  {
    var delay := HalfDelay(latency);
    mcd := GetNewMc(role, "network-latency");
    BundleName(role);
    ghost var empty := mcd;

    var moduleName, moduleText := "sch_netem.conf", ModuleText;
    var fileDict := CreateFileDict(Some(moduleName), moduleText, ModulesLoadDir);
    ModuleFileEntry(moduleText);
    mcd := mcd.AppendFile(fileDict.value);

    var networkLatency := ShapingScript(ipList);
    var scriptName := "network-latency.sh";
    var scriptDict := CreateFileDict(Some(scriptName), networkLatency);
    ScriptFileEntry(networkLatency);
    mcd := mcd.AppendFile(scriptDict.value);
    mcd := mcd.SetFileMode(1, ScriptMode);

    var unitDict := CreateSystemdUnitDict("network-latency.service", unitTemplate);
    var unit := unitDict.value;
    unit := unit.(contents := Replace(unit.contents, LatencyToken, Decimal.IntToString(delay)));
    unit := unit.(contents := Replace(unit.contents, EnvironmentLine, ""));
    mcd := mcd.AppendUnit(unit);
    BundleAssembled(empty, fileDict.value, scriptDict.value, unit, role, latency, ipList, unitTemplate);
  }

  /** Appending the two file entries, setting the second one's mode and
      appending the unit to the empty document gives the bundle. */
  lemma BundleAssembled(empty: MachineConfig, moduleFile: FileEntry, scriptFile: FileEntry, unit: UnitEntry,
                        role: string, latency: int, ipList: string, unitTemplate: string)
    requires empty.apiVersion == MachineConfigSkeleton.apiVersion && empty.kind == MachineConfigSkeleton.kind
    requires empty.metadata.name == "99-" + role + "-network-latency"
    requires empty.metadata.labels == map[RoleLabel := role]
    requires empty.spec.config.ignition.version == "3.1.0"
    requires empty.Files() == [] && empty.Units() == []
    requires moduleFile.path == ModuleFilePath && moduleFile.mode == DefaultMode
    requires DecodeDataUrl(moduleFile.contents.source) == Some(ModuleText)
    requires scriptFile.path == ScriptPath
    requires DecodeDataUrl(scriptFile.contents.source) == Some(ShapingScript(ipList))
    requires moduleFile.user == moduleFile.group == scriptFile.user == scriptFile.group == Owner("root")
    requires unit == UnitEntry("network-latency.service", true, UnitContents(unitTemplate, HalfDelay(latency)))
    ensures IsLatencyBundle(empty.AppendFile(moduleFile).AppendFile(scriptFile).SetFileMode(1, ScriptMode).AppendUnit(unit),
                            role, latency, ipList, unitTemplate)
  {
    var mc := empty.AppendFile(moduleFile).AppendFile(scriptFile).SetFileMode(1, ScriptMode).AppendUnit(unit);
    assert mc.Files() == [moduleFile, scriptFile.(mode := ScriptMode)];
    assert mc.Units() == [unit];
  }

  /** The bundle's name: the default priority 99, the role and the suffix. */
  lemma BundleName(role: string)
    ensures GetNewMc(role, "network-latency").metadata.name == "99-" + role + "-network-latency"
  {
    assert Decimal.NatToString(9) == "9";
    assert Decimal.IntToString(99) == "99";
  }

  /** The module-load file is accepted and lands at its fixed path. */
  lemma ModuleFileEntry(content: string)
    ensures CreateFileDict(Some("sch_netem.conf"), content, ModulesLoadDir).Ok?
    ensures CreateFileDict(Some("sch_netem.conf"), content, ModulesLoadDir).value.path == ModuleFilePath
  {
    ModulesLoadDirAccepted();
    Classify(Some("sch_netem.conf"), content, ModulesLoadDir, ModulesLoadDir);
    assert "sch_netem.conf"[0] != '/';
    CreateFileDictPath("sch_netem.conf", content, ModulesLoadDir);
    ModuleFilePathSpelled();
  }

  lemma ModuleFilePathSpelled()
    ensures ModulesLoadDir + "/" + "sch_netem.conf" == ModuleFilePath
  {
  }

  /** The script file, in the default directory `/etc`, is accepted and lands
      at its fixed path. */
  lemma ScriptFileEntry(content: string)
    ensures CreateFileDict(Some("network-latency.sh"), content).Ok?
    ensures CreateFileDict(Some("network-latency.sh"), content).value.path == ScriptPath
  {
    EtcAccepted();
    Classify(Some("network-latency.sh"), content, "/etc", "/etc");
    assert "network-latency.sh"[0] != '/';
    CreateFileDictPath("network-latency.sh", content, "/etc");
    ScriptPathSpelled();
  }

  lemma ScriptPathSpelled()
    ensures "/etc" + "/" + "network-latency.sh" == ScriptPath
  {
  }

  lemma ModulesLoadDirAccepted()
    ensures StartsWith(ModulesLoadDir, "/") && NormPath(ModulesLoadDir) == ModulesLoadDir && InRoots(ModulesLoadDir)
  {
    ModulesLoadDirNormal();
    ModulesLoadDirInRoots();
  }

  lemma ModulesLoadDirNormal()
    ensures StartsWith(ModulesLoadDir, "/") && NormPath(ModulesLoadDir) == ModulesLoadDir
  {
    var cs := ModulesLoadParts();
    NormalDir(ModulesLoadDir, cs);
  }

  lemma ModulesLoadDirInRoots()
    ensures InRoots(ModulesLoadDir)
  {
    assert ModulesLoadDir[..4] == "/etc";
  }

  lemma ModulesLoadParts() returns (cs: seq<string>)
    ensures AllNames(cs) && ModulesLoadDir == "/" + JoinSlash(cs)
  {
    ModulesLoadNames();
    cs := JoinTwo("etc", "modules-load.d");
    ModulesLoadDirSpelled();
  }

  lemma ModulesLoadNames()
    ensures IsName("etc") && IsName("modules-load.d")
  {
  }

  lemma ModulesLoadDirSpelled()
    ensures "/" + ("etc" + "/" + "modules-load.d") == ModulesLoadDir
  {
  }

  /** Two names joined by a slash. */
  lemma JoinTwo(a: string, b: string) returns (cs: seq<string>)
    requires IsName(a) && IsName(b)
    ensures cs == [a, b] && AllNames(cs) && JoinSlash(cs) == a + "/" + b
  {
    cs := [a, b];
    assert cs[1..] == [b];
  }

  lemma EtcAccepted()
    ensures StartsWith("/etc", "/") && NormPath("/etc") == "/etc" && InRoots("/etc")
  {
    NormalDir("/etc", ["etc"]);
    assert "/etc"[..4] == "/etc";
  }

  /** The bundle is determined by its inputs: two documents that both meet
      the predicate for the same role, latency, addresses and unit text are
      the same document, field for field. */
  lemma LatencyBundleUnique(a: MachineConfig, b: MachineConfig, role: string, latency: int, ipList: string, unitTemplate: string)
    requires IsLatencyBundle(a, role, latency, ipList, unitTemplate)
    requires IsLatencyBundle(b, role, latency, ipList, unitTemplate)
    ensures a == b
  {
    BundleFilesUnique(a, b, role, latency, ipList, unitTemplate);
    assert a.Units() == [a.Units()[0]] && b.Units() == [b.Units()[0]];
    assert a.metadata == b.metadata;
    assert a.spec.config.ignition == b.spec.config.ignition;
    assert a.spec.config.storage == Storage(a.Files()) && b.spec.config.storage == Storage(b.Files());
    assert a.spec.config.systemd == Systemd(a.Units()) && b.spec.config.systemd == Systemd(b.Units());
  }

  lemma BundleFilesUnique(a: MachineConfig, b: MachineConfig, role: string, latency: int, ipList: string, unitTemplate: string)
    requires IsLatencyBundle(a, role, latency, ipList, unitTemplate)
    requires IsLatencyBundle(b, role, latency, ipList, unitTemplate)
    ensures a.Files() == b.Files()
  {
    BundleFileUnique(a.Files()[0], b.Files()[0], ModuleText);
    BundleFileUnique(a.Files()[1], b.Files()[1], ShapingScript(ipList));
    assert a.Files() == [a.Files()[0], a.Files()[1]] && b.Files() == [b.Files()[0], b.Files()[1]];
  }

  /** Two file entries that agree in path and mode, are owned by root and
      decode to the same text are the same entry. */
  lemma BundleFileUnique(f: FileEntry, g: FileEntry, text: string)
    requires f.path == g.path && f.mode == g.mode
    requires f.user == f.group == g.user == g.group == Owner("root")
    requires DecodeDataUrl(f.contents.source) == Some(text) && DecodeDataUrl(g.contents.source) == Some(text)
    ensures f == g
  {
    DataUrlCanonical(f.contents.source, text);
    DataUrlCanonical(g.contents.source, text);
  }

  /** The master and worker bundles for the same inputs differ only in what
      names the role: their files sit at the same paths with the same modes,
      and their units agree. */
  lemma BundlesDifferInRole(a: MachineConfig, b: MachineConfig, latency: int, ipList: string, unitTemplate: string)
    requires IsLatencyBundle(a, "master", latency, ipList, unitTemplate)
    requires IsLatencyBundle(b, "worker", latency, ipList, unitTemplate)
    ensures a.metadata.name != b.metadata.name
    ensures a.Units() == b.Units()
    ensures a.Files()[0].path == b.Files()[0].path && a.Files()[0].mode == b.Files()[0].mode
    ensures a.Files()[1].path == b.Files()[1].path && a.Files()[1].mode == b.Files()[1].mode
  {
    assert a.metadata.name[3] == 'm' && b.metadata.name[3] == 'w';
    assert a.Units() == [a.Units()[0]] && b.Units() == [b.Units()[0]];
  }

  /** An entry of a node's `status.addresses`. */
  datatype NodeAddress = NodeAddress(kind: string, address: string)

  /** An entry of the `items` of `oc get nodes -o yaml`. */
  datatype Node = Node(addresses: seq<NodeAddress>)

  /** The right operand of the type test. */
  const ExternalIP := "ExternalIP"

  /** `addr_d["type"] not in (addressType)` is false. The parentheses in
      `("ExternalIP")` make a plain string, not a tuple, so the test is whether
      the type is a substring of it. */
  predicate Kept(a: NodeAddress, addressType: string) {
    Contains(addressType, a.kind)
  }

  function Quoted(a: NodeAddress): string {
    "'" + a.address + "' "
  }

  /** What one address adds to the result. */
  function Piece(a: NodeAddress, addressType: string): string {
    if Kept(a, addressType) then Quoted(a) else ""
  }

  /** The quoted kept addresses of one node, in order. */
  function KeptAddresses(addrs: seq<NodeAddress>, addressType: string): string {
    if |addrs| == 0 then ""
    else KeptAddresses(addrs[..|addrs| - 1], addressType) + Piece(addrs[|addrs| - 1], addressType)
  }

  /** The quoted kept addresses of all nodes, in node order. */
  function PeerAddresses(items: seq<Node>, addressType: string): string {
    if |items| == 0 then ""
    else PeerAddresses(items[..|items| - 1], addressType) + KeptAddresses(items[|items| - 1].addresses, addressType)
  }

  /** The address loop of `get_ip_address`, over nodes already parsed; the
      operand of the type test is a parameter that defaults to the source's
      `ExternalIP`. */
  method GetIpAddress(items: seq<Node>, addressType: string := ExternalIP) returns (ipAddrs: string)
    ensures ipAddrs == PeerAddresses(items, addressType)
  {
    ipAddrs := "";
    for i := 0 to |items|
      invariant ipAddrs == PeerAddresses(items[..i], addressType)
    {
      var node := items[i];
      for j := 0 to |node.addresses|
        invariant ipAddrs == PeerAddresses(items[..i], addressType) + KeptAddresses(node.addresses[..j], addressType)
      {
        var addrD := node.addresses[j];
        AddressStep(PeerAddresses(items[..i], addressType), node.addresses, j, addressType);
        if !Kept(addrD, addressType) {
          continue;
        }
        ipAddrs := ipAddrs + ("'" + addrD.address + "' ");
      }
      NodeStep(items, i, addressType);
    }
    TakeAll(items);
  }

  /** The inner loop's step: one more address of the node is looked at. */
  lemma AddressStep(done: string, addrs: seq<NodeAddress>, j: int, addressType: string)
    requires 0 <= j < |addrs|
    ensures Kept(addrs[j], addressType) ==>
      done + KeptAddresses(addrs[..j + 1], addressType)
      == (done + KeptAddresses(addrs[..j], addressType)) + ("'" + addrs[j].address + "' ")
    ensures !Kept(addrs[j], addressType) ==>
      done + KeptAddresses(addrs[..j + 1], addressType) == done + KeptAddresses(addrs[..j], addressType)
  {
    assert addrs[..j + 1] == addrs[..j] + [addrs[j]];
    KeptAddressesSnoc(addrs[..j], addrs[j], addressType);
    AppendAssoc(done, KeptAddresses(addrs[..j], addressType), Piece(addrs[j], addressType));
  }

  /** The outer loop's step: one more node has been looked at. */
  lemma NodeStep(items: seq<Node>, i: int, addressType: string)
    requires 0 <= i < |items|
    ensures PeerAddresses(items[..i], addressType) + KeptAddresses(items[i].addresses[..|items[i].addresses|], addressType)
            == PeerAddresses(items[..i + 1], addressType)
  {
    TakeAll(items[i].addresses);
    assert items[..i + 1] == items[..i] + [items[i]];
    PeerAddressesSnoc(items[..i], items[i], addressType);
  }

  lemma TakeAll<T>(s: seq<T>)
    ensures s[..|s|] == s
  {
  }

  lemma AppendAssoc<T>(a: seq<T>, b: seq<T>, c: seq<T>)
    ensures (a + b) + c == a + (b + c)
  {
  }

  lemma AppendSnoc<T>(a: seq<T>, b: seq<T>)
    requires |b| > 0
    ensures b == b[..|b| - 1] + [b[|b| - 1]]
    ensures a + b == (a + b[..|b| - 1]) + [b[|b| - 1]]
  {
  }

  /** Which address types pass the source's filter. */
  lemma KeptKinds(address: string)
    ensures Kept(NodeAddress("ExternalIP", address), ExternalIP)
    ensures !Kept(NodeAddress("InternalIP", address), ExternalIP)
    ensures !Kept(NodeAddress("Hostname", address), ExternalIP)
    ensures Kept(NodeAddress("", address), ExternalIP) && Kept(NodeAddress("IP", address), ExternalIP)
  {
    assert OccursAt(ExternalIP, "ExternalIP", 0);
    OccursAtContains(ExternalIP, "ExternalIP", 0);
    assert ExternalIP[8..10] == "IP";
    assert OccursAt(ExternalIP, "IP", 8);
    OccursAtContains(ExternalIP, "IP", 8);
    assert OccursAt(ExternalIP, "", 0);
    OccursAtContains(ExternalIP, "", 0);
    InternalNotKept();
    HostnameNotKept();
  }

  lemma InternalNotKept()
    ensures !Contains(ExternalIP, "InternalIP")
  {
    ContainsIff(ExternalIP, "InternalIP");
    forall i ensures !OccursAt(ExternalIP, "InternalIP", i) {
      if i == 0 {
        assert ExternalIP[0..10][0] != "InternalIP"[0];
      }
    }
  }

  lemma HostnameNotKept()
    ensures !Contains(ExternalIP, "Hostname")
  {
    ContainsIff(ExternalIP, "Hostname");
    forall i ensures !OccursAt(ExternalIP, "Hostname", i) {
      if 0 <= i <= 2 {
        assert ExternalIP[i..i + 8][0] == ExternalIP[i] != 'H';
      }
    }
  }

  /** One more address adds its piece at the end. */
  lemma KeptAddressesSnoc(addrs: seq<NodeAddress>, a: NodeAddress, addressType: string)
    ensures KeptAddresses(addrs + [a], addressType) == KeptAddresses(addrs, addressType) + Piece(a, addressType)
  {
    assert (addrs + [a])[..|addrs|] == addrs;
  }

  /** One more node adds its part at the end. */
  lemma PeerAddressesSnoc(items: seq<Node>, n: Node, addressType: string)
    ensures PeerAddresses(items + [n], addressType) == PeerAddresses(items, addressType) + KeptAddresses(n.addresses, addressType)
  {
    assert (items + [n])[..|items|] == items;
  }

  lemma {:induction false} KeptAddressesAppend(a: seq<NodeAddress>, b: seq<NodeAddress>, addressType: string)
    ensures KeptAddresses(a + b, addressType) == KeptAddresses(a, addressType) + KeptAddresses(b, addressType)
    decreases |b|
  {
    if |b| == 0 {
      assert a + b == a;
    } else {
      var b', last := b[..|b| - 1], b[|b| - 1];
      AppendSnoc(a, b);
      KeptAddressesSnoc(a + b', last, addressType);
      KeptAddressesSnoc(b', last, addressType);
      KeptAddressesAppend(a, b', addressType);
      AppendAssoc(KeptAddresses(a, addressType), KeptAddresses(b', addressType), Piece(last, addressType));
    }
  }

  /** Concatenating the address strings of two clusters, as the command line
      does before generating each bundle, is the address string of the two
      node lists together. */
  lemma {:induction false} PeerAddressesAppend(a: seq<Node>, b: seq<Node>, addressType: string)
    ensures PeerAddresses(a + b, addressType) == PeerAddresses(a, addressType) + PeerAddresses(b, addressType)
    decreases |b|
  {
    if |b| == 0 {
      assert a + b == a;
    } else {
      var b', last := b[..|b| - 1], b[|b| - 1];
      AppendSnoc(a, b);
      PeerAddressesSnoc(a + b', last, addressType);
      PeerAddressesSnoc(b', last, addressType);
      PeerAddressesAppend(a, b', addressType);
      AppendAssoc(PeerAddresses(a, addressType), PeerAddresses(b', addressType), KeptAddresses(last.addresses, addressType));
    }
  }

  /** Every kept address appears quoted in the result. */
  lemma KeptAddressListed(items: seq<Node>, i: int, j: int, addressType: string)
    requires 0 <= i < |items| && 0 <= j < |items[i].addresses|
    requires Kept(items[i].addresses[j], addressType)
    ensures Contains(PeerAddresses(items, addressType), Quoted(items[i].addresses[j]))
  {
    KeptInNode(items[i].addresses, j, addressType);
    NodeInPeers(items, i, addressType);
    ContainsInConcat(PeerAddresses(items[..i], addressType), KeptAddresses(items[i].addresses, addressType),
                     PeerAddresses(items[i + 1..], addressType), Quoted(items[i].addresses[j]));
  }

  /** A kept address appears quoted in its node's part. */
  lemma KeptInNode(addrs: seq<NodeAddress>, j: int, addressType: string)
    requires 0 <= j < |addrs| && Kept(addrs[j], addressType)
    ensures Contains(KeptAddresses(addrs, addressType), Quoted(addrs[j]))
  {
    var a := addrs[j];
    var pre, mid, post := addrs[..j], [a], addrs[j + 1..];
    SplitAround(addrs, j);
    KeptAddressesAppend(pre + mid, post, addressType);
    KeptAddressesAppend(pre, mid, addressType);
    KeptAddressesSnoc([], a, addressType);
    assert [] + [a] == mid;
    ContainsSelf(Quoted(a));
    ContainsInConcat(KeptAddresses(pre, addressType), Quoted(a), KeptAddresses(post, addressType), Quoted(a));
  }

  /** The result is the nodes before, then node `i`'s part, then the nodes
      after. */
  lemma NodeInPeers(items: seq<Node>, i: int, addressType: string)
    requires 0 <= i < |items|
    ensures PeerAddresses(items, addressType)
            == PeerAddresses(items[..i], addressType) + KeptAddresses(items[i].addresses, addressType)
               + PeerAddresses(items[i + 1..], addressType)
  {
    var pre, mid, post := items[..i], [items[i]], items[i + 1..];
    SplitAround(items, i);
    PeerAddressesAppend(pre + mid, post, addressType);
    PeerAddressesAppend(pre, mid, addressType);
    PeerAddressesSnoc([], items[i], addressType);
    assert [] + [items[i]] == mid;
  }

  /** A sequence is what comes before an element, the element, and what
      comes after it. */
  lemma SplitAround<T>(s: seq<T>, i: int)
    requires 0 <= i < |s|
    ensures s == (s[..i] + [s[i]]) + s[i + 1..]
  {
  }

  lemma ContainsSelf(s: string)
    ensures Contains(s, s)
  {
    assert OccursAt(s, s, 0);
    OccursAtContains(s, s, 0);
  }

  /** Nodes without a kept address contribute nothing. */
  lemma {:induction false} NoKeptNoPeers(items: seq<Node>, addressType: string)
    requires forall n, a :: n in items && a in n.addresses ==> !Kept(a, addressType)
    ensures PeerAddresses(items, addressType) == ""
    decreases |items|
  {
    if |items| > 0 {
      NoKeptNoPeers(items[..|items| - 1], addressType);
      NoKeptAddresses(items[|items| - 1].addresses, addressType);
    }
  }

  lemma {:induction false} NoKeptAddresses(addrs: seq<NodeAddress>, addressType: string)
    requires forall a :: a in addrs ==> !Kept(a, addressType)
    ensures KeptAddresses(addrs, addressType) == ""
    decreases |addrs|
  {
    if |addrs| > 0 {
      NoKeptAddresses(addrs[..|addrs| - 1], addressType);
    }
  }

  /** The role loop of `generate_mc_files`: the bundle for `master`, then the
      one for `worker`, with the same latency and addresses. */
  method GenerateMcFiles(ipList: string, latency: int, unitTemplate: string) returns (mcSpec: seq<MachineConfig>)
    ensures |mcSpec| == 2
    ensures IsLatencyBundle(mcSpec[0], "master", latency, ipList, unitTemplate)
    ensures IsLatencyBundle(mcSpec[1], "worker", latency, ipList, unitTemplate)
  {
    var roles := ["master", "worker"];
    mcSpec := [];
    for k := 0 to |roles|
      invariant |mcSpec| == k
      invariant forall m :: 0 <= m < k ==> IsLatencyBundle(mcSpec[m], roles[m], latency, ipList, unitTemplate)
    {
      var mc := CreateLatencyMcDict(roles[k], latency, ipList, unitTemplate);
      mcSpec := mcSpec + [mc];
    }
  }
}
