/** The decoded Supfile and the backward-compatibility gate `NewSupfile`
    applies to it according to its `version` field (supfile.go). YAML decoding
    itself is outside the model: a Supfile arrives here already decoded. */
module Supfile {
  import opened Wrappers
  import Collections
  import Env
  import Hosts

  datatype Upload = Upload(src: string, dst: string, exc: string)

  datatype Command = Command(
    name: string,
    desc: string,
    local: bool,
    run: string,
    script: string,
    upload: seq<Upload>,
    stdin: bool,
    once: bool,
    serial: int,
    runOnce: bool)

  datatype Network = Network(
    env: Env.EnvList,
    inventory: string,
    hosts: seq<Hosts.Host>,
    hostsFromConfig: seq<string>,
    bastion: string)

  datatype Supfile = Supfile(
    networks: Collections.Named<Network>,
    commands: Collections.Named<Command>,
    targets: Collections.Named<seq<string>>,
    env: Env.EnvList,
    version: string)

  /** `Network.UnmarshalYAML`: after the plain fields are decoded, every entry
      of `hosts` is turned into a Host; the first that fails fails the network. */
  function DecodeNetwork(env: Env.EnvList, inventory: string, hostsFromConfig: seq<string>,
                         bastion: string, resolver: Hosts.Resolver): (r: Result<Network, Hosts.HostError>)
    requires Hosts.ValidSshConfig(resolver.sshConfig)
    ensures r.Ok? <==> forall i :: 0 <= i < |hostsFromConfig| ==> Hosts.NewHost(hostsFromConfig[i], resolver).Ok?
    ensures r.Ok? ==>
      && r.value.env == env && r.value.inventory == inventory
      && r.value.hostsFromConfig == hostsFromConfig && r.value.bastion == bastion
      && |r.value.hosts| == |hostsFromConfig|
      && forall i :: 0 <= i < |hostsFromConfig| ==> Hosts.NewHost(hostsFromConfig[i], resolver) == Ok(r.value.hosts[i])
    ensures r.Err? ==> exists i ::
      && 0 <= i < |hostsFromConfig|
      && Hosts.NewHost(hostsFromConfig[i], resolver) == Err(r.error)
      && (forall j :: 0 <= j < i ==> Hosts.NewHost(hostsFromConfig[j], resolver).Ok?)
  {
    var hosts :- Hosts.ParseHosts(hostsFromConfig, resolver);
    Ok(Network(env, inventory, hosts, hostsFromConfig, bastion))
  }

  /** The fields that older Supfile versions do not accept. */
  datatype Feature = RunOnceField | OnceField | LocalField | SerialField | InventoryField

  function FieldName(f: Feature): string {
    match f
    case RunOnceField => "command.run_once"
    case OnceField => "command.once"
    case LocalField => "command.local"
    case SerialField => "command.serial"
    case InventoryField => "network.inventory"
  }

  /** `ErrMustUpdate` and `ErrUnsupportedSupfileVersion`, by kind and the
      version they name. */
  datatype SupfileError =
    | MustUpdate(feature: Feature, version: string)
    | UnsupportedVersion(version: string)

  /** The `Msg` each error carries. */
  function Message(e: SupfileError): string {
    match e
    case MustUpdate(f, v) => FieldName(f) + " is not supported in Supfile v" + v
    case UnsupportedVersion(v) => "unsupported Supfile version " + v
  }

  /** The `Error()` text of each error. */
  function ErrorText(e: SupfileError): string {
    match e
    case MustUpdate(_, _) =>
      Message(e) + "\n\nPlease update sup by `go get -u github.com/pressly/sup/cmd/sup`"
    case UnsupportedVersion(_) =>
      Message(e) + "\n\nCheck your Supfile version (available latest version: v0.5)"
  }

  function DeprecationWarning(v: string): string {
    "Warning: command.run_once was deprecated by command.once in Supfile v" + v + "\n"
  }

  /** A successful gate: the Supfile after migration and the deprecation
      warning, if one was issued. */
  datatype Loaded = Loaded(supfile: Supfile, warning: Option<string>)

  /** The version a Supfile is treated as: an absent version means 0.1. */
  function EffectiveVersion(v: string): string {
    if v == "" then "0.1" else v
  }

  /** Position of a version in the ordered list 0.1 .. 0.5; 0 for any other. */
  function Rank(v: string): (n: nat)
    ensures n <= 5
    ensures n == 0 <==> v !in {"0.1", "0.2", "0.3", "0.4", "0.5"}
  {
    if v == "0.1" then 1
    else if v == "0.2" then 2
    else if v == "0.3" then 3
    else if v == "0.4" then 4
    else if v == "0.5" then 5
    else 0
  }

  /** First rank at which each field is accepted. */
  function Since(f: Feature): (n: nat)
    ensures 2 <= n <= 3
  {
    match f
    case RunOnceField => 2
    case OnceField => 3
    case LocalField => 3
    case SerialField => 3
    case InventoryField => 3
  }

  /** Some command sets `run_once`. */
  predicate AnyRunOnce(cmds: map<string, Command>) {
    exists k :: k in cmds && cmds[k].runOnce
  }

  /** Some network names an inventory command. */
  predicate AnyInventory(nets: map<string, Network>) {
    exists k :: k in nets && nets[k].inventory != ""
  }

  /** Some entry of the Supfile sets field `f`. */
  ghost predicate Uses(s: Supfile, f: Feature) {
    match f
    case RunOnceField => AnyRunOnce(s.commands.entries)
    case OnceField => exists k :: k in s.commands.entries && s.commands.entries[k].once
    case LocalField => exists k :: k in s.commands.entries && s.commands.entries[k].local
    case SerialField => exists k :: k in s.commands.entries && s.commands.entries[k].serial != 0
    case InventoryField => AnyInventory(s.networks.entries)
  }

  /** The field a single command is rejected for below version 0.3: `once`
      is looked at before `local`, and `local` before `serial`. */
  function CommandFeature(c: Command): (r: Option<Feature>)
    ensures r.None? <==> !c.once && !c.local && c.serial == 0
    ensures r.Some? ==> r.value in {OnceField, LocalField, SerialField}
    ensures c.once ==> r == Some(OnceField)
    ensures !c.once && c.local ==> r == Some(LocalField)
    ensures r == Some(SerialField) <==> !c.once && !c.local && c.serial != 0
  {
    if c.once then Some(OnceField)
    else if c.local then Some(LocalField)
    else if c.serial != 0 then Some(SerialField)
    else None
  }

  /** `order` lists every key of `m` exactly once: one of the orders in which
      Go may iterate over the map. */
  predicate IsIterationOrder<T>(order: seq<string>, m: map<string, T>) {
    && (forall i :: 0 <= i < |order| ==> order[i] in m)
    && (forall k :: k in m ==> k in order)
    && (forall i, j :: 0 <= i < j < |order| ==> order[i] != order[j])
  }

  /** The field the command loop of version 0.2 stops at, visiting the
      commands in `order`. */
  function FirstFeature(cmds: map<string, Command>, order: seq<string>): (r: Option<Feature>)
    requires forall i :: 0 <= i < |order| ==> order[i] in cmds
    ensures r.None? <==> forall i :: 0 <= i < |order| ==> CommandFeature(cmds[order[i]]).None?
    ensures r.Some? ==> exists i :: 0 <= i < |order| && CommandFeature(cmds[order[i]]) == r
  {
    if |order| == 0 then None
    else if CommandFeature(cmds[order[0]]).Some? then CommandFeature(cmds[order[0]])
    else
      var r := FirstFeature(cmds, order[1..]);
      assert forall i :: 1 <= i < |order| ==> order[1..][i - 1] == order[i];
      r
  }

  /** The migration of version 0.3 and below: `run_once` also sets `once`. */
  function Migrate(c: Command): (r: Command)
    ensures r.once <==> c.once || c.runOnce
    ensures r.(once := c.once) == c
  {
    if c.runOnce then c.(once := true) else c
  }

  /** The commands after the migration, when `on`; the names are kept. */
  function MigrateCommands(c: Collections.Named<Command>, on: bool): (r: Collections.Named<Command>)
    ensures r.names == c.names
    ensures r.entries.Keys == c.entries.Keys
    ensures forall k :: k in c.entries ==> r.entries[k].(once := c.entries[k].once) == c.entries[k]
    ensures forall k :: k in c.entries ==>
      (r.entries[k].once <==> c.entries[k].once || (on && c.entries[k].runOnce))
  {
    if on then c.(entries := map k | k in c.entries :: Migrate(c.entries[k])) else c
  }

  /** Every field the Supfile uses is accepted at `rank`. */
  ghost predicate AcceptsAll(s: Supfile, rank: nat) {
    forall f :: Uses(s, f) ==> Since(f) <= rank
  }

  /** `AcceptsAll`, field by field. */
  lemma AcceptsAllFieldByField(s: Supfile, rank: nat)
    ensures AcceptsAll(s, rank) <==>
      && (rank >= 2 || !Uses(s, RunOnceField))
      && (rank >= 3 || (!Uses(s, OnceField) && !Uses(s, LocalField) && !Uses(s, SerialField) && !Uses(s, InventoryField)))
  {
    if !AcceptsAll(s, rank) {
      var f :| Uses(s, f) && Since(f) > rank;
    }
  }

  /** The command loop of version 0.2 stops exactly when some command sets
      `once`, `local` or `serial`, in whatever order it visits them. */
  lemma FirstFeatureFindsAnyUse(s: Supfile, order: seq<string>)
    requires IsIterationOrder(order, s.commands.entries)
    ensures FirstFeature(s.commands.entries, order).Some? <==>
      Uses(s, OnceField) || Uses(s, LocalField) || Uses(s, SerialField)
  {
    var cmds := s.commands.entries;
    if Uses(s, OnceField) || Uses(s, LocalField) || Uses(s, SerialField) {
      var k :| k in cmds && (cmds[k].once || cmds[k].local || cmds[k].serial != 0);
      var i :| 0 <= i < |order| && order[i] == k;
      assert CommandFeature(cmds[order[i]]).Some?;
    }
  }

  /** The error the version switch of `NewSupfile` stops with, if any, the
      commands visited in `order`. The versions fall through from the
      oldest: 0.1 rejects `run_once`; 0.1 and 0.2 reject `once`, `local`,
      `serial` and `inventory`; any version other than 0.1 .. 0.5 (or none)
      is unsupported. */
  function Rejection(s: Supfile, order: seq<string>): (e: Option<SupfileError>)
    requires IsIterationOrder(order, s.commands.entries)
    ensures e.None? <==> Rank(EffectiveVersion(s.version)) > 0 && AcceptsAll(s, Rank(EffectiveVersion(s.version)))
    ensures e.Some? && e.value.UnsupportedVersion? <==> Rank(EffectiveVersion(s.version)) == 0
    ensures e.Some? && e.value.UnsupportedVersion? ==> e.value.version == s.version
    ensures e.Some? && e.value.MustUpdate? ==>
      && e.value.version == EffectiveVersion(s.version)
      && Uses(s, e.value.feature)
      && Rank(e.value.version) < Since(e.value.feature)
    ensures e.Some? && e.value.MustUpdate? && e.value.feature != RunOnceField ==>
      !(Rank(EffectiveVersion(s.version)) == 1 && Uses(s, RunOnceField))
    ensures e.Some? && e.value.MustUpdate? && e.value.feature == InventoryField ==>
      forall k :: k in s.commands.entries ==> CommandFeature(s.commands.entries[k]).None?
    ensures e.Some? && e.value.MustUpdate? && e.value.feature in {OnceField, LocalField, SerialField} ==>
      exists k :: k in s.commands.entries && CommandFeature(s.commands.entries[k]) == Some(e.value.feature)
  {
    var v := EffectiveVersion(s.version);
    var rank := Rank(v);
    var cmds := s.commands.entries;
    AcceptsAllFieldByField(s, rank);
    FirstFeatureFindsAnyUse(s, order);
    if rank == 0 then Some(UnsupportedVersion(s.version))
    else if rank == 1 && AnyRunOnce(cmds) then Some(MustUpdate(RunOnceField, v))
    else if rank <= 2 && FirstFeature(cmds, order).Some? then Some(MustUpdate(FirstFeature(cmds, order).value, v))
    else if rank <= 2 && AnyInventory(s.networks.entries) then Some(MustUpdate(InventoryField, v))
    else None
  }

  /** The Supfile a known version passes the switch with: the version made
      explicit and, up to 0.3, `run_once` migrated to `once` with one
      warning for the whole file. */
  function Migration(s: Supfile): (l: Loaded)
    ensures var rank := Rank(EffectiveVersion(s.version));
      && l.supfile == s.(version := EffectiveVersion(s.version), commands := l.supfile.commands)
      && l.supfile.commands.names == s.commands.names
      && l.supfile.commands.entries.Keys == s.commands.entries.Keys
      && (forall k :: k in s.commands.entries ==>
            l.supfile.commands.entries[k].(once := s.commands.entries[k].once) == s.commands.entries[k])
      && (forall k :: k in s.commands.entries ==>
            (l.supfile.commands.entries[k].once <==>
              s.commands.entries[k].once || (rank <= 3 && s.commands.entries[k].runOnce)))
    ensures l.warning.Some? <==> Rank(EffectiveVersion(s.version)) <= 3 && Uses(s, RunOnceField)
    ensures l.warning.Some? ==> l.warning.value == DeprecationWarning(EffectiveVersion(s.version))
  {
    var v := EffectiveVersion(s.version);
    var rank := Rank(v);
    assert Uses(s, RunOnceField) == AnyRunOnce(s.commands.entries);
    var warning := if rank <= 3 && AnyRunOnce(s.commands.entries) then Some(DeprecationWarning(v)) else None;
    Loaded(s.(version := v, commands := MigrateCommands(s.commands, rank <= 3)), warning)
  }

  /** `NewSupfile` after decoding: the switch either stops with an error or
      hands back the migrated Supfile and the warning to print. */
  function CheckVersion(s: Supfile, order: seq<string>): (r: Result<Loaded, SupfileError>)
    requires IsIterationOrder(order, s.commands.entries)
    ensures r.Ok? <==> Rank(EffectiveVersion(s.version)) > 0 && AcceptsAll(s, Rank(EffectiveVersion(s.version)))
    ensures r.Err? ==> Rejection(s, order) == Some(r.error)
    ensures r.Ok? ==> r.value == Migration(s)
  {
    match Rejection(s, order)
    case Some(e) => Err(e)
    case None => Ok(Migration(s))
  }

  /** Go's map iteration order only decides which command field is named
      when several commands are rejected: whether the gate passes, the
      migrated Supfile, the warning and every other error do not depend on it. */
  lemma OrderOnlyPicksTheReportedField(s: Supfile, o1: seq<string>, o2: seq<string>)
    requires IsIterationOrder(o1, s.commands.entries) && IsIterationOrder(o2, s.commands.entries)
    ensures CheckVersion(s, o1).Ok? <==> CheckVersion(s, o2).Ok?
    ensures CheckVersion(s, o1).Ok? ==> CheckVersion(s, o1) == CheckVersion(s, o2)
    ensures var r := CheckVersion(s, o1);
      r.Err? && !(r.error.MustUpdate? && r.error.feature in {OnceField, LocalField, SerialField}) ==>
      r == CheckVersion(s, o2)
  {
    var cmds := s.commands.entries;
    var r1 := CheckVersion(s, o1);
    if r1.Err? && !(r1.error.MustUpdate? && r1.error.feature in {OnceField, LocalField, SerialField}) {
      StopsInEveryOrder(cmds, o1, o2);
      assert Rejection(s, o1) == Rejection(s, o2);
    }
  }

  /** Whether the command loop stops does not depend on the visiting order. */
  lemma StopsInEveryOrder(cmds: map<string, Command>, o1: seq<string>, o2: seq<string>)
    requires IsIterationOrder(o1, cmds) && IsIterationOrder(o2, cmds)
    ensures FirstFeature(cmds, o1).None? <==> FirstFeature(cmds, o2).None?
  {
    if FirstFeature(cmds, o1).Some? {
      var i :| 0 <= i < |o1| && CommandFeature(cmds[o1[i]]) == FirstFeature(cmds, o1);
      assert o1[i] in o2;
    }
    if FirstFeature(cmds, o2).Some? {
      var i :| 0 <= i < |o2| && CommandFeature(cmds[o2[i]]) == FirstFeature(cmds, o2);
      assert o2[i] in o1;
    }
  }

  /** `order` with `k` taken out. */
  function Without(order: seq<string>, k: string): (r: seq<string>)
    ensures forall x :: x in r <==> x in order && x != k
    ensures (forall i, j :: 0 <= i < j < |order| ==> order[i] != order[j]) ==>
      forall i, j :: 0 <= i < j < |r| ==> r[i] != r[j]
  {
    if |order| == 0 then []
    else
      var rest := Without(order[1..], k);
      if order[0] == k then rest
      else
        assert forall x :: x in order[1..] ==> x in order;
        assert (forall i, j :: 0 <= i < j < |order| ==> order[i] != order[j]) ==>
          order[0] !in order[1..] && forall i, j :: 0 <= i < j < |order[1..]| ==> order[1..][i] != order[1..][j] by {
          if forall i, j :: 0 <= i < j < |order| ==> order[i] != order[j] {
            forall i | 0 <= i < |order[1..]| ensures order[1..][i] != order[0] {
              assert order[1..][i] == order[i + 1];
            }
          }
        }
        [order[0]] + rest
  }

  /** Every command that some rejected field makes unacceptable below
      version 0.3 is the one named for some iteration order. */
  lemma EveryOffendingCommandCanBeNamed(s: Supfile, order: seq<string>, k: string)
    requires IsIterationOrder(order, s.commands.entries)
    requires k in s.commands.entries && CommandFeature(s.commands.entries[k]).Some?
    requires Rank(EffectiveVersion(s.version)) == 2 ||
      (Rank(EffectiveVersion(s.version)) == 1 && !Uses(s, RunOnceField))
    ensures exists o :: && IsIterationOrder(o, s.commands.entries)
                        && CheckVersion(s, o) == Err(MustUpdate(CommandFeature(s.commands.entries[k]).value, EffectiveVersion(s.version)))
  {
    var o := [k] + Without(order, k);
    assert o[0] == k;
    assert forall i :: 1 <= i < |o| ==> o[i] in Without(order, k) by {
      forall i | 1 <= i < |o| ensures o[i] in Without(order, k) {
        assert o[i] == Without(order, k)[i - 1];
      }
    }
    assert IsIterationOrder(o, s.commands.entries);
  }

  /** A Supfile without a version is handled exactly as one declaring 0.1,
      down to the version recorded in the result and named in errors. */
  lemma EmptyVersionActsAsV01(s: Supfile, order: seq<string>)
    requires IsIterationOrder(order, s.commands.entries)
    ensures CheckVersion(s.(version := ""), order) == CheckVersion(s.(version := "0.1"), order)
  {
  }

  /** A Supfile accepted under one version is accepted under every later
      supported version. */
  lemma AcceptanceIsMonotone(s: Supfile, order: seq<string>, a: string, b: string)
    requires IsIterationOrder(order, s.commands.entries)
    requires CheckVersion(s.(version := a), order).Ok?
    requires Rank(EffectiveVersion(a)) <= Rank(b)
    ensures CheckVersion(s.(version := b), order).Ok?
  {
    var ra := Rank(EffectiveVersion(a));
    var rb := Rank(EffectiveVersion(b));
    assert AcceptsAll(s.(version := a), ra);
    assert AcceptsAll(s.(version := b), rb) by {
      forall f | Uses(s.(version := b), f) ensures Since(f) <= rb {
        UsesIgnoresVersion(s, a, b, f);
      }
    }
  }

  /** Which fields a Supfile uses does not depend on its version. */
  lemma UsesIgnoresVersion(s: Supfile, a: string, b: string, f: Feature)
    ensures Uses(s.(version := a), f) == Uses(s.(version := b), f)
  {
  }

  /** Up to version 0.3 a command accepted with `run_once` comes out with
      `once` set, and the deprecated flag is kept. */
  lemma RunOnceBecomesOnce(s: Supfile, order: seq<string>, k: string)
    requires IsIterationOrder(order, s.commands.entries)
    requires CheckVersion(s, order).Ok? && Rank(EffectiveVersion(s.version)) <= 3
    requires k in s.commands.entries && s.commands.entries[k].runOnce
    ensures var out := CheckVersion(s, order).value.supfile.commands.entries;
      k in out && out[k].once && out[k].runOnce
  {
  }

  /** From version 0.3 on the gate is idempotent: the Supfile it returns
      passes it again unchanged, with the same warning. */
  lemma GateIsIdempotentFromV03(s: Supfile, order: seq<string>)
    requires IsIterationOrder(order, s.commands.entries)
    requires CheckVersion(s, order).Ok? && Rank(EffectiveVersion(s.version)) >= 3
    ensures var out := CheckVersion(s, order).value;
      CheckVersion(out.supfile, order) == Ok(out)
  {
    var rank := Rank(EffectiveVersion(s.version));
    var out := Migration(s).supfile;
    assert out.commands == MigrateCommands(s.commands, rank <= 3);
    AcceptsAllFromV03(out, rank);
    MigrateKeepsRunOnce(s.commands, rank <= 3);
    MigrateCommandsIdempotent(s.commands, rank <= 3);
  }

  /** Version 0.3 accepts every field. */
  lemma AcceptsAllFromV03(s: Supfile, rank: nat)
    requires rank >= 3
    ensures AcceptsAll(s, rank)
  {
  }

  /** The migration leaves `run_once` as it was. */
  lemma MigrateKeepsRunOnce(c: Collections.Named<Command>, on: bool)
    ensures AnyRunOnce(MigrateCommands(c, on).entries) == AnyRunOnce(c.entries)
  {
    if AnyRunOnce(c.entries) {
      var k :| k in c.entries && c.entries[k].runOnce;
      assert MigrateCommands(c, on).entries[k].runOnce;
    }
  }

  /** Migrating twice is migrating once. */
  lemma MigrateCommandsIdempotent(c: Collections.Named<Command>, on: bool)
    ensures MigrateCommands(MigrateCommands(c, on), on) == MigrateCommands(c, on)
  {
    var m := MigrateCommands(c, on);
    if on {
      assert MigrateCommands(m, on).entries == m.entries;
    }
  }

  /** A Supfile whose only command, `deploy`, has the given flags. */
  function SingleCommand(once: bool, runOnce: bool, version: string): Supfile {
    var c := Command("deploy", "", false, "make deploy", "", [], false, once, 0, runOnce);
    Supfile(Collections.Named([], map[]), Collections.Named(["deploy"], map["deploy" := c]),
            Collections.Named([], map[]), [], version)
  }

  /** `once` is refused at 0.2, naming the field and the version. */
  lemma OnceRefusedAtV02()
    ensures CheckVersion(SingleCommand(true, false, "0.2"), ["deploy"]) == Err(MustUpdate(OnceField, "0.2"))
  {
    var s := SingleCommand(true, false, "0.2");
    assert FirstFeature(s.commands.entries, ["deploy"]) == Some(OnceField);
  }

  /** From 0.4 on, a Supfile passes the switch unchanged and without a
      warning, whatever fields it uses. */
  lemma UnchangedFromV04(s: Supfile, order: seq<string>)
    requires IsIterationOrder(order, s.commands.entries)
    requires s.version == "0.4" || s.version == "0.5"
    ensures CheckVersion(s, order) == Ok(Loaded(s, None))
  {
    var rank := Rank(s.version);
    assert rank >= 4;
    AcceptsAllFieldByField(s, rank);
    assert Migration(s) == Loaded(s, None) by {
      assert MigrateCommands(s.commands, false) == s.commands;
    }
  }

  /** At 0.3 `run_once` is migrated, with a single warning naming v0.3. */
  lemma RunOnceMigratedAtV03()
    ensures CheckVersion(SingleCommand(false, true, "0.3"), ["deploy"]) ==
      Ok(Loaded(SingleCommand(true, true, "0.3"),
                Some(DeprecationWarning("0.3"))))
  {
    var s := SingleCommand(false, true, "0.3");
    assert AnyRunOnce(s.commands.entries) by {
      assert s.commands.entries["deploy"].runOnce;
    }
    var c := s.commands.entries["deploy"];
    assert MigrateCommands(s.commands, true).entries == map["deploy" := c.(once := true)];
  }

  /** A version outside 0.1 .. 0.5 is refused whatever the Supfile holds. */
  lemma UnknownVersionIsUnsupported(s: Supfile, order: seq<string>)
    requires IsIterationOrder(order, s.commands.entries)
    ensures CheckVersion(s.(version := "0.6"), order) == Err(UnsupportedVersion("0.6"))
    ensures CheckVersion(s.(version := "v0.5"), order) == Err(UnsupportedVersion("v0.5"))
  {
  }
}
