/** The backup engine's decisions: which plugin serves a service (with a
    per-type cache), where a backup goes, what it is called, what metadata
    describes it, how a plugin's outcome becomes the result record, which
    files a service's backup directory lists, and whether the backup
    section of the configuration is usable. The clock, the network, the
    file system and the plugins' own work are inputs. */
module BackupEngine {
  import opened Wrappers
  import opened Text
  import opened Json
  import opened ConfigLoader
  import StateManager
  import Proxmox
  import GenericService
  import Service

  // ---------------------------------------------------------------------
  // _get_plugin_for_service and _clear_plugin_cache
  // ---------------------------------------------------------------------

  const HypervisorTypes: seq<string> := ["vm", "lxc"]
  const ServiceLevelTypes: seq<string> := ["docker", "systemd", "generic"]
  const SupportedTypes: seq<string> := HypervisorTypes + ServiceLevelTypes

  /** The two plugin classes: the Proxmox plugin and the generic service
      plugin. */
  datatype PluginKind = Hypervisor | ServiceLevel

  /** A plugin instance; `serial` tells instances apart. */
  datatype Plugin = Plugin(kind: PluginKind, serial: nat)

  /** The engine state plugin selection touches: the cache keyed by the
      lower-cased type, and how many instances were ever made. */
  datatype Engine = Engine(cache: map<string, Plugin>, created: nat)

  function KindOf(k: string): PluginKind {
    if k in HypervisorTypes then Hypervisor else ServiceLevel
  }

  /** What every engine state reachable from a fresh one satisfies: only
      supported types are cached, each with its own instance of the right
      class. */
  predicate CacheValid(e: Engine) {
    (forall k :: k in e.cache ==> k in SupportedTypes && e.cache[k].kind == KindOf(k) && e.cache[k].serial < e.created)
    && (forall k1, k2 :: k1 in e.cache && k2 in e.cache && k1 != k2 ==> e.cache[k1].serial != e.cache[k2].serial)
  }

  const FreshEngine := Engine(map[], 0)

  datatype PluginError = NoType | UnsupportedType(serviceType: string)

  /** `_get_plugin_for_service`: an empty type is refused; otherwise the
      lower-cased type is looked up in the cache, then checked against the
      supported types, and a new instance of the matching class is cached. */
  function GetPlugin(e: Engine, serviceType: string): (r: Result<(Plugin, Engine), PluginError>)
    ensures serviceType == [] ==> r == Err(NoType)
    ensures serviceType != [] && ToLower(serviceType) in e.cache ==> r == Ok((e.cache[ToLower(serviceType)], e))
    ensures (serviceType != [] && ToLower(serviceType) !in e.cache && ToLower(serviceType) !in SupportedTypes) ==>
      r == Err(UnsupportedType(ToLower(serviceType)))
    ensures (serviceType != [] && ToLower(serviceType) !in e.cache && ToLower(serviceType) in SupportedTypes) ==>
      (r.Ok? && r.value.0.serial == e.created && r.value.1.created == e.created + 1
      && r.value.1.cache == e.cache[ToLower(serviceType) := r.value.0])
  {
    if serviceType == [] then Err(NoType)
    else
      var k := ToLower(serviceType);
      if k in e.cache then Ok((e.cache[k], e))
      else if k !in SupportedTypes then Err(UnsupportedType(k))
      else
        var p := Plugin(KindOf(k), e.created);
        Ok((p, Engine(e.cache[k := p], e.created + 1)))
  }

  /** Selection fails exactly for an empty type and for a type that is not
      supported once lower-cased. */
  lemma GetPluginFails(e: Engine, serviceType: string)
    requires CacheValid(e)
    ensures GetPlugin(e, serviceType).Err? <==> serviceType == [] || ToLower(serviceType) !in SupportedTypes
  {
  }

  /** Selection keeps the cache invariant and picks the class whose own
      `matches` accepts the type. */
  lemma GetPluginKind(e: Engine, serviceType: string)
    requires CacheValid(e) && GetPlugin(e, serviceType).Ok?
    ensures CacheValid(GetPlugin(e, serviceType).value.1)
    ensures GetPlugin(e, serviceType).value.0.kind == Hypervisor <==> Proxmox.Matches(serviceType)
    ensures GetPlugin(e, serviceType).value.0.kind == ServiceLevel <==> GenericService.Matches(serviceType)
  {
  }

  /** Asking again for a type (in any letter case) gives the same instance
      and leaves the engine as it was. */
  lemma GetPluginRepeat(e: Engine, t1: string, t2: string)
    requires GetPlugin(e, t1).Ok? && t2 != [] && ToLower(t2) == ToLower(t1)
    ensures GetPlugin(GetPlugin(e, t1).value.1, t2) == Ok((GetPlugin(e, t1).value.0, GetPlugin(e, t1).value.1))
  {
  }

  /** `vm` and `lxc` share a class but get separate cache entries and
      separate instances. */
  lemma VmAndLxcSeparate(e: Engine)
    requires CacheValid(e)
    ensures var r1 := GetPlugin(e, "vm");
      r1.Ok? && var r2 := GetPlugin(r1.value.1, "lxc");
      r2.Ok? && r1.value.0 != r2.value.0 && r1.value.0.kind == r2.value.0.kind
      && {"vm", "lxc"} <= r2.value.1.cache.Keys
  {
    assert ToLower("vm") == "vm" && ToLower("lxc") == "lxc";
    var r1 := GetPlugin(e, "vm");
    GetPluginKind(e, "vm");
  }

  /** `_clear_plugin_cache`. */
  function ClearCache(e: Engine): (r: Engine)
    ensures r.cache == map[] && r.created == e.created
  {
    Engine(map[], e.created)
  }

  /** After clearing, the next selection makes a new instance, different from
      any that was cached before. */
  lemma ClearThenFresh(e: Engine, serviceType: string)
    requires CacheValid(e) && serviceType != [] && ToLower(serviceType) in SupportedTypes
    ensures CacheValid(ClearCache(e))
    ensures GetPlugin(ClearCache(e), serviceType).Ok?
    ensures forall k :: k in e.cache ==> GetPlugin(ClearCache(e), serviceType).value.0 != e.cache[k]
  {
  }

  // ---------------------------------------------------------------------
  // _determine_backup_destination
  // ---------------------------------------------------------------------

  /** Where a backup goes: a PBS result carries the PBS settings and no
      path; the other two carry a path and no PBS settings. */
  datatype Destination = Pbs(config: PbsConfig) | Direct(path: string) | Local(path: string)

  datatype DestinationError =
    | PbsIncomplete(missing: seq<string>)
    | PbsUnreachable
    | DirectPathMissing

  const PbsRequired: seq<string> := ["server", "datastore", "username"]

  /** The required PBS fields that are empty, in the order server,
      datastore, username. */
  function MissingPbsFields(p: PbsConfig): (r: seq<string>)
    ensures "server" in r <==> p.server == []
    ensures "datastore" in r <==> p.datastore == []
    ensures "username" in r <==> p.username == []
    ensures forall f :: f in r ==> f in PbsRequired
    ensures |r| <= 3
  {
    (if p.server == [] then ["server"] else [])
    + (if p.datastore == [] then ["datastore"] else [])
    + (if p.username == [] then ["username"] else [])
  }

  predicate IsGuestType(serviceType: string) {
    ToLower(serviceType) in HypervisorTypes
  }

  predicate PbsEnabled(b: BackupConfig) {
    b.pbs.Some? && b.pbs.value.enabled
  }

  predicate DirectEnabled(b: BackupConfig) {
    b.direct.Some? && b.direct.value.enabled
  }

  /** `_determine_backup_destination`. `reachable` is the outcome of the PBS
      version request (a timeout, a connection error or an HTTP error
      status is `false`). */
  function DetermineDestination(serviceType: string, b: BackupConfig, reachable: bool): (r: Result<Destination, DestinationError>)
    ensures !IsGuestType(serviceType) ==> r == Ok(Local(b.root))
    ensures r == Err(DirectPathMissing) ==> IsGuestType(serviceType) && DirectEnabled(b) && b.direct.value.path == []
    ensures IsGuestType(serviceType) && !PbsEnabled(b) && DirectEnabled(b) && b.direct.value.path == [] ==>
      r == Err(DirectPathMissing)
    ensures r.Ok? && r.value.Pbs? ==> PbsEnabled(b) && r.value.config == b.pbs.value && reachable
  {
    if !IsGuestType(serviceType) then Ok(Local(b.root))
    else if PbsEnabled(b) then
      var missing := MissingPbsFields(b.pbs.value);
      if missing != [] then Err(PbsIncomplete(missing))
      else if !reachable then Err(PbsUnreachable)
      else Ok(Pbs(b.pbs.value))
    else if DirectEnabled(b) then
      if b.direct.value.path == [] then Err(DirectPathMissing)
      else Ok(Direct(b.direct.value.path))
    else Ok(Local(b.root))
  }

  /** For a VM or container the order is PBS, then direct storage, then the
      local root; every later choice is taken only when the earlier ones are
      switched off. */
  lemma DestinationPriority(serviceType: string, b: BackupConfig, reachable: bool)
    requires IsGuestType(serviceType)
    ensures PbsEnabled(b) ==> (DetermineDestination(serviceType, b, reachable).Ok? ==>
      DetermineDestination(serviceType, b, reachable) == Ok(Pbs(b.pbs.value)))
    ensures !PbsEnabled(b) && DirectEnabled(b) && b.direct.value.path != [] ==>
      DetermineDestination(serviceType, b, reachable) == Ok(Direct(b.direct.value.path))
    ensures !PbsEnabled(b) && !DirectEnabled(b) ==> DetermineDestination(serviceType, b, reachable) == Ok(Local(b.root))
    ensures DetermineDestination(serviceType, b, reachable).Ok? && DetermineDestination(serviceType, b, reachable).value.Local? ==>
      !PbsEnabled(b) && !DirectEnabled(b)
  {
  }

  /** Enabled PBS settings either name every missing field or, once
      complete, decide alone: an unreachable server is an error, never a
      fall-through to direct or local storage. */
  lemma PbsErrors(serviceType: string, b: BackupConfig, reachable: bool)
    requires IsGuestType(serviceType) && PbsEnabled(b)
    ensures MissingPbsFields(b.pbs.value) != [] ==>
      DetermineDestination(serviceType, b, reachable) == Err(PbsIncomplete(MissingPbsFields(b.pbs.value)))
    ensures MissingPbsFields(b.pbs.value) == [] && !reachable ==>
      DetermineDestination(serviceType, b, reachable) == Err(PbsUnreachable)
    ensures MissingPbsFields(b.pbs.value) == [] && reachable ==>
      DetermineDestination(serviceType, b, reachable) == Ok(Pbs(b.pbs.value))
  {
  }

  /** With every required field empty, the error lists all three in order. */
  lemma AllPbsFieldsMissing(p: PbsConfig)
    requires p.server == [] && p.datastore == [] && p.username == []
    ensures MissingPbsFields(p) == PbsRequired
  {
  }

  /** A validated backup section never has direct storage without a path. */
  lemma ValidatedDirectHasPath(serviceType: string, b: BackupConfig, reachable: bool)
    requires BackupInvariant(b)
    ensures DetermineDestination(serviceType, b, reachable) != Err(DirectPathMissing)
  {
  }

  function MethodName(d: Destination): string {
    match d
    case Pbs(_) => "pbs"
    case Direct(_) => "direct"
    case Local(_) => "local"
  }

  // ---------------------------------------------------------------------
  // _generate_backup_filename
  // ---------------------------------------------------------------------

  /** A local date and time as the clock gives it. */
  datatype Stamp = Stamp(year: nat, month: nat, day: nat, hour: nat, minute: nat, second: nat)

  /** A time `%Y` renders in four digits. */
  predicate ValidStamp(t: Stamp) {
    1000 <= t.year <= 9999 && 1 <= t.month <= 12 && 1 <= t.day <= 31
    && t.hour < 24 && t.minute < 60 && t.second < 60
  }

  /** `strftime("%Y%m%d_%H%M%S")`. */
  function StampText(t: Stamp): (r: string)
    ensures |r| == 15
  {
    Pad(t.year, 4) + Pad(t.month, 2) + Pad(t.day, 2) + "_" + Pad(t.hour, 2) + Pad(t.minute, 2) + Pad(t.second, 2)
  }

  /** Reads a `YYYYMMDD_HHMMSS` stamp back. */
  function ParseStamp(x: string): (r: Option<Stamp>)
    ensures r.Some? ==> |x| == 15 && x[8] == '_'
  {
    if |x| == 15 && AllDigits(x[..8]) && x[8] == '_' && AllDigits(x[9..]) then
      assert AllDigits(x[0..4]) && AllDigits(x[4..6]) && AllDigits(x[6..8]);
      assert AllDigits(x[9..11]) && AllDigits(x[11..13]) && AllDigits(x[13..15]);
      Some(Stamp(DigitsValue(x[0..4]), DigitsValue(x[4..6]), DigitsValue(x[6..8]),
                 DigitsValue(x[9..11]), DigitsValue(x[11..13]), DigitsValue(x[13..15])))
    else None
  }

  lemma Pow10Values()
    ensures Pow10(2) == 100 && Pow10(4) == 10000
  {
  }

  /** Three pieces glued around a separator can be cut apart again. */
  lemma CutAround(p: string, q: string, m: string, x: string)
    requires x == p + m + q
    ensures x[..|p|] == p && x[|p|..|p| + |m|] == m && x[|p| + |m|..] == q
  {
  }

  /** Six digit fields glued with an underscore after the date. */
  lemma StampShape(a: string, b: string, c: string, d: string, e: string, f: string)
    requires |a| == 4 && |b| == 2 && |c| == 2 && |d| == 2 && |e| == 2 && |f| == 2
    requires AllDigits(a) && AllDigits(b) && AllDigits(c) && AllDigits(d) && AllDigits(e) && AllDigits(f)
    ensures var x := a + b + c + "_" + d + e + f;
      |x| == 15 && x[8] == '_' && AllDigits(x[..8]) && AllDigits(x[9..])
      && x[0..4] == a && x[4..6] == b && x[6..8] == c && x[9..11] == d && x[11..13] == e && x[13..15] == f
  {
    var x := a + b + c + "_" + d + e + f;
    var front, back := a + b + c, d + e + f;
    assert x == front + "_" + back;
    CutAround(front, back, "_", x);
    CutAround(a, c, b, front);
    CutAround(d, f, e, back);
    AllDigitsConcat(a, b);
    AllDigitsConcat(a + b, c);
    AllDigitsConcat(d, e);
    AllDigitsConcat(d + e, f);
    assert x[0..4] == front[0..4] && x[4..6] == front[4..6] && x[6..8] == front[6..8];
    assert x[9..11] == back[0..2] && x[11..13] == back[2..4] && x[13..15] == back[4..6];
  }

  /** Reading six digit fields back out of a stamp-shaped text. */
  lemma ParseStampFields(a: string, b: string, c: string, d: string, e: string, f: string)
    requires |a| == 4 && |b| == 2 && |c| == 2 && |d| == 2 && |e| == 2 && |f| == 2
    requires AllDigits(a) && AllDigits(b) && AllDigits(c) && AllDigits(d) && AllDigits(e) && AllDigits(f)
    ensures ParseStamp(a + b + c + "_" + d + e + f)
         == Some(Stamp(DigitsValue(a), DigitsValue(b), DigitsValue(c), DigitsValue(d), DigitsValue(e), DigitsValue(f)))
  {
    StampShape(a, b, c, d, e, f);
  }

  /** The stamp in a file name determines the time it was made. */
  lemma StampRoundTrip(t: Stamp)
    requires ValidStamp(t)
    ensures ParseStamp(StampText(t)) == Some(t)
  {
    Pow10Values();
    ParseStampFields(Pad(t.year, 4), Pad(t.month, 2), Pad(t.day, 2), Pad(t.hour, 2), Pad(t.minute, 2), Pad(t.second, 2));
    DigitsValueOfPad(t.year, 4);
    DigitsValueOfPad(t.month, 2);
    DigitsValueOfPad(t.day, 2);
    DigitsValueOfPad(t.hour, 2);
    DigitsValueOfPad(t.minute, 2);
    DigitsValueOfPad(t.second, 2);
  }

  /** `name.replace(" ", "_").replace("/", "_")`. */
  function SafeName(name: string): (r: string)
    ensures |r| == |name|
    ensures forall i :: 0 <= i < |name| ==> r[i] == (if name[i] == ' ' || name[i] == '/' then '_' else name[i])
  {
    seq(|name|, i requires 0 <= i < |name| => if name[i] == ' ' || name[i] == '/' then '_' else name[i])
  }

  /** Sanitising leaves no space or slash and is idempotent. */
  lemma SafeNameClean(name: string)
    ensures ' ' !in SafeName(name) && '/' !in SafeName(name)
    ensures SafeName(SafeName(name)) == SafeName(name)
  {
  }

  const DefaultExtension := "tar.gz"

  /** `_generate_backup_filename`. */
  function Filename(name: string, serviceType: string, t: Stamp, ext: string): (r: string)
    ensures |r| == |name| + 17 + |serviceType| + 1 + |ext|
    ensures r[..|name|] == SafeName(name) && r[|name|] == '_'
    ensures r[|name| + 1..|name| + 16] == StampText(t)
    ensures r[|name| + 16..] == "_" + serviceType + "." + ext
  {
    var r := SafeName(name) + "_" + StampText(t) + "_" + serviceType + "." + ext;
    assert r == (SafeName(name) + "_") + StampText(t) + ("_" + serviceType + "." + ext);
    r
  }

  /** The time of a file name can be read back from it. */
  lemma FilenameStamp(name: string, serviceType: string, t: Stamp, ext: string)
    requires ValidStamp(t)
    ensures ParseStamp(Filename(name, serviceType, t, ext)[|name| + 1..|name| + 16]) == Some(t)
  {
    StampRoundTrip(t);
  }

  /** Chronological order of two stamps. */
  predicate Before(a: Stamp, b: Stamp) {
    a.year < b.year || (a.year == b.year && (
    a.month < b.month || (a.month == b.month && (
    a.day < b.day || (a.day == b.day && (
    a.hour < b.hour || (a.hour == b.hour && (
    a.minute < b.minute || (a.minute == b.minute && a.second < b.second)))))))))
  }

  /** Everything after the year field. */
  function AfterYear(t: Stamp, q: string): string {
    Pad(t.month, 2) + (Pad(t.day, 2) + ("_" + (Pad(t.hour, 2) + (Pad(t.minute, 2) + (Pad(t.second, 2) + q)))))
  }

  /** The clock fields after the year compare like the times they write. */
  lemma AfterYearOrder(a: Stamp, b: Stamp, q: string)
    requires ValidStamp(a) && ValidStamp(b) && a.year == b.year
    ensures LexLess(AfterYear(a, q), AfterYear(b, q)) <==> Before(a, b)
  {
    Pow10Values();
    var s6a, s6b := Pad(a.second, 2) + q, Pad(b.second, 2) + q;
    PadFieldStep(a.second, b.second, 2, q, q);
    LexLessIrreflexive(q);
    var s5a, s5b := Pad(a.minute, 2) + s6a, Pad(b.minute, 2) + s6b;
    PadFieldStep(a.minute, b.minute, 2, s6a, s6b);
    var s4a, s4b := Pad(a.hour, 2) + s5a, Pad(b.hour, 2) + s5b;
    PadFieldStep(a.hour, b.hour, 2, s5a, s5b);
    LexLessCommonPrefix("_", s4a, s4b);
    var s3a, s3b := Pad(a.day, 2) + ("_" + s4a), Pad(b.day, 2) + ("_" + s4b);
    PadFieldStep(a.day, b.day, 2, "_" + s4a, "_" + s4b);
    PadFieldStep(a.month, b.month, 2, s3a, s3b);
  }

  /** Regrouping seven concatenated pieces in front of a tail. */
  lemma RegroupSeven(a: string, b: string, c: string, d: string, e: string, f: string, g: string, q: string)
    ensures a + b + c + d + e + f + g + q == a + (b + (c + (d + (e + (f + (g + q))))))
  {
  }

  /** Regrouping a file name around its stamp. */
  lemma RegroupName(a: string, b: string, c: string, d: string, e: string, f: string, g: string)
    ensures a + b + c + d + e + f + g == (a + b) + (c + (d + e + f + g))
  {
  }

  /** A file name split into its prefix, its year and everything after. */
  lemma FilenameSplit(name: string, serviceType: string, t: Stamp, ext: string)
    ensures Filename(name, serviceType, t, ext)
      == (SafeName(name) + "_") + (Pad(t.year, 4) + AfterYear(t, "_" + serviceType + "." + ext))
  {
    var q := "_" + serviceType + "." + ext;
    RegroupName(SafeName(name), "_", StampText(t), "_", serviceType, ".", ext);
    RegroupSeven(Pad(t.year, 4), Pad(t.month, 2), Pad(t.day, 2), "_", Pad(t.hour, 2), Pad(t.minute, 2), Pad(t.second, 2), q);
  }

  /** For one service, type and extension, file names sort exactly as their
      times do. */
  lemma FilenameOrder(name: string, serviceType: string, ext: string, a: Stamp, b: Stamp)
    requires ValidStamp(a) && ValidStamp(b)
    ensures LexLess(Filename(name, serviceType, a, ext), Filename(name, serviceType, b, ext)) <==> Before(a, b)
  {
    Pow10Values();
    var p := SafeName(name) + "_";
    var q := "_" + serviceType + "." + ext;
    FilenameSplit(name, serviceType, a, ext);
    FilenameSplit(name, serviceType, b, ext);
    LexLessCommonPrefix(p, Pad(a.year, 4) + AfterYear(a, q), Pad(b.year, 4) + AfterYear(b, q));
    PadFieldStep(a.year, b.year, 4, AfterYear(a, q), AfterYear(b, q));
    if a.year == b.year {
      AfterYearOrder(a, b, q);
    }
  }

  // ---------------------------------------------------------------------
  // _create_backup_metadata
  // ---------------------------------------------------------------------

  /** The PBS part of the metadata; there is deliberately no password. */
  datatype PbsDetails = PbsDetails(server: string, datastore: string, username: string)

  /** The metadata record of one backup. */
  datatype Metadata = Metadata(
    serviceName: string,
    serviceType: string,
    backupMethod: string,
    timestamp: string,
    status: string,
    backupPath: Option<string>,
    fileSizeBytes: Option<nat>,
    durationSeconds: Option<real>,
    vmid: Option<int>,
    node: Option<string>,
    pbsDetails: Option<PbsDetails>)

  /** What asking the file system about the backup path gives: its size,
      that it does not exist, or a permission or OS error. */
  datatype FileProbe = Exists(size: nat) | Missing | AccessError

  /** `_create_backup_metadata`. `now` is the clock's ISO text. */
  function CreateMetadata(s: ServiceConfig, dest: Destination, backupPath: Option<string>, probe: FileProbe,
                          duration: Option<real>, now: string): (m: Metadata)
    ensures m.status == "pending" && m.serviceType == ToLower(s.serviceType)
    ensures m.serviceName == s.name && m.backupMethod == MethodName(dest) && m.timestamp == now
    ensures m.backupPath == backupPath && m.durationSeconds == duration
    ensures m.fileSizeBytes.Some? <==> backupPath.Some? && probe.Exists?
    ensures m.fileSizeBytes.Some? ==> m.fileSizeBytes.value == probe.size
    ensures IsGuestType(s.serviceType) ==> m.vmid == s.vmid && m.node == s.node
    ensures !IsGuestType(s.serviceType) ==> m.vmid.None? && m.node.None?
    ensures m.pbsDetails.Some? <==> dest.Pbs?
    ensures dest.Pbs? ==> m.pbsDetails == Some(PbsDetails(dest.config.server, dest.config.datastore, dest.config.username))
  {
    var size := if backupPath.Some? && probe.Exists? then Some(probe.size) else None;
    var guest := IsGuestType(s.serviceType);
    Metadata(s.name, ToLower(s.serviceType), MethodName(dest), now, "pending", backupPath, size, duration,
             if guest then s.vmid else None, if guest then s.node else None,
             if dest.Pbs? then Some(PbsDetails(dest.config.server, dest.config.datastore, dest.config.username)) else None)
  }

  /** The metadata does not depend on the PBS password or password command:
      no secret can reach it. */
  lemma MetadataHidesPassword(s: ServiceConfig, p1: PbsConfig, p2: PbsConfig, backupPath: Option<string>,
                              probe: FileProbe, duration: Option<real>, now: string)
    requires p1.(password := p2.password, passwordCommand := p2.passwordCommand) == p2
    ensures CreateMetadata(s, Pbs(p1), backupPath, probe, duration, now)
         == CreateMetadata(s, Pbs(p2), backupPath, probe, duration, now)
  {
  }

  // ---------------------------------------------------------------------
  // _execute_backup_command
  // ---------------------------------------------------------------------

  /** `Path(a) / b` for plain paths. */
  function PathJoin(a: string, b: string): (r: string)
    ensures b != [] && b[0] == '/' ==> r == b
    ensures b == [] ==> r == a
  {
    if b == [] then a
    else if b[0] == '/' then b
    else if a == [] then b
    else if a[|a| - 1] == '/' then a + b
    else a + "/" + b
  }

  /** What a plugin call did: returned a value, or raised with a message. */
  datatype PluginCall = Returned(value: Value) | Raised(detail: string)

  /** The fixed result record; the duration is left to the clock. A
      `backupPath` is whatever path was produced (`JNull` for none). */
  datatype ExecResult = ExecResult(success: bool, backupPath: Value, errorMessage: Option<string>)

  const PbsFailedText := "PBS backup failed. Check PBS server logs for details."

  /** A message built around one inserted text. */
  lemma OneHole(a: string, x: string, b: string)
    ensures StartsWith(a + x + b, a) && Contains(a + x + b, x)
  {
    ContainsInfix(a, x, b);
    assert (a + x + b)[..|a|] == a;
  }

  /** A message built around two inserted texts. */
  lemma TwoHoles(a: string, x: string, m: string, y: string, b: string)
    ensures StartsWith(a + x + m + y + b, a)
    ensures Contains(a + x + m + y + b, x) && Contains(a + x + m + y + b, y)
  {
    OneHole(a, x, m + y + b);
    assert a + x + m + y + b == a + x + (m + y + b);
    ContainsInfix(a + x + m, y, b);
  }

  /** The message of a refused plugin lookup: it names the service, and the
      refused type when there was one; the two kinds start differently. */
  function PluginErrorText(name: string, err: PluginError): (r: string)
    ensures Contains(r, name)
    ensures err.NoType? ==> StartsWith(r, "Service '")
    ensures err.UnsupportedType? ==> StartsWith(r, "Unsupported service type '") && Contains(r, err.serviceType)
  {
    match err
    case NoType =>
      var a, b := "Service '", "' has no type defined. Service type is required for plugin selection.";
      OneHole(a, name, b);
      a + name + b
    case UnsupportedType(t) =>
      var u, m := "Unsupported service type '", "' for service '";
      var e := "'. Supported types: vm, lxc, docker, systemd, generic";
      TwoHoles(u, t, m, name, e);
      u + t + m + name + e
  }

  /** The message of a backup that raised. */
  function FailureText(name: string, how: string, detail: string): (r: string)
    ensures Contains(r, name) && Contains(r, how) && Contains(r, detail)
  {
    var r := "Backup execution failed for service '" + name + "' using " + how + " method: " + detail
      + ". Check logs for details.";
    ContainsInfix("Backup execution failed for service '", name,
                  "' using " + how + " method: " + detail + ". Check logs for details.");
    assert r == "Backup execution failed for service '" + name
      + ("' using " + how + " method: " + detail + ". Check logs for details.");
    ContainsInfix("Backup execution failed for service '" + name + "' using ", how,
                  " method: " + detail + ". Check logs for details.");
    assert r == "Backup execution failed for service '" + name + "' using " + how
      + (" method: " + detail + ". Check logs for details.");
    ContainsInfix("Backup execution failed for service '" + name + "' using " + how + " method: ", detail,
                  ". Check logs for details.");
    r
  }

  /** The path a local backup is written to: a directory per service under
      the root. */
  function LocalPath(root: string, s: ServiceConfig, t: Stamp): string {
    PathJoin(PathJoin(root, s.name), Filename(s.name, s.serviceType, t, DefaultExtension))
  }

  /** `_execute_backup_command`. In a dry run nothing is called and the
      path the backup would get is reported. Otherwise the plugin is
      selected (which may fill the cache) and `call` is the outcome of the
      one plugin method the route uses: `backup_to_pbs`, `backup_to_storage`
      or `backup`. */
  function ExecuteBackup(e: Engine, s: ServiceConfig, dest: Destination, dryRun: bool, t: Stamp, call: PluginCall): (r: (ExecResult, Engine))
    ensures r.0.success <==> r.0.errorMessage.None?
    ensures dryRun ==> r.0.success && r.1 == e
    ensures !dryRun && GetPlugin(e, s.serviceType).Err? ==>
      r == (ExecResult(false, JNull, Some(FailureText(s.name, MethodName(dest), PluginErrorText(s.name, GetPlugin(e, s.serviceType).error)))), e)
    ensures !dryRun && GetPlugin(e, s.serviceType).Ok? ==> r.1 == GetPlugin(e, s.serviceType).value.1
    ensures !dryRun && call.Raised? ==> !r.0.success
    ensures !dryRun && call.Raised? && GetPlugin(e, s.serviceType).Ok? ==>
      r.0.errorMessage == Some(FailureText(s.name, MethodName(dest), call.detail))
    ensures (!dryRun && dest.Pbs? && call.Returned? && GetPlugin(e, s.serviceType).Ok?) ==>
      (r.0.success <==> Truthy(call.value))
    ensures dest.Pbs? ==> r.0.backupPath == JNull
    ensures dryRun && dest.Direct? ==>
      r.0.backupPath == JStr(PathJoin(dest.path, Filename(s.name, s.serviceType, t, DefaultExtension)))
    ensures dryRun && dest.Local? ==> r.0.backupPath == JStr(LocalPath(dest.path, s, t))
  {
    var how := MethodName(dest);
    if dryRun then
      match dest
      case Pbs(_) => (ExecResult(true, JNull, None), e)
      case Direct(path) => (ExecResult(true, JStr(PathJoin(path, Filename(s.name, s.serviceType, t, DefaultExtension))), None), e)
      case Local(root) => (ExecResult(true, JStr(LocalPath(root, s, t)), None), e)
    else
      match GetPlugin(e, s.serviceType)
      case Err(err) => (ExecResult(false, JNull, Some(FailureText(s.name, how, PluginErrorText(s.name, err)))), e)
      case Ok((_, e2)) =>
        match call
        case Raised(detail) => (ExecResult(false, JNull, Some(FailureText(s.name, how, detail))), e2)
        case Returned(v) =>
          match dest
          case Pbs(_) => (if Truthy(v) then ExecResult(true, JNull, None) else ExecResult(false, JNull, Some(PbsFailedText)), e2)
          case Direct(_) => (ExecResult(true, v, None), e2)
          case Local(root) => (ExecResult(true, JStr(LocalPath(root, s, t)), None), e2)
  }

  /** For direct and local storage only an exception counts as failure: the
      value the plugin returns is not inspected (for a local backup it is
      ignored, for direct storage it becomes the path). */
  lemma StorageSuccessIgnoresReturn(e: Engine, s: ServiceConfig, dest: Destination, t: Stamp, v: Value)
    requires !dest.Pbs? && GetPlugin(e, s.serviceType).Ok?
    ensures ExecuteBackup(e, s, dest, false, t, Returned(v)).0.success
    ensures dest.Direct? ==> ExecuteBackup(e, s, dest, false, t, Returned(v)).0.backupPath == v
    ensures dest.Local? ==> ExecuteBackup(e, s, dest, false, t, Returned(v)).0.backupPath == JStr(LocalPath(dest.path, s, t))
  {
  }

  /** A dry run reports the same paths a real local backup would write. */
  lemma DryRunMatchesLocal(e: Engine, s: ServiceConfig, root: string, t: Stamp, v: Value)
    requires GetPlugin(e, s.serviceType).Ok?
    ensures ExecuteBackup(e, s, Local(root), true, t, Returned(v)).0
         == ExecuteBackup(e, s, Local(root), false, t, Returned(v)).0
  {
  }

  // ---------------------------------------------------------------------
  // _get_backup_files
  // ---------------------------------------------------------------------

  /** A directory entry with its modification time. */
  datatype Entry = Entry(path: string, isFile: bool, mtime: int)

  /** Listing a service's backup directory: it is missing, reading it
      fails, or these are its entries. */
  datatype Listing = DirMissing | ListError | Entries(entries: seq<Entry>)

  /** The regular files among the entries, in listing order. */
  function FilesOnly(es: seq<Entry>): (r: seq<Entry>)
    ensures forall e :: e in r <==> e in es && e.isFile
    ensures multiset(r) <= multiset(es)
  {
    if es == [] then []
    else
      var prev := FilesOnly(es[..|es| - 1]);
      assert es == es[..|es| - 1] + [es[|es| - 1]];
      if es[|es| - 1].isFile then prev + [es[|es| - 1]] else prev
  }

  predicate SortedByMtime(s: seq<Entry>) {
    forall i, j :: 0 <= i < j < |s| ==> s[i].mtime <= s[j].mtime
  }

  /** In a sorted sequence nothing before the last entry is newer than it. */
  lemma SortedLastBound(s: seq<Entry>)
    requires SortedByMtime(s) && |s| > 0
    ensures forall e | e in s[..|s| - 1] :: e.mtime <= s[|s| - 1].mtime
  {
  }

  /** An entry no older than everything in a sorted sequence may follow it. */
  lemma SortedAppend(s: seq<Entry>, y: Entry)
    requires SortedByMtime(s) && forall e | e in s :: e.mtime <= y.mtime
    ensures SortedByMtime(s + [y])
  {
    assert forall k | 0 <= k < |s| :: (s + [y])[k] == s[k] && s[k] in s;
  }

  /** A bound on every member of two multisets bounds their union. */
  lemma MultisetBound(a: seq<Entry>, b: seq<Entry>, x: Entry, m: int)
    requires multiset(a) == multiset(b) + multiset{x}
    requires x.mtime <= m && forall e | e in b :: e.mtime <= m
    ensures forall e | e in a :: e.mtime <= m
  {
    forall e | e in a
      ensures e.mtime <= m
    {
      assert e in multiset(a);
      assert e == x || e in multiset(b);
    }
  }

  /** Puts `x` after every entry not newer than it. */
  function InsertByMtime(x: Entry, s: seq<Entry>): (r: seq<Entry>)
    requires SortedByMtime(s)
    ensures SortedByMtime(r)
    ensures multiset(r) == multiset(s) + multiset{x}
    ensures |r| == |s| + 1
  {
    if s == [] then [x]
    else if s[|s| - 1].mtime <= x.mtime then
      SortedLastBound(s);
      assert s == s[..|s| - 1] + [s[|s| - 1]];
      SortedAppend(s, x);
      s + [x]
    else
      var init := s[..|s| - 1];
      var last := s[|s| - 1];
      assert s == init + [last];
      var r0 := InsertByMtime(x, init);
      SortedLastBound(s);
      MultisetBound(r0, init, x, last.mtime);
      SortedAppend(r0, last);
      r0 + [last]
  }

  /** `files.sort(key=mtime)`, oldest first. */
  function SortByMtime(s: seq<Entry>): (r: seq<Entry>)
    ensures SortedByMtime(r)
    ensures multiset(r) == multiset(s)
  {
    if s == [] then []
    else
      assert s == s[..|s| - 1] + [s[|s| - 1]];
      InsertByMtime(s[|s| - 1], SortByMtime(s[..|s| - 1]))
  }

  /** `_get_backup_files`: the regular files of the directory, oldest
      first; nothing when the directory is missing or cannot be read. */
  method GetBackupFiles(listing: Listing) returns (files: seq<Entry>)
    ensures !listing.Entries? ==> files == []
    ensures listing.Entries? ==> SortedByMtime(files) && multiset(files) == multiset(FilesOnly(listing.entries))
    ensures listing.Entries? ==> forall e :: e in files <==> e in listing.entries && e.isFile
  {
    if !listing.Entries? {
      return [];
    }
    var es := listing.entries;
    var found: seq<Entry> := [];
    var i := 0;
    while i < |es|
      invariant 0 <= i <= |es|
      invariant found == FilesOnly(es[..i])
    {
      assert es[..i + 1][..i] == es[..i];
      if es[i].isFile {
        found := found + [es[i]];
      }
      i := i + 1;
    }
    assert es[..i] == es;
    files := SortByMtime(found);
    forall e
      ensures e in files <==> e in es && e.isFile
    {
      assert e in files <==> e in multiset(files);
      assert e in found <==> e in multiset(found);
    }
  }

  // ---------------------------------------------------------------------
  // get_last_backup_time
  // ---------------------------------------------------------------------

  /** Python's `str.isspace()` for one character. */
  predicate IsPySpace(c: char) {
    c == ' ' || ('\t' <= c <= '\r') || ('\U{1c}' <= c <= '\U{1f}') || c == '\U{85}' || c == '\U{a0}'
    || c == '\U{1680}' || ('\U{2000}' <= c <= '\U{200a}') || c == '\U{2028}' || c == '\U{2029}'
    || c == '\U{202f}' || c == '\U{205f}' || c == '\U{3000}'
  }

  predicate AllSpace(s: string) {
    forall i :: 0 <= i < |s| ==> IsPySpace(s[i])
  }

  datatype QueryError = InvalidName | StateFailure(error: StateManager.StateError)

  const LastBackupPrefix := "last_backup."

  /** `get_last_backup_time`: refuses an empty or blank name, otherwise
      reads `last_backup.<name>` (nothing when never recorded); a stored
      value that cannot be read is a state error. */
  function GetLastBackupTime(st: StateManager.Store, name: string): (r: Result<StateManager.Val, QueryError>)
    ensures r == Err(InvalidName) <==> AllSpace(name)
    ensures !AllSpace(name) && LastBackupPrefix + name !in st ==> r == Ok(StateManager.VNone)
    ensures !AllSpace(name) && LastBackupPrefix + name in st ==>
      (r.Ok? <==> StateManager.Deserialize(st[LastBackupPrefix + name]).Ok?)
  {
    if name == [] || AllSpace(name) then Err(InvalidName)
    else
      match StateManager.Get(st, LastBackupPrefix + name, StateManager.VNone)
      case Ok(v) => Ok(v)
      case Err(e) => Err(StateFailure(e))
  }

  /** A recorded backup time is what the query returns. */
  lemma RecordedTimeReturned(st: StateManager.Store, name: string, v: StateManager.Val)
    requires !AllSpace(name) && !v.Unsupported?
    ensures StateManager.Set(st, LastBackupPrefix + name, v).Ok?
    ensures GetLastBackupTime(StateManager.Set(st, LastBackupPrefix + name, v).value, name) == Ok(v)
  {
    StateManager.SetThenGet(st, LastBackupPrefix + name, v, StateManager.VNone);
  }

  /** Recording another service's time does not change the answer. */
  lemma OtherServiceUnaffected(st: StateManager.Store, name: string, other: string, v: StateManager.Val)
    requires !AllSpace(name) && other != name && StateManager.Set(st, LastBackupPrefix + other, v).Ok?
    ensures GetLastBackupTime(StateManager.Set(st, LastBackupPrefix + other, v).value, name)
         == GetLastBackupTime(st, name)
  {
    assert LastBackupPrefix + other != LastBackupPrefix + name by {
      assert (LastBackupPrefix + other)[|LastBackupPrefix|..] == other;
      assert (LastBackupPrefix + name)[|LastBackupPrefix|..] == name;
    }
    StateManager.SetOtherKeys(st, LastBackupPrefix + other, v, LastBackupPrefix + name, StateManager.VNone);
  }

  // ---------------------------------------------------------------------
  // _validate_backup_config
  // ---------------------------------------------------------------------

  datatype BackupConfigError = RootMissing | RootInvalid | RootNotAbsolute | BadRetention

  /** The checks on the three values read from the backup section: nothing
      is checked when backups are disabled; the root must be a non-empty
      absolute path; a retention that is set must be an integer of at least
      one (a bool counts as an integer). */
  function ValidateBackupFields(enabled: Value, root: Value, retention: Value): (r: Result<(), BackupConfigError>)
    ensures !Truthy(enabled) ==> r.Ok?
    ensures Truthy(enabled) && r.Ok? ==> (root.JStr? && IsAbsolute(root.s)
      && (retention == JNull || (Service.IsPyInt(retention) && Service.IntValue(retention) >= 1)))
    ensures (Truthy(enabled) && root.JStr? && IsAbsolute(root.s)
      && (retention == JNull || (Service.IsPyInt(retention) && Service.IntValue(retention) >= 1))) ==> r.Ok?
    ensures r == Err(RootMissing) <==> Truthy(enabled) && !Truthy(root)
  {
    if !Truthy(enabled) then Ok(())
    else if !Truthy(root) then Err(RootMissing)
    else if !root.JStr? then Err(RootInvalid)
    else if !IsAbsolute(root.s) then Err(RootNotAbsolute)
    else if retention != JNull && !(Service.IsPyInt(retention) && Service.IntValue(retention) >= 1) then Err(BadRetention)
    else Ok(())
  }

  /** `config.get(key, default)` for a key within the depth limit. */
  function Read(cfg: Option<Value>, key: string, default: Value): Value {
    match Get(cfg, key, default)
    case Ok(v) => v
    case Err(_) => default
  }

  /** The `get` key of a field of the backup section. */
  function BackupKey(field: string): string { "global.backup." + field }

  /** `_validate_backup_config`: reads `enabled` (default true), `root` and
      `retention_days` from `global.backup` and checks them. */
  function ValidateBackupConfig(cfg: Option<Value>): (r: Result<(), BackupConfigError>)
    ensures cfg.None? ==> r == Err(RootMissing)
    ensures var enabled := Read(cfg, BackupKey("enabled"), JBool(true));
      var root := Read(cfg, BackupKey("root"), JNull);
      var retention := Read(cfg, BackupKey("retention_days"), JNull);
      r.Ok? <==> (!Truthy(enabled) || (root.JStr? && IsAbsolute(root.s)
        && (retention == JNull || (Service.IsPyInt(retention) && Service.IntValue(retention) >= 1))))
  {
    ValidateBackupFields(Read(cfg, BackupKey("enabled"), JBool(true)),
      Read(cfg, BackupKey("root"), JNull), Read(cfg, BackupKey("retention_days"), JNull))
  }

  /** `global.backup.<field>` walks `global_config`, `backup`, `<field>`. */
  lemma BackupKeyPath(field: string)
    requires '.' !in field
    ensures |Split(BackupKey(field), '.')| == 3
    ensures KeyPath(BackupKey(field)) == ["global_config", "backup", field]
  {
    var g, bk := "global", "backup";
    assert BackupKey(field) == g + ['.'] + (bk + ['.'] + field);
    SplitNoSep(field, '.');
    SplitAfterSep(bk, field, '.');
    SplitAfterSep(g, bk + ['.'] + field, '.');
  }

  /** `get("global.backup.<field>")` on a tree that holds `v` there. */
  lemma GetBackupField(cfg: Value, field: string, default: Value, v: Value)
    requires '.' !in field
    requires Walk(cfg, ["global_config", "backup", field]) == Some(v)
    ensures Read(Some(cfg), BackupKey(field), default) == v
  {
    BackupKeyPath(field);
    SplitCount(BackupKey(field), '.');
  }

  /** The three field names hold no dot. */
  lemma BackupFieldsNoDot(enabled: string, root: string, retention: string)
    requires enabled == "enabled" && root == "root" && retention == "retention_days"
    ensures '.' !in enabled && '.' !in root && '.' !in retention
  {
    assert forall i | 0 <= i < |retention| :: retention[i] != '.';
  }

  /** The fields of an accepted backup section pass the field check. */
  lemma AcceptedFieldsValid(b: BackupConfig)
    requires BackupInvariant(b)
    ensures ValidateBackupFields(JBool(b.enabled), JStr(b.root), JInt(b.retentionDays)).Ok?
  {
  }

  /** A configuration tree whose `global.backup` section holds the fields of
      an accepted backup section passes the engine's start-up check. */
  lemma ConfiguredBackupValid(b: BackupConfig, cfg: Value)
    requires BackupInvariant(b)
    requires Walk(cfg, ["global_config", "backup", "enabled"]) == Some(JBool(b.enabled))
    requires Walk(cfg, ["global_config", "backup", "root"]) == Some(JStr(b.root))
    requires Walk(cfg, ["global_config", "backup", "retention_days"]) == Some(JInt(b.retentionDays))
    ensures ValidateBackupFields(JBool(b.enabled), JStr(b.root), JInt(b.retentionDays)).Ok?
    ensures ValidateBackupConfig(Some(cfg)).Ok?
  {
    AcceptedFieldsValid(b);
    BackupFieldsNoDot("enabled", "root", "retention_days");
    GetBackupField(cfg, "enabled", JBool(true), JBool(b.enabled));
    GetBackupField(cfg, "root", JNull, JStr(b.root));
    GetBackupField(cfg, "retention_days", JNull, JInt(b.retentionDays));
  }
}
