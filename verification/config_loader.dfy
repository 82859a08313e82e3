/** The configuration layer: merging configuration trees, dot-path lookup
    into the validated configuration, and the validators that turn raw
    configuration objects into typed records.

    A configuration tree is a `Json.Value`; a YAML mapping is a `JObj` whose
    members keep insertion order. The validated configuration that `get`
    walks is represented by the same kind of tree, with model attributes as
    object members (the `global` section is stored under `global_config`). */
module ConfigLoader {
  import opened Wrappers
  import opened Text
  import opened Json
  import Utils

  // ---------------------------------------------------------------------
  // _merge_configs
  // ---------------------------------------------------------------------

  /** Python dictionaries never repeat a key. */
  predicate UniqueKeys(ms: seq<Member>) {
    forall i, j :: 0 <= i < j < |ms| ==> ms[i].key != ms[j].key
  }

  /** The value a merge stores under key `k` when the override holds `v` and
      the result so far holds `prev`: a `services` list is appended to an
      existing list, two objects are merged recursively, and anything else is
      replaced by the override. */
  function MergedValue(prev: Option<Value>, k: string, v: Value): (r: Value)
    decreases v, 1
    ensures (k == "services" && v.JArr? && prev.Some? && prev.value.JArr?) ==>
      r == JArr(prev.value.items + v.items)
    ensures (prev.Some? && prev.value.JObj? && v.JObj?) ==>
      r.JObj? && KeySet(r.members) == KeySet(prev.value.members) + KeySet(v.members)
    ensures (!(k == "services" && v.JArr? && prev.Some? && prev.value.JArr?)
             && !(prev.Some? && prev.value.JObj? && v.JObj?)) ==> r == v
  {
    if k == "services" && v.JArr? then
      (if prev.Some? && prev.value.JArr? then JArr(prev.value.items + v.items) else v)
    else if prev.Some? && prev.value.JObj? && v.JObj? then
      JObj(MergeConfigs(prev.value.members, v.members))
    else v
  }

  /** Folds the override's members into `result`, one key at a time. */
  function MergeInto(result: seq<Member>, ov: seq<Member>): (r: seq<Member>)
    decreases ov, 0
    ensures KeySet(r) == KeySet(result) + KeySet(ov)
  {
    if ov == [] then result
    else
      var k := ov[0].key;
      KeySetCons(ov);
      MergeInto(Put(result, k, MergedValue(Lookup(result, k), k, ov[0].val)), ov[1..])
  }

  /** `_merge_configs(base, override)`: a fresh dictionary; `base` itself is
      a value and so never changes. */
  function MergeConfigs(base: seq<Member>, ov: seq<Member>): (r: seq<Member>)
    decreases ov, 1
    ensures KeySet(r) == KeySet(base) + KeySet(ov)
  {
    MergeInto(base, ov)
  }

  lemma {:induction false} MergeIntoLookup(result: seq<Member>, ov: seq<Member>, k: string)
    requires UniqueKeys(ov)
    decreases ov
    ensures k !in KeySet(ov) ==> Lookup(MergeInto(result, ov), k) == Lookup(result, k)
    ensures k in KeySet(ov) ==>
      Lookup(MergeInto(result, ov), k) == Some(MergedValue(Lookup(result, k), k, Lookup(ov, k).value))
  {
    if ov != [] {
      var k0 := ov[0].key;
      var r1 := Put(result, k0, MergedValue(Lookup(result, k0), k0, ov[0].val));
      assert UniqueKeys(ov[1..]);
      assert KeySet(ov) == {k0} + KeySet(ov[1..]) by {
        assert ov == [ov[0]] + ov[1..];
      }
      MergeIntoLookup(r1, ov[1..], k);
      forall m | m in ov[1..]
        ensures m.key != k0
      {
        var j :| 0 <= j < |ov[1..]| && ov[1..][j] == m;
        assert ov[j + 1] == m;
      }
    }
  }

  /** The merged keys are exactly the keys of both sides. */
  lemma MergeKeys(base: seq<Member>, ov: seq<Member>)
    ensures KeySet(MergeConfigs(base, ov)) == KeySet(base) + KeySet(ov)
  {
  }

  /** A key only the base holds keeps its value. */
  lemma MergeKeepsBase(base: seq<Member>, ov: seq<Member>, k: string)
    requires UniqueKeys(ov) && k !in KeySet(ov)
    ensures Lookup(MergeConfigs(base, ov), k) == Lookup(base, k)
  {
    MergeIntoLookup(base, ov, k);
  }

  /** Outside the two special cases the override's value wins; in particular
      lists other than `services` are replaced, not merged. */
  lemma MergeOverrideWins(base: seq<Member>, ov: seq<Member>, k: string, v: Value)
    requires UniqueKeys(ov) && Lookup(ov, k) == Some(v)
    requires !(k == "services" && v.JArr?)
    requires !(v.JObj? && Lookup(base, k).Some? && Lookup(base, k).value.JObj?)
    ensures Lookup(MergeConfigs(base, ov), k) == Some(v)
  {
    MergeIntoLookup(base, ov, k);
  }

  /** Two objects under the same key are merged recursively. */
  lemma MergeNested(base: seq<Member>, ov: seq<Member>, k: string, bm: seq<Member>, om: seq<Member>)
    requires UniqueKeys(ov)
    requires Lookup(base, k) == Some(JObj(bm)) && Lookup(ov, k) == Some(JObj(om))
    ensures Lookup(MergeConfigs(base, ov), k) == Some(JObj(MergeConfigs(bm, om)))
  {
    MergeIntoLookup(base, ov, k);
  }

  /** A `services` list is appended to the base's list. */
  lemma MergeServicesAppend(base: seq<Member>, ov: seq<Member>, xs: seq<Value>, ys: seq<Value>)
    requires UniqueKeys(ov)
    requires Lookup(base, "services") == Some(JArr(xs)) && Lookup(ov, "services") == Some(JArr(ys))
    ensures Lookup(MergeConfigs(base, ov), "services") == Some(JArr(xs + ys))
  {
    MergeIntoLookup(base, ov, "services");
  }

  /** Merging an empty override gives the base back unchanged. */
  lemma MergeEmpty(base: seq<Member>)
    ensures MergeConfigs(base, []) == base
  {
  }

  // ---------------------------------------------------------------------
  // _get_nested_value, get, get_array, get_service_config
  // ---------------------------------------------------------------------

  const MaxDotDepth := 5

  /** The value at the end of a key path, when every segment exists. */
  function Walk(data: Value, keys: seq<string>): Option<Value> {
    if keys == [] then Some(data)
    else if !data.JObj? then None
    else
      match Lookup(data.members, keys[0])
      case None => None
      case Some(v) => Walk(v, keys[1..])
  }

  /** Walking a longer path is walking its two halves in turn. */
  lemma {:induction false} WalkAppend(data: Value, a: seq<string>, b: seq<string>)
    ensures Walk(data, a + b) == match Walk(data, a) case None => None case Some(x) => Walk(x, b)
  {
    if a == [] {
      assert a + b == b;
    } else {
      assert (a + b)[0] == a[0] && (a + b)[1..] == a[1..] + b;
      if data.JObj? {
        match Lookup(data.members, a[0]) {
          case None =>
          case Some(v) => WalkAppend(v, a[1..], b);
        }
      }
    }
  }

  /** `_get_nested_value(data, keys, default)`: the default as soon as a
      segment is missing or the current value is not a mapping. */
  function GetNestedValue(data: Value, keys: seq<string>, default: Value): (r: Value)
    ensures Walk(data, keys).Some? ==> r == Walk(data, keys).value
    ensures Walk(data, keys).None? ==> r == default
  {
    if keys == [] then data
    else if data.JObj? then
      match Lookup(data.members, keys[0])
      case None => default
      case Some(v) => GetNestedValue(v, keys[1..], default)
    else default
  }

  /** `global` is the YAML name of the section stored as `global_config`. */
  function RenameHead(w: string): string {
    if w == "global" then "global_config" else w
  }

  /** The key path `get` walks: the dot segments, with a leading `global`
      renamed to `global_config`. */
  function KeyPath(key: string): (keys: seq<string>)
    ensures |keys| == |Split(key, '.')|
    ensures keys[0] == RenameHead(Split(key, '.')[0]) && keys[1..] == Split(key, '.')[1..]
  {
    var keys := Split(key, '.');
    [RenameHead(keys[0])] + keys[1..]
  }

  /** `get(key, default)`; `cfg` is `None` before a configuration has been
      validated. */
  function Get(cfg: Option<Value>, key: string, default: Value): (r: Result<Value, string>)
    ensures cfg.None? ==> r == Ok(default)
    ensures cfg.Some? ==> (r.Err? <==> multiset(key)['.'] >= MaxDotDepth)
    ensures cfg.Some? && r.Ok? ==>
      r.value == (if Walk(cfg.value, KeyPath(key)).Some? then Walk(cfg.value, KeyPath(key)).value else default)
  {
    SplitCount(key, '.');
    if cfg.None? then Ok(default)
    else if |Split(key, '.')| > MaxDotDepth then
      Err("Dot notation depth exceeds maximum of 5 levels: " + key)
    else Ok(GetNestedValue(cfg.value, KeyPath(key), default))
  }

  lemma SplitPrefixWord(w: string, suffix: string)
    requires '.' !in w
    requires suffix == [] || suffix[0] == '.'
    ensures Split(w + suffix, '.') == [w] + (if suffix == [] then [] else Split(suffix[1..], '.'))
  {
    if suffix == [] {
      assert w + suffix == w;
      SplitNoSep(w, '.');
    } else {
      assert w + suffix == w + ['.'] + suffix[1..];
      SplitAfterSep(w, suffix[1..], '.');
    }
  }

  /** Two leading words that rename to the same section give the same
      lookup, whatever follows them (a depth error quotes the key as
      written, so only its occurrence agrees). */
  lemma GetSameHead(cfg: Option<Value>, w1: string, w2: string, suffix: string, default: Value)
    requires '.' !in w1 && '.' !in w2 && RenameHead(w1) == RenameHead(w2)
    requires suffix == [] || suffix[0] == '.'
    ensures Get(cfg, w1 + suffix, default).Err? == Get(cfg, w2 + suffix, default).Err?
    ensures Get(cfg, w1 + suffix, default).Ok? ==>
      Get(cfg, w1 + suffix, default) == Get(cfg, w2 + suffix, default)
  {
    var tail: seq<string> := if suffix == [] then [] else Split(suffix[1..], '.');
    var k1, k2 := w1 + suffix, w2 + suffix;
    SplitPrefixWord(w1, suffix);
    SplitPrefixWord(w2, suffix);
    assert Split(k1, '.') == [w1] + tail && Split(k2, '.') == [w2] + tail;
    assert |Split(k1, '.')| == |Split(k2, '.')|;
    assert KeyPath(k1) == KeyPath(k2);
    GetByPath(cfg, k1, k2, default);
  }

  /** `get` depends on the key only through its length in segments and its
      key path. */
  lemma GetByPath(cfg: Option<Value>, k1: string, k2: string, default: Value)
    requires |Split(k1, '.')| == |Split(k2, '.')| && KeyPath(k1) == KeyPath(k2)
    ensures Get(cfg, k1, default).Err? == Get(cfg, k2, default).Err?
    ensures Get(cfg, k1, default).Ok? ==> Get(cfg, k1, default) == Get(cfg, k2, default)
  {
  }

  /** `global` and `global_config` name the same section. */
  lemma GetGlobalAlias(cfg: Option<Value>, g: string, gc: string, suffix: string, default: Value)
    requires g == "global" && gc == "global_config"
    requires suffix == [] || suffix[0] == '.'
    ensures Get(cfg, g + suffix, default).Err? == Get(cfg, gc + suffix, default).Err?
    ensures Get(cfg, g + suffix, default).Ok? ==>
      Get(cfg, g + suffix, default) == Get(cfg, gc + suffix, default)
  {
    assert '.' !in g && '.' !in gc;
    GetSameHead(cfg, g, gc, suffix, default);
  }

  /** A missing segment anywhere along the path yields the default. */
  lemma GetMissingSegment(cfg: Value, key: string, default: Value, i: nat)
    requires |Split(key, '.')| <= MaxDotDepth
    requires i < |KeyPath(key)|
    requires Walk(cfg, KeyPath(key)[..i]).Some?
    requires var at := Walk(cfg, KeyPath(key)[..i]).value;
      !at.JObj? || KeyPath(key)[i] !in KeySet(at.members)
    ensures Get(Some(cfg), key, default) == Ok(default)
  {
    var keys := KeyPath(key);
    assert keys == keys[..i] + keys[i..];
    WalkAppend(cfg, keys[..i], keys[i..]);
    assert keys[i..][0] == keys[i];
  }

  /** `get_array(key)`: the list found under `key`, else the empty list. */
  function GetArray(cfg: Option<Value>, key: string): (r: Result<seq<Value>, string>)
    ensures r.Err? <==> Get(cfg, key, JArr([])).Err?
    ensures r.Ok? && r.value != [] ==> Get(cfg, key, JArr([])) == Ok(JArr(r.value))
    ensures (Get(cfg, key, JArr([])).Ok? && Get(cfg, key, JArr([])).value.JArr?) ==>
      r == Ok(Get(cfg, key, JArr([])).value.items)
    ensures (Get(cfg, key, JArr([])).Ok? && !Get(cfg, key, JArr([])).value.JArr?) ==> r == Ok([])
  {
    match Get(cfg, key, JArr([]))
    case Err(e) => Err(e)
    case Ok(v) => if v.JArr? then Ok(v.items) else Ok([])
  }

  /** A service entry of the validated tree whose `name` is `name`. */
  predicate NamedService(v: Value, name: string) {
    v.JObj? && Lookup(v.members, "name") == Some(JStr(name))
  }

  /** Index of the first entry named `name`. */
  function FindNamed(xs: seq<Value>, name: string): (r: Option<nat>)
    ensures r.Some? ==> (r.value < |xs| && NamedService(xs[r.value], name)
      && forall j :: 0 <= j < r.value ==> !NamedService(xs[j], name))
    ensures r.None? ==> forall j :: 0 <= j < |xs| ==> !NamedService(xs[j], name)
  {
    if xs == [] then None
    else if NamedService(xs[0], name) then Some(0)
    else
      match FindNamed(xs[1..], name)
      case None => None
      case Some(i) => Some(i + 1)
  }

  /** `get_service_config(name)`: the first service with that name. */
  function GetServiceConfig(cfg: Option<Value>, name: string): (r: Option<Value>)
    ensures r.Some? ==> NamedService(r.value, name)
  {
    match GetArray(cfg, "services")
    case Err(_) => None
    case Ok(xs) =>
      match FindNamed(xs, name)
      case None => None
      case Some(i) => Some(xs[i])
  }

  /** A name no service carries finds nothing. */
  lemma GetServiceConfigMissing(cfg: Option<Value>, name: string, xs: seq<Value>)
    requires GetArray(cfg, "services") == Ok(xs)
    requires forall j :: 0 <= j < |xs| ==> !NamedService(xs[j], name)
    ensures GetServiceConfig(cfg, name).None?
  {
    var r := FindNamed(xs, name);
    assert r.None?;
  }

  /** When several services share a name, the first one is returned. */
  lemma GetServiceConfigFirst(cfg: Option<Value>, name: string, xs: seq<Value>, i: nat)
    requires GetArray(cfg, "services") == Ok(xs)
    requires i < |xs| && NamedService(xs[i], name)
    requires forall j :: 0 <= j < i ==> !NamedService(xs[j], name)
    ensures GetServiceConfig(cfg, name) == Some(xs[i])
  {
    var r := FindNamed(xs, name);
    assert r == Some(i);
  }

  // ---------------------------------------------------------------------
  // Field readers shared by the validators
  // ---------------------------------------------------------------------

  datatype ConfigError =
    | Missing(field: string)
    | WrongKind(field: string)
    | OutOfRange(field: string)
    | NotAllowed(field: string)
    | NotAbsolute(field: string)
    | ExtraField(field: string)
    | Requires(field: string)

  /** A POSIX path is absolute exactly when it starts with `/`. */
  predicate IsAbsolute(p: string) { p != [] && p[0] == '/' }

  predicate IsStrField(ms: seq<Member>, f: string) {
    Lookup(ms, f).Some? && Lookup(ms, f).value.JStr?
  }

  /** An `Optional[...]` field is absent or `None` (null). */
  predicate Unset(ms: seq<Member>, f: string) {
    Lookup(ms, f).None? || Lookup(ms, f) == Some(JNull)
  }

  predicate OptStrOk(ms: seq<Member>, f: string) {
    Unset(ms, f) || Lookup(ms, f).value.JStr?
  }

  predicate BoolOk(ms: seq<Member>, f: string) {
    Lookup(ms, f).None? || Lookup(ms, f).value.JBool?
  }

  predicate IntOk(ms: seq<Member>, f: string) {
    Lookup(ms, f).None? || Lookup(ms, f).value.JInt?
  }

  predicate OptIntOk(ms: seq<Member>, f: string) {
    Unset(ms, f) || Lookup(ms, f).value.JInt?
  }

  predicate AllStr(xs: seq<Value>) { forall i :: 0 <= i < |xs| ==> xs[i].JStr? }

  predicate OptStrListOk(ms: seq<Member>, f: string) {
    Unset(ms, f) || (Lookup(ms, f).value.JArr? && AllStr(Lookup(ms, f).value.items))
  }

  function ReqStr(ms: seq<Member>, f: string): (r: Result<string, ConfigError>)
    ensures r.Ok? <==> IsStrField(ms, f)
    ensures r.Ok? ==> Lookup(ms, f) == Some(JStr(r.value))
  {
    match Lookup(ms, f)
    case None => Err(Missing(f))
    case Some(v) => if v.JStr? then Ok(v.s) else Err(WrongKind(f))
  }

  function OptStr(ms: seq<Member>, f: string): (r: Result<Option<string>, ConfigError>)
    ensures r.Ok? <==> OptStrOk(ms, f)
    ensures r == Ok(None) <==> Unset(ms, f)
    ensures r.Ok? && r.value.Some? ==> Lookup(ms, f) == Some(JStr(r.value.value))
  {
    match Lookup(ms, f)
    case None => Ok(None)
    case Some(v) =>
      if v.JNull? then Ok(None)
      else if v.JStr? then Ok(Some(v.s))
      else Err(WrongKind(f))
  }

  function BoolOr(ms: seq<Member>, f: string, default: bool): (r: Result<bool, ConfigError>)
    ensures r.Ok? <==> BoolOk(ms, f)
    ensures r.Ok? ==> (if Lookup(ms, f).None? then r.value == default
                       else Lookup(ms, f) == Some(JBool(r.value)))
  {
    match Lookup(ms, f)
    case None => Ok(default)
    case Some(v) => if v.JBool? then Ok(v.b) else Err(WrongKind(f))
  }

  function IntOr(ms: seq<Member>, f: string, default: int): (r: Result<int, ConfigError>)
    ensures r.Ok? <==> IntOk(ms, f)
    ensures r.Ok? ==> (if Lookup(ms, f).None? then r.value == default
                       else Lookup(ms, f) == Some(JInt(r.value)))
  {
    match Lookup(ms, f)
    case None => Ok(default)
    case Some(v) => if v.JInt? then Ok(v.i) else Err(WrongKind(f))
  }

  function OptInt(ms: seq<Member>, f: string): (r: Result<Option<int>, ConfigError>)
    ensures r.Ok? <==> OptIntOk(ms, f)
    ensures r == Ok(None) <==> Unset(ms, f)
    ensures r.Ok? && r.value.Some? ==> Lookup(ms, f) == Some(JInt(r.value.value))
  {
    match Lookup(ms, f)
    case None => Ok(None)
    case Some(v) =>
      if v.JNull? then Ok(None)
      else if v.JInt? then Ok(Some(v.i))
      else Err(WrongKind(f))
  }

  function Strings(xs: seq<Value>): (r: seq<string>)
    requires AllStr(xs)
    ensures |r| == |xs| && forall i :: 0 <= i < |xs| ==> xs[i] == JStr(r[i])
  {
    if xs == [] then [] else [xs[0].s] + Strings(xs[1..])
  }

  function OptStrList(ms: seq<Member>, f: string): (r: Result<Option<seq<string>>, ConfigError>)
    ensures r.Ok? <==> OptStrListOk(ms, f)
    ensures r == Ok(None) <==> Unset(ms, f)
  {
    match Lookup(ms, f)
    case None => Ok(None)
    case Some(v) =>
      if v.JNull? then Ok(None)
      else if v.JArr? && AllStr(v.items) then Ok(Some(Strings(v.items)))
      else Err(WrongKind(f))
  }

  /** `extra="forbid"`: the first key that is not a declared field. */
  function FirstExtra(ms: seq<Member>, allowed: set<string>): (r: Option<string>)
    ensures r.None? <==> KeySet(ms) <= allowed
    ensures r.Some? ==> r.value in KeySet(ms) && r.value !in allowed
  {
    if ms == [] then None
    else
      assert KeySet(ms) == {ms[0].key} + KeySet(ms[1..]) by {
        assert ms == [ms[0]] + ms[1..];
      }
      if ms[0].key !in allowed then Some(ms[0].key) else FirstExtra(ms[1..], allowed)
  }

  function NoExtra(ms: seq<Member>, allowed: set<string>): (r: Result<(), ConfigError>)
    ensures r.Ok? <==> KeySet(ms) <= allowed
  {
    match FirstExtra(ms, allowed)
    case None => Ok(())
    case Some(k) => Err(ExtraField(k))
  }

  // ---------------------------------------------------------------------
  // ServiceConfig
  // ---------------------------------------------------------------------

  const ServiceTypes: seq<string> := ["docker", "systemd", "vm", "lxc", "generic", "host"]

  datatype ServiceConfig = ServiceConfig(
    name: string,
    serviceType: string,
    enabled: bool,
    backup: bool,
    update: bool,
    monitor: bool,
    vmid: Option<int>,
    node: Option<string>,
    containerName: Option<string>,
    composeFile: Option<string>,
    serviceName: Option<string>,
    backupPaths: Option<seq<string>>,
    fields: seq<Member>)

  /** What a validated service record guarantees. */
  predicate ServiceInvariant(s: ServiceConfig) {
    s.serviceType in ServiceTypes
    && (s.vmid.Some? ==> Utils.IsValidVmid(s.vmid.value))
    && (s.serviceType in ["vm", "lxc"] ==> s.vmid.Some? && s.node.Some?)
    && (s.serviceType == "docker" ==> s.containerName.Some?)
    && (s.serviceType == "systemd" ==> s.serviceName.Some?)
  }

  /** The declarative acceptance condition for a raw service mapping. */
  predicate ServiceInputValid(ms: seq<Member>) {
    IsStrField(ms, "name") && IsStrField(ms, "type")
    && ToLower(Lookup(ms, "type").value.s) in ServiceTypes
    && ServiceFieldsValid(ms, ToLower(Lookup(ms, "type").value.s))
  }

  /** The acceptance condition for everything after the name and the type `t`. */
  predicate ServiceFieldsValid(ms: seq<Member>, t: string) {
    ServiceFlagsValid(ms) && ServiceRefsValid(ms, t)
  }

  /** The four switches and the VMID. */
  predicate ServiceFlagsValid(ms: seq<Member>) {
    BoolOk(ms, "enabled") && BoolOk(ms, "backup") && BoolOk(ms, "update") && BoolOk(ms, "monitor")
    && OptIntOk(ms, "vmid")
    && (!Unset(ms, "vmid") ==> Utils.IsValidVmid(Lookup(ms, "vmid").value.i))
  }

  /** The optional names, the path list, and what the type `t` requires. */
  predicate ServiceRefsValid(ms: seq<Member>, t: string) {
    OptStrOk(ms, "node") && OptStrOk(ms, "container_name") && OptStrOk(ms, "compose_file")
    && OptStrOk(ms, "service_name") && OptStrListOk(ms, "backup_paths")
    && (t in ["vm", "lxc"] ==> !Unset(ms, "vmid") && !Unset(ms, "node"))
    && (t == "docker" ==> !Unset(ms, "container_name"))
    && (t == "systemd" ==> !Unset(ms, "service_name"))
  }

  /** The model validators, run in their declaration order. */
  function CheckServiceModel(t: string, vmid: Option<int>, node: Option<string>,
                             container: Option<string>, unit: Option<string>): (r: Result<(), ConfigError>)
    ensures r.Ok? <==> ((t in ["vm", "lxc"] ==> vmid.Some? && node.Some?)
      && (t == "docker" ==> container.Some?) && (t == "systemd" ==> unit.Some?))
  {
    if t in ["vm", "lxc"] && vmid.None? then Err(Requires("vmid"))
    else if t in ["vm", "lxc"] && node.None? then Err(Requires("node"))
    else if t == "docker" && container.None? then Err(Requires("container_name"))
    else if t == "systemd" && unit.None? then Err(Requires("service_name"))
    else Ok(())
  }

  /** `ServiceConfig` validation; the first failing check is reported. */
  function ParseService(ms: seq<Member>): (r: Result<ServiceConfig, ConfigError>)
    ensures r.Ok? <==> ServiceInputValid(ms)
    ensures r.Ok? ==> ServiceInvariant(r.value)
    ensures r.Ok? ==> (Lookup(ms, "name") == Some(JStr(r.value.name))
      && r.value.serviceType == ToLower(Lookup(ms, "type").value.s)
      && r.value.fields == ms)
  {
    var name :- ReqStr(ms, "name");
    var rawType :- ReqStr(ms, "type");
    var t := ToLower(rawType);
    if t !in ServiceTypes then Err(NotAllowed("type"))
    else ParseServiceFields(ms, name, t)
  }

  /** The checks of `ServiceConfig` after the name and the lower-cased type. */
  function ParseServiceFields(ms: seq<Member>, name: string, t: string): (r: Result<ServiceConfig, ConfigError>)
    requires t in ServiceTypes
    ensures r.Ok? <==> ServiceFieldsValid(ms, t)
    ensures r.Ok? ==> ServiceInvariant(r.value)
    ensures r.Ok? ==> r.value.name == name && r.value.serviceType == t && r.value.fields == ms
  {
    var enabled :- BoolOr(ms, "enabled", true);
    var backup :- BoolOr(ms, "backup", true);
    var update :- BoolOr(ms, "update", true);
    var monitor :- BoolOr(ms, "monitor", true);
    var vmid :- OptInt(ms, "vmid");
    if vmid.Some? && !Utils.IsValidVmid(vmid.value) then Err(OutOfRange("vmid"))
    else ParseServiceRefs(ms, name, t, enabled, backup, update, monitor, vmid)
  }

  /** The checks of `ServiceConfig` after the switches and the VMID. */
  function ParseServiceRefs(ms: seq<Member>, name: string, t: string, enabled: bool, backup: bool,
                            update: bool, monitor: bool, vmid: Option<int>): (r: Result<ServiceConfig, ConfigError>)
    requires t in ServiceTypes
    requires vmid.None? <==> Unset(ms, "vmid")
    requires vmid.Some? ==> Utils.IsValidVmid(vmid.value)
    ensures r.Ok? <==> ServiceRefsValid(ms, t)
    ensures r.Ok? ==> ServiceInvariant(r.value)
    ensures r.Ok? ==> (r.value.name == name && r.value.serviceType == t && r.value.fields == ms
      && r.value.enabled == enabled && r.value.backup == backup && r.value.update == update
      && r.value.monitor == monitor && r.value.vmid == vmid)
  {
    var node :- OptStr(ms, "node");
    var container :- OptStr(ms, "container_name");
    var compose :- OptStr(ms, "compose_file");
    var unit :- OptStr(ms, "service_name");
    var paths :- OptStrList(ms, "backup_paths");
    var _ :- CheckServiceModel(t, vmid, node, container, unit);
    Ok(ServiceConfig(name, t, enabled, backup, update, monitor, vmid, node,
                     container, compose, unit, paths, ms))
  }

  // ---------------------------------------------------------------------
  // ProxmoxBackupServerConfig and DirectStorageConfig
  // ---------------------------------------------------------------------

  const DefaultPbsPort := 8007

  datatype PbsConfig = PbsConfig(
    enabled: bool,
    server: string,
    port: int,
    datastore: string,
    username: string,
    password: Option<string>,
    passwordCommand: Option<string>,
    verifySsl: bool)

  /** Python truthiness of an optional string. */
  predicate OptTruthy(o: Option<string>) { o.Some? && o.value != [] }

  predicate PbsInvariant(p: PbsConfig) {
    1 <= p.port <= 65535
    && (p.enabled ==> OptTruthy(p.password) || OptTruthy(p.passwordCommand))
  }

  const PbsFields := {"enabled", "server", "port", "datastore", "username", "password",
                      "password_command", "verify_ssl"}

  function PortOf(ms: seq<Member>): int
    requires IntOk(ms, "port")
  {
    if Lookup(ms, "port").None? then DefaultPbsPort else Lookup(ms, "port").value.i
  }

  function OptStrOf(ms: seq<Member>, f: string): Option<string>
    requires OptStrOk(ms, f)
  {
    if Unset(ms, f) then None else Some(Lookup(ms, f).value.s)
  }

  predicate PbsInputValid(ms: seq<Member>) {
    BoolOk(ms, "enabled") && IsStrField(ms, "server") && IntOk(ms, "port")
    && 1 <= PortOf(ms) <= 65535
    && IsStrField(ms, "datastore") && IsStrField(ms, "username")
    && OptStrOk(ms, "password") && OptStrOk(ms, "password_command") && BoolOk(ms, "verify_ssl")
    && KeySet(ms) <= PbsFields
    && (Lookup(ms, "enabled") == Some(JBool(true)) ==>
          OptTruthy(OptStrOf(ms, "password")) || OptTruthy(OptStrOf(ms, "password_command")))
  }

  /** `ProxmoxBackupServerConfig` validation. */
  function ParsePbs(ms: seq<Member>): (r: Result<PbsConfig, ConfigError>)
    ensures r.Ok? <==> PbsInputValid(ms)
    ensures r.Ok? ==> PbsInvariant(r.value)
    ensures r.Ok? ==> (Lookup(ms, "server") == Some(JStr(r.value.server))
      && Lookup(ms, "datastore") == Some(JStr(r.value.datastore))
      && Lookup(ms, "username") == Some(JStr(r.value.username))
      && r.value.port == PortOf(ms))
  {
    var enabled :- BoolOr(ms, "enabled", false);
    var server :- ReqStr(ms, "server");
    var port :- IntOr(ms, "port", DefaultPbsPort);
    if port < 1 || port > 65535 then Err(OutOfRange("port"))
    else
      var datastore :- ReqStr(ms, "datastore");
      var username :- ReqStr(ms, "username");
      var password :- OptStr(ms, "password");
      var command :- OptStr(ms, "password_command");
      var verify :- BoolOr(ms, "verify_ssl", true);
      var _ :- NoExtra(ms, PbsFields);
      if enabled && !OptTruthy(password) && !OptTruthy(command) then Err(Requires("password"))
      else Ok(PbsConfig(enabled, server, port, datastore, username, password, command, verify))
  }

  const BackupFormats: seq<string> := ["vma", "tar"]

  /** `path` is a `Path`; the empty string stands for a path that is not set
      in records built by hand, which validation never produces. */
  datatype DirectStorageConfig = DirectStorageConfig(enabled: bool, path: string, format: string)

  predicate DirectInvariant(d: DirectStorageConfig) {
    IsAbsolute(d.path) && d.format in BackupFormats
  }

  const DirectFields := {"enabled", "path", "format"}

  function FormatOf(ms: seq<Member>): string
    requires Lookup(ms, "format").None? || Lookup(ms, "format").value.JStr?
  {
    if Lookup(ms, "format").None? then "vma" else Lookup(ms, "format").value.s
  }

  predicate DirectInputValid(ms: seq<Member>) {
    BoolOk(ms, "enabled") && IsStrField(ms, "path") && IsAbsolute(Lookup(ms, "path").value.s)
    && (Lookup(ms, "format").None? || Lookup(ms, "format").value.JStr?)
    && ToLower(FormatOf(ms)) in BackupFormats
    && KeySet(ms) <= DirectFields
  }

  function StrOr(ms: seq<Member>, f: string, default: string): (r: Result<string, ConfigError>)
    ensures r.Ok? <==> (Lookup(ms, f).None? || Lookup(ms, f).value.JStr?)
    ensures r.Ok? ==> (if Lookup(ms, f).None? then r.value == default
                       else Lookup(ms, f) == Some(JStr(r.value)))
  {
    match Lookup(ms, f)
    case None => Ok(default)
    case Some(v) => if v.JStr? then Ok(v.s) else Err(WrongKind(f))
  }

  /** `DirectStorageConfig` validation; the format is stored lower-cased. */
  function ParseDirect(ms: seq<Member>): (r: Result<DirectStorageConfig, ConfigError>)
    ensures r.Ok? <==> DirectInputValid(ms)
    ensures r.Ok? ==> DirectInvariant(r.value)
    ensures r.Ok? ==> (Lookup(ms, "path") == Some(JStr(r.value.path))
      && r.value.format == ToLower(FormatOf(ms)))
  {
    var enabled :- BoolOr(ms, "enabled", false);
    var path :- ReqStr(ms, "path");
    if !IsAbsolute(path) then Err(NotAbsolute("path"))
    else
      var format :- StrOr(ms, "format", "vma");
      if ToLower(format) !in BackupFormats then Err(NotAllowed("format"))
      else
        var _ :- NoExtra(ms, DirectFields);
        Ok(DirectStorageConfig(enabled, path, ToLower(format)))
  }

  // ---------------------------------------------------------------------
  // BackupConfig, UpdateConfig, MonitoringConfig
  // ---------------------------------------------------------------------

  const DefaultRetentionDays := 30

  datatype BackupConfig = BackupConfig(
    enabled: bool,
    root: string,
    retentionDays: int,
    compression: bool,
    pbs: Option<PbsConfig>,
    direct: Option<DirectStorageConfig>)

  predicate BackupInvariant(b: BackupConfig) {
    IsAbsolute(b.root) && b.retentionDays >= 1
    && (b.pbs.Some? ==> PbsInvariant(b.pbs.value))
    && (b.direct.Some? ==> DirectInvariant(b.direct.value))
  }

  const BackupFields := {"enabled", "root", "retention_days", "compression",
                         "proxmox_backup_server", "direct_storage"}

  /** An optional nested section: absent or null, or a mapping that
      validates. */
  predicate SectionOk(ms: seq<Member>, f: string, valid: seq<Member> -> bool) {
    Unset(ms, f) || (Lookup(ms, f).value.JObj? && valid(Lookup(ms, f).value.members))
  }

  predicate BackupInputValid(ms: seq<Member>) {
    BoolOk(ms, "enabled") && IsStrField(ms, "root") && IsAbsolute(Lookup(ms, "root").value.s)
    && IntOk(ms, "retention_days")
    && (Lookup(ms, "retention_days").None? || Lookup(ms, "retention_days").value.i >= 1)
    && BoolOk(ms, "compression")
    && SectionOk(ms, "proxmox_backup_server", PbsInputValid)
    && SectionOk(ms, "direct_storage", DirectInputValid)
    && KeySet(ms) <= BackupFields
  }

  function OptPbs(ms: seq<Member>): (r: Result<Option<PbsConfig>, ConfigError>)
    ensures r.Ok? <==> SectionOk(ms, "proxmox_backup_server", PbsInputValid)
    ensures r.Ok? && r.value.Some? ==> PbsInvariant(r.value.value)
    ensures r == Ok(None) <==> Unset(ms, "proxmox_backup_server")
  {
    match Lookup(ms, "proxmox_backup_server")
    case None => Ok(None)
    case Some(v) =>
      if v.JNull? then Ok(None)
      else if v.JObj? then
        var p :- ParsePbs(v.members);
        Ok(Some(p))
      else Err(WrongKind("proxmox_backup_server"))
  }

  function OptDirect(ms: seq<Member>): (r: Result<Option<DirectStorageConfig>, ConfigError>)
    ensures r.Ok? <==> SectionOk(ms, "direct_storage", DirectInputValid)
    ensures r.Ok? && r.value.Some? ==> DirectInvariant(r.value.value)
    ensures r == Ok(None) <==> Unset(ms, "direct_storage")
  {
    match Lookup(ms, "direct_storage")
    case None => Ok(None)
    case Some(v) =>
      if v.JNull? then Ok(None)
      else if v.JObj? then
        var d :- ParseDirect(v.members);
        Ok(Some(d))
      else Err(WrongKind("direct_storage"))
  }

  /** `BackupConfig` validation. */
  function ParseBackup(ms: seq<Member>): (r: Result<BackupConfig, ConfigError>)
    ensures r.Ok? <==> BackupInputValid(ms)
    ensures r.Ok? ==> BackupInvariant(r.value)
    ensures r.Ok? ==> (Lookup(ms, "root") == Some(JStr(r.value.root))
      && (Lookup(ms, "retention_days").None? ==> r.value.retentionDays == DefaultRetentionDays))
  {
    var enabled :- BoolOr(ms, "enabled", true);
    var root :- ReqStr(ms, "root");
    if !IsAbsolute(root) then Err(NotAbsolute("root"))
    else
      var retention :- IntOr(ms, "retention_days", DefaultRetentionDays);
      if retention < 1 then Err(OutOfRange("retention_days"))
      else
        var compression :- BoolOr(ms, "compression", true);
        var pbs :- OptPbs(ms);
        var direct :- OptDirect(ms);
        var _ :- NoExtra(ms, BackupFields);
        Ok(BackupConfig(enabled, root, retention, compression, pbs, direct))
  }

  datatype UpdateConfig = UpdateConfig(enabled: bool, autoUpdate: bool, checkIntervalHours: int)

  const UpdateFields := {"enabled", "auto_update", "check_interval_hours"}

  /** `UpdateConfig` validation: the interval lies between 1 and 168 hours. */
  function ParseUpdate(ms: seq<Member>): (r: Result<UpdateConfig, ConfigError>)
    ensures r.Ok? <==> (BoolOk(ms, "enabled") && BoolOk(ms, "auto_update")
      && IntOk(ms, "check_interval_hours")
      && (Lookup(ms, "check_interval_hours").None? ||
          1 <= Lookup(ms, "check_interval_hours").value.i <= 168)
      && KeySet(ms) <= UpdateFields)
    ensures r.Ok? ==> 1 <= r.value.checkIntervalHours <= 168
    ensures r.Ok? && Lookup(ms, "check_interval_hours").None? ==> r.value.checkIntervalHours == 24
  {
    var enabled :- BoolOr(ms, "enabled", true);
    var auto :- BoolOr(ms, "auto_update", false);
    var hours :- IntOr(ms, "check_interval_hours", 24);
    if hours < 1 || hours > 168 then Err(OutOfRange("check_interval_hours"))
    else
      var _ :- NoExtra(ms, UpdateFields);
      Ok(UpdateConfig(enabled, auto, hours))
  }

  datatype MonitoringConfig = MonitoringConfig(enabled: bool, checkIntervalMinutes: int)

  const MonitoringFields := {"enabled", "check_interval_minutes"}

  /** `MonitoringConfig` validation: the interval lies between 1 and 1440
      minutes. */
  function ParseMonitoring(ms: seq<Member>): (r: Result<MonitoringConfig, ConfigError>)
    ensures r.Ok? <==> (BoolOk(ms, "enabled") && IntOk(ms, "check_interval_minutes")
      && (Lookup(ms, "check_interval_minutes").None? ||
          1 <= Lookup(ms, "check_interval_minutes").value.i <= 1440)
      && KeySet(ms) <= MonitoringFields)
    ensures r.Ok? ==> 1 <= r.value.checkIntervalMinutes <= 1440
    ensures r.Ok? && Lookup(ms, "check_interval_minutes").None? ==> r.value.checkIntervalMinutes == 5
  {
    var enabled :- BoolOr(ms, "enabled", true);
    var minutes :- IntOr(ms, "check_interval_minutes", 5);
    if minutes < 1 || minutes > 1440 then Err(OutOfRange("check_interval_minutes"))
    else
      var _ :- NoExtra(ms, MonitoringFields);
      Ok(MonitoringConfig(enabled, minutes))
  }
}
