/** The service record the engine and the plugins are handed: the attributes
    of a `ServiceConfig` they read. A `vmid` is kept as a JSON value because
    the plugins test its Python type themselves; `JNull` stands for `None`. */
module Service {
  import opened Wrappers
  import opened Json
  import ConfigLoader

  datatype Service = Service(
    name: string,
    serviceType: string,
    vmid: Value,
    node: Option<string>,
    containerName: Option<string>,
    serviceName: Option<string>,
    composeFile: Option<string>,
    backupPaths: Option<seq<string>>,
    healthCheckUrl: Value)

  /** Python's `isinstance(v, int)`, which a bool also satisfies. */
  predicate IsPyInt(v: Value) { v.JInt? || v.JBool? }

  /** The integer a Python int or bool stands for. */
  function IntValue(v: Value): int
    requires IsPyInt(v)
  {
    if v.JInt? then v.i else if v.b then 1 else 0
  }

  /** Python's `==` on values: ints and bools compare as numbers. */
  predicate PyEq(a: Value, b: Value) {
    if IsPyInt(a) && IsPyInt(b) then IntValue(a) == IntValue(b) else a == b
  }

  /** An optional string as the Python value it is (`None` or a `str`). */
  function OptValue(o: Option<string>): Value {
    if o.Some? then JStr(o.value) else JNull
  }

  /** Python truthiness of an optional string. */
  predicate Present(o: Option<string>) { o.Some? && o.value != [] }

  /** The record a validated `ServiceConfig` hands to the plugins. The extra
      `health_check_url` field is kept as whatever value the configuration
      gave it (`None` when it is absent), because the health check tests only
      its truthiness. */
  function FromConfig(c: ConfigLoader.ServiceConfig): (s: Service)
    ensures s.name == c.name && s.serviceType == c.serviceType
    ensures s.vmid == (if c.vmid.Some? then JInt(c.vmid.value) else JNull)
    ensures Lookup(c.fields, "health_check_url").None? ==> s.healthCheckUrl == JNull
    ensures Lookup(c.fields, "health_check_url").Some? ==> s.healthCheckUrl == Lookup(c.fields, "health_check_url").value
  {
    Service(c.name, c.serviceType,
            if c.vmid.Some? then JInt(c.vmid.value) else JNull,
            c.node, c.containerName, c.serviceName, c.composeFile, c.backupPaths,
            Lookup(c.fields, "health_check_url").GetOr(JNull))
  }
}
