/** The decision logic of the Proxmox hypervisor plugin: which services it
    takes, how it checks them, where a guest actually runs, how a finished
    task is judged, and which backup route it takes. Every API answer is an
    input. */
module Proxmox {
  import opened Wrappers
  import opened Text
  import opened Json
  import opened Service
  import ConfigLoader
  import Utils

  const GuestTypes: seq<string> := ["vm", "lxc"]

  /** `matches`: the type, lower-cased, names a VM or a container. A target
      without a type has the empty type. */
  predicate Matches(serviceType: string) {
    ToLower(serviceType) in GuestTypes
  }

  /** `matches` does not care about letter case. */
  lemma MatchesIgnoresCase(t: string)
    ensures Matches(t) <==> Matches(ToLower(t))
  {
    assert ToLower(ToLower(t)) == ToLower(t);
  }

  // ---------------------------------------------------------------------
  // _validate_service, _get_vm_type
  // ---------------------------------------------------------------------

  datatype ProxError =
    | InvalidType
    | MissingVmid
    | VmidNotInt
    | MissingNode
    | ConnectionFailed

  /** `_validate_service`: four checks in a fixed order; the first failure
      is the error. The type test here is case-sensitive. */
  function ValidateService(s: Service): (r: Result<(), ProxError>)
    ensures r.Ok? <==> s.serviceType in GuestTypes && s.vmid != JNull && IsPyInt(s.vmid) && s.node.Some?
    ensures r == Err(InvalidType) <==> s.serviceType !in GuestTypes
    ensures r == Err(MissingVmid) <==> s.serviceType in GuestTypes && s.vmid == JNull
    ensures r == Err(VmidNotInt) <==>
      (s.serviceType in GuestTypes && s.vmid != JNull && !IsPyInt(s.vmid))
    ensures r == Err(MissingNode) <==>
      (s.serviceType in GuestTypes && IsPyInt(s.vmid) && s.node.None?)
  {
    if s.serviceType !in GuestTypes then Err(InvalidType)
    else if s.vmid == JNull then Err(MissingVmid)
    else if !IsPyInt(s.vmid) then Err(VmidNotInt)
    else if s.node.None? then Err(MissingNode)
    else Ok(())
  }

  /** A service that passes validation is one `matches` accepts. */
  lemma ValidatedMatches(s: Service)
    requires ValidateService(s).Ok?
    ensures Matches(s.serviceType)
  {
    assert ToLower(s.serviceType) == s.serviceType;
  }

  /** Every `vm` or `lxc` service the configuration layer accepts passes the
      plugin's own validation. */
  lemma ConfiguredGuestValidates(c: ConfigLoader.ServiceConfig)
    requires ConfigLoader.ServiceInvariant(c) && c.serviceType in GuestTypes
    ensures ValidateService(FromConfig(c)).Ok?
  {
  }

  /** `_get_vm_type`: the API path segment of the guest type. */
  function VmType(serviceType: string): (r: string)
    ensures r == "qemu" <==> serviceType == "vm"
    ensures r == "lxc" <==> serviceType != "vm"
  {
    if serviceType == "vm" then "qemu" else "lxc"
  }

  // ---------------------------------------------------------------------
  // _get_actual_node
  // ---------------------------------------------------------------------

  /** The answer to the cluster resource query. */
  datatype ResourceQuery =
    | Resources(items: seq<seq<Member>>)
    | QueryConnectionError
    | QueryFailed

  predicate VmidMatches(resource: seq<Member>, vmid: Value) {
    PyEq(Lookup(resource, "vmid").GetOr(JNull), vmid)
  }

  function NodeOf(resource: seq<Member>): Value {
    Lookup(resource, "node").GetOr(JNull)
  }

  /** `_get_actual_node`: the node of the first resource with the service's
      vmid; the configured node when none matches or the query fails for any
      reason other than the connection. */
  method GetActualNode(s: Service, q: ResourceQuery) returns (r: Result<Value, ProxError>)
    ensures r.Err? <==> q.QueryConnectionError?
    ensures q.QueryFailed? ==> r == Ok(OptValue(s.node))
    ensures q.Resources? ==> forall i :: (0 <= i < |q.items| && VmidMatches(q.items[i], s.vmid)
      && (forall j :: 0 <= j < i ==> !VmidMatches(q.items[j], s.vmid))) ==> r == Ok(NodeOf(q.items[i]))
    ensures q.Resources? && (forall i :: 0 <= i < |q.items| ==> !VmidMatches(q.items[i], s.vmid)) ==>
      r == Ok(OptValue(s.node))
  {
    match q {
      case QueryConnectionError => return Err(ConnectionFailed);
      case QueryFailed => return Ok(OptValue(s.node));
      case Resources(items) =>
        var i := 0;
        while i < |items|
          invariant 0 <= i <= |items|
          invariant forall j :: 0 <= j < i ==> !VmidMatches(items[j], s.vmid)
        {
          if VmidMatches(items[i], s.vmid) {
            return Ok(NodeOf(items[i]));
          }
          i := i + 1;
        }
        return Ok(OptValue(s.node));
    }
  }

  // ---------------------------------------------------------------------
  // _parse_task_log
  // ---------------------------------------------------------------------

  datatype LogQuery = LogEntries(entries: seq<seq<Member>>) | LogFailed

  /** The text of one log entry (`t`, default empty); `None` when it is not
      a string, where lower-casing it raises. */
  function EntryLine(e: seq<Member>): Option<string> {
    match Lookup(e, "t")
    case None => Some("")
    case Some(v) => if v.JStr? then Some(v.s) else None
  }

  /** The texts of all entries, or `None` once one is not a string. */
  function Lines(es: seq<seq<Member>>): (r: Option<seq<string>>)
    ensures r.Some? ==> |r.value| == |es|
  {
    if es == [] then Some([])
    else
      match Lines(es[..|es| - 1])
      case None => None
      case Some(ls) =>
        match EntryLine(es[|es| - 1])
        case None => None
        case Some(l) => Some(ls + [l])
  }

  /** The texts are there exactly when every entry's text is a string, and
      then they are those texts, in log order. */
  lemma {:induction false} LinesExactly(es: seq<seq<Member>>)
    ensures Lines(es).Some? <==> forall i :: 0 <= i < |es| ==> EntryLine(es[i]).Some?
    ensures Lines(es).Some? ==> forall i :: 0 <= i < |es| ==> Lines(es).value[i] == EntryLine(es[i]).value
  {
    if es != [] {
      var init := es[..|es| - 1];
      LinesExactly(init);
      assert forall i :: 0 <= i < |init| ==> init[i] == es[i];
    }
  }

  predicate IsErrorLine(line: string) {
    Contains(ToLower(line), "error") || Contains(ToLower(line), "fail")
  }

  /** The lines mentioning an error or a failure, in log order. */
  function ErrorLines(ls: seq<string>): (r: seq<string>)
    ensures |r| <= |ls|
  {
    if ls == [] then []
    else
      var prev := ErrorLines(ls[..|ls| - 1]);
      if IsErrorLine(ls[|ls| - 1]) then prev + [ls[|ls| - 1]] else prev
  }

  /** The kept lines are exactly the log lines that mention an error. */
  lemma {:induction false} ErrorLinesFilter(ls: seq<string>, x: string)
    ensures x in ErrorLines(ls) <==> x in ls && IsErrorLine(x)
  {
    if ls != [] {
      ErrorLinesFilter(ls[..|ls| - 1], x);
      assert ls == ls[..|ls| - 1] + [ls[|ls| - 1]];
    }
  }

  /** At most the last `n` elements. */
  function LastN<T>(xs: seq<T>, n: nat): (r: seq<T>)
    ensures |r| <= n && |r| <= |xs|
    ensures r == xs[|xs| - |r|..]
    ensures |xs| <= n ==> r == xs
  {
    if |xs| <= n then xs else xs[|xs| - n..]
  }

  /** The text `.get("t", "Unknown error")` reads from the last entry. */
  function LastEntryText(e: seq<Member>): string {
    match Lookup(e, "t")
    case Some(JStr(s)) => s
    case _ => "Unknown error"
  }

  /** `_parse_task_log`: the last three error lines joined with ` | `, else
      the last entry's text, else nothing. A failed query, or an entry whose
      text is not a string, gives nothing. */
  method ParseTaskLog(q: LogQuery) returns (r: Option<string>)
    ensures q.LogFailed? ==> r.None?
    ensures q.LogEntries? && Lines(q.entries).None? ==> r.None?
    ensures q.LogEntries? && q.entries == [] ==> r.None?
    ensures q.LogEntries? && Lines(q.entries).Some? && ErrorLines(Lines(q.entries).value) != [] ==>
      r == Some(Join(LastN(ErrorLines(Lines(q.entries).value), 3), " | "))
    ensures (q.LogEntries? && q.entries != [] && Lines(q.entries).Some?
      && ErrorLines(Lines(q.entries).value) == []) ==>
      r == Some(LastEntryText(q.entries[|q.entries| - 1]))
  {
    if q.LogFailed? {
      return None;
    }
    var es := q.entries;
    var lines: seq<string> := [];
    var errors: seq<string> := [];
    var i := 0;
    while i < |es|
      invariant 0 <= i <= |es|
      invariant Lines(es[..i]) == Some(lines)
      invariant errors == ErrorLines(lines)
    {
      assert es[..i + 1][..i] == es[..i];
      var line := EntryLine(es[i]);
      if line.None? {
        assert Lines(es[..i + 1]).None?;
        LinesPrefixNone(es, i + 1);
        return None;
      }
      if IsErrorLine(line.value) {
        errors := errors + [line.value];
      }
      assert (lines + [line.value])[..|lines|] == lines;
      lines := lines + [line.value];
      i := i + 1;
    }
    assert es[..i] == es;
    if errors != [] {
      return Some(Join(LastN(errors, 3), " | "));
    }
    if es != [] {
      return Some(LastEntryText(es[|es| - 1]));
    }
    return None;
  }

  /** Once a prefix has an unreadable entry, so has the whole log. */
  lemma {:induction false} LinesPrefixNone(es: seq<seq<Member>>, k: nat)
    requires k <= |es| && Lines(es[..k]).None?
    ensures Lines(es).None?
    decreases |es| - k
  {
    if k < |es| {
      assert es[..k + 1][..k] == es[..k];
      LinesPrefixNone(es, k + 1);
    } else {
      assert es[..k] == es;
    }
  }

  // ---------------------------------------------------------------------
  // _wait_for_task
  // ---------------------------------------------------------------------

  /** One round of the poll loop: the status of the Proxmox task as the API returned it, the
      timeout having passed before asking, or the API call raising. */
  datatype Poll = Status(fields: seq<Member>) | PollTimeout | PollError

  predicate IsRunning(p: Poll) {
    p.Status? && Lookup(p.fields, "status") == Some(JStr("running"))
  }

  predicate IsStoppedOk(p: Poll) {
    p.Status? && Lookup(p.fields, "status") == Some(JStr("stopped"))
    && Lookup(p.fields, "exitstatus") == Some(JStr("OK"))
  }

  /** Round `i` reports success and every earlier round reported `running`. */
  predicate StoppedOkAfterRunning(polls: seq<Poll>, i: int) {
    0 <= i < |polls| && IsStoppedOk(polls[i]) && forall j :: 0 <= j < i ==> IsRunning(polls[j])
  }

  /** `_wait_for_task`: succeeds exactly when the first answer that is not
      `running` is `stopped` with exit status `OK`. A timeout, an API error,
      another status, or running out of rounds (the clock passing the
      timeout) is a failure. */
  method WaitForTask(polls: seq<Poll>) returns (ok: bool)
    ensures ok <==> exists i :: StoppedOkAfterRunning(polls, i)
  {
    var i := 0;
    while i < |polls|
      invariant 0 <= i <= |polls|
      invariant forall j :: 0 <= j < i ==> IsRunning(polls[j])
    {
      if !IsRunning(polls[i]) {
        ok := IsStoppedOk(polls[i]);
        if ok {
          assert StoppedOkAfterRunning(polls, i);
        } else {
          forall k | 0 <= k < |polls|
            ensures !StoppedOkAfterRunning(polls, k)
          {
            if k < i {
              assert IsRunning(polls[k]);
            } else if k > i {
              assert !IsRunning(polls[i]);
            }
          }
        }
        return;
      }
      i := i + 1;
    }
    ok := false;
    forall k | 0 <= k < |polls|
      ensures !StoppedOkAfterRunning(polls, k)
    {
      assert IsRunning(polls[k]);
    }
  }

  // ---------------------------------------------------------------------
  // backup and _backup_to_pbs
  // ---------------------------------------------------------------------

  /** The route a guest backup takes before any task is started. */
  datatype BackupPlan =
    | Rejected(error: ProxError)
    | Raised
    | NoDatastore
    | PbsTask(node: Value, datastore: Value)
    | StorageTask(node: Value)

  /** `backup` up to the creation of the vzdump task. `metadata` is the
      metadata dict (`None` given as empty), `node` the outcome of
      `_get_actual_node`. PBS is used only when `use_pbs` is truthy; a
      `pbs_config` that is not a mapping makes `.get` raise. */
  function PlanBackup(s: Service, metadata: seq<Member>, node: Result<Value, ProxError>): (r: BackupPlan)
    ensures ValidateService(s).Err? ==> r == Rejected(ValidateService(s).error)
    ensures ValidateService(s).Ok? && node.Err? ==> r == Rejected(node.error)
    ensures r.PbsTask? || r.NoDatastore? || r.Raised? ==>
      Truthy(Lookup(metadata, "use_pbs").GetOr(JBool(false)))
    ensures r.Raised? <==> (ValidateService(s).Ok? && node.Ok?
      && Truthy(Lookup(metadata, "use_pbs").GetOr(JBool(false)))
      && !Lookup(metadata, "pbs_config").GetOr(JObj([])).JObj?)
    ensures r.PbsTask? ==> (Truthy(r.datastore) && r.node == node.value
      && Lookup(metadata, "pbs_config").GetOr(JObj([])).JObj?
      && r.datastore == Lookup(Lookup(metadata, "pbs_config").GetOr(JObj([])).members, "datastore").GetOr(JNull))
    ensures ValidateService(s).Ok? && node.Ok? && !Truthy(Lookup(metadata, "use_pbs").GetOr(JBool(false))) ==>
      r == StorageTask(node.value)
    ensures (ValidateService(s).Ok? && node.Ok? && Truthy(Lookup(metadata, "use_pbs").GetOr(JBool(false)))
      && Lookup(metadata, "pbs_config").GetOr(JObj([])).JObj?) ==>
      r == (if Truthy(Lookup(Lookup(metadata, "pbs_config").GetOr(JObj([])).members, "datastore").GetOr(JNull))
            then PbsTask(node.value, Lookup(Lookup(metadata, "pbs_config").GetOr(JObj([])).members, "datastore").GetOr(JNull))
            else NoDatastore)
    ensures r.Rejected? ==> ValidateService(s).Err? || node.Err?
  {
    if ValidateService(s).Err? then Rejected(ValidateService(s).error)
    else if node.Err? then Rejected(node.error)
    else if !Truthy(Lookup(metadata, "use_pbs").GetOr(JBool(false))) then StorageTask(node.value)
    else
      var pbs := Lookup(metadata, "pbs_config").GetOr(JObj([]));
      if !pbs.JObj? then Raised
      else
        var datastore := Lookup(pbs.members, "datastore").GetOr(JNull);
        if !Truthy(datastore) then NoDatastore else PbsTask(node.value, datastore)
  }

  /** `backup`: `taskOk` is whether the vzdump task was created and
      `_wait_for_task` reported success. */
  function Backup(plan: BackupPlan, taskOk: bool): (ok: bool)
    ensures ok ==> taskOk && (plan.PbsTask? || plan.StorageTask?)
    ensures (plan.PbsTask? || plan.StorageTask?) && taskOk ==> ok
  {
    (plan.PbsTask? || plan.StorageTask?) && taskOk
  }

  /** A validated guest backed up to storage succeeds exactly when its task
      does. */
  lemma StorageBackupDecides(s: Service, metadata: seq<Member>, node: Result<Value, ProxError>, taskOk: bool)
    requires ValidateService(s).Ok? && node.Ok?
    requires !Truthy(Lookup(metadata, "use_pbs").GetOr(JBool(false)))
    ensures Backup(PlanBackup(s, metadata, node), taskOk) == taskOk
  {
  }

  /** A validated guest backed up to PBS with a datastore succeeds exactly
      when its task does. */
  lemma PbsBackupDecides(s: Service, metadata: seq<Member>, node: Result<Value, ProxError>, taskOk: bool)
    requires ValidateService(s).Ok? && node.Ok?
    requires Truthy(Lookup(metadata, "use_pbs").GetOr(JBool(false)))
    requires Lookup(metadata, "pbs_config").GetOr(JObj([])).JObj?
    requires Truthy(Lookup(Lookup(metadata, "pbs_config").GetOr(JObj([])).members, "datastore").GetOr(JNull))
    ensures PlanBackup(s, metadata, node).PbsTask?
    ensures Backup(PlanBackup(s, metadata, node), taskOk) == taskOk
  {
  }

  /** A PBS backup whose `pbs_config` mapping (an empty one when it is
      missing) has no truthy datastore fails before any task exists. */
  lemma NoDatastoreFails(s: Service, metadata: seq<Member>, node: Result<Value, ProxError>, taskOk: bool)
    requires ValidateService(s).Ok? && node.Ok?
    requires Truthy(Lookup(metadata, "use_pbs").GetOr(JBool(false)))
    requires Lookup(metadata, "pbs_config").GetOr(JObj([])).JObj?
    requires !Truthy(Lookup(Lookup(metadata, "pbs_config").GetOr(JObj([])).members, "datastore").GetOr(JNull))
    ensures PlanBackup(s, metadata, node) == NoDatastore
    ensures !Backup(PlanBackup(s, metadata, node), taskOk)
  {
  }

  // ---------------------------------------------------------------------
  // Snapshots and get_status
  // ---------------------------------------------------------------------

  /** A task id: a string starting with `UPID:`. */
  predicate IsUpid(v: Value) {
    v.JStr? && StartsWith(v.s, "UPID:")
  }

  /** The outcome of a snapshot create, restore or delete call. `result` is
      what the API call returned (`None` when it raised); only a task id is
      waited for, any other answer counts as done at once. */
  function SnapshotOutcome(s: Service, node: Result<Value, ProxError>, result: Option<Value>, waitOk: bool): (ok: bool)
    ensures ok ==> ValidateService(s).Ok? && node.Ok? && result.Some?
    ensures ValidateService(s).Ok? && node.Ok? && result.Some? && !IsUpid(result.value) ==> ok
    ensures ValidateService(s).Ok? && node.Ok? && result.Some? && IsUpid(result.value) ==> (ok <==> waitOk)
  {
    ValidateService(s).Ok? && node.Ok? && result.Some? && (if IsUpid(result.value) then waitOk else true)
  }

  /** The dict `get_status` returns for a reachable guest: four fields it
      always has, and three it has only when the API answer carries them. */
  datatype StatusReport = StatusReport(
    status: Value, node: Value, vmid: Value, serviceType: string,
    cpu: Option<Value>, memory: Option<Value>, uptime: Option<Value>)

  /** `get_status`: `data` is the current-status answer (`None` when the call
      raised). Nothing on any error; otherwise the status (default
      `unknown`), the node the guest was found on, and the memory read from
      the answer's `mem` field. */
  function GetStatus(s: Service, node: Result<Value, ProxError>, data: Option<seq<Member>>): (r: Option<StatusReport>)
    ensures r.None? <==> ValidateService(s).Err? || node.Err? || data.None?
    ensures r.Some? ==> (r.value.node == node.value && r.value.vmid == s.vmid
      && r.value.serviceType == s.serviceType)
    ensures r.Some? ==> (r.value.status == Lookup(data.value, "status").GetOr(JStr("unknown"))
      && r.value.cpu == Lookup(data.value, "cpu") && r.value.memory == Lookup(data.value, "mem")
      && r.value.uptime == Lookup(data.value, "uptime"))
  {
    if ValidateService(s).Err? || node.Err? || data.None? then None
    else
      var d := data.value;
      Some(StatusReport(Lookup(d, "status").GetOr(JStr("unknown")), node.value, s.vmid, s.serviceType,
                        Lookup(d, "cpu"), Lookup(d, "mem"), Lookup(d, "uptime")))
  }
}
