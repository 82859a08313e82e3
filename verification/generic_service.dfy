/** The decision logic of the generic service plugin (Docker containers,
    systemd units and plain file sets): which services it takes, how it
    routes backup and update, which container mounts it backs up, and when
    a service counts as healthy. Docker, systemd, the file system and HTTP
    are inputs. */
module GenericService {
  import opened Wrappers
  import opened Text
  import opened Json
  import opened Service
  import ConfigLoader

  const ServiceTypes: seq<string> := ["docker", "systemd", "generic"]

  /** `matches`: the type, lower-cased, is one this plugin serves. */
  predicate Matches(serviceType: string) {
    ToLower(serviceType) in ServiceTypes
  }

  /** `matches` does not care about letter case, and takes exactly the three
      served types. */
  lemma MatchesIgnoresCase(t: string)
    ensures Matches(t) <==> Matches(ToLower(t))
    ensures Matches(t) <==> ToLower(t) == "docker" || ToLower(t) == "systemd" || ToLower(t) == "generic"
  {
    assert ToLower(ToLower(t)) == ToLower(t);
  }

  // ---------------------------------------------------------------------
  // backup, update and rollback dispatch
  // ---------------------------------------------------------------------

  /** The helper an operation is routed to. */
  datatype Route = Docker | Systemd | GenericFiles | NotSupported | Unsupported

  /** `backup`'s dispatch: the exact, case-sensitive type. */
  function BackupRoute(serviceType: string): (r: Route)
    ensures r == Docker <==> serviceType == "docker"
    ensures r == Systemd <==> serviceType == "systemd"
    ensures r == GenericFiles <==> serviceType == "generic"
    ensures r == Unsupported <==> serviceType !in ServiceTypes
    ensures r != NotSupported
  {
    if serviceType == "docker" then Docker
    else if serviceType == "systemd" then Systemd
    else if serviceType == "generic" then GenericFiles
    else Unsupported
  }

  /** `update`'s dispatch: generic services have no update. */
  function UpdateRoute(serviceType: string): (r: Route)
    ensures r == Docker <==> serviceType == "docker"
    ensures r == Systemd <==> serviceType == "systemd"
    ensures r == NotSupported <==> serviceType == "generic"
    ensures r == Unsupported <==> serviceType !in ServiceTypes
    ensures r != GenericFiles
  {
    if serviceType == "docker" then Docker
    else if serviceType == "systemd" then Systemd
    else if serviceType == "generic" then NotSupported
    else Unsupported
  }

  /** The result of a dispatched operation: the helper's own outcome, or
      failure when there is no helper. */
  function Dispatch(route: Route, helperOk: bool): (ok: bool)
    ensures ok <==> helperOk && route in {Docker, Systemd, GenericFiles}
  {
    match route
    case NotSupported => false
    case Unsupported => false
    case _ => helperOk
  }

  /** `update` never succeeds for a generic service or an unknown type. */
  lemma UpdateGenericFails(serviceType: string, helperOk: bool)
    requires serviceType == "generic" || serviceType !in ServiceTypes
    ensures !Dispatch(UpdateRoute(serviceType), helperOk)
  {
  }

  /** `backup` routes every exact type the plugin serves to a helper. */
  lemma BackupServedTypes(serviceType: string, helperOk: bool)
    requires serviceType in ServiceTypes
    ensures Dispatch(BackupRoute(serviceType), helperOk) == helperOk
  {
  }

  /** `matches` ignores case but `backup` does not: a capitalised type is
      accepted and then refused. */
  lemma MatchedButUnsupported(t: string, helperOk: bool)
    requires t == "Docker"
    ensures Matches(t) && BackupRoute(t) == Unsupported
    ensures !Dispatch(BackupRoute(t), helperOk)
  {
    assert ToLower(t) == "docker";
  }

  /** `rollback`: never supported; restoring from a backup is the way back. */
  function Rollback(s: Service): (ok: bool)
    ensures !ok
  {
    false
  }

  // ---------------------------------------------------------------------
  // _get_docker_volumes
  // ---------------------------------------------------------------------

  /** A named volume of a container and where it is mounted. */
  datatype Volume = Volume(name: Value, mount: Value)

  predicate IsVolumeMount(m: seq<Member>) {
    Lookup(m, "Type") == Some(JStr("volume"))
  }

  function VolumeOf(m: seq<Member>): Volume {
    Volume(Lookup(m, "Name").GetOr(JStr("")), Lookup(m, "Destination").GetOr(JStr("")))
  }

  /** The named volumes among the mounts, in mount order; bind mounts and
      others are skipped. `None` when a mount is not a mapping, where
      `.get` raises. */
  function Volumes(mounts: seq<Value>): (r: Option<seq<Volume>>)
    ensures r.Some? <==> forall i :: 0 <= i < |mounts| ==> mounts[i].JObj?
    ensures r.Some? ==> |r.value| <= |mounts|
  {
    if mounts == [] then Some([])
    else
      var rest := Volumes(mounts[1..]);
      if !mounts[0].JObj? || rest.None? then None
      else if IsVolumeMount(mounts[0].members) then Some([VolumeOf(mounts[0].members)] + rest.value)
      else rest
  }

  /** One mapping in front of mounts that all read. */
  lemma VolumesCons(x: Value, rest: seq<Value>)
    requires x.JObj? && Volumes(rest).Some?
    ensures Volumes([x] + rest) ==
      if IsVolumeMount(x.members) then Some([VolumeOf(x.members)] + Volumes(rest).value) else Volumes(rest)
  {
    assert ([x] + rest)[0] == x && ([x] + rest)[1..] == rest;
  }

  /** One inductive step of `VolumesAppend`: a mapping in front of the
      first piece. */
  lemma VolumesAppendStep(x: Value, tail: seq<Value>, b: seq<Value>)
    requires x.JObj? && Volumes(tail).Some? && Volumes(b).Some?
    requires Volumes(tail + b) == Some(Volumes(tail).value + Volumes(b).value)
    ensures Volumes([x] + (tail + b)) == Some(Volumes([x] + tail).value + Volumes(b).value)
  {
    var vt, vb := Volumes(tail).value, Volumes(b).value;
    VolumesCons(x, tail);
    VolumesCons(x, tail + b);
    if IsVolumeMount(x.members) {
      var w := VolumeOf(x.members);
      ConsAssoc(w, vt, vb);
    }
  }

  lemma ConsAssoc(w: Volume, p: seq<Volume>, q: seq<Volume>)
    ensures [w] + (p + q) == ([w] + p) + q
  {
  }

  /** Mounts read in two pieces give the two pieces' volumes. */
  lemma {:induction false} VolumesAppend(a: seq<Value>, b: seq<Value>)
    requires Volumes(a).Some? && Volumes(b).Some?
    ensures Volumes(a + b) == Some(Volumes(a).value + Volumes(b).value)
  {
    if a != [] {
      var x, tail := a[0], a[1..];
      assert a == [x] + tail && a + b == [x] + (tail + b);
      VolumesAppend(tail, b);
      VolumesAppendStep(x, tail, b);
    } else {
      assert a + b == b;
      assert Volumes(a).value + Volumes(b).value == Volumes(b).value;
    }
  }

  /** A volume is reported exactly when some mount of type `volume` gives
      it. */
  lemma {:induction false} VolumesExactly(mounts: seq<Value>, v: Volume)
    requires Volumes(mounts).Some?
    ensures v in Volumes(mounts).value <==>
      exists i :: 0 <= i < |mounts| && IsVolumeMount(mounts[i].members) && VolumeOf(mounts[i].members) == v
  {
    if mounts != [] {
      var x, tail := mounts[0], mounts[1..];
      assert mounts == [x] + tail;
      VolumesCons(x, tail);
      VolumesExactly(tail, v);
      if v in Volumes(tail).value {
        var i :| 0 <= i < |tail| && IsVolumeMount(tail[i].members) && VolumeOf(tail[i].members) == v;
        assert mounts[i + 1] == tail[i];
      }
      forall i | 1 <= i < |mounts| && IsVolumeMount(mounts[i].members) && VolumeOf(mounts[i].members) == v
        ensures v in Volumes(tail).value
      {
        assert tail[i - 1] == mounts[i];
      }
    }
  }

  /** `_get_docker_volumes`: `attrs` is the container's attribute mapping,
      `None` when the container is missing or Docker cannot be reached.
      `Mounts` defaults to no mounts; any value that is not a list of
      mappings makes the lookup fail, which yields no volumes. */
  function DockerVolumes(attrs: Option<seq<Member>>): (r: seq<Volume>)
    ensures attrs.None? ==> r == []
    ensures attrs.Some? && Lookup(attrs.value, "Mounts").None? ==> r == []
    ensures (attrs.Some? && Lookup(attrs.value, "Mounts").Some? && Lookup(attrs.value, "Mounts").value.JArr?
      && Volumes(Lookup(attrs.value, "Mounts").value.items).Some?) ==>
      r == Volumes(Lookup(attrs.value, "Mounts").value.items).value
    ensures (attrs.Some? && Lookup(attrs.value, "Mounts").Some?
      && (!Lookup(attrs.value, "Mounts").value.JArr? || Volumes(Lookup(attrs.value, "Mounts").value.items).None?)) ==>
      r == []
  {
    if attrs.None? then []
    else
      match Lookup(attrs.value, "Mounts")
      case None => []
      case Some(JArr(items)) => Volumes(items).GetOr([])
      case Some(_) => []
  }

  // ---------------------------------------------------------------------
  // Names
  // ---------------------------------------------------------------------

  /** The container a Docker service runs as: `container_name` when set and
      not empty, the service name otherwise. */
  function ContainerName(s: Service): (r: string)
    ensures Present(s.containerName) ==> r == s.containerName.value
    ensures !Present(s.containerName) ==> r == s.name
  {
    if Present(s.containerName) then s.containerName.value else s.name
  }

  /** The systemd unit a service runs as, chosen the same way. */
  function UnitName(s: Service): (r: string)
    ensures Present(s.serviceName) ==> r == s.serviceName.value
    ensures !Present(s.serviceName) ==> r == s.name
  {
    if Present(s.serviceName) then s.serviceName.value else s.name
  }

  /** The name falls back to the service name only when nothing usable was
      configured. */
  lemma ContainerNameFallback(s: Service)
    ensures ContainerName(s) != s.name ==> Present(s.containerName)
    ensures s.containerName == Some("") ==> ContainerName(s) == s.name
  {
  }

  // ---------------------------------------------------------------------
  // Path(p): pathlib's normal form of a POSIX path
  // ---------------------------------------------------------------------

  /** The segments pathlib keeps: empty segments and `.` are dropped, `..`
      stays. */
  function KeepSegments(parts: seq<string>): (r: seq<string>)
    ensures |r| <= |parts|
    ensures forall i :: 0 <= i < |r| ==> r[i] != "" && r[i] != "."
  {
    if parts == [] then []
    else
      var rest := KeepSegments(parts[1..]);
      if parts[0] == "" || parts[0] == "." then rest else [parts[0]] + rest
  }

  /** A segment is kept exactly when it occurs and is neither empty nor `.`. */
  lemma {:induction false} KeepSegmentsExactly(parts: seq<string>, x: string)
    ensures x in KeepSegments(parts) <==> x in parts && x != "" && x != "."
  {
    if parts != [] {
      KeepSegmentsExactly(parts[1..], x);
      assert parts == [parts[0]] + parts[1..];
    }
  }

  /** Segments that are neither empty nor `.` are all kept. */
  lemma {:induction false} KeepSegmentsClean(parts: seq<string>)
    requires forall i :: 0 <= i < |parts| ==> parts[i] != "" && parts[i] != "."
    ensures KeepSegments(parts) == parts
  {
    if parts != [] {
      KeepSegmentsClean(parts[1..]);
    }
  }

  /** The root pathlib keeps: exactly two leading slashes stay two, one or
      three and more become one, a relative path has none. */
  function PathRoot(p: string): (r: string)
    ensures r == [] <==> (p == [] || p[0] != '/')
    ensures r == [] || r == "/" || r == "//"
    ensures r == "//" <==> (|p| >= 2 && p[..2] == "//" && (|p| == 2 || p[2] != '/'))
  {
    if p == [] || p[0] != '/' then ""
    else if |p| >= 2 && p[1] == '/' && (|p| == 2 || p[2] != '/') then "//"
    else "/"
  }

  /** A dot-join of non-empty, slash-free segments starts with the first
      segment's first character and ends with the last segment's last. */
  lemma {:induction false} JoinEnds(parts: seq<string>)
    requires |parts| >= 1
    requires forall i :: 0 <= i < |parts| ==> parts[i] != []
    ensures Join(parts, "/") != []
    ensures Join(parts, "/")[0] == parts[0][0]
    ensures Join(parts, "/")[|Join(parts, "/")| - 1] == parts[|parts| - 1][|parts[|parts| - 1]| - 1]
  {
    if |parts| > 1 {
      JoinEnds(parts[1..]);
    }
  }

  /** A leading slash splits off one empty piece. */
  lemma SplitSlash(j: string)
    ensures Split("/" + j, '/') == [""] + Split(j, '/')
  {
    assert "/" + j == "" + ['/'] + j;
    SplitAfterSep("", j, '/');
  }

  /** An empty piece is dropped. */
  lemma KeepSegmentsEmptyHead(parts: seq<string>)
    ensures KeepSegments([""] + parts) == KeepSegments(parts)
  {
    assert ([""] + parts)[1..] == parts;
  }

  /** Joined segments split back into themselves, once empty pieces are
      dropped. */
  lemma SegmentsOfJoin(segs: seq<string>)
    requires forall i :: 0 <= i < |segs| ==> segs[i] != "" && segs[i] != "." && '/' !in segs[i]
    ensures KeepSegments(Split(Join(segs, "/"), '/')) == segs
  {
    if segs == [] {
      assert Split(Join(segs, "/"), '/') == [""];
    } else {
      SplitJoin(segs, '/');
      KeepSegmentsClean(segs);
    }
  }

  /** Splitting a root followed by joined segments gives the segments back,
      once empty pieces are dropped. */
  lemma SegmentsOfNormal(root: string, segs: seq<string>)
    requires root == [] || root == "/" || root == "//"
    requires forall i :: 0 <= i < |segs| ==> segs[i] != "" && segs[i] != "." && '/' !in segs[i]
    ensures KeepSegments(Split(root + Join(segs, "/"), '/')) == segs
  {
    var j := Join(segs, "/");
    SegmentsOfJoin(segs);
    if root == "/" {
      SplitSlash(j);
      KeepSegmentsEmptyHead(Split(j, '/'));
    } else if root == "//" {
      assert root + j == "/" + ("/" + j);
      SplitSlash("/" + j);
      SplitSlash(j);
      KeepSegmentsEmptyHead(Split("/" + j, '/'));
      KeepSegmentsEmptyHead(Split(j, '/'));
    } else {
      assert root + j == j;
    }
  }

  /** A path in normal form, from its root and its kept segments. */
  function Normal(root: string, segs: seq<string>): string {
    if root == [] && segs == [] then "." else root + Join(segs, "/")
  }

  /** A root followed by text that does not start with a slash keeps that
      root. */
  lemma PathRootOfRoot(root: string, j: string)
    requires root == [] || root == "/" || root == "//"
    requires j == [] || j[0] != '/'
    ensures PathRoot(root + j) == root
  {
    if j != [] {
      assert (root + j)[|root|] == j[0];
    } else {
      assert root + j == root;
    }
  }

  /** What a normal form keeps of its root and segments. */
  lemma NormalFacts(root: string, segs: seq<string>)
    requires root == [] || root == "/" || root == "//"
    requires forall i :: 0 <= i < |segs| ==> segs[i] != "" && segs[i] != "." && '/' !in segs[i]
    ensures Normal(root, segs) != []
    ensures PathRoot(Normal(root, segs)) == root
    ensures KeepSegments(Split(Normal(root, segs), '/')) == segs
    ensures Normal(root, segs)[|Normal(root, segs)| - 1] == '/' ==> Normal(root, segs) == root
  {
    if root == [] && segs == [] {
      SplitNoSep(".", '/');
    } else {
      var j := Join(segs, "/");
      SegmentsOfNormal(root, segs);
      if segs != [] {
        JoinEnds(segs);
        assert segs[0][0] != '/' by { assert segs[0][0] in segs[0]; }
        var last := segs[|segs| - 1];
        assert last[|last| - 1] != '/' by { assert last[|last| - 1] in last; }
        assert (root + j)[|root + j| - 1] == j[|j| - 1];
      } else {
        assert root + j == root;
      }
      PathRootOfRoot(root, j);
    }
  }

  /** The kept segments of a split contain no slash. */
  lemma KeptSegmentsNoSlash(p: string)
    ensures forall i :: 0 <= i < |KeepSegments(Split(p, '/'))| ==> '/' !in KeepSegments(Split(p, '/'))[i]
  {
    var segs := KeepSegments(Split(p, '/'));
    forall i | 0 <= i < |segs| ensures '/' !in segs[i] {
      KeepSegmentsExactly(Split(p, '/'), segs[i]);
    }
  }

  /** `str(Path(p))`: the root, then the kept segments joined by single
      slashes; `.` when nothing is left. */
  function NormPath(p: string): (r: string)
    ensures r != []
    ensures PathRoot(r) == PathRoot(p)
    ensures KeepSegments(Split(r, '/')) == KeepSegments(Split(p, '/'))
    ensures r[|r| - 1] == '/' ==> r == PathRoot(p)
  {
    KeptSegmentsNoSlash(p);
    NormalFacts(PathRoot(p), KeepSegments(Split(p, '/')));
    Normal(PathRoot(p), KeepSegments(Split(p, '/')))
  }

  /** One step of `Split`, for a first character and the rest. */
  lemma SplitCons(c: char, t: string, sep: char)
    ensures Split([c] + t, sep) ==
      if c == sep then [""] + Split(t, sep) else [[c] + Split(t, sep)[0]] + Split(t, sep)[1..]
  {
    assert ([c] + t)[1..] == t;
  }

  lemma HeadMerge<T>(h: seq<T>, p: seq<seq<T>>, q: seq<seq<T>>)
    requires |p| >= 1
    ensures [h + (p + q)[0]] + (p + q)[1..] == [h + p[0]] + p[1..] + q
  {
    assert (p + q)[0] == p[0];
    assert (p + q)[1..] == p[1..] + q;
  }

  /** The inductive step of `SplitConcat`: `rest` splits like `t` followed
      by `y`, so one more leading character does too. */
  lemma SplitConcatStep(c: char, t: string, rest: string, y: string, sep: char)
    requires Split(rest, sep) == Split(t, sep) + Split(y, sep)
    ensures Split([c] + rest, sep) == Split([c] + t, sep) + Split(y, sep)
  {
    var p, q := Split(t, sep), Split(y, sep);
    SplitCons(c, rest, sep);
    SplitCons(c, t, sep);
    if c == sep {
      ConcatAssoc([""], p, q);
    } else {
      HeadMerge([c], p, q);
    }
  }

  /** Splitting at a separator splits the two sides independently. */
  lemma {:induction false} SplitConcat(x: string, y: string, sep: char)
    ensures Split(x + [sep] + y, sep) == Split(x, sep) + Split(y, sep)
  {
    if x == [] {
      assert x + [sep] + y == [sep] + y;
      SplitCons(sep, y, sep);
    } else {
      var rest := x[1..] + [sep] + y;
      SplitConcat(x[1..], y, sep);
      SplitConcatStep(x[0], x[1..], rest, y, sep);
      assert [x[0]] + x[1..] == x;
      assert [x[0]] + rest == x + [sep] + y;
    }
  }

  /** Segments are kept piece by piece. */
  lemma {:induction false} KeepSegmentsAppend(a: seq<string>, b: seq<string>)
    ensures KeepSegments(a + b) == KeepSegments(a) + KeepSegments(b)
  {
    if a != [] {
      KeepSegmentsAppend(a[1..], b);
      assert (a + b)[0] == a[0] && (a + b)[1..] == a[1..] + b;
      if a[0] != "" && a[0] != "." {
        assert [a[0]] + KeepSegments(a[1..]) + KeepSegments(b)
          == [a[0]] + (KeepSegments(a[1..]) + KeepSegments(b));
      }
    } else {
      assert a + b == b;
    }
  }

  /** What follows a prefix ending in a non-slash character does not change
      the root. */
  lemma PathRootPrefix(x: string, y1: string, y2: string)
    requires x != [] && x[|x| - 1] != '/'
    ensures PathRoot(x + y1) == PathRoot(x + y2)
  {
    assert (x + y1)[0] == x[0] && (x + y2)[0] == x[0];
    if |x| >= 2 {
      assert (x + y1)[1] == x[1] && (x + y2)[1] == x[1];
    }
    if |x| >= 3 {
      assert (x + y1)[2] == x[2] && (x + y2)[2] == x[2];
    }
  }

  lemma ConcatAssoc<T>(x: seq<T>, y: seq<T>, z: seq<T>)
    ensures x + y + z == x + (y + z)
  {
  }

  /** `x + "/" + y` read both ways. */
  lemma Regroup(x: string, slash: string, y: string)
    requires slash == "/"
    ensures x + slash + y == x + ['/'] + y
    ensures x + slash + y == x + (slash + y)
  {
  }

  /** The normal form depends only on the root and the kept segments. */
  lemma NormPathDetermined(p: string, q: string)
    requires PathRoot(p) == PathRoot(q)
    requires KeepSegments(Split(p, '/')) == KeepSegments(Split(q, '/'))
    ensures NormPath(p) == NormPath(q)
  {
  }

  /** A trailing slash is dropped. */
  lemma NormPathTrailingSlash(p: string)
    requires p != [] && p[|p| - 1] != '/'
    ensures NormPath(p + "/") == NormPath(p)
  {
    assert p + "/" == p + ['/'] + "";
    SplitConcat(p, "", '/');
    KeepSegmentsAppend(Split(p, '/'), [""]);
    assert p + "" == p;
    PathRootPrefix(p, "/", "");
    NormPathDetermined(p + "/", p);
  }

  /** A repeated slash counts once. */
  lemma NormPathRepeatedSlash(a: string, b: string)
    requires a != [] && a[|a| - 1] != '/'
    ensures NormPath(a + "//" + b) == NormPath(a + "/" + b)
  {
    var p, q, mid := a + "//" + b, a + "/" + b, "/" + b;
    Regroup(a, "/", b);
    Regroup(a, "/", mid);
    assert p == a + ("/" + mid) by { ConcatAssoc(a, "//", b); ConcatAssoc("/", "/", b); }
    assert mid == "" + ['/'] + b;
    SplitConcat(a, mid, '/');
    SplitConcat("", b, '/');
    SplitConcat(a, b, '/');
    KeepSegmentsAppend(Split(a, '/'), Split(mid, '/'));
    KeepSegmentsAppend([""], Split(b, '/'));
    KeepSegmentsAppend(Split(a, '/'), Split(b, '/'));
    PathRootPrefix(a, "/" + mid, mid);
    NormPathDetermined(p, q);
  }

  /** A `.` segment is dropped. */
  lemma NormPathDotSegment(a: string, b: string)
    requires a != [] && a[|a| - 1] != '/'
    ensures NormPath(a + "/./" + b) == NormPath(a + "/" + b)
  {
    var p, q, mid := a + "/./" + b, a + "/" + b, "./" + b;
    Regroup(a, "/", b);
    Regroup(a, "/", mid);
    assert p == a + ("/" + mid) by { ConcatAssoc(a, "/./", b); ConcatAssoc("/", "./", b); }
    assert mid == "." + ['/'] + b;
    SplitConcat(a, mid, '/');
    SplitConcat(".", b, '/');
    SplitNoSep(".", '/');
    SplitConcat(a, b, '/');
    KeepSegmentsAppend(Split(a, '/'), Split(mid, '/'));
    KeepSegmentsAppend(["."], Split(b, '/'));
    KeepSegmentsAppend(Split(a, '/'), Split(b, '/'));
    PathRootPrefix(a, "/" + mid, "/" + b);
    NormPathDetermined(p, q);
  }

  /** A leading `./` is dropped. */
  lemma NormPathLeadingDot(b: string)
    requires b == [] || b[0] != '/'
    ensures NormPath("./" + b) == NormPath(b)
  {
    assert "./" + b == "." + ['/'] + b;
    SplitConcat(".", b, '/');
    SplitNoSep(".", '/');
    KeepSegmentsAppend(["."], Split(b, '/'));
    NormPathDetermined("./" + b, b);
  }

  /** Normalising twice changes nothing. */
  lemma NormPathIdempotent(p: string)
    ensures NormPath(NormPath(p)) == NormPath(p)
  {
  }

  // ---------------------------------------------------------------------
  // validate
  // ---------------------------------------------------------------------

  /** A health status Docker reports for a container that may be used. */
  predicate HealthStatusOk(status: Value) {
    status == JStr("healthy") || status == JStr("none")
  }

  /** The docker part of `validate`: the container must be running and, when
      it reports a health entry, that entry's status must be `healthy` or
      `none`. `attrs` is the container's attribute mapping; a `State` or
      `Health` value that is not a mapping makes `.get` raise, which fails
      the check. */
  function DockerHealthy(status: string, attrs: seq<Member>): (ok: bool)
    ensures status != "running" ==> !ok
    ensures (status == "running" && Lookup(attrs, "State").None?) ==> ok
    ensures (status == "running" && Lookup(attrs, "State") == Some(JObj([]))) ==> ok
    ensures ok ==> status == "running"
    ensures (ok && Lookup(attrs, "State").Some? && Lookup(attrs, "State").value.JObj?
      && Lookup(Lookup(attrs, "State").value.members, "Health").Some?
      && Truthy(Lookup(Lookup(attrs, "State").value.members, "Health").value)) ==>
      (Lookup(Lookup(attrs, "State").value.members, "Health").value.JObj?
      && HealthStatusOk(Lookup(Lookup(Lookup(attrs, "State").value.members, "Health").value.members, "Status").GetOr(JNull)))
    ensures (status == "running" && Lookup(attrs, "State").Some? && !Lookup(attrs, "State").value.JObj?) ==> !ok
    ensures (status == "running" && Lookup(attrs, "State").Some? && Lookup(attrs, "State").value.JObj?
      && !Truthy(Lookup(Lookup(attrs, "State").value.members, "Health").GetOr(JObj([])))) ==> ok
    ensures (status == "running" && Lookup(attrs, "State").Some? && Lookup(attrs, "State").value.JObj?
      && Lookup(Lookup(attrs, "State").value.members, "Health").Some?
      && Lookup(Lookup(attrs, "State").value.members, "Health").value.JObj?
      && Truthy(Lookup(Lookup(attrs, "State").value.members, "Health").value)
      && HealthStatusOk(Lookup(Lookup(Lookup(attrs, "State").value.members, "Health").value.members, "Status").GetOr(JNull))) ==>
      ok
  {
    if status != "running" then false
    else
      var state := Lookup(attrs, "State").GetOr(JObj([]));
      if !state.JObj? then false
      else
        var health := Lookup(state.members, "Health").GetOr(JObj([]));
        if !Truthy(health) then true
        else if !health.JObj? then false
        else HealthStatusOk(Lookup(health.members, "Status").GetOr(JNull))
  }

  /** A running container with a healthy or unset health status passes. */
  lemma HealthyContainerPasses(attrs: seq<Member>, healthStatus: string)
    requires healthStatus == "healthy" || healthStatus == "none"
    requires Lookup(attrs, "State") == Some(JObj([Member("Health", JObj([Member("Status", JStr(healthStatus))]))]))
    ensures DockerHealthy("running", attrs)
  {
  }

  /** An unhealthy container fails even while running. */
  lemma UnhealthyContainerFails(attrs: seq<Member>)
    requires Lookup(attrs, "State") == Some(JObj([Member("Health", JObj([Member("Status", JStr("unhealthy"))]))]))
    ensures !DockerHealthy("running", attrs)
  {
  }

  /** The world `validate` looks at. */
  datatype Probe = Probe(
    dockerReachable: bool,
    /** the container's status and attributes, `None` when it is missing */
    container: Option<(string, seq<Member>)>,
    /** `systemctl is-active` output with surrounding blanks removed */
    unitState: string,
    /** the paths that exist, in pathlib's normal form */
    existing: set<string>,
    /** the health endpoint's HTTP status, `None` when the request failed */
    httpStatus: Option<int>)

  /** The type-specific part of `validate`. A type it does not know has no
      check of its own. */
  predicate TypeCheck(s: Service, p: Probe) {
    if s.serviceType == "docker" then
      p.dockerReachable && p.container.Some? && DockerHealthy(p.container.value.0, p.container.value.1)
    else if s.serviceType == "systemd" then
      p.unitState == "active"
    else if s.serviceType == "generic" then
      s.backupPaths.None? || forall path :: path in s.backupPaths.value ==> NormPath(path) in p.existing
    else true
  }

  /** The HTTP part of `validate`: a truthy `health_check_url` must answer
      200. Only a string can: `requests` turns any other value into text
      without a URL scheme and raises, which fails validation. */
  predicate EndpointOk(s: Service, p: Probe) {
    !Truthy(s.healthCheckUrl) || (s.healthCheckUrl.JStr? && p.httpStatus == Some(200))
  }

  /** `validate`: the type-specific check, then the optional HTTP health
      check. */
  function Validate(s: Service, p: Probe): (ok: bool)
    ensures s.serviceType == "docker" ==>
      (ok <==> (p.dockerReachable && p.container.Some?
                && DockerHealthy(p.container.value.0, p.container.value.1) && EndpointOk(s, p)))
    ensures s.serviceType == "systemd" ==> (ok <==> p.unitState == "active" && EndpointOk(s, p))
    ensures (s.serviceType == "generic" && s.backupPaths.Some?
      && exists path :: path in s.backupPaths.value && NormPath(path) !in p.existing) ==> !ok
    ensures (s.serviceType == "generic" && EndpointOk(s, p)
      && (s.backupPaths.None? || forall path :: path in s.backupPaths.value ==> NormPath(path) in p.existing)) ==> ok
    ensures s.serviceType !in ServiceTypes ==> (ok <==> EndpointOk(s, p))
    ensures Truthy(s.healthCheckUrl) && (!s.healthCheckUrl.JStr? || p.httpStatus != Some(200)) ==> !ok
  {
    TypeCheck(s, p) && EndpointOk(s, p)
  }

  /** A generic service with a missing path is never healthy. */
  lemma MissingPathFails(s: Service, p: Probe, path: string)
    requires s.serviceType == "generic" && s.backupPaths.Some?
    requires path in s.backupPaths.value && NormPath(path) !in p.existing
    ensures !Validate(s, p)
  {
  }

  /** A failing health endpoint fails every service. */
  lemma HealthEndpointDecides(s: Service, p: Probe)
    requires Truthy(s.healthCheckUrl) && (!s.healthCheckUrl.JStr? || p.httpStatus != Some(200))
    ensures !Validate(s, p)
  {
  }

  /** A configured `health_check_url` that is truthy but not a string, such
      as `8080`, survives the loader's extra fields and fails validation. */
  lemma ConfiguredNonStringUrlFails(c: ConfigLoader.ServiceConfig, p: Probe)
    requires Lookup(c.fields, "health_check_url").Some?
    requires Truthy(Lookup(c.fields, "health_check_url").value)
    requires !Lookup(c.fields, "health_check_url").value.JStr?
    ensures !Validate(FromConfig(c), p)
  {
  }

  // ---------------------------------------------------------------------
  // _create_manifest and _backup_generic_files
  // ---------------------------------------------------------------------

  const ManifestVersion := "1.0"

  /** A mapping of five distinct keys, in order. */
  function Record5(k1: string, v1: Value, k2: string, v2: Value, k3: string, v3: Value,
                   k4: string, v4: Value, k5: string, v5: Value): (r: seq<Member>)
    requires k1 != k2 && k1 != k3 && k1 != k4 && k1 != k5
    requires k2 != k3 && k2 != k4 && k2 != k5 && k3 != k4 && k3 != k5 && k4 != k5
    ensures Lookup(r, k1) == Some(v1) && Lookup(r, k2) == Some(v2) && Lookup(r, k3) == Some(v3)
    ensures Lookup(r, k4) == Some(v4) && Lookup(r, k5) == Some(v5)
    ensures forall k :: k != k1 && k != k2 && k != k3 && k != k4 && k != k5 ==> Lookup(r, k).None?
  {
    var r1 := Put([], k1, v1);
    var r2 := Put(r1, k2, v2);
    var r3 := Put(r2, k3, v3);
    var r4 := Put(r3, k4, v4);
    Put(r4, k5, v5)
  }

  /** `_create_manifest`: who was backed up, when (`backupDate`, the clock's
      ISO text), the manifest format version and the caller's metadata,
      unchanged. */
  function CreateManifest(s: Service, backupDate: string, metadata: Value): (r: Value)
    ensures r.JObj?
    ensures Lookup(r.members, "service_name") == Some(JStr(s.name))
    ensures Lookup(r.members, "service_type") == Some(JStr(s.serviceType))
    ensures Lookup(r.members, "backup_date") == Some(JStr(backupDate))
    ensures Lookup(r.members, "version") == Some(JStr(ManifestVersion))
    ensures Lookup(r.members, "metadata") == Some(metadata)
  {
    JObj(Record5("service_name", JStr(s.name), "service_type", JStr(s.serviceType),
                 "backup_date", JStr(backupDate), "version", JStr(ManifestVersion),
                 "metadata", metadata))
  }

  /** The configured paths that exist, in pathlib's normal form and in
      their configured order. */
  function ExistingPaths(paths: seq<string>, existing: set<string>): (r: seq<string>)
    ensures |r| <= |paths|
  {
    if paths == [] then []
    else
      var rest := ExistingPaths(paths[1..], existing);
      if NormPath(paths[0]) in existing then [NormPath(paths[0])] + rest else rest
  }

  /** The copied paths are exactly the normal forms of the configured paths
      that exist. */
  lemma {:induction false} ExistingPathsExactly(paths: seq<string>, existing: set<string>, x: string)
    ensures x in ExistingPaths(paths, existing) <==>
      x in existing && exists q :: q in paths && NormPath(q) == x
  {
    if paths != [] {
      var h, t := paths[0], paths[1..];
      ExistingPathsExactly(t, existing, x);
      var rest := ExistingPaths(t, existing);
      if x in ExistingPaths(paths, existing) {
        if x in rest {
          var q :| q in t && NormPath(q) == x;
          assert q in paths;
        } else {
          assert h in paths && NormPath(h) == x;
        }
      }
      if x in existing && exists q :: q in paths && NormPath(q) == x {
        var q :| q in paths && NormPath(q) == x;
        if q != h {
          assert q in t;
        }
      }
    }
  }

  /** Every recorded path is already in normal form. */
  lemma {:induction false} ExistingPathsNormal(paths: seq<string>, existing: set<string>)
    ensures forall i :: 0 <= i < |ExistingPaths(paths, existing)| ==>
      NormPath(ExistingPaths(paths, existing)[i]) == ExistingPaths(paths, existing)[i]
  {
    if paths != [] {
      ExistingPathsNormal(paths[1..], existing);
      NormPathIdempotent(paths[0]);
    }
  }

  /** What `_backup_generic_files` does. */
  datatype FilesOutcome =
    | NoPathsConfigured
    | NothingFound
    | Archived(manifest: Value, ok: bool)

  /** `_backup_generic_files`: refuses a service without backup paths and a
      backup where no path exists; otherwise records the copied paths in
      the manifest and reports the archive step's outcome `archiveOk`. */
  function BackupGenericFiles(s: Service, existing: set<string>, backupDate: string, archiveOk: bool): (r: FilesOutcome)
    ensures r.NoPathsConfigured? <==> s.backupPaths.None? || s.backupPaths.value == []
    ensures r.NothingFound? <==>
      (s.backupPaths.Some? && s.backupPaths.value != [] && forall p :: p in s.backupPaths.value ==> NormPath(p) !in existing)
    ensures r.Archived? ==> (r.ok == archiveOk
      && r.manifest == CreateManifest(s, backupDate,
           JObj([Member("backup_paths", JArr(StrValues(ExistingPaths(s.backupPaths.value, existing))))])))
  {
    if s.backupPaths.None? || s.backupPaths.value == [] then NoPathsConfigured
    else
      var found := ExistingPaths(s.backupPaths.value, existing);
      if found == [] then
        forall p | p in s.backupPaths.value ensures NormPath(p) !in existing {
          ExistingPathsExactly(s.backupPaths.value, existing, NormPath(p));
        }
        NothingFound
      else
        assert found[0] in existing && exists q :: q in s.backupPaths.value && NormPath(q) == found[0] by {
          ExistingPathsExactly(s.backupPaths.value, existing, found[0]);
        }
        Archived(CreateManifest(s, backupDate, JObj([Member("backup_paths", JArr(StrValues(found)))])), archiveOk)
  }

  /** Strings as JSON strings. */
  function StrValues(xs: seq<string>): (r: seq<Value>)
    ensures |r| == |xs| && forall i :: 0 <= i < |xs| ==> r[i] == JStr(xs[i])
  {
    seq(|xs|, i requires 0 <= i < |xs| => JStr(xs[i]))
  }

  /** The generic backup reports success only after archiving at least one
      existing path. */
  lemma GenericFilesSuccess(s: Service, existing: set<string>, backupDate: string, archiveOk: bool)
    requires BackupGenericFiles(s, existing, backupDate, archiveOk).Archived?
    requires BackupGenericFiles(s, existing, backupDate, archiveOk).ok
    ensures archiveOk
    ensures exists p :: p in s.backupPaths.value && NormPath(p) in existing
  {
    var found := ExistingPaths(s.backupPaths.value, existing);
    if found == [] {
      assert false;
    }
    ExistingPathsExactly(s.backupPaths.value, existing, found[0]);
  }
}
