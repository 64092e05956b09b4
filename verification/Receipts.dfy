/** Resource-enforcement receipts: their validators (profile.cpp) and their canonical byte form. */
module Receipts {
  import opened Bytes
  import opened Canonical
  import opened Hex

  datatype Backend = LinuxProduction | RemoteLinuxContainer | AppleContainer | MacosExperimental

  datatype Authority = LocalEnforcement | TrustedRemoteClaim

  datatype Mechanism = Unavailable | Rlimit | CgroupV2 | Watchdog | FilesystemQuota | ByteCounter

  datatype Termination =
    | Exited
    | Signaled
    | CpuTimeLimit
    | MemoryLimit
    | PidLimit
    | WallTimeLimit
    | DiskLimit
    | TerminalOutputLimit
    | SupervisorError

  datatype Limits = Limits(
    cpuTimeMs: u64, memoryBytes: u64, pids: u32, wallTimeMs: u64, diskBytes: u64, terminalOutputBytes: u64)

  datatype Capabilities = Capabilities(
    cpuTime: Mechanism, memory: Mechanism, pids: Mechanism, wallTime: Mechanism, disk: Mechanism,
    terminalOutput: Mechanism, receiptSchemaVersion: byte)
  {
    predicate Complete() {
      && cpuTime in {Rlimit, CgroupV2}
      && memory in {Rlimit, CgroupV2}
      && pids in {Rlimit, CgroupV2}
      && wallTime == Watchdog
      && disk == FilesystemQuota
      && terminalOutput == ByteCounter
      && receiptSchemaVersion == 1
    }
  }

  datatype Usage = Usage(
    cpuTimeMs: u64, peakMemoryBytes: u64, peakPids: u32, wallTimeMs: u64, diskBytes: u64,
    terminalOutputBytes: u64)

  datatype LibraryProjection = LibraryProjection(
    projectionId: seq<byte>, destinationAlias: seq<byte>, targetPath: seq<byte>, contentDigest: seq<byte>)

  datatype RetainedChange = RetainedChange(
    exposureId: seq<byte>, generation: u64, scopeDigest: seq<byte>, sourceIdentityDigest: seq<byte>,
    baselineTreeDigest: seq<byte>, stagedTreeDigest: seq<byte>, manifestDigest: seq<byte>,
    created: u64, modified: u64, renamed: u64, removed: u64, beforeBytes: u64, afterBytes: u64)

  datatype ResourceReceipt = ResourceReceipt(
    schemaVersion: byte,
    profileDigest: seq<byte>,
    backend: Backend,
    backendId: seq<byte>,
    authority: Authority,
    independentlyVerified: bool,
    limits: Limits,
    mechanisms: Capabilities,
    observed: Usage,
    termination: Termination,
    exitCode: Option<int>,
    startedAtMs: u64,
    finishedAtMs: u64,
    projections: seq<LibraryProjection>,
    changes: seq<RetainedChange>)

  // ----- names and grammars

  predicate IsIdentifierByte(b: byte) {
    || 'a' as int <= b <= 'z' as int
    || 'A' as int <= b <= 'Z' as int
    || IsDigit(b)
    || b in [ '-' as int, '_' as int, ':' as int, '.' as int ]
  }

  predicate ValidIdentifier(v: seq<byte>) {
    0 < |v| <= 128 && forall i :: 0 <= i < |v| ==> IsIdentifierByte(v[i])
  }

  /** Byte-wise lexicographic order, the order of `std::string`. */
  predicate Less(a: seq<byte>, b: seq<byte>) {
    if b == [] then false
    else if a == [] then true
    else a[0] < b[0] || (a[0] == b[0] && Less(a[1..], b[1..]))
  }

  function BackendName(b: Backend): seq<byte> {
    match b
    case LinuxProduction => Ascii("linux_production")
    case RemoteLinuxContainer => Ascii("remote_linux_container")
    case AppleContainer => Ascii("apple_container")
    case MacosExperimental => Ascii("macos_experimental")
  }

  function AuthorityName(a: Authority): seq<byte> {
    match a
    case LocalEnforcement => Ascii("local_enforcement")
    case TrustedRemoteClaim => Ascii("trusted_remote_claim")
  }

  function MechanismName(m: Mechanism): seq<byte> {
    match m
    case Unavailable => Ascii("unavailable")
    case Rlimit => Ascii("rlimit")
    case CgroupV2 => Ascii("cgroup_v2")
    case Watchdog => Ascii("watchdog")
    case FilesystemQuota => Ascii("filesystem_quota")
    case ByteCounter => Ascii("byte_counter")
  }

  function TerminationName(t: Termination): seq<byte> {
    match t
    case Exited => Ascii("exited")
    case Signaled => Ascii("signaled")
    case CpuTimeLimit => Ascii("cpu_time_limit")
    case MemoryLimit => Ascii("memory_limit")
    case PidLimit => Ascii("pid_limit")
    case WallTimeLimit => Ascii("wall_time_limit")
    case DiskLimit => Ascii("disk_limit")
    case TerminalOutputLimit => Ascii("terminal_output_limit")
    case SupervisorError => Ascii("supervisor_error")
  }

  // ----- validators

  /** The non-empty elements of a path; empty elements do not take part in path comparison. */
  function Elements(path: seq<byte>): seq<seq<byte>>
    decreases |path|
  {
    if path == [] then []
    else if path[0] == '/' as int then Elements(path[1..])
    else
      var n := ElementLength(path);
      [path[..n]] + Elements(path[n..])
  }

  function ElementLength(path: seq<byte>): (n: nat)
    ensures n <= |path| && (path != [] && path[0] != '/' as int ==> n > 0)
  {
    if path == [] || path[0] == '/' as int then 0 else 1 + ElementLength(path[1..])
  }

  /** Absolute, lexically normal, and named after the projected content. */
  predicate ValidTarget(path: seq<byte>, digest: seq<byte>) {
    var e := Elements(path);
    && |path| > 0
    && path[0] == '/' as int
    && path[|path| - 1] != '/' as int
    && e != []
    && (forall i :: 0 <= i < |e| ==> e[i] != Ascii(".") && e[i] != Ascii(".."))
    && e[|e| - 1] == digest + Ascii(".json")
  }

  predicate Overlap(p: seq<byte>, q: seq<byte>) {
    Elements(p) <= Elements(q) || Elements(q) <= Elements(p)
  }

  predicate ValidProjection(p: LibraryProjection) {
    && ValidIdentifier(p.projectionId)
    && ValidIdentifier(p.destinationAlias)
    && ValidDigest(p.contentDigest)
    && ValidTarget(p.targetPath, p.contentDigest)
  }

  /** Projection `i` is valid, follows its predecessor in identifier order, and nests with no earlier target. */
  predicate ProjectionFits(ps: seq<LibraryProjection>, i: nat)
    requires i < |ps|
  {
    && ValidProjection(ps[i])
    && (i > 0 ==> Less(ps[i - 1].projectionId, ps[i].projectionId))
    && (forall j :: 0 <= j < i ==> !Overlap(ps[i].targetPath, ps[j].targetPath))
  }

  predicate ValidProjections(ps: seq<LibraryProjection>) {
    |ps| <= 128 && forall i :: 0 <= i < |ps| ==> ProjectionFits(ps, i)
  }

  predicate ValidChange(c: RetainedChange, diskBytes: u64) {
    && ValidIdentifier(c.exposureId)
    && c.generation != 0
    && ValidDigest(c.scopeDigest)
    && ValidDigest(c.sourceIdentityDigest)
    && ValidDigest(c.baselineTreeDigest)
    && ValidDigest(c.stagedTreeDigest)
    && ValidDigest(c.manifestDigest)
    && c.created + c.modified + c.renamed + c.removed <= 100_000
    && c.beforeBytes <= diskBytes
    && c.afterBytes <= diskBytes
  }

  predicate ValidChanges(cs: seq<RetainedChange>, diskBytes: u64) {
    && |cs| <= 64
    && (forall i :: 0 <= i < |cs| ==> ValidChange(cs[i], diskBytes))
    && (forall i :: 0 < i < |cs| ==> Less(cs[i - 1].exposureId, cs[i].exposureId))
  }

  /** The single pass of `valid_library_projection_receipts`, carrying the last identifier and the targets seen. */
  method CheckProjections(ps: seq<LibraryProjection>) returns (ok: bool)
    ensures ok == ValidProjections(ps)
  {
    if |ps| > 128 { return false; }
    var previousId: seq<byte> := [];
    var targets: seq<seq<byte>> := [];
    for i := 0 to |ps|
      invariant |targets| == i && forall k :: 0 <= k < i ==> targets[k] == ps[k].targetPath
      invariant previousId == if i == 0 then [] else ps[i - 1].projectionId
      invariant forall k :: 0 <= k < i ==> ProjectionFits(ps, k)
    {
      var clear := ClearOf(ps[i].targetPath, targets);
      if !ValidProjection(ps[i]) || (previousId != [] && !Less(previousId, ps[i].projectionId)) || !clear {
        assert !ProjectionFits(ps, i);
        return false;
      }
      previousId := ps[i].projectionId;
      targets := targets + [ps[i].targetPath];
    }
    ok := true;
  }

  method ClearOf(path: seq<byte>, targets: seq<seq<byte>>) returns (ok: bool)
    ensures ok == forall j :: 0 <= j < |targets| ==> !Overlap(path, targets[j])
  {
    for k := 0 to |targets|
      invariant forall j :: 0 <= j < k ==> !Overlap(path, targets[j])
    {
      if Overlap(path, targets[k]) { return false; }
    }
    ok := true;
  }

  /** The single pass of `valid_retained_change_receipts`, each counter tested before the sum is formed. */
  method CheckChanges(cs: seq<RetainedChange>, diskBytes: u64) returns (ok: bool)
    ensures ok == ValidChanges(cs, diskBytes)
  {
    if |cs| > 64 { return false; }
    var previousId: seq<byte> := [];
    for i := 0 to |cs|
      invariant previousId == if i == 0 then [] else cs[i - 1].exposureId
      invariant forall k :: 0 <= k < i ==> ValidChange(cs[k], diskBytes)
      invariant forall k :: 0 < k < i ==> Less(cs[k - 1].exposureId, cs[k].exposureId)
    {
      var c := cs[i];
      if c.created > 100_000 || c.modified > 100_000 || c.renamed > 100_000 || c.removed > 100_000 { return false; }
      var sum: u64 := c.created + c.modified + c.renamed + c.removed;
      if sum > 100_000 || !ValidChange(c, diskBytes) { return false; }
      if previousId != [] && !Less(previousId, c.exposureId) { return false; }
      previousId := c.exposureId;
    }
    ok := true;
  }

  predicate ValidLocal(r: ResourceReceipt) {
    && r.backend != RemoteLinuxContainer
    && r.authority == LocalEnforcement
    && r.independentlyVerified
    && r.schemaVersion == 1
    && ValidDigest(r.profileDigest)
    && ValidIdentifier(r.backendId)
    && r.mechanisms.Complete()
    && ValidProjections(r.projections)
    && ValidChanges(r.changes, r.limits.diskBytes)
    && r.startedAtMs != 0
    && r.startedAtMs <= r.finishedAtMs
    && (if r.termination == Exited then r.exitCode.Some? && 0 <= r.exitCode.value <= 255 else r.exitCode.None?)
  }

  /** A remote claim is checked as if it were local, after its authority fields have been checked. */
  predicate ValidRemote(r: ResourceReceipt) {
    && r.backend == RemoteLinuxContainer
    && r.authority == TrustedRemoteClaim
    && !r.independentlyVerified
    && r.changes == []
    && ValidLocal(r.(backend := LinuxProduction, authority := LocalEnforcement, independentlyVerified := true))
  }

  predicate Valid(r: ResourceReceipt) {
    if r.backend == RemoteLinuxContainer then ValidRemote(r) else ValidLocal(r)
  }

  // ----- canonical form

  function Flag(b: bool): Token { U8(if b then 1 else 0) }

  function Head(r: ResourceReceipt): seq<Token> {
    [Str(Ascii("glove.resource-enforcement-receipt")), U8(1), U8(r.schemaVersion), Str(r.profileDigest),
     Str(BackendName(r.backend)), Str(r.backendId)]
  }

  function AuthoritySection(r: ResourceReceipt): seq<Token> {
    if r.backend != RemoteLinuxContainer then []
    else
      [Str(Ascii("glove.remote-observation-authority")), U8(1), Str(AuthorityName(r.authority)),
       Flag(r.independentlyVerified)]
  }

  function LimitTokens(l: Limits): seq<Token> {
    [U64(l.cpuTimeMs), U64(l.memoryBytes), U32(l.pids), U64(l.wallTimeMs), U64(l.diskBytes),
     U64(l.terminalOutputBytes)]
  }

  function MechanismBytes(m: Mechanism): seq<byte> { Encode([Str(MechanismName(m))]) }

  function CapabilityBytes(c: Capabilities, rest: seq<byte>): seq<byte> {
    MechanismBytes(c.cpuTime) + (MechanismBytes(c.memory) + (MechanismBytes(c.pids) + (MechanismBytes(c.wallTime)
      + (MechanismBytes(c.disk) + (MechanismBytes(c.terminalOutput)
      + (Encode([U8(c.receiptSchemaVersion)]) + rest))))))
  }

  function UsageTokens(u: Usage): seq<Token> {
    [U64(u.cpuTimeMs), U64(u.peakMemoryBytes), U32(u.peakPids), U64(u.wallTimeMs), U64(u.diskBytes),
     U64(u.terminalOutputBytes)]
  }

  /** The exit code is cast to 32 bits after its presence byte. */
  function TerminationTokens(r: ResourceReceipt): seq<Token> {
    [Str(TerminationName(r.termination)), Flag(r.exitCode.Some?)]
  }

  function ExitTokens(code: Option<int>): seq<Token> {
    if code.None? then [] else [U32(code.value % 0x1_0000_0000)]
  }

  function TimeTokens(r: ResourceReceipt): seq<Token> {
    [U64(r.startedAtMs), U64(r.finishedAtMs)]
  }

  function SectionHead(tag: string, count: nat): seq<Token> {
    [Str(Ascii(tag)), U8(1), U32(count % 0x1_0000_0000)]
  }

  function ProjectionTokens(p: LibraryProjection): seq<Token> {
    [Str(p.projectionId), Str(p.destinationAlias), Str(p.targetPath), Str(p.contentDigest)]
  }

  function ProjectionBytes(ps: seq<LibraryProjection>): seq<byte> {
    if ps == [] then [] else Encode(ProjectionTokens(ps[0])) + ProjectionBytes(ps[1..])
  }

  function ChangeTokens(c: RetainedChange): seq<Token> {
    [Str(c.exposureId), U64(c.generation), Str(c.scopeDigest), Str(c.sourceIdentityDigest),
     Str(c.baselineTreeDigest), Str(c.stagedTreeDigest), Str(c.manifestDigest), U64(c.created), U64(c.modified),
     U64(c.renamed), U64(c.removed), U64(c.beforeBytes), U64(c.afterBytes)]
  }

  function ChangeBytes(cs: seq<RetainedChange>): seq<byte> {
    if cs == [] then [] else Encode(ChangeTokens(cs[0])) + ChangeBytes(cs[1..])
  }

  const PROJECTION_TAG := "glove.library-projection-receipts"
  const CHANGE_TAG := "glove.retained-change-receipts"

  function ChangeSection(cs: seq<RetainedChange>): seq<byte> {
    if cs == [] then [] else Encode(SectionHead(CHANGE_TAG, |cs|)) + ChangeBytes(cs)
  }

  /** The optional trailing sections: absent when their lists are empty. */
  function Tail(r: ResourceReceipt): seq<byte> {
    if r.projections == [] then ChangeSection(r.changes)
    else Encode(SectionHead(PROJECTION_TAG, |r.projections|)) + (ProjectionBytes(r.projections) + ChangeSection(r.changes))
  }

  function FromTimes(r: ResourceReceipt): seq<byte> { Encode(TimeTokens(r)) + Tail(r) }

  function FromExit(r: ResourceReceipt): seq<byte> { Encode(ExitTokens(r.exitCode)) + FromTimes(r) }

  function FromTermination(r: ResourceReceipt): seq<byte> { Encode(TerminationTokens(r)) + FromExit(r) }

  function FromUsage(r: ResourceReceipt): seq<byte> { Encode(UsageTokens(r.observed)) + FromTermination(r) }

  function FromCapabilities(r: ResourceReceipt): seq<byte> { CapabilityBytes(r.mechanisms, FromUsage(r)) }

  function FromLimits(r: ResourceReceipt): seq<byte> { Encode(LimitTokens(r.limits)) + FromCapabilities(r) }

  function FromAuthority(r: ResourceReceipt): seq<byte> { Encode(AuthoritySection(r)) + FromLimits(r) }

  /** The canonical bytes of a receipt, section after section. */
  function Canonicalize(r: ResourceReceipt): seq<byte> { Encode(Head(r)) + FromAuthority(r) }

  /** `encode_receipt`: nothing is encoded unless the receipt validates. */
  function EncodeReceipt(r: ResourceReceipt): Option<seq<byte>> {
    if Valid(r) then Some(Canonicalize(r)) else None
  }

  // ----- injectivity

  /** Target paths are the only unbounded strings; their length must survive the cast to 32 bits. */
  ghost predicate ShortPaths(r: ResourceReceipt) {
    forall i :: 0 <= i < |r.projections| ==> |r.projections[i].targetPath| < 0x1_0000_0000
  }

  lemma BackendNameInjective(a: Backend, b: Backend)
    requires BackendName(a) == BackendName(b)
    ensures a == b
  {
  }

  lemma TerminationNameInjective(a: Termination, b: Termination)
    requires TerminationName(a) == TerminationName(b)
    ensures a == b
  {
  }

  lemma {:induction false} ProjectionsCancel(ps: seq<LibraryProjection>, s: seq<byte>,
                                             qs: seq<LibraryProjection>, t: seq<byte>)
    requires |ps| == |qs|
    requires forall i :: 0 <= i < |ps| ==> AllRepresentable(ProjectionTokens(ps[i]))
    requires forall i :: 0 <= i < |qs| ==> AllRepresentable(ProjectionTokens(qs[i]))
    requires ProjectionBytes(ps) + s == ProjectionBytes(qs) + t
    ensures ps == qs && s == t
  {
    if ps == [] {
      assert [] + s == s && [] + t == t;
    } else {
      var p, q := ProjectionTokens(ps[0]), ProjectionTokens(qs[0]);
      Associate(Encode(p), ProjectionBytes(ps[1..]), s);
      Associate(Encode(q), ProjectionBytes(qs[1..]), t);
      ShapeCancel(p, ProjectionBytes(ps[1..]) + s, q, ProjectionBytes(qs[1..]) + t);
      assert p[0] == q[0] && p[1] == q[1] && p[2] == q[2] && p[3] == q[3];
      ProjectionsCancel(ps[1..], s, qs[1..], t);
      assert ps == [ps[0]] + ps[1..] && qs == [qs[0]] + qs[1..];
    }
  }

  lemma ChangeTokensInjective(c: RetainedChange, d: RetainedChange)
    requires ChangeTokens(c) == ChangeTokens(d)
    ensures c == d
  {
    var p, q := ChangeTokens(c), ChangeTokens(d);
    assert p[0] == q[0] && p[1] == q[1] && p[2] == q[2] && p[3] == q[3] && p[4] == q[4] && p[5] == q[5];
    assert p[6] == q[6] && p[7] == q[7] && p[8] == q[8] && p[9] == q[9] && p[10] == q[10];
    assert p[11] == q[11] && p[12] == q[12];
  }

  lemma ChangeCancel(c: RetainedChange, s: seq<byte>, d: RetainedChange, t: seq<byte>)
    requires AllRepresentable(ChangeTokens(c)) && AllRepresentable(ChangeTokens(d))
    requires Encode(ChangeTokens(c)) + s == Encode(ChangeTokens(d)) + t
    ensures c == d && s == t
  {
    ShapeCancel(ChangeTokens(c), s, ChangeTokens(d), t);
    ChangeTokensInjective(c, d);
  }

  lemma {:induction false} ChangesCancel(cs: seq<RetainedChange>, ds: seq<RetainedChange>)
    requires |cs| == |ds|
    requires forall i :: 0 <= i < |cs| ==> AllRepresentable(ChangeTokens(cs[i]))
    requires forall i :: 0 <= i < |ds| ==> AllRepresentable(ChangeTokens(ds[i]))
    requires ChangeBytes(cs) == ChangeBytes(ds)
    ensures cs == ds
  {
    if cs != [] {
      ChangeCancel(cs[0], ChangeBytes(cs[1..]), ds[0], ChangeBytes(ds[1..]));
      ChangesCancel(cs[1..], ds[1..]);
      assert cs == [cs[0]] + cs[1..] && ds == [ds[0]] + ds[1..];
    }
  }

  lemma SectionHeadCancel(tag: string, m: nat, s: seq<byte>, n: nat, t: seq<byte>)
    requires |tag| < 100 && m <= 128 && n <= 128
    requires Encode(SectionHead(tag, m)) + s == Encode(SectionHead(tag, n)) + t
    ensures m == n && s == t
  {
    var a, b := SectionHead(tag, m), SectionHead(tag, n);
    ShapeCancel(a, s, b, t);
    assert a[2] == b[2];
  }

  /** The tag of one section cannot be mistaken for the tag of the other. */
  lemma SectionHeadsDiffer(m: nat, s: seq<byte>, n: nat, t: seq<byte>)
    ensures Encode(SectionHead(PROJECTION_TAG, m)) + s != Encode(SectionHead(CHANGE_TAG, n)) + t
  {
    var a, b := SectionHead(PROJECTION_TAG, m), SectionHead(CHANGE_TAG, n);
    assert a[0] != b[0] by { assert |a[0].s| == |PROJECTION_TAG| && |b[0].s| == |CHANGE_TAG|; }
    if Encode(a) + s == Encode(b) + t {
      ShapeCancel(a, s, b, t);
    }
  }

  lemma SectionHeadNonEmpty(tag: string, m: nat, s: seq<byte>)
    ensures Encode(SectionHead(tag, m)) + s != []
  {
    EncodeNonEmpty(SectionHead(tag, m));
  }

  ghost predicate TailBounds(r: ResourceReceipt) {
    && |r.projections| <= 128
    && |r.changes| <= 64
    && (forall i :: 0 <= i < |r.projections| ==> AllRepresentable(ProjectionTokens(r.projections[i])))
    && (forall i :: 0 <= i < |r.changes| ==> AllRepresentable(ChangeTokens(r.changes[i])))
  }

  lemma ChangeSectionCancel(cs: seq<RetainedChange>, ds: seq<RetainedChange>)
    requires |cs| <= 64 && |ds| <= 64
    requires forall i :: 0 <= i < |cs| ==> AllRepresentable(ChangeTokens(cs[i]))
    requires forall i :: 0 <= i < |ds| ==> AllRepresentable(ChangeTokens(ds[i]))
    requires ChangeSection(cs) == ChangeSection(ds)
    ensures cs == ds
  {
    SectionHeadNonEmpty(CHANGE_TAG, |cs|, ChangeBytes(cs));
    SectionHeadNonEmpty(CHANGE_TAG, |ds|, ChangeBytes(ds));
    if cs != [] && ds != [] {
      SectionHeadCancel(CHANGE_TAG, |cs|, ChangeBytes(cs), |ds|, ChangeBytes(ds));
      ChangesCancel(cs, ds);
    }
  }

  /** The projection section is present in both or in neither. */
  lemma OneSidedTail(r: ResourceReceipt, q: ResourceReceipt)
    requires Tail(r) == Tail(q)
    ensures r.projections == [] ==> q.projections == []
  {
    var m, s := |q.projections|, ProjectionBytes(q.projections) + ChangeSection(q.changes);
    SectionHeadNonEmpty(PROJECTION_TAG, m, s);
    SectionHeadsDiffer(m, s, |r.changes|, ChangeBytes(r.changes));
  }

  lemma TailInjective(r: ResourceReceipt, q: ResourceReceipt)
    requires TailBounds(r) && TailBounds(q)
    requires Tail(r) == Tail(q)
    ensures r.projections == q.projections && r.changes == q.changes
  {
    OneSidedTail(r, q);
    OneSidedTail(q, r);
    if r.projections != [] {
      SectionHeadCancel(PROJECTION_TAG, |r.projections|, ProjectionBytes(r.projections) + ChangeSection(r.changes),
                        |q.projections|, ProjectionBytes(q.projections) + ChangeSection(q.changes));
      ProjectionsCancel(r.projections, ChangeSection(r.changes), q.projections, ChangeSection(q.changes));
    }
    ChangeSectionCancel(r.changes, q.changes);
  }

  lemma LimitsCancel(l: Limits, s: seq<byte>, m: Limits, t: seq<byte>)
    requires Encode(LimitTokens(l)) + s == Encode(LimitTokens(m)) + t
    ensures l == m && s == t
  {
    var a, b := LimitTokens(l), LimitTokens(m);
    ShapeCancel(a, s, b, t);
    assert a[0] == b[0] && a[1] == b[1] && a[2] == b[2] && a[3] == b[3] && a[4] == b[4] && a[5] == b[5];
  }

  lemma UsageCancel(u: Usage, s: seq<byte>, v: Usage, t: seq<byte>)
    requires Encode(UsageTokens(u)) + s == Encode(UsageTokens(v)) + t
    ensures u == v && s == t
  {
    var a, b := UsageTokens(u), UsageTokens(v);
    ShapeCancel(a, s, b, t);
    assert a[0] == b[0] && a[1] == b[1] && a[2] == b[2] && a[3] == b[3] && a[4] == b[4] && a[5] == b[5];
  }

  lemma MechanismCancel(m: Mechanism, s: seq<byte>, n: Mechanism, t: seq<byte>)
    requires MechanismBytes(m) + s == MechanismBytes(n) + t
    ensures m == n && s == t
  {
    var a, b := [Str(MechanismName(m))], [Str(MechanismName(n))];
    ShapeCancel(a, s, b, t);
    assert a[0] == b[0];
  }

  lemma CapabilitiesCancel(c: Capabilities, s: seq<byte>, d: Capabilities, t: seq<byte>)
    requires CapabilityBytes(c, s) == CapabilityBytes(d, t)
    ensures c == d && s == t
  {
    var a, b := [U8(c.receiptSchemaVersion)], [U8(d.receiptSchemaVersion)];
    var c6, d6 := Encode(a) + s, Encode(b) + t;
    var c5, d5 := MechanismBytes(c.terminalOutput) + c6, MechanismBytes(d.terminalOutput) + d6;
    var c4, d4 := MechanismBytes(c.disk) + c5, MechanismBytes(d.disk) + d5;
    var c3, d3 := MechanismBytes(c.wallTime) + c4, MechanismBytes(d.wallTime) + d4;
    var c2, d2 := MechanismBytes(c.pids) + c3, MechanismBytes(d.pids) + d3;
    var c1, d1 := MechanismBytes(c.memory) + c2, MechanismBytes(d.memory) + d2;
    MechanismCancel(c.cpuTime, c1, d.cpuTime, d1);
    MechanismCancel(c.memory, c2, d.memory, d2);
    MechanismCancel(c.pids, c3, d.pids, d3);
    MechanismCancel(c.wallTime, c4, d.wallTime, d4);
    MechanismCancel(c.disk, c5, d.disk, d5);
    MechanismCancel(c.terminalOutput, c6, d.terminalOutput, d6);
    ShapeCancel(a, s, b, t);
    assert a[0] == b[0];
  }

  lemma TerminationCancel(r: ResourceReceipt, s: seq<byte>, q: ResourceReceipt, t: seq<byte>)
    requires Encode(TerminationTokens(r)) + s == Encode(TerminationTokens(q)) + t
    ensures r.termination == q.termination && r.exitCode.Some? == q.exitCode.Some? && s == t
  {
    var a, b := TerminationTokens(r), TerminationTokens(q);
    ShapeCancel(a, s, b, t);
    assert a[0] == b[0] && a[1] == b[1];
    TerminationNameInjective(r.termination, q.termination);
  }

  lemma ExitCancel(c: Option<int>, s: seq<byte>, d: Option<int>, t: seq<byte>)
    requires c.Some? ==> 0 <= c.value <= 255
    requires d.Some? ==> 0 <= d.value <= 255
    requires c.Some? == d.Some?
    requires Encode(ExitTokens(c)) + s == Encode(ExitTokens(d)) + t
    ensures c == d && s == t
  {
    ShapeCancel(ExitTokens(c), s, ExitTokens(d), t);
    if c.Some? { assert ExitTokens(c)[0] == ExitTokens(d)[0]; }
  }

  lemma TimesCancel(r: ResourceReceipt, s: seq<byte>, q: ResourceReceipt, t: seq<byte>)
    requires Encode(TimeTokens(r)) + s == Encode(TimeTokens(q)) + t
    ensures r.startedAtMs == q.startedAtMs && r.finishedAtMs == q.finishedAtMs && s == t
  {
    ShapeCancel(TimeTokens(r), s, TimeTokens(q), t);
    assert TimeTokens(r)[0] == TimeTokens(q)[0] && TimeTokens(r)[1] == TimeTokens(q)[1];
  }

  lemma HeadCancel(r: ResourceReceipt, s: seq<byte>, q: ResourceReceipt, t: seq<byte>)
    requires AllRepresentable(Head(r)) && AllRepresentable(Head(q))
    requires Encode(Head(r)) + s == Encode(Head(q)) + t
    ensures r.schemaVersion == q.schemaVersion && r.profileDigest == q.profileDigest
    ensures r.backend == q.backend && r.backendId == q.backendId && s == t
  {
    var a, b := Head(r), Head(q);
    ShapeCancel(a, s, b, t);
    assert a[2] == b[2] && a[3] == b[3] && a[4] == b[4] && a[5] == b[5];
    BackendNameInjective(r.backend, q.backend);
  }

  lemma AuthorityCancel(r: ResourceReceipt, s: seq<byte>, q: ResourceReceipt, t: seq<byte>)
    requires r.backend == q.backend
    requires Encode(AuthoritySection(r)) + s == Encode(AuthoritySection(q)) + t
    ensures s == t
  {
    ShapeCancel(AuthoritySection(r), s, AuthoritySection(q), t);
  }

  lemma ValidBounds(r: ResourceReceipt)
    requires Valid(r) && ShortPaths(r)
    ensures TailBounds(r) && AllRepresentable(Head(r))
    ensures r.exitCode.Some? ==> 0 <= r.exitCode.value <= 255
  {
    forall i | 0 <= i < |r.projections|
      ensures AllRepresentable(ProjectionTokens(r.projections[i]))
    {
      assert ProjectionFits(r.projections, i);
    }
  }

  /** Valid receipts, local or remote, with equal canonical bytes are equal. */
  lemma EncodingInjective(r: ResourceReceipt, q: ResourceReceipt)
    requires Valid(r) && Valid(q) && ShortPaths(r) && ShortPaths(q)
    requires EncodeReceipt(r) == EncodeReceipt(q)
    ensures r == q
  {
    ValidBounds(r);
    ValidBounds(q);
    HeadCancel(r, FromAuthority(r), q, FromAuthority(q));
    AuthorityCancel(r, FromLimits(r), q, FromLimits(q));
    LimitsCancel(r.limits, FromCapabilities(r), q.limits, FromCapabilities(q));
    CapabilitiesCancel(r.mechanisms, FromUsage(r), q.mechanisms, FromUsage(q));
    UsageCancel(r.observed, FromTermination(r), q.observed, FromTermination(q));
    TerminationCancel(r, FromExit(r), q, FromExit(q));
    ExitCancel(r.exitCode, FromTimes(r), q.exitCode, FromTimes(q));
    TimesCancel(r, Tail(r), q, Tail(q));
    TailInjective(r, q);
  }
}
