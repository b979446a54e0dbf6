/** The host's connection bookkeeping: how the RPC ID of an incoming
    connection or stream is read and which call counter it bumps, how the
    settings-call counter decides the working status, and which address the
    connectability check dials. Goroutines, timers, sockets and logging are
    not modelled: what they deliver (bytes read, counter readings, dial
    results, handler errors) arrives as parameters. */
module Network {
  import opened Errors
  import opened Bytes

  // ---- RPC identifiers ----

  /** types.Specifier: 16 bytes. */
  const SpecifierSize: nat := 16

  predicate IsSpecifier(s: bytes) { |s| == SpecifierSize }

  /** types.NewSpecifier(name): the name's bytes, zero-padded to 16. */
  function NewSpecifier(name: string): (s: bytes)
    requires |name| <= SpecifierSize && forall i | 0 <= i < |name| :: name[i] as int < 256
    ensures IsSpecifier(s)
    ensures forall i | 0 <= i < |name| :: s[i] == name[i] as int
    ensures forall i | |name| <= i < SpecifierSize :: s[i] == 0
  {
    seq(SpecifierSize, i requires 0 <= i < SpecifierSize => if i < |name| then name[i] as int as byte else 0)
  }

  const RPCLoopEnter: bytes := NewSpecifier("LoopEnter")
  const RPCDownload: bytes := NewSpecifier("Download")
  const RPCFormContract: bytes := NewSpecifier("FormContract")
  const RPCReviseContract: bytes := NewSpecifier("ReviseContract")
  const RPCSettings: bytes := NewSpecifier("Settings2")
  /** rpcSettingsDeprecated (network.go:41). */
  const RPCSettingsDeprecated: bytes := NewSpecifier("Settings")

  const RPCAccountBalance: bytes := NewSpecifier("AccountBalance")
  const RPCExecuteProgram: bytes := NewSpecifier("ExecuteProgram")
  const RPCUpdatePriceTable: bytes := NewSpecifier("UpdatePriceTable")
  const RPCFundAccount: bytes := NewSpecifier("FundAccount")
  const RPCLatestRevision: bytes := NewSpecifier("LatestRevision")
  const RPCRegistrySubscription: bytes := NewSpecifier("Subscription")
  const RPCRenewContract: bytes := NewSpecifier("RenewContract")

  /** The RPCs a SiaMux stream can request. */
  const StreamRPCs: set<bytes> := {
    RPCAccountBalance, RPCExecuteProgram, RPCUpdatePriceTable, RPCFundAccount,
    RPCLatestRevision, RPCRegistrySubscription, RPCRenewContract
  }

  /** The length prefix a legacy renter sends before its RPC ID. */
  const LegacyPrefix: nat := 16

  /** The ID a connection asks for, read from the bytes it sends: 16 bytes,
      which are the ID if they are RPCLoopEnter; otherwise their first 8
      bytes must be the little-endian length 16, and the ID is their last 8
      bytes followed by the next 8 bytes of the connection. None when the
      connection is too short or the prefix is wrong. */
  function DecodeLegacyID(conn: bytes): (r: Option<bytes>)
    ensures r.Some? ==> IsSpecifier(r.value)
  {
    if |conn| < SpecifierSize then None
    else if conn[..SpecifierSize] == RPCLoopEnter then Some(RPCLoopEnter)
    else if DecodeLE(conn[..8]) != LegacyPrefix then None
    else if |conn| < SpecifierSize + 8 then None
    else Some(conn[8..SpecifierSize + 8])
  }

  /** What a legacy renter sends: the length prefix 16, then the ID. */
  function LegacyFrame(id: bytes): (r: bytes)
    requires IsSpecifier(id)
    ensures |r| == 8 + SpecifierSize
  {
    EncodeU64(LegacyPrefix) + id
  }

  /** A connection that starts with RPCLoopEnter asks for it. */
  lemma DecodeLoopEnter(rest: bytes)
    ensures DecodeLegacyID(RPCLoopEnter + rest) == Some(RPCLoopEnter)
  {
    assert (RPCLoopEnter + rest)[..SpecifierSize] == RPCLoopEnter;
  }

  /** A legacy frame is read back as the ID it carries, whatever follows it. */
  lemma DecodeLegacyFrame(id: bytes, rest: bytes)
    requires IsSpecifier(id)
    ensures DecodeLegacyID(LegacyFrame(id) + rest) == Some(id)
  {
    var c := LegacyFrame(id) + rest;
    Pow256Values();
    DecodeEncodeLE(LegacyPrefix, 8);
    assert c[..8] == EncodeU64(LegacyPrefix);
    assert c[8..SpecifierSize + 8] == id;
    if c[..SpecifierSize] == RPCLoopEnter {
      LoopEnterIsNotAFrame(c);
    }
  }

  /** "LoopEnte" is not the length prefix 16. */
  lemma LoopEnterIsNotAFrame(c: bytes)
    requires |c| >= SpecifierSize && c[..SpecifierSize] == RPCLoopEnter
    ensures DecodeLE(c[..8]) != LegacyPrefix
  {
    assert c[0] == 'L' as int;
    var s := c[..8];
    assert s[0] == 'L' as int;
    assert DecodeLE(s) % 256 == s[0];
  }

  /** Conversely, a connection that asks for an ID other than RPCLoopEnter
      began with the legacy frame of that ID. */
  lemma DecodeLegacyOnlyFrames(conn: bytes)
    requires DecodeLegacyID(conn).Some? && DecodeLegacyID(conn).value != RPCLoopEnter
    ensures conn[..8 + SpecifierSize] == LegacyFrame(DecodeLegacyID(conn).value)
  {
    var id := DecodeLegacyID(conn).value;
    EncodeDecodeLE(conn[..8]);
    assert conn[..8] == EncodeU64(LegacyPrefix);
    assert conn[..8 + SpecifierSize] == conn[..8] + id;
  }

  // ---- call counters ----

  /** The host's call counters. */
  datatype Counter = DownloadCalls | ErrorCalls | FormContractCalls | RenewCalls
                   | ReviseCalls | SettingsCalls | UnrecognizedCalls

  /** modules.HostNetworkMetrics: a snapshot of the counters. */
  datatype HostNetworkMetrics = HostNetworkMetrics(
    downloadCalls: nat, errorCalls: nat, formContractCalls: nat, renewCalls: nat,
    reviseCalls: nat, settingsCalls: nat, unrecognizedCalls: nat)

  function Get(m: HostNetworkMetrics, c: Counter): nat {
    match c
    case DownloadCalls => m.downloadCalls
    case ErrorCalls => m.errorCalls
    case FormContractCalls => m.formContractCalls
    case RenewCalls => m.renewCalls
    case ReviseCalls => m.reviseCalls
    case SettingsCalls => m.settingsCalls
    case UnrecognizedCalls => m.unrecognizedCalls
  }

  /** atomic.AddUint64(&counter, 1): that counter goes up by one and no
      other changes. */
  function Bump(m: HostNetworkMetrics, c: Counter): (r: HostNetworkMetrics)
    ensures Get(r, c) == Get(m, c) + 1
    ensures forall d: Counter | d != c :: Get(r, d) == Get(m, d)
  {
    match c
    case DownloadCalls => m.(downloadCalls := m.downloadCalls + 1)
    case ErrorCalls => m.(errorCalls := m.errorCalls + 1)
    case FormContractCalls => m.(formContractCalls := m.formContractCalls + 1)
    case RenewCalls => m.(renewCalls := m.renewCalls + 1)
    case ReviseCalls => m.(reviseCalls := m.reviseCalls + 1)
    case SettingsCalls => m.(settingsCalls := m.settingsCalls + 1)
    case UnrecognizedCalls => m.(unrecognizedCalls := m.unrecognizedCalls + 1)
  }

  function BumpIf(m: HostNetworkMetrics, c: Counter, b: bool): HostNetworkMetrics {
    if b then Bump(m, c) else m
  }

  /** The legacy RPCs a connection can request and the counter of each. */
  function LegacyCounter(id: bytes): Option<Counter> {
    if id == RPCDownload then Some(DownloadCalls)
    else if id == RPCFormContract then Some(FormContractCalls)
    else if id == RPCReviseContract then Some(ReviseCalls)
    else if id == RPCSettings then Some(SettingsCalls)
    else None
  }

  /** Whether an ID read from a connection runs an RPC handler. */
  predicate ConnRunsHandler(id: bytes) {
    id == RPCLoopEnter || LegacyCounter(id).Some?
  }

  /** The counters after a connection that asked for id (None: malformed)
      and whose handler, if one was invoked, failed or not. */
  function ConnMetrics(m: HostNetworkMetrics, id: Option<bytes>, handlerFails: bool): HostNetworkMetrics {
    if id.None? then Bump(m, UnrecognizedCalls)
    else if id.value == RPCLoopEnter then BumpIf(m, ErrorCalls, handlerFails)
    else if LegacyCounter(id.value).Some? then
      BumpIf(Bump(m, LegacyCounter(id.value).value), ErrorCalls, handlerFails)
    else if id.value == RPCSettingsDeprecated then m
    else Bump(m, UnrecognizedCalls)
  }

  /** The counters after a stream whose ID was read (None: the read failed)
      and whose handler, if one was invoked, failed or not. An unknown ID is both
      unrecognized and an error. */
  function StreamMetrics(m: HostNetworkMetrics, id: Option<bytes>, handlerFails: bool): HostNetworkMetrics {
    if id.None? then Bump(m, UnrecognizedCalls)
    else if id.value in StreamRPCs then BumpIf(m, ErrorCalls, handlerFails)
    else Bump(Bump(m, UnrecognizedCalls), ErrorCalls)
  }

  /** The specifiers a connection can name are pairwise distinct. */
  lemma LegacyIDsDistinct()
    ensures RPCLoopEnter != RPCDownload && RPCLoopEnter != RPCFormContract
    ensures RPCLoopEnter != RPCReviseContract && RPCLoopEnter != RPCSettings
    ensures RPCSettingsDeprecated != RPCLoopEnter && RPCSettingsDeprecated != RPCSettings
    ensures RPCSettingsDeprecated != RPCDownload && RPCSettingsDeprecated != RPCFormContract
    ensures RPCSettingsDeprecated != RPCReviseContract
    ensures RPCDownload != RPCFormContract && RPCDownload != RPCReviseContract && RPCDownload != RPCSettings
    ensures RPCFormContract != RPCReviseContract && RPCFormContract != RPCSettings
    ensures RPCReviseContract != RPCSettings
  {
    assert RPCLoopEnter[0] == 'L' as int && RPCDownload[0] == 'D' as int;
    assert RPCFormContract[0] == 'F' as int && RPCReviseContract[0] == 'R' as int;
    assert RPCSettings[0] == 'S' as int && RPCSettingsDeprecated[0] == 'S' as int;
    assert RPCSettings[8] == '2' as int && RPCSettingsDeprecated[8] == 0;
  }

  /** Each legacy RPC bumps exactly its own counter, plus the error counter
      when its handler fails. */
  lemma ConnLegacyRPC(m: HostNetworkMetrics, id: bytes, handlerFails: bool)
    requires id in {RPCDownload, RPCFormContract, RPCReviseContract, RPCSettings}
    ensures var own := LegacyCounter(id).value;
      var r := ConnMetrics(m, Some(id), handlerFails);
      Get(r, own) == Get(m, own) + 1 &&
      Get(r, ErrorCalls) == Get(m, ErrorCalls) + (if handlerFails then 1 else 0) &&
      forall c: Counter | c != own && c != ErrorCalls :: Get(r, c) == Get(m, c)
  {
    LegacyIDsDistinct();
  }

  /** The four legacy RPCs have four different counters, none of them the
      unrecognized or error counter. */
  lemma LegacyCountersDistinct()
    ensures LegacyCounter(RPCDownload) == Some(DownloadCalls)
    ensures LegacyCounter(RPCFormContract) == Some(FormContractCalls)
    ensures LegacyCounter(RPCReviseContract) == Some(ReviseCalls)
    ensures LegacyCounter(RPCSettings) == Some(SettingsCalls)
  {
    LegacyIDsDistinct();
  }

  /** An ID nobody serves bumps only the unrecognized counter, whether or
      not a handler would have failed. */
  lemma ConnUnknownRPC(m: HostNetworkMetrics, id: bytes, handlerFails: bool)
    requires !ConnRunsHandler(id) && id != RPCSettingsDeprecated
    ensures ConnMetrics(m, Some(id), handlerFails) == Bump(m, UnrecognizedCalls)
  {
  }

  /** The deprecated settings call changes no counter. */
  lemma ConnDeprecatedSettings(m: HostNetworkMetrics, handlerFails: bool)
    ensures ConnMetrics(m, Some(RPCSettingsDeprecated), handlerFails) == m
  {
    LegacyIDsDistinct();
  }

  /** The error counter goes up exactly when a handler was invoked and failed. */
  lemma ConnErrorsIffHandlerFailed(m: HostNetworkMetrics, id: Option<bytes>, handlerFails: bool)
    ensures Get(ConnMetrics(m, id, handlerFails), ErrorCalls) ==
      Get(m, ErrorCalls) + (if id.Some? && ConnRunsHandler(id.value) && handlerFails then 1 else 0)
  {
  }

  /** On a stream, an unknown ID counts as unrecognized and as an error. */
  lemma StreamUnknownRPC(m: HostNetworkMetrics, id: bytes, handlerFails: bool)
    requires id !in StreamRPCs
    ensures var r := StreamMetrics(m, Some(id), handlerFails);
      Get(r, UnrecognizedCalls) == Get(m, UnrecognizedCalls) + 1 &&
      Get(r, ErrorCalls) == Get(m, ErrorCalls) + 1 &&
      forall c: Counter | c != UnrecognizedCalls && c != ErrorCalls :: Get(r, c) == Get(m, c)
  {
  }

  // ---- statuses ----

  datatype WorkingStatus = WorkingChecking | Working | NotWorking
  datatype ConnectabilityStatus = ConnectabilityChecking | Connectable | NotConnectable

  /** Working means at least 3 settings calls in one check period. */
  const WorkingStatusThreshold: nat := 3

  /** Two readings of the settings counter, before and after a wait. */
  datatype Sample = Sample(prev: nat, cur: nat)

  /** The first, quick check as written: the uint64 difference of the two
      readings wraps around when the counter went down. */
  function QuickCheckAsWritten(s: WorkingStatus, prev: nat, cur: nat): WorkingStatus
    requires IsU64(prev) && IsU64(cur)
  {
    if (cur - prev) % TWO_64 >= WorkingStatusThreshold then Working else s
  }

  /** A counter that went down from 1 to 0 makes the quick check report a
      working host. */
  lemma QuickCheckWrapsOnDecrement()
    ensures QuickCheckAsWritten(NotWorking, 1, 0) == Working
    ensures QuickCheckAsWritten(WorkingChecking, 1, 0) == Working
  {
  }

  /** The first, quick check with the decrement skipped, as the periodic
      check does: it only upgrades to Working, and never reports
      NotWorking. */
  function QuickCheck(s: WorkingStatus, prev: nat, cur: nat): (r: WorkingStatus)
    ensures r == Working <==> s == Working || (prev <= cur && cur - prev >= WorkingStatusThreshold)
    ensures r != Working ==> r == s
  {
    if prev <= cur && cur - prev >= WorkingStatusThreshold then Working else s
  }

  /** Where the counter did not go down, the two quick checks agree. */
  lemma QuickChecksAgree(s: WorkingStatus, prev: nat, cur: nat)
    requires IsU64(prev) && IsU64(cur) && prev <= cur
    ensures QuickCheckAsWritten(s, prev, cur) == QuickCheck(s, prev, cur)
  {
  }

  /** One periodic check: a decreased counter leaves the status alone;
      otherwise the status is Working exactly when the threshold was met. */
  function Period(s: WorkingStatus, p: Sample): WorkingStatus {
    if p.prev > p.cur then s
    else if p.cur - p.prev >= WorkingStatusThreshold then Working
    else NotWorking
  }

  /** The status after the periodic checks, in order. */
  function Track(s: WorkingStatus, ps: seq<Sample>): WorkingStatus {
    if ps == [] then s else Period(Track(s, ps[..|ps| - 1]), ps[|ps| - 1])
  }

  /** The last period whose counter did not go down decides the status. */
  lemma {:induction false} TrackLastValid(s: WorkingStatus, ps: seq<Sample>, i: nat)
    requires i < |ps| && ps[i].prev <= ps[i].cur
    requires forall j | i < j < |ps| :: ps[j].prev > ps[j].cur
    ensures Track(s, ps) == Working <==> ps[i].cur - ps[i].prev >= WorkingStatusThreshold
    ensures Track(s, ps) != WorkingChecking
    decreases |ps|
  {
    if i < |ps| - 1 {
      var init := ps[..|ps| - 1];
      forall j | i < j < |init| ensures init[j].prev > init[j].cur {
        assert init[j] == ps[j];
      }
      TrackLastValid(s, init, i);
    }
  }

  /** With no usable period the status is the one the quick check left. */
  lemma {:induction false} TrackNoValid(s: WorkingStatus, ps: seq<Sample>)
    requires forall j | 0 <= j < |ps| :: ps[j].prev > ps[j].cur
    ensures Track(s, ps) == s
    decreases |ps|
  {
    if ps != [] {
      var init := ps[..|ps| - 1];
      forall j | 0 <= j < |init| ensures init[j].prev > init[j].cur {
        assert init[j] == ps[j];
      }
      TrackNoValid(s, init);
    }
  }

  /** The address the host can be reached at: the user-set one if any,
      else the automatically discovered one. */
  function ActiveAddress(userAddr: string, autoAddr: string): (r: string)
    ensures userAddr != "" ==> r == userAddr
    ensures userAddr == "" ==> r == autoAddr
  {
    if userAddr != "" then userAddr else autoAddr
  }

  /** The host's networking state: its call counters, statuses and
      addresses. The counters are atomic in the host and plain fields here. */
  class Host {
    var downloadCalls: nat
    var erroredCalls: nat
    var formContractCalls: nat
    var renewCalls: nat
    var reviseCalls: nat
    var settingsCalls: nat
    var unrecognizedCalls: nat
    var workingStatus: WorkingStatus
    var connectabilityStatus: ConnectabilityStatus
    var autoAddress: string
    /** settings.NetAddress: set by the user, empty if unset. */
    var netAddress: string

    /** NetworkMetrics: the counters as one snapshot. */
    function NetworkMetrics(): (m: HostNetworkMetrics)
      reads this
      ensures m.downloadCalls == downloadCalls && m.errorCalls == erroredCalls
      ensures m.formContractCalls == formContractCalls && m.renewCalls == renewCalls
      ensures m.reviseCalls == reviseCalls
      ensures m.settingsCalls == settingsCalls && m.unrecognizedCalls == unrecognizedCalls
    {
      HostNetworkMetrics(downloadCalls, erroredCalls, formContractCalls, renewCalls,
                         reviseCalls, settingsCalls, unrecognizedCalls)
    }

    /** NetAddress: where the host can be reached. */
    function NetAddress(): (r: string)
      reads this
      ensures r == ActiveAddress(netAddress, autoAddress)
    {
      if netAddress != "" then netAddress else autoAddress
    }

    /** Bumps one counter field. */
    method Add(c: Counter)
      modifies this
      ensures NetworkMetrics() == Bump(old(NetworkMetrics()), c)
      ensures workingStatus == old(workingStatus) && connectabilityStatus == old(connectabilityStatus)
      ensures autoAddress == old(autoAddress) && netAddress == old(netAddress)
    {
      match c
      case DownloadCalls => downloadCalls := downloadCalls + 1;
      case ErrorCalls => erroredCalls := erroredCalls + 1;
      case FormContractCalls => formContractCalls := formContractCalls + 1;
      case RenewCalls => renewCalls := renewCalls + 1;
      case ReviseCalls => reviseCalls := reviseCalls + 1;
      case SettingsCalls => settingsCalls := settingsCalls + 1;
      case UnrecognizedCalls => unrecognizedCalls := unrecognizedCalls + 1;
    }

    /** threadedHandleConn: reads the RPC ID from the connection, bumps the
        counter of the RPC it names (or the unrecognized counter) and runs
        its handler; a failed handler bumps the error counter. */
    method HandleConn(conn: bytes, handlerFails: bool)
      modifies this
      ensures NetworkMetrics() == ConnMetrics(old(NetworkMetrics()), DecodeLegacyID(conn), handlerFails)
      ensures workingStatus == old(workingStatus) && connectabilityStatus == old(connectabilityStatus)
      ensures autoAddress == old(autoAddress) && netAddress == old(netAddress)
    {
      var id := ReadLegacyID(conn);
      if id.None? {
        Add(UnrecognizedCalls);
        return;
      }
      var rpc := id.value;
      var err := false;
      if rpc == RPCLoopEnter {
        err := handlerFails;
      } else if rpc == RPCDownload {
        Add(DownloadCalls);
        err := handlerFails;
      } else if rpc == RPCFormContract {
        Add(FormContractCalls);
        err := handlerFails;
      } else if rpc == RPCReviseContract {
        Add(ReviseCalls);
        err := handlerFails;
      } else if rpc == RPCSettings {
        Add(SettingsCalls);
        err := handlerFails;
      } else if rpc == RPCSettingsDeprecated {
      } else {
        Add(UnrecognizedCalls);
      }
      if err {
        Add(ErrorCalls);
      }
    }

    /** threadedHandleStream: the ID was read from the stream (None: the
        read failed, which counts as unrecognized); a known RPC runs its
        handler, an unknown one is unrecognized and an error; a failed
        handler bumps the error counter. */
    method HandleStream(id: Option<bytes>, handlerFails: bool)
      modifies this
      ensures NetworkMetrics() == StreamMetrics(old(NetworkMetrics()), id, handlerFails)
      ensures workingStatus == old(workingStatus) && connectabilityStatus == old(connectabilityStatus)
      ensures autoAddress == old(autoAddress) && netAddress == old(netAddress)
    {
      if id.None? {
        Add(UnrecognizedCalls);
        return;
      }
      var err := false;
      if id.value in StreamRPCs {
        err := handlerFails;
      } else {
        err := true;
        Add(UnrecognizedCalls);
      }
      if err {
        Add(ErrorCalls);
      }
    }

    /** threadedTrackWorkingStatus: the quick first check, then one check
        per period; each sample holds the two counter readings around a
        wait. */
    method TrackWorkingStatus(first: Sample, periods: seq<Sample>)
      modifies this
      ensures workingStatus == Track(QuickCheck(old(workingStatus), first.prev, first.cur), periods)
      ensures NetworkMetrics() == old(NetworkMetrics()) && connectabilityStatus == old(connectabilityStatus)
      ensures autoAddress == old(autoAddress) && netAddress == old(netAddress)
    {
      if first.prev <= first.cur && first.cur - first.prev >= WorkingStatusThreshold {
        workingStatus := Working;
      }
      ghost var s0 := workingStatus;
      for i := 0 to |periods|
        invariant workingStatus == Track(s0, periods[..i])
        invariant NetworkMetrics() == old(NetworkMetrics()) && connectabilityStatus == old(connectabilityStatus)
        invariant autoAddress == old(autoAddress) && netAddress == old(netAddress)
      {
        assert periods[..i + 1][..i] == periods[..i];
        var p := periods[i];
        if p.prev > p.cur {
          continue;
        }
        if p.cur - p.prev >= WorkingStatusThreshold {
          workingStatus := Working;
        } else {
          workingStatus := NotWorking;
        }
      }
      assert periods[..|periods|] == periods;
    }

    /** One connectability check: dials the active address; reachable
        holds the addresses a dial to succeeds at. */
    method CheckConnectability(reachable: set<string>)
      modifies this
      ensures connectabilityStatus == if NetAddress() in reachable then Connectable else NotConnectable
      ensures NetworkMetrics() == old(NetworkMetrics()) && workingStatus == old(workingStatus)
      ensures autoAddress == old(autoAddress) && netAddress == old(netAddress)
    {
      var autoAddr := autoAddress;
      var userAddr := netAddress;
      var activeAddr := autoAddr;
      if userAddr != "" {
        activeAddr := userAddr;
      }
      if activeAddr in reachable {
        connectabilityStatus := Connectable;
      } else {
        connectabilityStatus := NotConnectable;
      }
    }

    /** threadedTrackConnectabilityStatus: one check per period; the status
        is that of the last check. */
    method TrackConnectabilityStatus(checks: seq<set<string>>)
      modifies this
      ensures checks != [] ==>
        (connectabilityStatus == if NetAddress() in checks[|checks| - 1] then Connectable else NotConnectable)
      ensures checks == [] ==> connectabilityStatus == old(connectabilityStatus)
      ensures NetworkMetrics() == old(NetworkMetrics()) && workingStatus == old(workingStatus)
      ensures autoAddress == old(autoAddress) && netAddress == old(netAddress)
    {
      for i := 0 to |checks|
        invariant i > 0 ==>
          (connectabilityStatus == if NetAddress() in checks[i - 1] then Connectable else NotConnectable)
        invariant i == 0 ==> connectabilityStatus == old(connectabilityStatus)
        invariant NetworkMetrics() == old(NetworkMetrics()) && workingStatus == old(workingStatus)
        invariant autoAddress == old(autoAddress) && netAddress == old(netAddress)
      {
        CheckConnectability(checks[i]);
      }
    }

    /** initNetworking: once the listener is up, both statuses are Checking
        before any check runs; a listener that cannot be created is an
        error and leaves the host as it was. An address without a port is an
        error after the statuses are set, and so is a failure to subscribe
        to the SiaMux, which is tried last. */
    method InitNetworking(listenOk: bool, addressOk: bool, subscribeOk: bool) returns (err: bool)
      modifies this
      ensures err <==> !listenOk || !addressOk || !subscribeOk
      ensures listenOk ==> workingStatus == WorkingChecking && connectabilityStatus == ConnectabilityChecking
      ensures !listenOk ==> workingStatus == old(workingStatus) && connectabilityStatus == old(connectabilityStatus)
      ensures NetworkMetrics() == old(NetworkMetrics())
      ensures netAddress == old(netAddress) && autoAddress == old(autoAddress)
    {
      if !listenOk {
        return true;
      }
      workingStatus := WorkingChecking;
      connectabilityStatus := ConnectabilityChecking;
      if !addressOk {
        return true;
      }
      if !subscribeOk {
        return true;
      }
      return false;
    }

    /** Reads the ID of a connection into a 16-byte buffer, shifting the
        buffer in place for a legacy frame. */
    static method ReadLegacyID(conn: bytes) returns (id: Option<bytes>)
      ensures id == DecodeLegacyID(conn)
    {
      if |conn| < SpecifierSize {
        return None;
      }
      var a := new byte[SpecifierSize];
      for i := 0 to SpecifierSize
        invariant a[..i] == conn[..i]
      {
        a[i] := conn[i];
      }
      assert a[..] == conn[..SpecifierSize];
      if a[..] == RPCLoopEnter {
        return Some(a[..]);
      }
      assert a[..8] == conn[..8];
      if DecodeLE(a[..8]) != LegacyPrefix {
        return None;
      }
      // shift down 8 bytes
      for i := 0 to 8
        invariant forall j | 0 <= j < i :: a[j] == conn[j + 8]
        invariant forall j | 8 <= j < SpecifierSize :: a[j] == conn[j]
      {
        a[i] := a[i + 8];
      }
      if |conn| < SpecifierSize + 8 {
        return None;
      }
      // read the next 8
      for i := 0 to 8
        invariant forall j | 0 <= j < 8 :: a[j] == conn[j + 8]
        invariant forall j | 8 <= j < 8 + i :: a[j] == conn[j + 8]
      {
        a[8 + i] := conn[SpecifierSize + i];
      }
      assert a[..] == conn[8..SpecifierSize + 8];
      return Some(a[..]);
    }
  }
}
