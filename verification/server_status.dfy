/** The server manager's view of a backend server
    (crates/infrarust_server_manager/src/monitor/status.rs) and its crash
    loop detector (crates/infrarust_server_manager/src/monitor/crash_detection.rs).
    Instants and durations are natural numbers of nanoseconds; "now" is a
    parameter of every operation that reads the clock. */
module ServerStatus {
  import opened Bytes
  import opened Wrappers
  import opened Text

  const NANOS_PER_SECOND: nat := 1_000_000_000

  /** `ServerState` */
  datatype ServerState = Starting | Running | Stopping | Stopped | Crashed | Unknown

  /** `ServerState::from(&str)`: case-insensitive; "offline" is another
      name for stopped and anything unrecognised is Unknown. */
  function ParseServerState(s: string): (r: ServerState)
    ensures r == Starting <==> ToLower(s) == "starting"
    ensures r == Running <==> ToLower(s) == "running"
    ensures r == Stopping <==> ToLower(s) == "stopping"
    ensures r == Stopped <==> ToLower(s) == "stopped" || ToLower(s) == "offline"
    ensures r == Crashed <==> ToLower(s) == "crashed"
  {
    match ToLower(s)
    case "starting" => Starting
    case "running" => Running
    case "stopping" => Stopping
    case "stopped" => Stopped
    case "offline" => Stopped
    case "crashed" => Crashed
    case _ => Unknown
  }

  /** Two spellings that differ only in ASCII case name the same state. */
  lemma ParseServerStateIgnoresCase(s: string, t: string)
    requires EqIgnoreAsciiCase(s, t)
    ensures ParseServerState(s) == ParseServerState(t)
  {
  }

  /** `Instant::elapsed`: the time since `since`, zero if `since` is later
      than now. */
  function Elapsed(since: nat, now: nat): (d: nat)
    ensures since <= now ==> since + d == now
    ensures now < since ==> d == 0
  {
    if since <= now then now - since else 0
  }

  /** `ServerStatus` */
  datatype Status = Status(
    serverId: string,
    state: ServerState,
    lastChecked: nat,
    uptime: Option<nat>,
    lastCrashTime: Option<nat>,
    crashCount: u32)

  /** `ServerStatus::new`: state unknown, no uptime, no crash yet. */
  function NewStatus(serverId: string, now: nat): (s: Status)
    ensures s.serverId == serverId && s.state == Unknown && s.lastChecked == now
    ensures s.uptime.None? && s.lastCrashTime.None? && s.crashCount == 0
  {
    Status(serverId, Unknown, now, None, None, 0)
  }

  /** `update_state`.  Entering Crashed from another state records the
      crash time and counts one more crash (a `u32` count, wrapping in a
      release build); entering Running starts the uptime at zero, staying
      Running adds the time since the last check. */
  function UpdateState(s: Status, newState: ServerState, now: nat): (r: Status)
    ensures r.state == newState && r.lastChecked == now && r.serverId == s.serverId
    ensures newState == Crashed && s.state != Crashed
            ==> r.crashCount == (s.crashCount + 1) % 0x1_0000_0000 && r.lastCrashTime == Some(now)
    ensures !(newState == Crashed && s.state != Crashed)
            ==> r.crashCount == s.crashCount && r.lastCrashTime == s.lastCrashTime
    ensures newState == Running && s.state != Running ==> r.uptime == Some(0)
    ensures newState == Running && s.state == Running && s.uptime.Some?
            ==> r.uptime == Some(s.uptime.value + Elapsed(s.lastChecked, now))
    ensures newState != Running || (s.state == Running && s.uptime.None?) ==> r.uptime == s.uptime
  {
    var crashed :=
      if newState == Crashed && s.state != Crashed then
        s.(lastCrashTime := Some(now), crashCount := (s.crashCount + 1) % 0x1_0000_0000)
      else s;
    var timed :=
      if s.state != Running && newState == Running then crashed.(uptime := Some(0))
      else if s.state == Running && newState == Running && s.uptime.Some? then
        crashed.(uptime := Some(s.uptime.value + Elapsed(s.lastChecked, now)))
      else crashed;
    timed.(state := newState, lastChecked := now)
  }

  /** `is_crashed` */
  predicate IsCrashed(s: Status) { s.state == Crashed }

  /** `is_running` */
  predicate IsRunning(s: Status) { s.state == Running }

  /** Reporting Crashed again while crashed counts nothing: only the
      transition into Crashed is a crash. */
  lemma RepeatedCrashCountsOnce(s: Status, t1: nat, t2: nat)
    requires s.state != Crashed && s.crashCount < 0xFFFF_FFFF
    ensures var once := UpdateState(s, Crashed, t1);
            var twice := UpdateState(once, Crashed, t2);
            twice.crashCount == s.crashCount + 1 && twice.lastCrashTime == Some(t1)
            && IsCrashed(twice) && !IsRunning(twice)
  {
  }

  /** Uptime accumulates across consecutive Running reports: it is the
      time since the server was first seen running, when the clock does
      not go backwards. */
  lemma UptimeAccumulates(s: Status, t0: nat, t1: nat, t2: nat)
    requires s.state != Running && t0 <= t1 <= t2
    ensures var a := UpdateState(s, Running, t0);
            var b := UpdateState(a, Running, t1);
            var c := UpdateState(b, Running, t2);
            c.uptime == Some(t2 - t0)
  {
  }

  const DEFAULT_CRASH_THRESHOLD: u32 := 3
  const DEFAULT_CRASH_WINDOW: nat := 300 * NANOS_PER_SECOND

  /** `CrashDetector` */
  datatype CrashDetector = CrashDetector(crashThreshold: u32, crashWindow: nat, lastCheck: nat)

  /** `CrashDetector::default`: three crashes within five minutes. */
  function DefaultDetector(now: nat): (d: CrashDetector)
    ensures d.crashThreshold == 3 && d.crashWindow == 300 * NANOS_PER_SECOND && d.lastCheck == now
  {
    CrashDetector(DEFAULT_CRASH_THRESHOLD, DEFAULT_CRASH_WINDOW, now)
  }

  /** `is_in_crash_loop`: enough crashes, the last of them recent enough. */
  function IsInCrashLoop(d: CrashDetector, s: Status, now: nat): (r: bool)
    ensures r <==> s.crashCount >= d.crashThreshold && s.lastCrashTime.Some?
                   && Elapsed(s.lastCrashTime.value, now) <= d.crashWindow
    ensures s.lastCrashTime.None? ==> !r
  {
    if s.crashCount >= d.crashThreshold then
      match s.lastCrashTime
      case Some(lastCrash) => Elapsed(lastCrash, now) <= d.crashWindow
      case None => false
    else false
  }

  /** `reset`: only the time of the last check changes. */
  function Reset(d: CrashDetector, now: nat): (r: CrashDetector)
    ensures r.crashThreshold == d.crashThreshold && r.crashWindow == d.crashWindow
    ensures r.lastCheck == now
  {
    d.(lastCheck := now)
  }

  /** A server that has never crashed is never in a crash loop. */
  lemma FreshStatusNoCrashLoop(d: CrashDetector, serverId: string, t0: nat, now: nat)
    ensures !IsInCrashLoop(d, NewStatus(serverId, t0), now)
  {
  }

  /** A server that has just crashed is in a crash loop exactly when its
      crash count has reached the threshold; and a reset never changes
      the verdict. */
  lemma CrashJustNow(d: CrashDetector, s: Status, now: nat, later: nat)
    requires s.state != Crashed
    ensures var c := UpdateState(s, Crashed, now);
            IsInCrashLoop(d, c, now) <==> c.crashCount >= d.crashThreshold
    ensures IsInCrashLoop(Reset(d, later), s, now) == IsInCrashLoop(d, s, now)
  {
  }

  /** With the default detector, three crashes from a fresh status, each
      within the window of the last, make a crash loop. */
  lemma ThreeCrashesMakeALoop(serverId: string, t0: nat, t1: nat, t2: nat, t3: nat, t4: nat, t5: nat)
    requires t0 <= t1 <= t2 <= t3 <= t4 <= t5 && t5 - t4 <= DEFAULT_CRASH_WINDOW
    ensures var s1 := UpdateState(NewStatus(serverId, t0), Crashed, t1);
            var s2 := UpdateState(UpdateState(s1, Starting, t2), Crashed, t3);
            var s3 := UpdateState(UpdateState(s2, Starting, t4), Crashed, t4);
            s3.crashCount == 3 && IsInCrashLoop(DefaultDetector(t0), s3, t5)
  {
  }
}
