/** Log types and levels, and the proxy's log filter
    (crates/infrarust_config/src/models/logging.rs and
    crates/infrarust/src/telemetry/log_filter.rs).  Only the level and
    type decisions are modelled; the optional message regex is not. */
module Logging {
  import opened Wrappers
  import opened Text

  /** `tracing::Level`.  Levels are ordered by verbosity: ERROR is the
      least verbose and TRACE the most, and an event passes a filter set
      to some level when the event's level is at most that level. */
  datatype Level = Error | Warn | Info | Debug | Trace

  function Verbosity(l: Level): (r: nat)
    ensures r < 5
  {
    match l
    case Error => 0
    case Warn => 1
    case Info => 2
    case Debug => 3
    case Trace => 4
  }

  predicate LevelLe(a: Level, b: Level) {
    Verbosity(a) <= Verbosity(b)
  }

  /** `std::cmp::max` on levels: the more verbose of the two. */
  function MaxLevel(a: Level, b: Level): (r: Level)
    ensures LevelLe(a, r) && LevelLe(b, r)
    ensures r == a || r == b
  {
    if Verbosity(a) <= Verbosity(b) then b else a
  }

  /** Distinct levels have distinct verbosities, so the order is total. */
  lemma VerbosityInjective(a: Level, b: Level)
    ensures Verbosity(a) == Verbosity(b) <==> a == b
  {
  }

  /** `parse_level`: ASCII case is ignored, and "warning" is accepted as
      well as "warn". */
  function ParseLevel(s: string): (r: Option<Level>)
    ensures r.Some? <==> ToLower(s) in {"trace", "debug", "info", "warn", "warning", "error"}
    ensures r == Some(Warn) <==> ToLower(s) in {"warn", "warning"}
  {
    match ToLower(s)
    case "trace" => Some(Trace)
    case "debug" => Some(Debug)
    case "info" => Some(Info)
    case "warn" => Some(Warn)
    case "warning" => Some(Warn)
    case "error" => Some(Error)
    case _ => None
  }

  /** The lower-case name of each level. */
  function LevelName(l: Level): string {
    match l
    case Error => "error"
    case Warn => "warn"
    case Info => "info"
    case Debug => "debug"
    case Trace => "trace"
  }

  /** Lower-casing is idempotent. */
  lemma ToLowerIdempotent(s: string)
    ensures ToLower(ToLower(s)) == ToLower(s)
  {
  }

  /** Every level parses back from its name. */
  lemma ParseLevelName(l: Level)
    ensures ParseLevel(LevelName(l)) == Some(l)
  {
    assert ToLower(LevelName(l)) == LevelName(l);
  }

  /** Parsing a level does not see ASCII case. */
  lemma ParseLevelIgnoresCase(s: string)
    ensures ParseLevel(ToLower(s)) == ParseLevel(s)
  {
    ToLowerIdempotent(s);
  }

  /** `LogType`: the thirteen built-in kinds of log event, or any other
      name. */
  datatype LogType =
    | TcpConnection | Supervisor | ServerManager | PacketProcessing | BanSystem
    | Authentication | Telemetry | ConfigProvider | ProxyProtocol | ProxyMode
    | Cache | Filter | Motd
    | Custom(name: string)

  /** `LogType::as_str` */
  function AsStr(t: LogType): string {
    match t
    case TcpConnection => "tcp_connection"
    case Supervisor => "supervisor"
    case ServerManager => "server_manager"
    case PacketProcessing => "packet_processing"
    case BanSystem => "ban_system"
    case Authentication => "authentication"
    case Telemetry => "telemetry"
    case ConfigProvider => "config_provider"
    case ProxyProtocol => "proxy_protocol"
    case Cache => "cache"
    case Filter => "filter"
    case Motd => "motd"
    case ProxyMode => "proxy_mode"
    case Custom(name) => name
  }

  /** The built-in types, in declaration order. */
  const BUILT_IN: seq<LogType> := [TcpConnection, Supervisor, ServerManager, PacketProcessing, BanSystem,
                                   Authentication, Telemetry, ConfigProvider, ProxyProtocol, ProxyMode,
                                   Cache, Filter, Motd]

  /** The names of the built-in types. */
  const BUILT_IN_NAMES: set<string> := {"tcp_connection", "supervisor", "server_manager", "packet_processing",
                                        "ban_system", "authentication", "telemetry", "config_provider",
                                        "proxy_protocol", "proxy_mode", "cache", "filter", "motd"}

  /** `LogType::from(&str)`: a built-in name gives its type, and any other
      string a custom type of that name. */
  function FromStr(s: string): (t: LogType)
    ensures t.Custom? <==> s !in BUILT_IN_NAMES
    ensures AsStr(t) == s
  {
    match s
    case "tcp_connection" => TcpConnection
    case "supervisor" => Supervisor
    case "server_manager" => ServerManager
    case "packet_processing" => PacketProcessing
    case "ban_system" => BanSystem
    case "authentication" => Authentication
    case "telemetry" => Telemetry
    case "config_provider" => ConfigProvider
    case "proxy_protocol" => ProxyProtocol
    case "cache" => Cache
    case "filter" => Filter
    case "motd" => Motd
    case "proxy_mode" => ProxyMode
    case other => Custom(other)
  }

  /** Naming a type and reading the name back gives the type, except for a
      custom type that borrows a built-in name. */
  lemma FromAsStr(t: LogType)
    ensures FromStr(AsStr(t)) == t <==> !(t.Custom? && t.name in BUILT_IN_NAMES)
    ensures !t.Custom? ==> AsStr(t) in BUILT_IN_NAMES
  {
  }

  /** The built-in types are thirteen distinct names. */
  lemma BuiltInNamesDistinct()
    ensures |BUILT_IN| == 13
    ensures forall i :: 0 <= i < |BUILT_IN| ==> !BUILT_IN[i].Custom? && AsStr(BUILT_IN[i]) in BUILT_IN_NAMES
    ensures forall i, j :: 0 <= i < j < |BUILT_IN| ==> AsStr(BUILT_IN[i]) != AsStr(BUILT_IN[j])
  {
  }

  /** The level settings of `LoggingConfig`; colours, icons, timestamps,
      templates and the message regex are not modelled. */
  datatype LoggingConfig = LoggingConfig(
    debug: bool,
    logTypes: map<string, string>,
    excludeTypes: seq<string>,
    minLevel: Option<string>)

  /** `LoggingConfig::default`: a level for each built-in type. */
  function DefaultConfig(): (c: LoggingConfig)
    ensures !c.debug && c.excludeTypes == [] && c.minLevel.None?
    ensures c.logTypes.Keys == BUILT_IN_NAMES
    ensures forall name :: name in c.logTypes ==> c.logTypes[name] in {LevelName(Debug), LevelName(Info), LevelName(Warn)}
  {
    LoggingConfig(false, map[
      "tcp_connection" := "info", "supervisor" := "debug", "server_manager" := "info",
      "packet_processing" := "debug", "ban_system" := "info", "authentication" := "info",
      "telemetry" := "warn", "config_provider" := "info", "proxy_protocol" := "debug",
      "cache" := "debug", "filter" := "info", "proxy_mode" := "info", "motd" := "debug"], [], None)
  }

  /** `InfrarustLogFilter`, without the regex and the log-type storage. */
  datatype LogFilter = LogFilter(
    typeLevels: map<string, Level>,
    excludedTypes: seq<string>,
    minLevel: Level,
    defaultLevel: Level)

  /** `InfrarustLogFilter::from_config`: the type levels that parse, and a
      minimum level that is the configured one if it parses, else DEBUG for
      a debug build or a debug configuration and INFO otherwise.
      `debugBuild` stands for `cfg!(debug_assertions)`. */
  function FromConfig(c: LoggingConfig, debugBuild: bool): (f: LogFilter)
    ensures forall name :: name in f.typeLevels <==> name in c.logTypes && ParseLevel(c.logTypes[name]).Some?
    ensures forall name :: name in f.typeLevels ==> f.typeLevels[name] == ParseLevel(c.logTypes[name]).value
    ensures f.excludedTypes == c.excludeTypes && f.defaultLevel == f.minLevel
    ensures c.minLevel.Some? && ParseLevel(c.minLevel.value).Some? ==> f.minLevel == ParseLevel(c.minLevel.value).value
    ensures (c.minLevel.None? || ParseLevel(c.minLevel.value).None?)
            ==> f.minLevel == (if debugBuild || c.debug then Debug else Info)
  {
    var typeLevels := map name | name in c.logTypes && ParseLevel(c.logTypes[name]).Some?
                                :: ParseLevel(c.logTypes[name]).value;
    var fallback := if debugBuild || c.debug then Debug else Info;
    var minLevel := if c.minLevel.Some? then ParseLevel(c.minLevel.value).UnwrapOr(fallback) else fallback;
    LogFilter(typeLevels, c.excludeTypes, minLevel, minLevel)
  }

  /** A built default configuration gives every built-in type a level. */
  lemma DefaultFilterCoversBuiltIns(debugBuild: bool)
    ensures var f := FromConfig(DefaultConfig(), debugBuild);
            f.typeLevels.Keys == BUILT_IN_NAMES && f.minLevel == (if debugBuild then Debug else Info)
  {
    hide *;
    ParseLevelName(Debug);
    ParseLevelName(Info);
    ParseLevelName(Warn);
  }

  /** One rule of `extract_log_type_from_target`: the target mentions the
      keyword, or the second keyword when there is one. */
  datatype Rule = Rule(keyword: string, orKeyword: Option<string>, logType: LogType)

  predicate RuleMatches(target: string, rule: Rule) {
    Contains(target, rule.keyword) || (rule.orKeyword.Some? && Contains(target, rule.orKeyword.value))
  }

  /** The rules in the order they are tried: `proxy_protocol` comes before
      `protocol`, and gateways and backends count as server management. */
  const RULES: seq<Rule> := [
    Rule("network::connection", Some("connection"), TcpConnection),
    Rule("core::actors::supervisor", Some("supervisor"), Supervisor),
    Rule("server::manager", Some("server_manager"), ServerManager),
    Rule("proxy_protocol", None, ProxyProtocol),
    Rule("protocol", Some("packet"), PacketProcessing),
    Rule("ban", None, BanSystem),
    Rule("auth", Some("encryption"), Authentication),
    Rule("filter", Some("rate_limit"), Filter),
    Rule("config", Some("provider"), ConfigProvider),
    Rule("cache", None, Cache),
    Rule("telemetry", Some("metrics"), Telemetry),
    Rule("motd", None, Motd),
    Rule("gateway", None, ServerManager),
    Rule("backend", None, ServerManager)]

  /** The first rule from `from` on that the target matches. */
  function FirstMatchingRule(target: string, from: nat): (r: Option<nat>)
    requires from <= |RULES|
    ensures r.Some? ==> from <= r.value < |RULES| && RuleMatches(target, RULES[r.value])
    ensures r.Some? ==> forall j :: from <= j < r.value ==> !RuleMatches(target, RULES[j])
    ensures r.None? ==> forall j :: from <= j < |RULES| ==> !RuleMatches(target, RULES[j])
    decreases |RULES| - from
  {
    if from == |RULES| then None
    else if RuleMatches(target, RULES[from]) then Some(from)
    else FirstMatchingRule(target, from + 1)
  }

  /** `extract_log_type_from_target`: the name of the type of the first
      rule whose keyword the target contains, if any. */
  function ExtractLogType(target: string): (r: Option<string>)
    ensures r.Some? ==> r.value in BUILT_IN_NAMES
  {
    if Contains(target, "network::connection") || Contains(target, "connection") then Some(AsStr(TcpConnection))
    else if Contains(target, "core::actors::supervisor") || Contains(target, "supervisor") then Some(AsStr(Supervisor))
    else if Contains(target, "server::manager") || Contains(target, "server_manager") then Some(AsStr(ServerManager))
    else if Contains(target, "proxy_protocol") then Some(AsStr(ProxyProtocol))
    else if Contains(target, "protocol") || Contains(target, "packet") then Some(AsStr(PacketProcessing))
    else if Contains(target, "ban") then Some(AsStr(BanSystem))
    else if Contains(target, "auth") || Contains(target, "encryption") then Some(AsStr(Authentication))
    else if Contains(target, "filter") || Contains(target, "rate_limit") then Some(AsStr(Filter))
    else if Contains(target, "config") || Contains(target, "provider") then Some(AsStr(ConfigProvider))
    else if Contains(target, "cache") then Some(AsStr(Cache))
    else if Contains(target, "telemetry") || Contains(target, "metrics") then Some(AsStr(Telemetry))
    else if Contains(target, "motd") then Some(AsStr(Motd))
    else if Contains(target, "gateway") then Some(AsStr(ServerManager))
    else if Contains(target, "backend") then Some(AsStr(ServerManager))
    else None
  }

  /** The target's type is that of the first rule it matches, and there is
      none when it matches no rule. */
  lemma ExtractFollowsRules(target: string)
    ensures var first := FirstMatchingRule(target, 0);
            ExtractLogType(target) == if first.Some? then Some(AsStr(RULES[first.value].logType)) else None
  {
    hide Contains, AsStr;
    var first := FirstMatchingRule(target, 0);
    if first.Some? {
      var i := first.value;
      assert forall j :: 0 <= j < i ==> !RuleMatches(target, RULES[j]);
      if i < 4 {
        assert i == 0 || i == 1 || i == 2 || i == 3;
      } else if i < 8 {
        assert i == 4 || i == 5 || i == 6 || i == 7;
      } else {
        assert i == 8 || i == 9 || i == 10 || i == 11 || i == 12 || i == 13;
      }
    }
  }

  /** `should_log`: the event's type is the one recorded for the current
      span (`storedType`) or else the one its target implies; an excluded
      type is never logged, a type with its own level is logged up to the
      more verbose of that level and the minimum, and anything else up to
      the more verbose of the default and minimum levels. */
  function ShouldLog(f: LogFilter, storedType: Option<string>, target: string, level: Level): (r: bool)
  {
    var logType := if storedType.Some? then storedType else ExtractLogType(target);
    if logType.Some? && logType.value in f.excludedTypes then false
    else if logType.Some? && logType.value in f.typeLevels then LevelLe(level, MaxLevel(f.typeLevels[logType.value], f.minLevel))
    else LevelLe(level, MaxLevel(f.defaultLevel, f.minLevel))
  }

  /** The type an event is filed under. */
  function EventType(storedType: Option<string>, target: string): Option<string> {
    if storedType.Some? then storedType else ExtractLogType(target)
  }

  /** An excluded type is never logged, whatever its level. */
  lemma ExcludedNeverLogged(f: LogFilter, storedType: Option<string>, target: string, level: Level)
    requires EventType(storedType, target).Some? && EventType(storedType, target).value in f.excludedTypes
    ensures !ShouldLog(f, storedType, target, level)
  {
  }

  /** An event not excluded and at most as verbose as the minimum level is
      always logged: a type's own level cannot silence it. */
  lemma MinimumAlwaysLogged(f: LogFilter, storedType: Option<string>, target: string, level: Level)
    requires LevelLe(level, f.minLevel)
    requires EventType(storedType, target).None? || EventType(storedType, target).value !in f.excludedTypes
    ensures ShouldLog(f, storedType, target, level)
  {
  }

  /** Whatever is logged at some level is logged at every less verbose
      level too. */
  lemma LoggedIsDownwardClosed(f: LogFilter, storedType: Option<string>, target: string, level: Level, quieter: Level)
    requires ShouldLog(f, storedType, target, level) && LevelLe(quieter, level)
    ensures ShouldLog(f, storedType, target, quieter)
  {
  }

  /** A typed event with a level of its own passes exactly up to the more
      verbose of that level and the minimum; an untyped one, or one whose
      type has no level, exactly up to the more verbose of the default and
      the minimum. */
  lemma LoggedThresholds(f: LogFilter, storedType: Option<string>, target: string, level: Level)
    ensures var t := EventType(storedType, target);
            t.Some? && t.value !in f.excludedTypes && t.value in f.typeLevels
            ==> (ShouldLog(f, storedType, target, level)
                 <==> Verbosity(level) <= Verbosity(f.typeLevels[t.value]) || Verbosity(level) <= Verbosity(f.minLevel))
    ensures var t := EventType(storedType, target);
            (t.None? || (t.value !in f.excludedTypes && t.value !in f.typeLevels))
            ==> (ShouldLog(f, storedType, target, level)
                 <==> Verbosity(level) <= Verbosity(f.defaultLevel) || Verbosity(level) <= Verbosity(f.minLevel))
  {
  }
}
