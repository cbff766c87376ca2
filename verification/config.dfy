/** A proxied server's configuration, as the routing service, the Docker
    provider's change detection and the MOTD selection read it
    (crates/infrarust_config/src/models/server.rs).  The cache settings and
    the server-manager block are not part of this model: nothing modelled
    reads them. */
module Config {
  import opened Bytes
  import opened Wrappers

  /** `ProxyModeEnum` */
  datatype ProxyMode = Passthrough | ClientOnly | Offline | ServerOnly | Status

  /** One entry of the player list shown in the server list. */
  datatype PlayerSample = PlayerSample(name: string, id: string)

  /** `MotdConfig`: every field but `enabled` may be absent. */
  datatype MotdConfig = MotdConfig(
    enabled: bool,
    text: Option<string>,
    versionName: Option<string>,
    maxPlayers: Option<i32>,
    onlinePlayers: Option<i32>,
    protocolVersion: Option<i32>,
    samples: Option<seq<PlayerSample>>,
    favicon: Option<string>)

  /** `MotdConfig::default`: disabled, empty text and version name, zero
      counts, no samples and no favicon. */
  function DefaultMotd(): (m: MotdConfig)
    ensures !m.enabled && m.favicon.None?
    ensures m.text == Some("") && m.versionName == Some("")
    ensures m.maxPlayers == Some(0) && m.onlinePlayers == Some(0) && m.protocolVersion == Some(0)
    ensures m.samples == Some([])
  {
    MotdConfig(false, Some(""), Some(""), Some(0), Some(0), Some(0), Some([]), None)
  }

  /** `ServerMotds`: one optional MOTD per server state. */
  datatype ServerMotds = ServerMotds(
    unknown: Option<MotdConfig>,
    unreachable: Option<MotdConfig>,
    online: Option<MotdConfig>,
    offline: Option<MotdConfig>,
    starting: Option<MotdConfig>,
    stopping: Option<MotdConfig>,
    crashed: Option<MotdConfig>,
    shuttingDown: Option<MotdConfig>,
    unableStatus: Option<MotdConfig>)

  const NO_MOTDS := ServerMotds(None, None, None, None, None, None, None, None, None)

  /** `RateLimiterConfig` (crates/infrarust_config/src/models/filter.rs). */
  datatype RateLimiterConfig = RateLimiterConfig(
    enabled: bool, requestsPerMinute: u32, burstSize: u32, windowSeconds: u64)

  /** `FilterConfig`, reduced to its rate limiter: the access lists and
      the ban settings are not part of this model. */
  datatype FilterConfig = FilterConfig(rateLimiter: Option<RateLimiterConfig>)

  /** `ServerConfig` */
  datatype ServerConfig = ServerConfig(
    configId: string,
    domains: seq<string>,
    addresses: seq<string>,
    sendProxyProtocol: Option<bool>,
    proxyMode: Option<ProxyMode>,
    filters: Option<FilterConfig>,
    motds: ServerMotds,
    proxyProtocolVersion: Option<byte>)

  /** `ServerConfig::default`: no domains or addresses, the PROXY header
      off but at version 2 if switched on, passthrough mode. */
  function DefaultServerConfig(): (c: ServerConfig)
    ensures c.configId == "" && c.domains == [] && c.addresses == []
    ensures c.sendProxyProtocol == Some(false) && c.proxyProtocolVersion == Some(2)
    ensures c.proxyMode == Some(Passthrough) && c.filters.None? && c.motds == NO_MOTDS
  {
    ServerConfig("", [], [], Some(false), Some(Passthrough), None, NO_MOTDS, Some(2))
  }
}
