/** What the proxy answers a status request with when it answers itself
    rather than forwarding: the server's state
    (crates/infrarust/src/server/motd/state.rs) picks one of the
    configured MOTDs or a built-in text, and the generator
    (crates/infrarust/src/server/motd/generator.rs) fills in the status
    response from it.  The response is modelled by its fields; turning them
    into JSON and the JSON into a packet is not part of this model. */
module Motd {
  import opened Bytes
  import opened Wrappers
  import opened Text
  import opened Config

  /** `MotdState` */
  datatype MotdState =
    | Online
    | Offline
    | Starting
    | Stopping
    | ImminentShutdown(secondsRemaining: u64)
    | Crashed
    | Unreachable
    | UnableToFetchStatus
    | Unknown
    | UnknownServer

  /** The placeholder a custom shutdown MOTD may hold. */
  const SECONDS_PLACEHOLDER := "${seconds_remaining}"

  /** The version name of the built-in MOTDs. */
  const DEFAULT_VERSION_NAME := "Infrarust"

  /** How long is left before an imminent shutdown, in words.  Up to a
      minute it is whole seconds; beyond, `minutesText` renders the
      minutes with one decimal (the source formats an `f64`). */
  function TimeText(secondsRemaining: u64, minutesText: u64 -> string): (r: string)
    ensures secondsRemaining <= 60 ==> r == NatToString(secondsRemaining) + " seconds"
  {
    if secondsRemaining <= 60 then NatToString(secondsRemaining) + " seconds"
    else minutesText(secondsRemaining) + " minutes"
  }

  /** `default_text`: a fixed text per state, and for an imminent shutdown
      the time left. */
  function DefaultText(state: MotdState, minutesText: u64 -> string): (r: string)
  {
    match state
    case Online => "Server is online"
    case Offline => "\U{A7}e\U{A7}oServer is sleeping. \U{A7}8\U{A7}o\nConnect to it to wake it up."
    case Starting => "\U{A7}6Server is starting...\U{A7}r\n\U{A7}8\U{A7}oPlease wait a moment"
    case Stopping => "\U{A7}6Server is marked to shutdown...\n\U{A7}8\U{A7}o Connect to it to cancel it !"
    case ImminentShutdown(seconds) => ShutdownText(TimeText(seconds, minutesText))
    case Crashed => "\U{A7}4Server is in a crashing state...\U{A7}r\n\U{A7}8\U{A7}o -> Contact an admin if the issue persist."
    case Unreachable => "\U{A7}cServer is unreachable...\U{A7}r\n\U{A7}8\U{A7}oTry again later"
    case UnableToFetchStatus =>
      "\U{A7}cUnable to obtain server status...\U{A7}r\n\U{A7}8\U{A7}o -> Contact an admin if the issue persist."
    case Unknown => "\U{A7}cUnknown server status...\U{A7}r\n\U{A7}8\U{A7}o -> Contact an admin if the issue persist."
    case UnknownServer => "\U{A7}cServer not found"
  }

  /** The built-in shutdown text around the time left. */
  function ShutdownText(timeLeft: string): string {
    "\U{A7}c\U{A7}lServer shutting down in " + timeLeft + "!\U{A7}r\n\U{A7}e\U{A7}oConnect now to keep it online!"
  }

  /** Up to a minute before shutdown, the built-in text counts whole
      seconds. */
  lemma ShutdownTextInSeconds(seconds: u64, minutesText: u64 -> string)
    requires seconds <= 60
    ensures DefaultText(ImminentShutdown(seconds), minutesText) == ShutdownText(NatToString(seconds) + " seconds")
  {
  }

  /** Every state but an imminent shutdown has a text that does not depend
      on how minutes are rendered. */
  lemma DefaultTextFixed(state: MotdState, f: u64 -> string, g: u64 -> string)
    requires !state.ImminentShutdown? || state.secondsRemaining <= 60
    ensures DefaultText(state, f) == DefaultText(state, g)
  {
  }

  /** `use_default_favicon`: the states in which the server is, or can be
      brought, up show the proxy's own favicon. */
  function UseDefaultFavicon(state: MotdState): (r: bool)
    ensures r <==> state.Offline? || state.Starting? || state.Online? || state.UnknownServer?
  {
    match state
    case Offline | Starting | Online | UnknownServer => true
    case Stopping | ImminentShutdown(_) | Crashed | Unreachable | UnableToFetchStatus | Unknown => false
  }

  /** `get_motd_config_for_state`: each state reads its own field of the
      server's MOTDs; an unknown server has none. */
  function MotdForState(state: MotdState, motds: ServerMotds): (r: Option<MotdConfig>)
    ensures state.UnknownServer? ==> r.None?
  {
    match state
    case Online => motds.online
    case Offline => motds.offline
    case Starting => motds.starting
    case Stopping => motds.stopping
    case ImminentShutdown(_) => motds.shuttingDown
    case Crashed => motds.crashed
    case Unreachable => motds.unreachable
    case UnableToFetchStatus => motds.unableStatus
    case Unknown => motds.unknown
    case UnknownServer => None
  }

  /** The field of `ServerMotds` a state reads, set to `m`: how a MOTD for
      that state is configured. */
  function WithMotdForState(motds: ServerMotds, state: MotdState, m: Option<MotdConfig>): ServerMotds {
    match state
    case Online => motds.(online := m)
    case Offline => motds.(offline := m)
    case Starting => motds.(starting := m)
    case Stopping => motds.(stopping := m)
    case ImminentShutdown(_) => motds.(shuttingDown := m)
    case Crashed => motds.(crashed := m)
    case Unreachable => motds.(unreachable := m)
    case UnableToFetchStatus => motds.(unableStatus := m)
    case Unknown => motds.(unknown := m)
    case UnknownServer => motds
  }

  /** Two states read the same field exactly when they are the same
      variant (shutdowns with any time left share one). */
  predicate SameField(a: MotdState, b: MotdState) {
    if a.ImminentShutdown? then b.ImminentShutdown? else a == b
  }

  /** Each state reads back the MOTD configured for it, and configuring
      one state's MOTD changes what no other state reads. */
  lemma MotdForStateSelectsOwnField(motds: ServerMotds, state: MotdState, other: MotdState, m: Option<MotdConfig>)
    requires !state.UnknownServer?
    ensures MotdForState(state, WithMotdForState(motds, state, m)) == m
    ensures !SameField(state, other) ==> MotdForState(other, WithMotdForState(motds, state, m)) == MotdForState(other, motds)
  {
  }

  /** Where the response's favicon comes from. */
  datatype FaviconChoice =
    | CustomFavicon(dataUrl: string)
    | InfrarustFavicon
    | NoFavicon

  /** The fields of the status response (`ResponseJSON`) the generator
      sets; chat previews, secure chat and mod info are always off. */
  datatype StatusResponse = StatusResponse(
    versionName: string,
    protocol: i32,
    maxPlayers: i32,
    onlinePlayers: i32,
    sample: seq<PlayerSample>,
    description: string,
    favicon: FaviconChoice)

  /** `generate_motd_packet`: absent fields become empty or zero; a
      configured favicon that loads wins, otherwise the proxy's own favicon
      when allowed.  Loading a favicon (`parse_favicon`) reads files and is
      the parameter `parseFavicon`. */
  function MotdResponse(motd: MotdConfig, includeInfrarustFavicon: bool,
                        parseFavicon: string -> Option<string>): (r: StatusResponse)
    ensures r.versionName == motd.versionName.UnwrapOr("") && r.description == motd.text.UnwrapOr("")
    ensures r.protocol == motd.protocolVersion.UnwrapOr(0)
    ensures r.maxPlayers == motd.maxPlayers.UnwrapOr(0) && r.onlinePlayers == motd.onlinePlayers.UnwrapOr(0)
    ensures r.sample == motd.samples.UnwrapOr([])
    ensures r.favicon.CustomFavicon? <==> motd.favicon.Some? && parseFavicon(motd.favicon.value).Some?
    ensures r.favicon.InfrarustFavicon? <==> includeInfrarustFavicon && !r.favicon.CustomFavicon?
  {
    var favicon :=
      if motd.favicon.Some? && parseFavicon(motd.favicon.value).Some? then
        CustomFavicon(parseFavicon(motd.favicon.value).value)
      else if includeInfrarustFavicon then InfrarustFavicon
      else NoFavicon;
    StatusResponse(motd.versionName.UnwrapOr(""), motd.protocolVersion.UnwrapOr(0),
                   motd.maxPlayers.UnwrapOr(0), motd.onlinePlayers.UnwrapOr(0),
                   motd.samples.UnwrapOr([]), motd.text.UnwrapOr(""), favicon)
  }

  /** `create_default_motd` */
  function DefaultMotdWithText(text: string): (m: MotdConfig)
    ensures m.text == Some(text) && m.versionName == Some(DEFAULT_VERSION_NAME)
    ensures m.maxPlayers == Some(0) && m.onlinePlayers == Some(0) && m.protocolVersion == Some(0)
    ensures m.samples == Some([]) && m.favicon.None? && !m.enabled
  {
    DefaultMotd().(text := Some(text), versionName := Some(DEFAULT_VERSION_NAME))
  }

  /** `generate_for_state`.  A custom MOTD for an imminent shutdown has
      its placeholder replaced by the seconds left (or, with no text, the
      built-in text); any other custom MOTD is used as it is; without one
      the state's built-in text is shown under the name "Infrarust". */
  function GenerateForState(state: MotdState, custom: Option<MotdConfig>, minutesText: u64 -> string,
                            parseFavicon: string -> Option<string>): (r: StatusResponse)
    ensures custom.None? ==> r.description == DefaultText(state, minutesText)
                             && r.versionName == DEFAULT_VERSION_NAME
                             && r.maxPlayers == 0 && r.onlinePlayers == 0 && r.sample == []
    ensures custom.Some? && !state.ImminentShutdown? ==> r == MotdResponse(custom.value, UseDefaultFavicon(state), parseFavicon)
    ensures state.ImminentShutdown? && custom.Some? && custom.value.text.Some?
            ==> r.description == Replace(custom.value.text.value, SECONDS_PLACEHOLDER, NatToString(state.secondsRemaining))
    ensures state.ImminentShutdown? && custom.Some? && custom.value.text.None?
            ==> r.description == DefaultText(state, minutesText)
    ensures r.favicon.InfrarustFavicon? ==> custom.None? || UseDefaultFavicon(state)
  {
    var useDefaultFavicon := custom.None? || UseDefaultFavicon(state);
    match custom
    case Some(motd) =>
      if state.ImminentShutdown? then
        var text := match motd.text
                    case None => DefaultText(state, minutesText)
                    case Some(t) => Replace(t, SECONDS_PLACEHOLDER, NatToString(state.secondsRemaining));
        MotdResponse(motd.(text := Some(text)), false, parseFavicon)
      else MotdResponse(motd, useDefaultFavicon, parseFavicon)
    case None => MotdResponse(DefaultMotdWithText(DefaultText(state, minutesText)), useDefaultFavicon, parseFavicon)
  }

  /** Without a custom MOTD the response carries the proxy's favicon in
      every state: having no custom MOTD is enough to allow it. */
  lemma BuiltInResponseHasInfrarustFavicon(state: MotdState, minutesText: u64 -> string,
                                           parseFavicon: string -> Option<string>)
    ensures GenerateForState(state, None, minutesText, parseFavicon).favicon == InfrarustFavicon
  {
  }

  /** A custom shutdown text without the placeholder is shown unchanged. */
  lemma ShutdownTextWithoutPlaceholder(seconds: u64, motd: MotdConfig, minutesText: u64 -> string,
                                       parseFavicon: string -> Option<string>)
    requires motd.text.Some? && !Contains(motd.text.value, SECONDS_PLACEHOLDER)
    ensures GenerateForState(ImminentShutdown(seconds), Some(motd), minutesText, parseFavicon).description
         == motd.text.value
  {
  }

  /** The text a client sees for a state: the configured MOTD's when the
      server's MOTDs name one for it, the built-in one otherwise. */
  lemma ResponseForConfiguredState(state: MotdState, motds: ServerMotds, minutesText: u64 -> string,
                                   parseFavicon: string -> Option<string>)
    requires !state.ImminentShutdown?
    ensures var r := GenerateForState(state, MotdForState(state, motds), minutesText, parseFavicon);
            r.description == (if MotdForState(state, motds).Some?
                              then MotdForState(state, motds).value.text.UnwrapOr("")
                              else DefaultText(state, minutesText))
  {
  }
}
