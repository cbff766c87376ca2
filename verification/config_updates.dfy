/** The Docker provider's change detection
    (crates/infrarust_config/src/provider/docker/updates.rs): a container's
    configuration is forwarded only when it differs, in the fields that
    matter for routing, from the last one forwarded under the same key. */
module ConfigUpdates {
  import opened Wrappers
  import opened Config

  /** The addresses of a configuration as a set: order and repeats do not
      count. */
  function AddressSet(c: ServerConfig): set<string> {
    set a | a in c.addresses
  }

  /** `configs_are_equal`: the same domains in the same order, the same
      set of addresses, the same PROXY header settings and proxy mode, and
      filters either both present or both absent.  The id, the MOTDs and
      what the filters say are not compared. */
  predicate ConfigsAreEqual(a: ServerConfig, b: ServerConfig) {
    a.domains == b.domains
    && AddressSet(a) == AddressSet(b)
    && a.sendProxyProtocol == b.sendProxyProtocol
    && a.proxyProtocolVersion == b.proxyProtocolVersion
    && a.proxyMode == b.proxyMode
    && a.filters.Some? == b.filters.Some?
  }

  /** The comparison is an equivalence: reflexive, symmetric and
      transitive. */
  lemma ConfigsAreEqualIsEquivalence(a: ServerConfig, b: ServerConfig, c: ServerConfig)
    ensures ConfigsAreEqual(a, a)
    ensures ConfigsAreEqual(a, b) <==> ConfigsAreEqual(b, a)
    ensures ConfigsAreEqual(a, b) && ConfigsAreEqual(b, c) ==> ConfigsAreEqual(a, c)
  {
  }

  /** Reordering or repeating addresses is not a change. */
  lemma AddressOrderIgnored(a: ServerConfig, addresses: seq<string>)
    requires forall x :: x in addresses <==> x in a.addresses
    ensures ConfigsAreEqual(a, a.(addresses := addresses))
  {
    assert AddressSet(a) == AddressSet(a.(addresses := addresses));
  }

  /** Adding or dropping an address is a change. */
  lemma AddressChangeDetected(a: ServerConfig, b: ServerConfig, x: string)
    requires x in a.addresses && x !in b.addresses
    ensures !ConfigsAreEqual(a, b)
  {
    assert x in AddressSet(a);
  }

  /** Domains are compared as lists: the same domains in another order are
      a change. */
  lemma DomainOrderCounts(a: ServerConfig, b: ServerConfig)
    requires a.domains != b.domains
    ensures !ConfigsAreEqual(a, b)
  {
  }

  /** Only the presence of filters is compared, and neither the id nor the
      MOTDs are. */
  lemma UncomparedFields(a: ServerConfig, configId: string, motds: ServerMotds, filters: FilterConfig)
    ensures ConfigsAreEqual(a, a.(configId := configId, motds := motds))
    ensures a.filters.Some? ==> ConfigsAreEqual(a, a.(filters := Some(filters)))
  {
    assert AddressSet(a) == AddressSet(a.(configId := configId, motds := motds));
    assert AddressSet(a) == AddressSet(a.(filters := Some(filters)));
  }

  /** `ProviderMessage::Update`: a configuration for a key, or None to
      remove it. */
  datatype ProviderMessage = Update(key: string, configuration: Option<ServerConfig>)

  /** What `send_update` leaves behind: the message sent, if any, and the
      new table of configurations last forwarded. */
  datatype SendOutcome = SendOutcome(sent: Option<ProviderMessage>, previous: map<string, ServerConfig>)

  /** `send_update`.  The table is updated before the message goes out, so
      a send that fails on the channel (which is only logged) still counts
      as sent. */
  function SendUpdate(previous: map<string, ServerConfig>, key: string, config: Option<ServerConfig>)
    : (r: SendOutcome)
    ensures r.sent.None? <==> (config.Some? && key in previous && ConfigsAreEqual(previous[key], config.value))
                              || (config.None? && key !in previous)
    ensures r.sent.None? ==> r.previous == previous
    ensures r.sent.Some? ==> r.sent.value == Update(key, config)
    ensures r.sent.Some? && config.Some? ==> r.previous == previous[key := config.value]
    ensures r.sent.Some? && config.None? ==> r.previous == previous - {key}
  {
    var shouldSend :=
      match config
      case Some(c) => key !in previous || !ConfigsAreEqual(previous[key], c)
      case None => key in previous;
    if !shouldSend then SendOutcome(None, previous)
    else
      var table := match config
                   case Some(c) => previous[key := c]
                   case None => previous - {key};
      SendOutcome(Some(Update(key, config)), table)
  }

  /** Sending the same update twice in a row sends nothing the second
      time, and leaves the table as the first send left it. */
  lemma SendUpdateDeduplicates(previous: map<string, ServerConfig>, key: string, config: Option<ServerConfig>)
    ensures var first := SendUpdate(previous, key, config);
            var second := SendUpdate(first.previous, key, config);
            second.sent.None? && second.previous == first.previous
  {
    var first := SendUpdate(previous, key, config);
    if config.Some? {
      ConfigsAreEqualIsEquivalence(config.value, config.value, config.value);
      if first.sent.None? {
        ConfigsAreEqualIsEquivalence(previous[key], config.value, config.value);
      }
    }
  }

  /** After any send, the table holds the key exactly when a configuration
      was given, and then an equal one. */
  lemma SendUpdateTracksKey(previous: map<string, ServerConfig>, key: string, config: Option<ServerConfig>)
    ensures var r := SendUpdate(previous, key, config);
            (key in r.previous <==> config.Some?)
            && (config.Some? ==> ConfigsAreEqual(r.previous[key], config.value))
  {
    if config.Some? {
      ConfigsAreEqualIsEquivalence(config.value, config.value, config.value);
    }
  }
}
