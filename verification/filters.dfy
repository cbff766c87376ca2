/** The connection filter registry and filter chain
    (crates/infrarust/src/security/filter.rs).  What a filter decides
    about a connection, and what applying a configuration or refreshing
    does inside it, belong to each filter; the model receives them as
    parameters. */
module Filters {
  import opened Wrappers
  import opened Bytes

  /** `FilterType` */
  datatype FilterType = RateLimiter | BanFilter | IpFilter | GeoFilter | Custom(id: u16)

  /** `FilterError`, without the texts of I/O and other failures. */
  datatype FilterError = NotFound(name: string) | NotConfigurable | InvalidConfig(reason: string) | IoError | Other(reason: string)

  /** What the registry knows of a filter: its name, its type, and whether
      it accepts configuration and refreshing. */
  datatype FilterSpec = FilterSpec(name: string, filterType: FilterType, configurable: bool, refreshable: bool)

  /** `FilterRegistryEntry` */
  datatype Entry = Entry(filter: FilterSpec, enabled: bool)

  /** `FilterRegistry`: the entries by name. */
  type Registry = map<string, Entry>

  /** Every entry is filed under its filter's own name. */
  ghost predicate WellFiled(reg: Registry) {
    forall name :: name in reg ==> reg[name].filter.name == name
  }

  /** `FilterRegistry::new` */
  const EMPTY: Registry := map[]

  /** `register`: a second filter of the same name is refused; a new one
      starts enabled. */
  function Register(reg: Registry, f: FilterSpec): (r: Result<Registry, FilterError>)
    ensures r.Err? <==> f.name in reg
    ensures r.Err? ==> r.error.Other?
    ensures r.Ok? ==> r.value == reg[f.name := Entry(f, true)]
  {
    if f.name in reg then Err(Other("Filter '" + f.name + "' already registered"))
    else Ok(reg[f.name := Entry(f, true)])
  }

  /** `unregister`: only a registered name can go, and only it goes. */
  function Unregister(reg: Registry, name: string): (r: Result<Registry, FilterError>)
    ensures r.Err? <==> name !in reg
    ensures r.Err? ==> r.error == NotFound(name)
    ensures r.Ok? ==> r.value.Keys == reg.Keys - {name}
    ensures r.Ok? ==> forall n :: n in r.value ==> r.value[n] == reg[n]
  {
    if name !in reg then Err(NotFound(name)) else Ok(reg - {name})
  }

  /** `enable` and `disable`: set the flag of one registered filter. */
  function SetEnabled(reg: Registry, name: string, enabled: bool): (r: Result<Registry, FilterError>)
    ensures r.Err? <==> name !in reg
    ensures r.Err? ==> r.error == NotFound(name)
    ensures r.Ok? ==> r.value.Keys == reg.Keys
    ensures r.Ok? ==> r.value[name] == reg[name].(enabled := enabled)
    ensures r.Ok? ==> forall n :: n in reg && n != name ==> r.value[n] == reg[n]
  {
    if name !in reg then Err(NotFound(name))
    else Ok(reg[name := reg[name].(enabled := enabled)])
  }

  /** `enable` */
  function Enable(reg: Registry, name: string): (r: Result<Registry, FilterError>)
    ensures r.Err? <==> name !in reg
    ensures r.Err? ==> r.error == NotFound(name)
    ensures r.Ok? ==> IsEnabled(r.value, name) == Ok(true)
    ensures r.Ok? ==> r.value.Keys == reg.Keys && r.value[name] == reg[name].(enabled := true)
    ensures r.Ok? ==> forall n :: n in reg && n != name ==> r.value[n] == reg[n]
  {
    SetEnabled(reg, name, true)
  }

  /** `disable` */
  function Disable(reg: Registry, name: string): (r: Result<Registry, FilterError>)
    ensures r.Err? <==> name !in reg
    ensures r.Err? ==> r.error == NotFound(name)
    ensures r.Ok? ==> IsEnabled(r.value, name) == Ok(false)
    ensures r.Ok? ==> r.value.Keys == reg.Keys && r.value[name] == reg[name].(enabled := false)
    ensures r.Ok? ==> forall n :: n in reg && n != name ==> r.value[n] == reg[n]
  {
    SetEnabled(reg, name, false)
  }

  /** `is_enabled` */
  function IsEnabled(reg: Registry, name: string): (r: Result<bool, FilterError>)
    ensures r.Err? <==> name !in reg
    ensures r.Err? ==> r.error == NotFound(name)
    ensures r.Ok? ==> r.value == reg[name].enabled
  {
    if name in reg then Ok(reg[name].enabled) else Err(NotFound(name))
  }

  /** `get_filter` */
  function GetFilter(reg: Registry, name: string): (r: Result<FilterSpec, FilterError>)
    ensures r.Err? <==> name !in reg
    ensures r.Err? ==> r.error == NotFound(name)
    ensures r.Ok? ==> r.value == reg[name].filter
  {
    if name in reg then Ok(reg[name].filter) else Err(NotFound(name))
  }

  /** `configure`: an unknown name is NotFound, a filter that takes no
      configuration is NotConfigurable, and otherwise the filter's own
      answer (`applied`) is returned. */
  function Configure(reg: Registry, name: string, applied: Result<(), FilterError>): (r: Result<(), FilterError>)
    ensures name !in reg ==> r == Err(NotFound(name))
    ensures name in reg && !reg[name].filter.configurable ==> r == Err(NotConfigurable)
    ensures name in reg && reg[name].filter.configurable ==> r == applied
  {
    if name in reg then
      if !reg[name].filter.configurable then Err(NotConfigurable) else applied
    else Err(NotFound(name))
  }

  /** `configure_with`: the caller's function, given the filter's name and
      type, may build a replacement; without one, or for an unknown name,
      the answer is NotFound. */
  function ConfigureWith<T>(reg: Registry, name: string, build: (string, FilterType) -> Option<T>): (r: Result<T, FilterError>)
    ensures r.Ok? <==> name in reg && build(name, reg[name].filter.filterType).Some?
    ensures r.Ok? ==> r.value == build(name, reg[name].filter.filterType).value
    ensures r.Err? ==> r.error == NotFound(name)
  {
    if name in reg && build(name, reg[name].filter.filterType).Some? then Ok(build(name, reg[name].filter.filterType).value)
    else Err(NotFound(name))
  }

  /** `refresh`: an unknown name is NotFound, a filter that cannot refresh
      is an Other error, and otherwise the filter's own answer. */
  function Refresh(reg: Registry, name: string, refreshed: Result<(), FilterError>): (r: Result<(), FilterError>)
    ensures name !in reg ==> r == Err(NotFound(name))
    ensures name in reg && !reg[name].filter.refreshable ==> r.Err? && r.error.Other?
    ensures name in reg && reg[name].filter.refreshable ==> r == refreshed
  {
    if name in reg then
      if !reg[name].filter.refreshable then Err(Other("Filter '" + name + "' is not refreshable"))
      else refreshed
    else Err(NotFound(name))
  }

  /** `refresh_all`: the names of the filters that are refreshed, each once. */
  function RefreshAll(reg: Registry): (r: set<string>)
    ensures forall name :: name in r <==> name in reg && reg[name].filter.refreshable
  {
    set name | name in reg && reg[name].filter.refreshable
  }

  /** `list_filters`: a name, type and flag for each registered filter. */
  function ListFilters(reg: Registry): (r: set<(string, FilterType, bool)>)
    ensures forall name :: name in reg ==> (name, reg[name].filter.filterType, reg[name].enabled) in r
    ensures forall t :: t in r ==> t.0 in reg && t.1 == reg[t.0].filter.filterType && t.2 == reg[t.0].enabled
  {
    set name | name in reg :: (name, reg[name].filter.filterType, reg[name].enabled)
  }

  /** The enabled filters that would turn the connection away; `passes`
      stands for each filter's own check of it. */
  function Rejecters(reg: Registry, passes: FilterSpec -> bool): (r: set<string>)
    ensures forall name :: name in r <==> name in reg && reg[name].enabled && !passes(reg[name].filter)
  {
    set name | name in reg && reg[name].enabled && !passes(reg[name].filter)
  }

  /** `filter`: the enabled filters are consulted in the map's order, which
      the model leaves open, disabled ones are skipped, and the first
      refusal ends the search with that filter's name. */
  method FilterConnection(reg: Registry, passes: FilterSpec -> bool) returns (r: Result<(), string>)
    ensures r.Ok? <==> Rejecters(reg, passes) == {}
    ensures r.Err? ==> r.error in Rejecters(reg, passes)
  {
    var rest := reg.Keys;
    while rest != {}
      invariant rest <= reg.Keys
      invariant forall name :: name in reg.Keys - rest ==> name !in Rejecters(reg, passes)
      decreases rest
    {
      var name :| name in rest;
      if reg[name].enabled && !passes(reg[name].filter) {
        return Err(name);
      }
      rest := rest - {name};
    }
    assert forall name :: name in reg ==> name in reg.Keys - rest;
    return Ok(());
  }

  /** Disabling a filter takes it out of the refusals, enabling it puts
      it back if it refuses, and no other filter is affected. */
  lemma SetEnabledRejecters(reg: Registry, name: string, enabled: bool, passes: FilterSpec -> bool)
    requires name in reg
    ensures var after := SetEnabled(reg, name, enabled).value;
            Rejecters(after, passes) == if enabled && !passes(reg[name].filter)
                                        then Rejecters(reg, passes) + {name}
                                        else Rejecters(reg, passes) - {name}
  {
  }

  /** A newly registered filter refuses the connection, if it does, from
      the moment it is registered; unregistering removes its refusal. */
  lemma RegisterRejecters(reg: Registry, f: FilterSpec, passes: FilterSpec -> bool)
    requires f.name !in reg
    ensures Rejecters(Register(reg, f).value, passes)
            == if passes(f) then Rejecters(reg, passes) else Rejecters(reg, passes) + {f.name}
  {
  }

  lemma UnregisterRejecters(reg: Registry, name: string, passes: FilterSpec -> bool)
    requires name in reg
    ensures Rejecters(Unregister(reg, name).value, passes) == Rejecters(reg, passes) - {name}
  {
  }

  /** The registry keeps every entry under its own name. */
  lemma RegistryWellFiled(reg: Registry, f: FilterSpec, name: string, enabled: bool)
    requires WellFiled(reg)
    ensures Register(reg, f).Ok? ==> WellFiled(Register(reg, f).value)
    ensures Unregister(reg, name).Ok? ==> WellFiled(Unregister(reg, name).value)
    ensures SetEnabled(reg, name, enabled).Ok? ==> WellFiled(SetEnabled(reg, name, enabled).value)
  {
  }

  /** Registering then unregistering a filter gives back the registry. */
  lemma RegisterUnregister(reg: Registry, f: FilterSpec)
    requires f.name !in reg
    ensures Unregister(Register(reg, f).value, f.name) == Ok(reg)
    ensures IsEnabled(Register(reg, f).value, f.name) == Ok(true)
  {
    assert Register(reg, f).value - {f.name} == reg;
  }

  /** `FilterChain`: filters in the order they were added. */
  type Chain = seq<FilterSpec>

  /** `add_filter` */
  function AddFilter(chain: Chain, f: FilterSpec): (r: Chain)
    ensures |r| == |chain| + 1 && r[..|chain|] == chain && r[|chain|] == f
  {
    chain + [f]
  }

  /** `FilterChain::filter`: the filters run in order and the first
      refusal, given by its position, stops the chain. */
  function ChainFilter(chain: Chain, passes: FilterSpec -> bool): (r: Result<(), nat>)
    ensures r.Ok? <==> forall i :: 0 <= i < |chain| ==> passes(chain[i])
    ensures r.Err? ==> r.error < |chain| && !passes(chain[r.error])
    ensures r.Err? ==> forall i :: 0 <= i < r.error ==> passes(chain[i])
    decreases |chain|
  {
    if chain == [] then Ok(())
    else if !passes(chain[0]) then Err(0)
    else match ChainFilter(chain[1..], passes)
      case Ok(_) => Ok(())
      case Err(i) => Err(i + 1)
  }

  /** Adding a filter to a chain that passes makes it pass exactly when
      the new filter does; a chain that refuses still refuses at the same
      filter. */
  lemma {:induction false} AddFilterChain(chain: Chain, f: FilterSpec, passes: FilterSpec -> bool)
    ensures var after := ChainFilter(AddFilter(chain, f), passes);
            after == match ChainFilter(chain, passes)
                     case Ok(_) => if passes(f) then Ok(()) else Err(|chain|)
                     case Err(i) => Err(i)
    decreases |chain|
  {
    if chain != [] {
      assert AddFilter(chain, f)[1..] == AddFilter(chain[1..], f);
      AddFilterChain(chain[1..], f, passes);
    }
  }
}
