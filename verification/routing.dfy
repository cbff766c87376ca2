/** The configuration service (crates/infrarust/src/core/config/service.rs):
    the store of server configurations keyed by config id, and the lookup of
    the server a client asked for by the domain in its handshake.

    Domain patterns are shell-style globs: `*` stands for any run of
    characters, `?` for exactly one.  When several configurations match,
    the one whose best pattern is most specific wins: an exact pattern
    scores 10000, a wildcard pattern 100 per label without wildcards plus
    one per label. */
module Routing {
  import opened Wrappers
  import opened Text
  import opened Config

  /** The score of a pattern without `*` or `?`. */
  const EXACT_SPECIFICITY: int := 10000

  predicate HasWildcard(s: string) {
    '*' in s || '?' in s
  }

  /** `WildMatch::new(pattern).matches(s)`: case-sensitive glob matching. */
  predicate Glob(pattern: string, s: string)
    decreases |pattern| + |s|
  {
    if |pattern| == 0 then |s| == 0
    else if pattern[0] == '*' then Glob(pattern[1..], s) || (|s| > 0 && Glob(pattern, s[1..]))
    else |s| > 0 && (pattern[0] == '?' || pattern[0] == s[0]) && Glob(pattern[1..], s[1..])
  }

  /** A pattern without wildcards matches exactly itself. */
  lemma {:induction false} GlobLiteral(pattern: string, s: string)
    requires !HasWildcard(pattern)
    ensures Glob(pattern, s) <==> s == pattern
    decreases |pattern|
  {
    if |pattern| > 0 {
      assert !HasWildcard(pattern[1..]) by {
        assert forall i :: 0 <= i < |pattern[1..]| ==> pattern[1..][i] == pattern[i + 1];
      }
      if |s| > 0 {
        GlobLiteral(pattern[1..], s[1..]);
        assert s == pattern <==> (s[0] == pattern[0] && s[1..] == pattern[1..]) by {
          if s[0] == pattern[0] && s[1..] == pattern[1..] {
            assert s == [s[0]] + s[1..] && pattern == [pattern[0]] + pattern[1..];
          }
        }
      }
    }
  }

  predicate HasAsciiUpper(s: string) {
    exists i :: 0 <= i < |s| && 'A' <= s[i] <= 'Z'
  }

  /** The lookup lower-cases the requested domain but not the patterns, so
      a pattern holding an ASCII capital letter matches no domain at all. */
  lemma {:induction false} GlobUpperNeverMatchesLower(pattern: string, s: string)
    requires HasAsciiUpper(pattern) && !HasAsciiUpper(s)
    ensures !Glob(pattern, s)
    decreases |pattern| + |s|
  {
    var i :| 0 <= i < |pattern| && 'A' <= pattern[i] <= 'Z';
    if 'A' <= pattern[0] <= 'Z' {
      assert |s| > 0 ==> !('A' <= s[0] <= 'Z');
    } else {
      assert i > 0 && pattern[1..][i - 1] == pattern[i];
      if |s| > 0 {
        assert !HasAsciiUpper(s[1..]) by {
          forall j | 0 <= j < |s[1..]| ensures !('A' <= s[1..][j] <= 'Z') {
            assert s[1..][j] == s[j + 1];
          }
        }
        GlobUpperNeverMatchesLower(pattern[1..], s[1..]);
        if pattern[0] == '*' {
          GlobUpperNeverMatchesLower(pattern, s[1..]);
        }
      }
      GlobUpperNeverMatchesLower(pattern[1..], s);
    }
  }

  /** A lower-cased string holds no ASCII capital. */
  lemma ToLowerHasNoUpper(s: string)
    ensures !HasAsciiUpper(ToLower(s))
  {
    var r := ToLower(s);
    forall i | 0 <= i < |r| ensures !('A' <= r[i] <= 'Z') {
      assert r[i] == AsciiLower(s[i]);
    }
  }

  /** The number of labels without wildcards. */
  function LiteralLabels(labels: seq<string>): (n: nat)
    ensures n <= |labels|
  {
    if |labels| == 0 then 0
    else (if HasWildcard(labels[0]) then 0 else 1) + LiteralLabels(labels[1..])
  }

  /** `calculate_pattern_specificity` */
  function Specificity(pattern: string): (r: int)
  {
    var lower := ToLower(pattern);
    if !HasWildcard(lower) then EXACT_SPECIFICITY
    else
      var segments := Split(lower, ".");
      100 * LiteralLabels(segments) + |segments|
  }

  /** The score stated over the labels of a pattern rather than its text. */
  function LabelScore(labels: seq<string>): (r: int)
    ensures (forall k :: 0 <= k < |labels| ==> !HasWildcard(labels[k])) ==> r == EXACT_SPECIFICITY
    ensures (exists k :: 0 <= k < |labels| && HasWildcard(labels[k]))
            ==> |labels| <= r <= 101 * |labels| - 100
  {
    if forall k :: 0 <= k < |labels| ==> !HasWildcard(labels[k]) then EXACT_SPECIFICITY
    else
      var k :| 0 <= k < |labels| && HasWildcard(labels[k]);
      LiteralLabelsBelow(labels, k);
      100 * LiteralLabels(labels) + |labels|
  }

  lemma {:induction false} LiteralLabelsBelow(labels: seq<string>, k: nat)
    requires k < |labels| && HasWildcard(labels[k])
    ensures LiteralLabels(labels) < |labels|
  {
    if k > 0 {
      LiteralLabelsBelow(labels[1..], k - 1);
    }
  }

  /** Lower-casing leaves `*`, `?` and `.` where they were. */
  lemma LowerKeepsMarks(s: string)
    ensures HasWildcard(ToLower(s)) <==> HasWildcard(s)
    ensures '.' in ToLower(s) <==> '.' in s
  {
    var r := ToLower(s);
    forall i | 0 <= i < |s|
      ensures (r[i] == '*' <==> s[i] == '*') && (r[i] == '?' <==> s[i] == '?')
      ensures (r[i] == '.' <==> s[i] == '.')
    {
      assert r[i] == AsciiLower(s[i]);
    }
  }

  function LowerAll(labels: seq<string>): (r: seq<string>)
    ensures |r| == |labels|
    ensures forall k :: 0 <= k < |labels| ==> r[k] == ToLower(labels[k])
  {
    seq(|labels|, k requires 0 <= k < |labels| => ToLower(labels[k]))
  }

  lemma ToLowerAppend(a: string, b: string)
    ensures ToLower(a + b) == ToLower(a) + ToLower(b)
  {
    hide ToLower, AsciiLower;
    var l, r := ToLower(a + b), ToLower(a) + ToLower(b);
    forall i | 0 <= i < |l| ensures l[i] == r[i] {
      if i < |a| {
        assert (a + b)[i] == a[i];
      } else {
        assert (a + b)[i] == b[i - |a|];
      }
    }
  }

  lemma {:induction false} ToLowerJoin(labels: seq<string>)
    requires |labels| >= 1
    ensures ToLower(Join(labels, ".")) == Join(LowerAll(labels), ".")
  {
    if |labels| > 1 {
      JoinCons(labels, ".");
      JoinCons(LowerAll(labels), ".");
      ToLowerJoin(labels[1..]);
      assert LowerAll(labels)[1..] == LowerAll(labels[1..]);
      ToLowerAppend(labels[0] + ".", Join(labels[1..], "."));
      ToLowerAppend(labels[0], ".");
      assert ToLower(".") == ".";
    }
  }

  lemma {:induction false} JoinWildcard(labels: seq<string>)
    requires |labels| >= 1
    ensures HasWildcard(Join(labels, ".")) <==> exists k :: 0 <= k < |labels| && HasWildcard(labels[k])
  {
    if |labels| > 1 {
      JoinCons(labels, ".");
      JoinWildcard(labels[1..]);
      var j := Join(labels, ".");
      assert j == labels[0] + "." + Join(labels[1..], ".");
      if exists k :: 0 <= k < |labels[1..]| && HasWildcard(labels[1..][k]) {
        var k :| 0 <= k < |labels[1..]| && HasWildcard(labels[1..][k]);
        assert HasWildcard(labels[k + 1]);
      }
      if exists k :: 0 <= k < |labels| && HasWildcard(labels[k]) {
        var k :| 0 <= k < |labels| && HasWildcard(labels[k]);
        if k > 0 {
          assert labels[1..][k - 1] == labels[k];
        }
      }
    }
  }

  lemma {:induction false} LiteralLabelsLower(labels: seq<string>)
    ensures LiteralLabels(LowerAll(labels)) == LiteralLabels(labels)
  {
    if |labels| > 0 {
      LowerKeepsMarks(labels[0]);
      assert LowerAll(labels)[1..] == LowerAll(labels[1..]);
      LiteralLabelsLower(labels[1..]);
    }
  }

  /** A pattern made of dot-free labels scores as its labels do: every
      pattern is such a join (`Text.JoinSplit`), so this is the whole
      meaning of `Specificity`. */
  lemma SpecificityOfLabels(labels: seq<string>)
    requires |labels| >= 1
    requires forall k :: 0 <= k < |labels| ==> '.' !in labels[k]
    ensures Specificity(Join(labels, ".")) == LabelScore(labels)
  {
    var lowered := LowerAll(labels);
    ToLowerJoin(labels);
    forall k | 0 <= k < |lowered| ensures ".."[0] !in lowered[k] {
      LowerKeepsMarks(labels[k]);
    }
    SplitJoin(lowered, ".");
    JoinWildcard(lowered);
    JoinWildcard(labels);
    forall k | 0 <= k < |labels| ensures HasWildcard(lowered[k]) <==> HasWildcard(labels[k]) {
      LowerKeepsMarks(labels[k]);
    }
    LiteralLabelsLower(labels);
  }

  /** Every pattern is the join of its own labels. */
  lemma SpecificityOfPattern(pattern: string)
    ensures var labels := Split(pattern, ".");
            Specificity(pattern) == LabelScore(labels)
  {
    var labels := Split(pattern, ".");
    JoinSplit(pattern, ".");
    forall k | 0 <= k < |labels| ensures '.' !in labels[k] {
      CharContains(labels[k], '.');
    }
    SpecificityOfLabels(labels);
  }

  lemma {:induction false} LiteralLabelsAppend(a: seq<string>, b: seq<string>)
    ensures LiteralLabels(a + b) == LiteralLabels(a) + LiteralLabels(b)
  {
    if |a| > 0 {
      assert (a + b)[0] == a[0];
      assert (a + b)[1..] == a[1..] + b;
      LiteralLabelsAppend(a[1..], b);
    } else {
      assert a + b == b;
    }
  }

  /** A deeper wildcard pattern beats a shallower one: inserting a label
      without wildcards anywhere in a wildcard pattern raises its score by
      101 (`*.sub.example.com` over `*.example.com`). */
  lemma LiteralLabelRaisesScore(a: seq<string>, extra: string, b: seq<string>)
    requires exists k :: 0 <= k < |a + b| && HasWildcard((a + b)[k])
    requires !HasWildcard(extra)
    requires forall k :: 0 <= k < |a + b| ==> '.' !in (a + b)[k]
    requires '.' !in extra
    ensures Specificity(Join(a + [extra] + b, ".")) == Specificity(Join(a + b, ".")) + 101
  {
    hide Specificity, LabelScore;
    var deeper := a + [extra] + b;
    var k :| 0 <= k < |a + b| && HasWildcard((a + b)[k]);
    var k' := if k < |a| then k else k + 1;
    assert deeper[k'] == (a + b)[k];
    forall j | 0 <= j < |deeper| ensures '.' !in deeper[j] {
      if j < |a| { assert deeper[j] == (a + b)[j]; }
      else if j > |a| { assert deeper[j] == (a + b)[j - 1]; }
    }
    SpecificityOfLabels(deeper);
    SpecificityOfLabels(a + b);
    LabelScoreWildcard(deeper, k');
    LabelScoreWildcard(a + b, k);
    LiteralLabelsAppend(a + [extra], b);
    LiteralLabelsAppend(a, [extra]);
    LiteralLabelsAppend(a, b);
    assert LiteralLabels([extra]) == 1 by {
      assert [extra][1..] == [];
    }
  }

  lemma LabelScoreWildcard(labels: seq<string>, k: nat)
    requires k < |labels| && HasWildcard(labels[k])
    ensures LabelScore(labels) == 100 * LiteralLabels(labels) + |labels|
  {
  }

  /** A wildcard pattern of fewer than 100 labels scores below every exact
      pattern. */
  lemma WildcardBelowExact(pattern: string)
    requires HasWildcard(pattern)
    requires |Split(pattern, ".")| < 100
    ensures Specificity(pattern) < EXACT_SPECIFICITY
  {
    var labels := Split(pattern, ".");
    SpecificityOfPattern(pattern);
    JoinSplit(pattern, ".");
    JoinWildcard(labels);
  }

  /** From 100 labels on, the ranking no longer keeps exact patterns first:
      99 labels without wildcards and one with score exactly as much as an
      exact pattern. */
  lemma HundredLabelsTieExact(labels: seq<string>, k: nat)
    requires |labels| == 100 && k < 100 && HasWildcard(labels[k])
    requires forall j :: 0 <= j < 100 && j != k ==> !HasWildcard(labels[j])
    requires forall j :: 0 <= j < 100 ==> '.' !in labels[j]
    ensures Specificity(Join(labels, ".")) == EXACT_SPECIFICITY
  {
    SpecificityOfLabels(labels);
    LiteralLabelsAppend(labels[..k], labels[k..]);
    assert labels == labels[..k] + labels[k..];
    LiteralLabelsAllOf(labels[..k]);
    LiteralLabelsAllOf(labels[k + 1..]);
    assert labels[k..] == [labels[k]] + labels[k + 1..];
    assert LiteralLabels(labels[k..]) == LiteralLabels(labels[k + 1..]);
  }

  lemma {:induction false} LiteralLabelsAllOf(labels: seq<string>)
    requires forall j :: 0 <= j < |labels| ==> !HasWildcard(labels[j])
    ensures LiteralLabels(labels) == |labels|
  {
    if |labels| > 0 {
      LiteralLabelsAllOf(labels[1..]);
    }
  }

  /** The highest score among a configuration's patterns that match the
      domain, or None when none does: the per-config entry of
      `best_matches`, kept only while a later pattern scores higher. */
  function BestScore(patterns: seq<string>, domain: string): (r: Option<int>)
    ensures r.None? <==> forall i :: 0 <= i < |patterns| ==> !Glob(patterns[i], domain)
  {
    if |patterns| == 0 then None
    else
      var init := patterns[..|patterns| - 1];
      var last := patterns[|patterns| - 1];
      var rest := BestScore(init, domain);
      assert forall i :: 0 <= i < |init| ==> init[i] == patterns[i];
      if !Glob(last, domain) then rest
      else if rest.None? || Specificity(last) > rest.value then Some(Specificity(last))
      else rest
  }

  /** The best score is the score of a matching pattern and no matching
      pattern scores more. */
  lemma {:induction false} BestScoreIsMax(patterns: seq<string>, domain: string)
    ensures var r := BestScore(patterns, domain);
            r.Some? ==> exists i :: 0 <= i < |patterns| && Glob(patterns[i], domain)
                                    && Specificity(patterns[i]) == r.value
    ensures var r := BestScore(patterns, domain);
            r.Some? ==> forall i :: 0 <= i < |patterns| && Glob(patterns[i], domain)
                                    ==> Specificity(patterns[i]) <= r.value
  {
    hide *;
    if |patterns| > 0 {
      var init := patterns[..|patterns| - 1];
      var last := patterns[|patterns| - 1];
      BestScoreIsMax(init, domain);
      BestScoreStep(patterns, domain);
      assert forall i :: 0 <= i < |init| ==> init[i] == patterns[i];
      assert patterns == init + [last];
    }
  }

  lemma BestScoreStep(patterns: seq<string>, domain: string)
    requires |patterns| > 0
    ensures var init := patterns[..|patterns| - 1];
            var last := patterns[|patterns| - 1];
            var rest := BestScore(init, domain);
            BestScore(patterns, domain)
            == if !Glob(last, domain) then rest
               else if rest.None? || Specificity(last) > rest.value then Some(Specificity(last))
               else rest
  {
  }

  /** The service's store: configurations keyed by config id. */
  type Configurations = map<string, ServerConfig>

  /** Every configuration is stored under its own id. */
  predicate WellKeyed(configs: Configurations) {
    forall k :: k in configs ==> configs[k].configId == k
  }

  /** A configuration's entry in `best_matches`: the best score among its
      domain patterns. */
  function ConfigScore(config: ServerConfig, domain: string): Option<int> {
    BestScore(config.domains, domain)
  }

  /** The configuration stored under `key` matches the domain, and no
      other matches it with a higher score. */
  predicate IsBestMatch(configs: Configurations, domain: string, key: string) {
    key in configs && ConfigScore(configs[key], domain).Some?
    && forall other :: other in configs && ConfigScore(configs[other], domain).Some?
         ==> ConfigScore(configs[other], domain).value <= ConfigScore(configs[key], domain).value
  }

  /** `find_server_by_domain`.  The configurations are visited in an order
      the model does not fix (a `HashMap`'s), and among configurations tied
      at the top score `max_by_key` keeps the last one visited. */
  method FindServerByDomain(configs: Configurations, domain: string) returns (r: Option<ServerConfig>)
    ensures r.None? <==> forall k :: k in configs ==> ConfigScore(configs[k], ToLower(domain)).None?
    ensures r.Some? ==> exists k :: IsBestMatch(configs, ToLower(domain), k) && configs[k] == r.value
  {
    hide ConfigScore, Leads;
    var lower := ToLower(domain);
    var todo := configs.Keys;
    var best: Option<(string, int)> := None;
    ghost var seen: set<string> := {};
    LeadsNone(configs, lower);
    while todo != {}
      invariant todo + seen == configs.Keys && todo !! seen
      invariant Leads(configs, lower, seen, best)
      decreases |todo|
    {
      var k :| k in todo;
      var score := ConfigScore(configs[k], lower);
      LeadsStep(configs, lower, seen, best, k);
      best := Challenge(best, k, score);
      todo := todo - {k};
      seen := seen + {k};
    }
    LeadsAll(configs, lower, best);
    if best.None? {
      return None;
    }
    r := Some(configs[best.value.0]);
  }

  /** After the configurations in `seen`, `best` holds the key and score of
      a top scorer among them, or None when none of them matches. */
  predicate Leads(configs: Configurations, domain: string, seen: set<string>,
                  best: Option<(string, int)>)
  {
    seen <= configs.Keys
    && (best.None? <==> forall k :: k in seen ==> ConfigScore(configs[k], domain).None?)
    && (best.Some? ==> best.value.0 in seen && ConfigScore(configs[best.value.0], domain) == Some(best.value.1))
    && (best.Some? ==> forall k :: k in seen && ConfigScore(configs[k], domain).Some?
                          ==> ConfigScore(configs[k], domain).value <= best.value.1)
  }

  /** One step of `max_by_key`: a later score at least as high takes over. */
  function Challenge(best: Option<(string, int)>, key: string, score: Option<int>): Option<(string, int)> {
    if score.Some? && (best.None? || score.value >= best.value.1) then Some((key, score.value)) else best
  }

  lemma LeadsNone(configs: Configurations, domain: string)
    ensures Leads(configs, domain, {}, None)
  {
  }

  lemma LeadsStep(configs: Configurations, domain: string, seen: set<string>,
                  best: Option<(string, int)>, key: string)
    requires Leads(configs, domain, seen, best) && key in configs && key !in seen
    ensures Leads(configs, domain, seen + {key}, Challenge(best, key, ConfigScore(configs[key], domain)))
  {
  }

  lemma LeadsAll(configs: Configurations, domain: string, best: Option<(string, int)>)
    requires Leads(configs, domain, configs.Keys, best)
    ensures best.None? <==> forall k :: k in configs ==> ConfigScore(configs[k], domain).None?
    ensures best.Some? ==> best.value.0 in configs && IsBestMatch(configs, domain, best.value.0)
  {
  }

  /** An exact pattern equal to the domain wins over every wildcard
      pattern of fewer than 100 labels: whatever configuration the lookup
      picks lists the domain itself. */
  lemma ExactMatchWins(configs: Configurations, domain: string, key: string, exact: string)
    requires IsBestMatch(configs, domain, key)
    requires exists k :: k in configs && exact in configs[k].domains
    requires exact == domain && !HasWildcard(exact)
    requires forall k, p :: k in configs && p in configs[k].domains && HasWildcard(p)
                            ==> |Split(p, ".")| < 100
    ensures domain in configs[key].domains
  {
    var k :| k in configs && exact in configs[k].domains;
    var i :| 0 <= i < |configs[k].domains| && configs[k].domains[i] == exact;
    GlobLiteral(exact, domain);
    assert Specificity(exact) == EXACT_SPECIFICITY;
    BestScoreIsMax(configs[k].domains, domain);
    var patterns := configs[key].domains;
    BestScoreIsMax(patterns, domain);
    var best := BestScore(patterns, domain).value;
    assert best >= EXACT_SPECIFICITY;
    var j :| 0 <= j < |patterns| && Glob(patterns[j], domain) && Specificity(patterns[j]) == best;
    if HasWildcard(patterns[j]) {
      WildcardBelowExact(patterns[j]);
    } else {
      GlobLiteral(patterns[j], domain);
    }
  }

  /** A configuration whose every pattern holds an ASCII capital is never
      found by domain, whatever the client sends. */
  lemma CapitalizedPatternsNeverMatch(config: ServerConfig, domain: string)
    requires forall i :: 0 <= i < |config.domains| ==> HasAsciiUpper(config.domains[i])
    ensures ConfigScore(config, ToLower(domain)).None?
  {
    ToLowerHasNoUpper(domain);
    forall i | 0 <= i < |config.domains| ensures !Glob(config.domains[i], ToLower(domain)) {
      GlobUpperNeverMatchesLower(config.domains[i], ToLower(domain));
    }
  }

  /** `find_server_by_ip`: the first configuration, in map order, that
      lists the address. */
  method FindServerByIp(configs: Configurations, ip: string) returns (r: Option<ServerConfig>)
    ensures r.None? <==> forall k :: k in configs ==> ip !in configs[k].addresses
    ensures r.Some? ==> ip in r.value.addresses && exists k :: k in configs && configs[k] == r.value
  {
    var todo := configs.Keys;
    while todo != {}
      invariant todo <= configs.Keys
      invariant forall k :: k in configs.Keys - todo ==> ip !in configs[k].addresses
      decreases |todo|
    {
      var k :| k in todo;
      if ip in configs[k].addresses {
        return Some(configs[k]);
      }
      todo := todo - {k};
    }
    return None;
  }

  /** `update_configurations`: each configuration is stored under its id,
      in list order, so the last of several with one id wins.  An empty
      list changes nothing. */
  function UpdateConfigurations(configs: Configurations, updates: seq<ServerConfig>): (r: Configurations)
    ensures |updates| == 0 ==> r == configs
    ensures forall k :: k in r <==> k in configs || exists i :: 0 <= i < |updates| && updates[i].configId == k
    ensures forall k :: k in configs && (forall i :: 0 <= i < |updates| ==> updates[i].configId != k)
                        ==> r[k] == configs[k]
    ensures WellKeyed(configs) ==> WellKeyed(r)
  {
    if |updates| == 0 then configs
    else
      var init := updates[..|updates| - 1];
      var last := updates[|updates| - 1];
      assert forall i :: 0 <= i < |init| ==> init[i] == updates[i];
      UpdateConfigurations(configs, init)[last.configId := last]
  }

  /** A configuration no later one shares an id with is the one stored. */
  lemma {:induction false} UpdateLastWins(configs: Configurations, updates: seq<ServerConfig>, i: nat)
    requires i < |updates|
    requires forall j :: i < j < |updates| ==> updates[j].configId != updates[i].configId
    ensures UpdateConfigurations(configs, updates)[updates[i].configId] == updates[i]
  {
    var init := updates[..|updates| - 1];
    if i < |updates| - 1 {
      assert init[i] == updates[i];
      assert forall j :: i < j < |init| ==> init[j] == updates[j];
      UpdateLastWins(configs, init, i);
    }
  }

  /** `remove_configuration`: the id is gone and every other entry is as
      it was; removing an absent id changes nothing. */
  function RemoveConfiguration(configs: Configurations, configId: string): (r: Configurations)
    ensures configId !in r
    ensures forall k :: k != configId ==> (k in r <==> k in configs)
    ensures forall k :: k in r ==> r[k] == configs[k]
    ensures configId !in configs ==> r == configs
    ensures WellKeyed(configs) ==> WellKeyed(r)
  {
    configs - {configId}
  }

  /** Storing a configuration and removing it again leaves the store as
      removing it alone would. */
  lemma RemoveUndoesUpdate(configs: Configurations, config: ServerConfig)
    ensures RemoveConfiguration(UpdateConfigurations(configs, [config]), config.configId)
         == RemoveConfiguration(configs, config.configId)
  {
    var updated := UpdateConfigurations(configs, [config]);
    assert updated == configs[config.configId := config];
  }
}
