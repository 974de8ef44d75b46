/**
 productPluginCommandPolicies of app/scripts/build-manifest.ts: which runCommands entries of a
 product manifest are admitted, and the policies they give.
 */
module ManifestPolicies {
  import opened Common
  import opened Identities

  datatype Source = Development | User | Shipped

  datatype Environment = DevelopmentBuild | ProductionBuild

  function SourceName(s: Source): string {
    match s
    case Development => "development"
    case User => "user"
    case Shipped => "shipped"
  }

  function EnvironmentName(e: Environment): string {
    if e.DevelopmentBuild? then "development" else "production"
  }

  datatype Policy = Policy(bundleName: string, packageName: string, source: Source, providers: seq<string>)

  /** The Artifact Hub fields: absent, failing their format checks, or a usable package identity. */
  datatype Hub = NoHub | BadHub | HubPackage

  datatype Plugin = NotAPlugin | Plugin(bundleName: string, packageName: string, hub: Hub)

  /**
   One runCommands entry; `othersValid` is whether its remaining fields (unknown keys, commands and
   command sets, executables, approvals, the shape of its providers) pass their checks.
   */
  datatype Entry = Entry(environment: Environment, location: Source, plugins: seq<Plugin>, providers: seq<string>,
                         othersValid: bool)

  datatype ManifestError =
    | BadEntry | BadPlugins | UserProviders | BadPlugin | BadHubIdentity | MissingHubIdentity | DuplicateIdentity

  /** What one policy is for. */
  datatype Grantee = Grantee(environment: Environment, source: Source, bundleName: string, packageName: string)

  // ----- Identities -------------------------------------------------------------------------

  lemma NamesAreNulFree(s: Source, e: Environment)
    ensures NulFree(SourceName(s)) && NulFree(EnvironmentName(e))
  {
  }

  lemma NamesDiffer(s: Source, s': Source, e: Environment, e': Environment)
    ensures SourceName(s) == SourceName(s') <==> s == s'
    ensures EnvironmentName(e) == EnvironmentName(e') <==> e == e'
  {
    assert SourceName(Development)[0] == 'd' && SourceName(User)[0] == 'u' && SourceName(Shipped)[0] == 's';
    assert EnvironmentName(DevelopmentBuild)[0] == 'd' && EnvironmentName(ProductionBuild)[0] == 'p';
  }

  function GranteeIdentity(g: Grantee): string {
    Join(EnvironmentName(g.environment), Identity(SourceName(g.source), g.bundleName, g.packageName))
  }

  predicate Plain(g: Grantee) {
    NulFree(g.bundleName) && NulFree(g.packageName)
  }

  lemma GranteeIdentityIsExact(g: Grantee, h: Grantee)
    requires Plain(g) && Plain(h)
    ensures GranteeIdentity(g) == GranteeIdentity(h) <==> g == h
  {
    NamesAreNulFree(g.source, g.environment);
    NamesAreNulFree(h.source, h.environment);
    NamesDiffer(g.source, h.source, g.environment, h.environment);
    IdentityIsExact(SourceName(g.source), g.bundleName, g.packageName, SourceName(h.source), h.bundleName,
                    h.packageName);
    if GranteeIdentity(g) == GranteeIdentity(h) {
      JoinSplits(EnvironmentName(g.environment), Identity(SourceName(g.source), g.bundleName, g.packageName),
                 EnvironmentName(h.environment), Identity(SourceName(h.source), h.bundleName, h.packageName));
    }
  }

  function IdentitySet(gs: seq<Grantee>): set<string> {
    if gs == [] then {} else IdentitySet(gs[..|gs| - 1]) + {GranteeIdentity(gs[|gs| - 1])}
  }

  /** The strings collected tell grantees apart. */
  lemma {:induction false} IdentitySetIsExact(gs: seq<Grantee>, g: Grantee)
    requires Plain(g) && forall h :: h in gs ==> Plain(h)
    ensures GranteeIdentity(g) in IdentitySet(gs) <==> g in gs
  {
    if gs != [] {
      var init, last := gs[..|gs| - 1], gs[|gs| - 1];
      assert gs == init + [last];
      IdentitySetIsExact(init, g);
      GranteeIdentityIsExact(g, last);
    }
  }

  // ----- A valid manifest -------------------------------------------------------------------

  predicate Trimmed(s: string) {
    s != "" && !JsSpace(s[0]) && !JsSpace(s[|s| - 1])
  }

  predicate ValidName(p: Plugin) {
    && p.Plugin? && Trimmed(p.bundleName) && NulFree(p.bundleName) && '/' !in p.bundleName && '\\' !in p.bundleName
    && Trimmed(p.packageName) && NulFree(p.packageName)
  }

  predicate ValidPlugin(e: Entry, p: Plugin) {
    && ValidName(p) && !p.hub.BadHub?
    && (e.environment.ProductionBuild? && e.location.User? ==> p.hub.HubPackage?)
  }

  predicate ValidEntry(e: Entry) {
    && e.othersValid && 1 <= |e.plugins| <= 64 && (e.location.User? ==> e.providers == [])
    && forall p :: p in e.plugins ==> ValidPlugin(e, p)
  }

  function GranteeOf(e: Entry, p: Plugin): Grantee {
    if p.Plugin? then Grantee(e.environment, e.location, p.bundleName, p.packageName)
    else Grantee(e.environment, e.location, "", "")
  }

  function GranteesOf(e: Entry, plugins: seq<Plugin>): seq<Grantee> {
    seq(|plugins|, i requires 0 <= i < |plugins| => GranteeOf(e, plugins[i]))
  }

  function Grantees(entries: seq<Entry>): seq<Grantee> {
    if entries == [] then []
    else Grantees(entries[..|entries| - 1])
         + GranteesOf(entries[|entries| - 1], entries[|entries| - 1].plugins)
  }

  /** Every entry and plugin is well formed, and no plugin is named twice for an environment and location. */
  ghost predicate ValidManifest(entries: seq<Entry>) {
    (forall e :: e in entries ==> ValidEntry(e)) && Distinct(Grantees(entries))
  }

  function PoliciesOf(e: Entry, plugins: seq<Plugin>, environment: Environment): seq<Policy> {
    if plugins == [] || e.environment != environment then []
    else
      var g := GranteeOf(e, plugins[|plugins| - 1]);
      PoliciesOf(e, plugins[..|plugins| - 1], environment)
      + [Policy(g.bundleName, g.packageName, e.location, e.providers)]
  }

  /** The policies of one environment, in manifest order. */
  function Policies(entries: seq<Entry>, environment: Environment): seq<Policy> {
    if entries == [] then []
    else
      var e := entries[|entries| - 1];
      Policies(entries[..|entries| - 1], environment) + PoliciesOf(e, e.plugins, environment)
  }

  lemma {:induction false} ValidPrefix(entries: seq<Entry>, k: nat)
    requires k <= |entries| && ValidManifest(entries)
    ensures ValidManifest(entries[..k])
  {
    if k < |entries| {
      var init := entries[..|entries| - 1];
      DistinctPrefix(Grantees(init), GranteesOf(entries[|entries| - 1], entries[|entries| - 1].plugins));
      assert forall e :: e in init ==> e in entries;
      ValidPrefix(init, k);
      assert init[..k] == entries[..k];
    } else {
      assert entries[..k] == entries;
    }
  }

  /** No name is empty, begins or ends with white space, or holds a character that it may not. */
  predicate NameFreeOf(s: string, forbidden: string) {
    |s| > 0 && !JsSpace(s[0]) && !JsSpace(s[|s| - 1]) && forall i :: 0 <= i < |s| ==> s[i] !in forbidden
  }

  /** Which plugins an entry may name. */
  lemma PluginAcceptedExactlyWhen(e: Entry, p: Plugin)
    ensures ValidPlugin(e, p) <==>
            && p.Plugin? && NameFreeOf(p.bundleName, "\0/\\") && NameFreeOf(p.packageName, "\0")
            && p.hub != BadHub
            && !(e.environment == ProductionBuild && e.location == User && p.hub == NoHub)
  {
    if p.Plugin? {
      assert forall c: char :: c in "\0/\\" <==> c == '\0' || c == '/' || c == '\\';
      assert forall c: char :: c in "\0" <==> c == '\0';
    }
  }

  /** The checks of one plugin in the order the source makes them. */
  function PluginError(e: Entry, p: Plugin): (r: Option<ManifestError>)
    ensures r.None? <==> ValidPlugin(e, p)
  {
    if !ValidName(p) then Some(BadPlugin)
    else if p.hub.BadHub? then Some(BadHubIdentity)
    else if e.environment.ProductionBuild? && e.location.User? && p.hub.NoHub? then Some(MissingHubIdentity)
    else None
  }

  /** The collected state after some plugins, seen as grantees. */
  ghost predicate Collected(gs: seq<Grantee>, identities: set<string>) {
    && (forall g :: g in gs ==> Plain(g)) && Distinct(gs) && identities == IdentitySet(gs)
  }

  lemma CollectOne(gs: seq<Grantee>, identities: set<string>, g: Grantee)
    requires Collected(gs, identities) && Plain(g)
    ensures GranteeIdentity(g) in identities <==> !Distinct(gs + [g])
    ensures GranteeIdentity(g) !in identities ==> Collected(gs + [g], identities + {GranteeIdentity(g)})
  {
    IdentitySetIsExact(gs, g);
    DistinctSnoc(gs, g);
    assert (gs + [g])[..|gs|] == gs;
  }

  /** The inner loop after some of an entry's plugins. */
  ghost predicate EntryLoop(e: Entry, plugins: seq<Plugin>, environment: Environment, before: seq<Grantee>,
                            ids: set<string>, policies: seq<Policy>) {
    && (forall q :: q in plugins ==> ValidPlugin(e, q))
    && Collected(before + GranteesOf(e, plugins), ids) && policies == PoliciesOf(e, plugins, environment)
  }

  function WithPolicy(e: Entry, g: Grantee, environment: Environment, policies: seq<Policy>): seq<Policy> {
    if e.environment == environment then policies + [Policy(g.bundleName, g.packageName, e.location, e.providers)]
    else policies
  }

  lemma EntryStart(e: Entry, environment: Environment, before: seq<Grantee>, ids: set<string>)
    requires Collected(before, ids)
    ensures EntryLoop(e, e.plugins[..0], environment, before, ids, [])
  {
    assert before + GranteesOf(e, e.plugins[..0]) == before;
  }

  lemma EntryStep(e: Entry, i: nat, environment: Environment, before: seq<Grantee>, ids: set<string>,
                  policies: seq<Policy>)
    requires i < |e.plugins| && EntryLoop(e, e.plugins[..i], environment, before, ids, policies)
    requires ValidPlugin(e, e.plugins[i])
    ensures var g := GranteeOf(e, e.plugins[i]);
            if GranteeIdentity(g) in ids then !Distinct(before + GranteesOf(e, e.plugins[..i + 1]))
            else EntryLoop(e, e.plugins[..i + 1], environment, before, ids + {GranteeIdentity(g)},
                           WithPolicy(e, g, environment, policies))
  {
    var plugins, p := e.plugins[..i], e.plugins[i];
    CollectOne(before + GranteesOf(e, plugins), ids, GranteeOf(e, p));
    assert e.plugins[..i + 1] == plugins + [p];
    GranteesSnoc(e, plugins, p, before);
    PoliciesSnoc(e, plugins, p, environment);
  }

  lemma GranteesSnoc(e: Entry, plugins: seq<Plugin>, p: Plugin, before: seq<Grantee>)
    ensures before + GranteesOf(e, plugins + [p]) == before + GranteesOf(e, plugins) + [GranteeOf(e, p)]
  {
  }

  lemma PoliciesSnoc(e: Entry, plugins: seq<Plugin>, p: Plugin, environment: Environment)
    ensures PoliciesOf(e, plugins + [p], environment)
         == WithPolicy(e, GranteeOf(e, p), environment, PoliciesOf(e, plugins, environment))
  {
    assert (plugins + [p])[..|plugins|] == plugins;
  }

  lemma EntryEnd(e: Entry, environment: Environment, before: seq<Grantee>, ids: set<string>, policies: seq<Policy>)
    requires EntryLoop(e, e.plugins[..|e.plugins|], environment, before, ids, policies)
    ensures EntryFits(e, before) && EntryLoop(e, e.plugins, environment, before, ids, policies)
  {
    assert e.plugins[..|e.plugins|] == e.plugins;
  }

  ghost predicate EntryFits(e: Entry, before: seq<Grantee>) {
    (forall p :: p in e.plugins ==> ValidPlugin(e, p)) && Distinct(before + GranteesOf(e, e.plugins))
  }

  lemma DuplicateRefused(e: Entry, before: seq<Grantee>, i: nat)
    requires i <= |e.plugins| && !Distinct(before + GranteesOf(e, e.plugins[..i]))
    ensures !EntryFits(e, before)
  {
    assert before + GranteesOf(e, e.plugins) == before + GranteesOf(e, e.plugins[..i]) + GranteesOf(e, e.plugins[i..]);
    if Distinct(before + GranteesOf(e, e.plugins)) {
      DistinctPrefix(before + GranteesOf(e, e.plugins[..i]), GranteesOf(e, e.plugins[i..]));
    }
  }

  lemma PluginRefused(e: Entry, before: seq<Grantee>, i: nat)
    requires i < |e.plugins| && !ValidPlugin(e, e.plugins[i])
    ensures !EntryFits(e, before)
  {
    assert e.plugins[i] in e.plugins;
  }

  /** The loop over one entry's plugins, from the identities collected before it. */
  method CollectEntry(entry: Entry, environment: Environment, identities: set<string>, ghost before: seq<Grantee>)
    returns (r: Result<(set<string>, seq<Policy>), ManifestError>)
    requires Collected(before, identities)
    ensures r.Success? <==> EntryFits(entry, before)
    ensures r.Success? ==> EntryLoop(entry, entry.plugins, environment, before, r.value.0, r.value.1)
  {
    var ids := identities;
    var policies: seq<Policy> := [];
    EntryStart(entry, environment, before, ids);
    for i := 0 to |entry.plugins|
      invariant EntryLoop(entry, entry.plugins[..i], environment, before, ids, policies)
    {
      var p := entry.plugins[i];
      var error := PluginError(entry, p);
      if error.Some? {
        PluginRefused(entry, before, i);
        return Failure(error.value);
      }
      EntryStep(entry, i, environment, before, ids, policies);
      var g := GranteeOf(entry, p);
      if GranteeIdentity(g) in ids {
        DuplicateRefused(entry, before, i + 1);
        return Failure(DuplicateIdentity);
      }
      ids := ids + {GranteeIdentity(g)};
      policies := WithPolicy(entry, g, environment, policies);
    }
    EntryEnd(entry, environment, before, ids, policies);
    r := Success((ids, policies));
  }

  /** The outer loop after some entries. */
  ghost predicate ManifestLoop(entries: seq<Entry>, environment: Environment, ids: set<string>, policies: seq<Policy>) {
    && (forall e :: e in entries ==> ValidEntry(e))
    && Collected(Grantees(entries), ids) && policies == Policies(entries, environment)
  }

  lemma ManifestStep(entries: seq<Entry>, k: nat, environment: Environment, ids: set<string>, policies: seq<Policy>,
                     ids': set<string>, more: seq<Policy>)
    requires k < |entries| && ManifestLoop(entries[..k], environment, ids, policies) && ValidEntry(entries[k])
    requires EntryLoop(entries[k], entries[k].plugins, environment, Grantees(entries[..k]), ids', more)
    ensures ManifestLoop(entries[..k + 1], environment, ids', policies + more)
  {
    var before, e := entries[..k], entries[k];
    assert entries[..k + 1] == before + [e];
    assert (before + [e])[..k] == before;
    assert Grantees(before + [e]) == Grantees(before) + GranteesOf(e, e.plugins);
    assert Policies(before + [e], environment) == policies + more;
  }

  lemma ManifestEnd(entries: seq<Entry>, environment: Environment, ids: set<string>, policies: seq<Policy>)
    requires ManifestLoop(entries[..|entries|], environment, ids, policies)
    ensures ValidManifest(entries) && policies == Policies(entries, environment)
  {
    assert entries[..|entries|] == entries;
  }

  /** An entry that is refused after the ones before it makes the whole manifest invalid. */
  lemma RefusedEntry(entries: seq<Entry>, k: nat)
    requires k < |entries|
    requires ValidEntry(entries[k]) ==> !EntryFits(entries[k], Grantees(entries[..k]))
    ensures !ValidManifest(entries)
  {
    assert entries[k] in entries;
    assert entries[..k + 1][..k] == entries[..k];
    if ValidManifest(entries) {
      ValidPrefix(entries, k + 1);
    }
  }

  /** productPluginCommandPolicies over the runCommands entries: succeeds exactly for a valid manifest. */
  method ProductPluginCommandPolicies(entries: seq<Entry>, environment: Environment)
    returns (r: Result<seq<Policy>, ManifestError>)
    ensures r.Success? <==> ValidManifest(entries)
    ensures r.Success? ==> r.value == Policies(entries, environment)
  {
    var identities: set<string> := {};
    var policies: seq<Policy> := [];
    for k := 0 to |entries|
      invariant ManifestLoop(entries[..k], environment, identities, policies)
    {
      var entry := entries[k];
      if !entry.othersValid {
        RefusedEntry(entries, k);
        return Failure(BadEntry);
      }
      if |entry.plugins| == 0 || |entry.plugins| > 64 {
        RefusedEntry(entries, k);
        return Failure(BadPlugins);
      }
      if entry.location.User? && |entry.providers| > 0 {
        RefusedEntry(entries, k);
        return Failure(UserProviders);
      }
      var collected := CollectEntry(entry, environment, identities, Grantees(entries[..k]));
      if collected.Failure? {
        RefusedEntry(entries, k);
        return Failure(collected.error);
      }
      ManifestStep(entries, k, environment, identities, policies, collected.value.0, collected.value.1);
      identities := collected.value.0;
      policies := policies + collected.value.1;
    }
    ManifestEnd(entries, environment, identities, policies);
    r := Success(policies);
  }

  // ----- What a valid manifest gives --------------------------------------------------------

  predicate SamePlugin(p: Policy, q: Policy) {
    p.source == q.source && p.bundleName == q.bundleName && p.packageName == q.packageName
  }

  /** Names without NUL, and no two policies for one plugin. */
  ghost predicate ValidPolicies(policies: seq<Policy>) {
    && (forall p :: p in policies ==> NulFree(p.bundleName) && NulFree(p.packageName))
    && (forall i, j :: 0 <= i < j < |policies| ==> !SamePlugin(policies[i], policies[j]))
  }

  function PolicyGrantee(environment: Environment, p: Policy): Grantee {
    Grantee(environment, p.source, p.bundleName, p.packageName)
  }

  function PolicyGrantees(environment: Environment, policies: seq<Policy>): seq<Grantee> {
    seq(|policies|, i requires 0 <= i < |policies| => PolicyGrantee(environment, policies[i]))
  }

  lemma PolicyGranteesAppend(environment: Environment, ps: seq<Policy>, qs: seq<Policy>)
    ensures PolicyGrantees(environment, ps + qs) == PolicyGrantees(environment, ps) + PolicyGrantees(environment, qs)
  {
  }

  /** The grantees of one environment. */
  function For(gs: seq<Grantee>, environment: Environment): seq<Grantee> {
    if gs == [] then []
    else For(gs[..|gs| - 1], environment) + if gs[|gs| - 1].environment == environment then [gs[|gs| - 1]] else []
  }

  lemma {:induction false} ForAppend(gs: seq<Grantee>, hs: seq<Grantee>, environment: Environment)
    ensures For(gs + hs, environment) == For(gs, environment) + For(hs, environment)
  {
    if hs == [] {
      assert gs + hs == gs;
    } else {
      assert (gs + hs)[..|gs + hs| - 1] == gs + hs[..|hs| - 1];
      ForAppend(gs, hs[..|hs| - 1], environment);
    }
  }

  lemma {:induction false} ForKeepsDistinct(gs: seq<Grantee>, environment: Environment)
    requires Distinct(gs)
    ensures Distinct(For(gs, environment))
    ensures forall g :: g in For(gs, environment) <==> g in gs && g.environment == environment
  {
    if gs != [] {
      var init, last := gs[..|gs| - 1], gs[|gs| - 1];
      assert gs == init + [last];
      DistinctSnoc(init, last);
      ForKeepsDistinct(init, environment);
      DistinctSnoc(For(init, environment), last);
      assert For(init, environment) + [] == For(init, environment);
    }
  }

  lemma {:induction false} EntryPolicyGrantees(e: Entry, plugins: seq<Plugin>, environment: Environment)
    ensures PolicyGrantees(environment, PoliciesOf(e, plugins, environment)) == For(GranteesOf(e, plugins), environment)
  {
    if plugins != [] {
      EntryPolicyGrantees(e, plugins[..|plugins| - 1], environment);
      assert GranteesOf(e, plugins)[..|plugins| - 1] == GranteesOf(e, plugins[..|plugins| - 1]);
    }
  }

  /** The policies name the environment's grantees, in the same order. */
  lemma {:induction false} ManifestPolicyGrantees(entries: seq<Entry>, environment: Environment)
    ensures PolicyGrantees(environment, Policies(entries, environment)) == For(Grantees(entries), environment)
  {
    if entries != [] {
      var init, e := entries[..|entries| - 1], entries[|entries| - 1];
      ManifestPolicyGrantees(init, environment);
      EntryPolicyGrantees(e, e.plugins, environment);
      ForAppend(Grantees(init), GranteesOf(e, e.plugins), environment);
      PolicyGranteesAppend(environment, Policies(init, environment), PoliciesOf(e, e.plugins, environment));
    }
  }

  lemma {:induction false} GranteesArePlain(entries: seq<Entry>, g: Grantee)
    requires (forall e :: e in entries ==> ValidEntry(e)) && g in Grantees(entries)
    ensures Plain(g)
  {
    var init, e := entries[..|entries| - 1], entries[|entries| - 1];
    assert e in entries;
    if g in Grantees(init) {
      GranteesArePlain(init, g);
    } else {
      var i :| 0 <= i < |e.plugins| && GranteesOf(e, e.plugins)[i] == g;
      assert ValidPlugin(e, e.plugins[i]);
    }
  }

  /** The policies of a valid manifest have NUL-free names and are for different plugins. */
  lemma ManifestPoliciesAreValid(entries: seq<Entry>, environment: Environment)
    requires ValidManifest(entries)
    ensures ValidPolicies(Policies(entries, environment))
  {
    var ps := Policies(entries, environment);
    var gs := PolicyGrantees(environment, ps);
    ManifestPolicyGrantees(entries, environment);
    ForKeepsDistinct(Grantees(entries), environment);
    forall p | p in ps ensures NulFree(p.bundleName) && NulFree(p.packageName) {
      var i :| 0 <= i < |ps| && ps[i] == p;
      assert gs[i] in For(Grantees(entries), environment);
      GranteesArePlain(entries, gs[i]);
    }
    DistinctMeans(gs);
    forall i, j | 0 <= i < j < |ps| ensures !SamePlugin(ps[i], ps[j]) {
      assert gs[i] != gs[j];
    }
  }

  /** What a plugin of an entry is granted. */
  function PolicyFor(e: Entry, p: Plugin): Policy
    requires p.Plugin?
  {
    Policy(p.bundleName, p.packageName, e.location, e.providers)
  }

  lemma {:induction false} EntryPoliciesArePlugins(e: Entry, plugins: seq<Plugin>, environment: Environment)
    requires forall p :: p in plugins ==> p.Plugin?
    ensures PoliciesOf(e, plugins, environment)
         == if e.environment != environment then []
            else seq(|plugins|, i requires 0 <= i < |plugins| => assert plugins[i] in plugins; PolicyFor(e, plugins[i]))
  {
    if plugins != [] && e.environment == environment {
      var init := plugins[..|plugins| - 1];
      assert plugins == init + [plugins[|plugins| - 1]];
      EntryPoliciesArePlugins(e, init, environment);
    }
  }

  lemma EntryPolicyIsPlugin(e: Entry, environment: Environment, policy: Policy)
    requires ValidEntry(e)
    ensures policy in PoliciesOf(e, e.plugins, environment) <==>
            e.environment == environment && exists p :: p in e.plugins && p.Plugin? && policy == PolicyFor(e, p)
  {
    assert forall p :: p in e.plugins ==> ValidPlugin(e, p);
    EntryPoliciesArePlugins(e, e.plugins, environment);
    var ps := PoliciesOf(e, e.plugins, environment);
    if e.environment == environment {
      forall p | p in e.plugins ensures PolicyFor(e, p) in ps {
        var i :| 0 <= i < |e.plugins| && e.plugins[i] == p;
        assert ps[i] == PolicyFor(e, p);
      }
      if policy in ps {
        var i :| 0 <= i < |ps| && ps[i] == policy;
        assert e.plugins[i] in e.plugins;
      }
    }
  }

  /**
   The policies of a valid manifest are, entry by entry and plugin by plugin, those of the entries for
   the environment: the plugin's bundle and package, the entry's location and providers.
   */
  lemma {:induction false} PoliciesArePlugins(entries: seq<Entry>, environment: Environment, policy: Policy)
    requires forall e :: e in entries ==> ValidEntry(e)
    ensures policy in Policies(entries, environment) <==>
            exists e :: e in entries && e.environment == environment
                        && exists p :: p in e.plugins && p.Plugin? && policy == PolicyFor(e, p)
  {
    if entries != [] {
      var init, last := entries[..|entries| - 1], entries[|entries| - 1];
      assert entries == init + [last];
      PoliciesArePlugins(init, environment, policy);
      EntryPolicyIsPlugin(last, environment, policy);
    }
  }
}
