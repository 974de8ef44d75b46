/**
 createProductCommandCapabilities of app/electron/runCmd.ts: capabilities for the product policies
 whose plugin was reported once and unambiguously.
 */
module CommandCapabilities {
  import opened Common
  import opened Identities
  import opened ManifestPolicies

  /** A field of a reported plugin; None stands for a value that is not a string. */
  type Field = Option<string>

  datatype Candidate =
    | NotAnObject
    | Registration(bundleName: Field, packageName: Field, path: Field, sourceDigest: Field, source: Field, kind: Field)

  datatype Capability = Capability(bundleName: string, packageName: string, source: Source, token: string,
                                   providers: seq<string>)

  datatype Registered = Registered(policy: Policy, webContentsId: int)

  const MAX_REGISTRATIONS := 256

  // ----- Registrations ----------------------------------------------------------------------

  function SourceNamed(f: Field): (r: Option<Source>)
    ensures r.Some? <==> f.Some? && f.value in {"development", "user", "shipped"}
    ensures r.Some? ==> SourceName(r.value) == f.value
  {
    if f == Some("development") then Some(Development)
    else if f == Some("user") then Some(User)
    else if f == Some("shipped") then Some(Shipped)
    else None
  }

  function InventoryPath(s: Source): string {
    match s
    case Development => "plugins"
    case User => "user-plugins"
    case Shipped => "static-plugins"
  }

  function SlashesOnly(path: string): string {
    seq(|path|, i requires 0 <= i < |path| => if path[i] == '\\' then '/' else path[i])
  }

  predicate WellFormed(c: Candidate) {
    && c.Registration? && c.bundleName.Some? && c.packageName.Some? && c.path.Some? && c.sourceDigest.Some?
    && HexDigest(c.sourceDigest.value) && SourceNamed(c.source).Some? && SourceNamed(c.kind).Some?
    && SlashesOnly(c.path.value) == InventoryPath(SourceNamed(c.source).value) + "/" + c.bundleName.value
  }

  /** The path is the expected one up to the direction of slashes, and no backslash is expected. */
  predicate PathIs(path: string, expected: string) {
    && |path| == |expected|
    && forall i :: 0 <= i < |path| ==>
         expected[i] != '\\' && (path[i] == expected[i] || (path[i] == '\\' && expected[i] == '/'))
  }

  lemma SlashesOnlyExactly(path: string, expected: string)
    ensures SlashesOnly(path) == expected <==> PathIs(path, expected)
  {
    if SlashesOnly(path) == expected {
      forall i | 0 <= i < |path|
        ensures expected[i] != '\\' && (path[i] == expected[i] || (path[i] == '\\' && expected[i] == '/'))
      {
        assert SlashesOnly(path)[i] == expected[i];
      }
    }
  }

  /**
   A registration is well formed exactly when all six fields are strings, the digest is one, kind and
   source are among the three inventories, and the path is the bundle's in the inventory of its source.
   */
  lemma WellFormedExactly(c: Candidate)
    ensures WellFormed(c) <==>
            && c.Registration? && c.bundleName.Some? && c.packageName.Some? && c.path.Some?
            && c.sourceDigest.Some? && HexDigest(c.sourceDigest.value)
            && c.kind in {Some("development"), Some("user"), Some("shipped")}
            && (|| (c.source == Some("development") && PathIs(c.path.value, "plugins" + "/" + c.bundleName.value))
                || (c.source == Some("user") && PathIs(c.path.value, "user-plugins" + "/" + c.bundleName.value))
                || (c.source == Some("shipped") && PathIs(c.path.value, "static-plugins" + "/" + c.bundleName.value)))
  {
    if c.Registration? && c.bundleName.Some? && c.path.Some? {
      var name := c.bundleName.value;
      SlashesOnlyExactly(c.path.value, "plugins" + "/" + name);
      SlashesOnlyExactly(c.path.value, "user-plugins" + "/" + name);
      SlashesOnlyExactly(c.path.value, "static-plugins" + "/" + name);
    }
    if c.Registration? {
      SourceNames(c.source);
      SourceNames(c.kind);
    }
  }

  lemma SourceNames(f: Field)
    ensures SourceNamed(f) == if f == Some("development") then Some(Development)
                              else if f == Some("user") then Some(User)
                              else if f == Some("shipped") then Some(Shipped) else None
  {
  }

  /** The identity a candidate is filed under; none for a malformed one. */
  function KeyOf(c: Candidate): Option<string> {
    if WellFormed(c) then Some(Identity(c.source.value, c.bundleName.value, c.packageName.value)) else None
  }

  function KeysOf(cs: seq<Candidate>): seq<Option<string>> {
    seq(|cs|, i requires 0 <= i < |cs| => KeyOf(cs[i]))
  }

  function PolicyIdentity(p: Policy): string {
    Identity(SourceName(p.source), p.bundleName, p.packageName)
  }

  /** A well-formed registration with precisely the policy's source, bundle and package. */
  predicate Carries(c: Candidate, p: Policy) {
    && WellFormed(c) && SourceNamed(c.source) == Some(p.source)
    && c.bundleName.value == p.bundleName && c.packageName.value == p.packageName
  }

  ghost predicate OnlyCarrier(cs: seq<Candidate>, p: Policy, i: nat) {
    i < |cs| && Carries(cs[i], p) && forall j :: 0 <= j < |cs| && Carries(cs[j], p) ==> j == i
  }

  /** One and only one registration carries the policy's identity, and there are not too many of them. */
  ghost predicate Entitled(registrations: Option<seq<Candidate>>, p: Policy) {
    && registrations.Some? && |registrations.value| <= 256
    && exists i: nat :: OnlyCarrier(registrations.value, p, i)
  }

  /** The NUL-joined key decides exactly that, whatever the registration's own fields hold. */
  lemma CarriesIsKey(c: Candidate, p: Policy)
    requires NulFree(p.bundleName) && NulFree(p.packageName)
    ensures Carries(c, p) <==> KeyOf(c) == Some(PolicyIdentity(p))
  {
    if WellFormed(c) {
      var s := SourceNamed(c.source).value;
      NamesAreNulFree(p.source, ProductionBuild);
      NamesAreNulFree(s, ProductionBuild);
      NamesDiffer(p.source, s, ProductionBuild, ProductionBuild);
      IdentityIsExact(SourceName(p.source), p.bundleName, p.packageName, c.source.value, c.bundleName.value,
                      c.packageName.value);
    }
  }

  lemma EntitledIsCountOne(cs: seq<Candidate>, p: Policy)
    requires NulFree(p.bundleName) && NulFree(p.packageName) && |cs| <= MAX_REGISTRATIONS
    ensures Entitled(Some(cs), p) <==> Count(KeysOf(cs), PolicyIdentity(p)) == 1
  {
    CountOne(KeysOf(cs), PolicyIdentity(p));
    forall i: nat ensures OnlyCarrier(cs, p, i) <==> OnlyAt(KeysOf(cs), PolicyIdentity(p), i) {
      OnlyCarrierIsOnlyAt(cs, p, i);
    }
  }

  lemma OnlyCarrierIsOnlyAt(cs: seq<Candidate>, p: Policy, i: nat)
    requires NulFree(p.bundleName) && NulFree(p.packageName)
    ensures OnlyCarrier(cs, p, i) <==> OnlyAt(KeysOf(cs), PolicyIdentity(p), i)
  {
    forall j | 0 <= j < |cs| ensures Carries(cs[j], p) <==> KeysOf(cs)[j] == Some(PolicyIdentity(p)) {
      CarriesIsKey(cs[j], p);
    }
  }

  // ----- The first loop ---------------------------------------------------------------------

  /** Filed once, or seen twice or more. */
  ghost predicate Filed<V>(keys: seq<Option<string>>, byIdentity: map<string, V>, ambiguous: set<string>) {
    forall id :: (id in byIdentity <==> Count(keys, id) == 1) && (id in ambiguous <==> Count(keys, id) >= 2)
  }

  lemma FileOne<V>(keys: seq<Option<string>>, byIdentity: map<string, V>, ambiguous: set<string>, key: Option<string>,
                   v: V)
    requires Filed(keys, byIdentity, ambiguous)
    ensures key.None? ==> Filed(keys + [key], byIdentity, ambiguous)
    ensures key.Some? && (key.value in byIdentity || key.value in ambiguous) ==>
              Filed(keys + [key], byIdentity - {key.value}, ambiguous + {key.value})
    ensures key.Some? && key.value !in byIdentity && key.value !in ambiguous ==>
              Filed(keys + [key], byIdentity[key.value := v], ambiguous)
  {
    assert (keys + [key])[..|keys|] == keys;
    assert forall id :: Count(keys + [key], id) == Count(keys, id) + if key == Some(id) then 1 else 0;
  }

  method FileRegistrations(registrations: seq<Candidate>) returns (byIdentity: map<string, Candidate>)
    ensures forall id :: id in byIdentity <==> Count(KeysOf(registrations), id) == 1
  {
    byIdentity := map[];
    var ambiguous: set<string> := {};
    for i := 0 to |registrations|
      invariant Filed(KeysOf(registrations[..i]), byIdentity, ambiguous)
    {
      var candidate := registrations[i];
      assert KeysOf(registrations[..i + 1]) == KeysOf(registrations[..i]) + [KeyOf(candidate)];
      FileOne(KeysOf(registrations[..i]), byIdentity, ambiguous, KeyOf(candidate), candidate);
      if !WellFormed(candidate) {
        continue;
      }
      var identity := Identity(candidate.source.value, candidate.bundleName.value, candidate.packageName.value);
      if identity in byIdentity || identity in ambiguous {
        byIdentity := byIdentity - {identity};
        ambiguous := ambiguous + {identity};
        continue;
      }
      byIdentity := byIdentity[identity := candidate];
    }
    assert registrations[..|registrations|] == registrations;
  }

  // ----- Issuing ----------------------------------------------------------------------------

  function CapabilityOf(p: Policy, token: string): Capability {
    Capability(p.bundleName, p.packageName, p.source, token, p.providers)
  }

  /** The entitled policies among the first ones, in order. */
  ghost function EntitledPolicies(registrations: Option<seq<Candidate>>, policies: seq<Policy>): seq<Policy> {
    if policies == [] then []
    else
      var p := policies[|policies| - 1];
      EntitledPolicies(registrations, policies[..|policies| - 1]) + if Entitled(registrations, p) then [p] else []
  }

  /** The i-th capability issued is for the i-th entitled policy and carries the i-th token drawn. */
  function Capabilities(entitled: seq<Policy>, tokens: seq<string>): seq<Capability>
    requires |entitled| <= |tokens|
  {
    if entitled == [] then []
    else
      var n := |entitled| - 1;
      Capabilities(entitled[..n], tokens) + [CapabilityOf(entitled[n], tokens[n])]
  }

  function Registry(entitled: seq<Policy>, tokens: seq<string>, webContentsId: int): map<string, Registered>
    requires |entitled| <= |tokens|
  {
    if entitled == [] then map[]
    else
      var n := |entitled| - 1;
      Registry(entitled[..n], tokens, webContentsId)[tokens[n] := Registered(entitled[n], webContentsId)]
  }

  /** The second loop after k policies. */
  ghost predicate Issuing(entitled: seq<Policy>, k: nat, tokens: seq<string>, webContentsId: int,
                          capabilities: seq<Capability>, registry: map<string, Registered>) {
    && |capabilities| == |entitled| <= k <= |tokens|
    && capabilities == Capabilities(entitled, tokens) && registry == Registry(entitled, tokens, webContentsId)
  }

  lemma IssueOne(entitled: seq<Policy>, k: nat, tokens: seq<string>, webContentsId: int, capabilities: seq<Capability>,
                 registry: map<string, Registered>, p: Policy)
    requires Issuing(entitled, k, tokens, webContentsId, capabilities, registry) && k < |tokens|
    ensures var t := tokens[|capabilities|];
            Issuing(entitled + [p], k + 1, tokens, webContentsId, capabilities + [CapabilityOf(p, t)],
                    registry[t := Registered(p, webContentsId)])
  {
    assert (entitled + [p])[..|entitled|] == entitled;
  }

  /**
   createProductCommandCapabilities; `registrations` is None when it is not an array, and `tokens`
   are the random values drawn.
   */
  method CreateProductCommandCapabilities(registrations: Option<seq<Candidate>>, policies: seq<Policy>,
                                          webContentsId: int, tokens: seq<string>)
    returns (capabilities: seq<Capability>, registry: map<string, Registered>)
    requires |tokens| >= |policies|
    requires forall p :: p in policies ==> NulFree(p.bundleName) && NulFree(p.packageName)
    ensures |EntitledPolicies(registrations, policies)| <= |policies|
    ensures capabilities == Capabilities(EntitledPolicies(registrations, policies), tokens)
    ensures registry == Registry(EntitledPolicies(registrations, policies), tokens, webContentsId)
  {
    capabilities, registry := [], map[];
    if registrations.None? || |registrations.value| > MAX_REGISTRATIONS {
      NobodyEntitled(registrations, policies);
      return;
    }
    var byIdentity := FileRegistrations(registrations.value);
    for k := 0 to |policies|
      invariant Issuing(EntitledPolicies(registrations, policies[..k]), k, tokens, webContentsId,
                        capabilities, registry)
    {
      var p := policies[k];
      IssueStep(registrations.value, policies, k, tokens, webContentsId, capabilities, registry);
      if PolicyIdentity(p) !in byIdentity {
        continue;
      }
      var token := tokens[|capabilities|];
      capabilities := capabilities + [CapabilityOf(p, token)];
      registry := registry[token := Registered(p, webContentsId)];
    }
    assert policies[..|policies|] == policies;
  }

  /** One turn of the second loop, for a policy whose identity is filed and for one whose is not. */
  lemma IssueStep(cs: seq<Candidate>, policies: seq<Policy>, k: nat, tokens: seq<string>, webContentsId: int,
                  capabilities: seq<Capability>, registry: map<string, Registered>)
    requires k < |policies| <= |tokens| && |cs| <= MAX_REGISTRATIONS
    requires NulFree(policies[k].bundleName) && NulFree(policies[k].packageName)
    requires Issuing(EntitledPolicies(Some(cs), policies[..k]), k, tokens, webContentsId, capabilities, registry)
    ensures var p, es := policies[k], EntitledPolicies(Some(cs), policies[..k + 1]);
            if Count(KeysOf(cs), PolicyIdentity(p)) == 1 then
              var t := tokens[|capabilities|];
              Issuing(es, k + 1, tokens, webContentsId, capabilities + [CapabilityOf(p, t)],
                      registry[t := Registered(p, webContentsId)])
            else
              Issuing(es, k + 1, tokens, webContentsId, capabilities, registry)
  {
    EntitledStep(Some(cs), policies, k);
    EntitledIsCountOne(cs, policies[k]);
    IssueOne(EntitledPolicies(Some(cs), policies[..k]), k, tokens, webContentsId, capabilities, registry, policies[k]);
  }

  lemma EntitledStep(registrations: Option<seq<Candidate>>, policies: seq<Policy>, k: nat)
    requires k < |policies|
    ensures EntitledPolicies(registrations, policies[..k + 1])
         == if Entitled(registrations, policies[k]) then EntitledPolicies(registrations, policies[..k]) + [policies[k]]
            else EntitledPolicies(registrations, policies[..k])
  {
    assert policies[..k + 1][..k] == policies[..k];
  }

  lemma {:induction false} NobodyEntitled(registrations: Option<seq<Candidate>>, policies: seq<Policy>)
    requires registrations.None? || |registrations.value| > MAX_REGISTRATIONS
    ensures EntitledPolicies(registrations, policies) == []
  {
    if policies != [] { NobodyEntitled(registrations, policies[..|policies| - 1]); }
  }

  // ----- What issuing means -----------------------------------------------------------------

  lemma {:induction false} EntitledAmong(registrations: Option<seq<Candidate>>, policies: seq<Policy>)
    ensures forall p :: p in EntitledPolicies(registrations, policies) <==> p in policies && Entitled(registrations, p)
  {
    if policies != [] {
      EntitledAmong(registrations, policies[..|policies| - 1]);
      assert policies == policies[..|policies| - 1] + [policies[|policies| - 1]];
    }
  }

  lemma {:induction false} EntitledStayDifferent(registrations: Option<seq<Candidate>>, policies: seq<Policy>)
    requires ValidPolicies(policies)
    ensures ValidPolicies(EntitledPolicies(registrations, policies))
  {
    if policies != [] {
      var init, last := policies[..|policies| - 1], policies[|policies| - 1];
      EntitledStayDifferent(registrations, init);
      EntitledAmong(registrations, init);
      var es := EntitledPolicies(registrations, init);
      forall i | 0 <= i < |es| ensures !SamePlugin(es[i], last) {
        assert es[i] in init;
        var j :| 0 <= j < |init| && init[j] == es[i];
        assert !SamePlugin(policies[j], policies[|policies| - 1]);
      }
      EntitledAmong(registrations, policies);
    }
  }

  lemma {:induction false} CapabilityAt(entitled: seq<Policy>, tokens: seq<string>, i: nat)
    requires i < |entitled| <= |tokens|
    ensures |Capabilities(entitled, tokens)| == |entitled|
    ensures Capabilities(entitled, tokens)[i] == CapabilityOf(entitled[i], tokens[i])
  {
    var n := |entitled| - 1;
    if n > 0 { CapabilityAt(entitled[..n], tokens, if i < n then i else 0); }
  }

  lemma {:induction false} RegistryTokens(entitled: seq<Policy>, tokens: seq<string>, webContentsId: int, t: string)
    requires |entitled| <= |tokens|
    ensures t in Registry(entitled, tokens, webContentsId) <==> t in tokens[..|entitled|]
  {
    if entitled != [] {
      var n := |entitled| - 1;
      RegistryTokens(entitled[..n], tokens, webContentsId, t);
      assert tokens[..n + 1] == tokens[..n] + [tokens[n]];
    }
  }

  lemma {:induction false} RegistryAt(entitled: seq<Policy>, tokens: seq<string>, webContentsId: int, i: nat)
    requires i < |entitled| <= |tokens| && Distinct(tokens)
    ensures tokens[i] in Registry(entitled, tokens, webContentsId)
    ensures Registry(entitled, tokens, webContentsId)[tokens[i]] == Registered(entitled[i], webContentsId)
  {
    var n := |entitled| - 1;
    if i < n {
      RegistryAt(entitled[..n], tokens, webContentsId, i);
      DistinctMeans(tokens);
    }
  }

  lemma SamePluginIsSame(policies: seq<Policy>, p: Policy, q: Policy)
    requires ValidPolicies(policies) && p in policies && q in policies && SamePlugin(p, q)
    ensures p == q
  {
    var i :| 0 <= i < |policies| && policies[i] == p;
    var j :| 0 <= j < |policies| && policies[j] == q;
    assert SamePlugin(policies[i], policies[j]) && SamePlugin(policies[j], policies[i]);
  }

  predicate IsFor(c: Capability, p: Policy) {
    c.source == p.source && c.bundleName == p.bundleName && c.packageName == p.packageName
  }

  lemma EntitledLength(registrations: Option<seq<Candidate>>, policies: seq<Policy>)
    ensures |EntitledPolicies(registrations, policies)| <= |policies|
  {
  }

  /**
   For the policies of an admitted manifest: a policy gets a capability exactly when one and only
   one well-formed registration carries its source, bundle and package.
   */
  lemma CapabilityExactlyWhenEntitled(entries: seq<Entry>, environment: Environment,
                                      registrations: Option<seq<Candidate>>, tokens: seq<string>, p: Policy)
    requires ValidManifest(entries) && p in Policies(entries, environment)
    requires |Policies(entries, environment)| <= |tokens|
    ensures var es := EntitledPolicies(registrations, Policies(entries, environment));
            && |es| <= |tokens|
            && (Entitled(registrations, p) <==> exists c :: c in Capabilities(es, tokens) && IsFor(c, p))
  {
    var policies := Policies(entries, environment);
    var es := EntitledPolicies(registrations, policies);
    EntitledLength(registrations, policies);
    EntitledAmong(registrations, policies);
    ManifestPoliciesAreValid(entries, environment);
    var cs := Capabilities(es, tokens);
    if Entitled(registrations, p) {
      var i :| 0 <= i < |es| && es[i] == p;
      CapabilityAt(es, tokens, i);
      assert cs[i] in cs && IsFor(cs[i], p);
    } else if c :| c in cs && IsFor(c, p) {
      CapabilitiesLength(es, tokens);
      var i :| 0 <= i < |cs| && cs[i] == c;
      CapabilityAt(es, tokens, i);
      assert es[i] in es;
      SamePluginIsSame(policies, es[i], p);
    }
  }

  lemma CapabilitiesLength(entitled: seq<Policy>, tokens: seq<string>)
    requires |entitled| <= |tokens|
    ensures |Capabilities(entitled, tokens)| == |entitled|
  {
    if entitled != [] { CapabilityAt(entitled, tokens, 0); }
  }

  /**
   No plugin gets two capabilities, and the registry binds each token issued, and no other, to the
   policy of the plugin it was issued to.
   */
  lemma EachPluginAtMostOnce(entries: seq<Entry>, environment: Environment, registrations: Option<seq<Candidate>>,
                             tokens: seq<string>, webContentsId: int)
    requires ValidManifest(entries) && Distinct(tokens) && |Policies(entries, environment)| <= |tokens|
    ensures var es := EntitledPolicies(registrations, Policies(entries, environment));
            && |es| <= |tokens|
            && var cs, registry := Capabilities(es, tokens), Registry(es, tokens, webContentsId);
               && (forall i, j, p :: 0 <= i < |cs| && 0 <= j < |cs| && IsFor(cs[i], p) && IsFor(cs[j], p) ==> i == j)
               && (forall t :: t in registry ==> exists i :: 0 <= i < |cs| && cs[i].token == t)
               && |cs| == |es|
               && (forall i :: 0 <= i < |cs| ==>
                     && cs[i].token in registry && registry[cs[i].token] == Registered(es[i], webContentsId)
                     && IsFor(cs[i], es[i]) && cs[i].providers == es[i].providers)
  {
    var policies := Policies(entries, environment);
    var es := EntitledPolicies(registrations, policies);
    EntitledLength(registrations, policies);
    ManifestPoliciesAreValid(entries, environment);
    EntitledStayDifferent(registrations, policies);
    var cs, registry := Capabilities(es, tokens), Registry(es, tokens, webContentsId);
    CapabilitiesLength(es, tokens);
    forall i | 0 <= i < |cs|
      ensures cs[i] == CapabilityOf(es[i], tokens[i])
              && tokens[i] in registry && registry[tokens[i]] == Registered(es[i], webContentsId) {
      CapabilityAt(es, tokens, i);
      RegistryAt(es, tokens, webContentsId, i);
    }
    forall i, j, p | 0 <= i < |cs| && 0 <= j < |cs| && IsFor(cs[i], p) && IsFor(cs[j], p) ensures i == j {
      assert SamePlugin(es[i], es[j]) && SamePlugin(es[j], es[i]);
    }
    forall t | t in registry ensures exists i :: 0 <= i < |cs| && cs[i].token == t {
      RegistryTokens(es, tokens, webContentsId, t);
      var i :| 0 <= i < |es| && tokens[..|es|][i] == t;
      assert cs[i].token == t;
    }
  }
}
