/**
 The kubeconfig merge of app/electron/cluster-registration.ts.

 A parsed YAML document is a tree of `Value`s and a kubeconfig is its top-level object. The
 loops of the source are methods; each is proved against a specification that speaks about
 names and entries and not about loop order.
 */
module KubeconfigMerge {
  import opened Common
  import opened NamedLists

  /** A parsed YAML value; scalars other than strings keep their canonical text. */
  datatype Value =
    | Str(s: string)
    | Scalar(repr: string)
    | Arr(items: seq<Value>)
    | Obj(fields: map<string, Value>)

  type Config = map<string, Value>
  type Entries = seq<Named<Value>>

  /** The text of a kubeconfig file, up to the YAML codec. */
  datatype Document = Blank | Malformed | Parsed(config: Config)

  type Files = map<string, Document>

  /** A file that does not exist reads as an empty one. */
  function Contents(fs: Files, path: string): Document {
    if path in fs then fs[path] else Blank
  }

  datatype Error = BadDocument | BadEntries | ClusterConflict | ContextConflict | UserConflict

  // ----- Reading values -------------------------------------------------------------------

  /** JavaScript truthiness of a value read from YAML. */
  predicate Truthy(v: Value) {
    match v
    case Str(s) => s != ""
    case Scalar(repr) => repr !in {"null", "false", "0", "-0", "NaN"}
    case _ => true
  }

  predicate IsNonBlank(v: Option<Value>) {
    v.Some? && v.value.Str? && NonBlank(v.value.s)
  }

  /** The optional chain `v?.key`. */
  function Prop(v: Option<Value>, key: string): Option<Value> {
    if v.Some? && v.value.Obj? && key in v.value.fields then Some(v.value.fields[key]) else None
  }

  function Field(config: Config, key: string): Option<Value> {
    if key in config then Some(config[key]) else None
  }

  /** An entry getNamedEntries accepts: an object whose name is a non-blank string. */
  predicate IsEntry(v: Value) {
    IsNonBlank(Prop(Some(v), "name"))
  }

  function Tag(v: Value): Named<Value>
    requires IsEntry(v)
  {
    Named(Prop(Some(v), "name").value.s, v)
  }

  function ClusterBody(e: Value): Option<Value> { Prop(Some(e), "cluster") }
  function ContextBody(e: Value): Option<Value> { Prop(Some(e), "context") }
  function UserBody(e: Value): Option<Value> { Prop(Some(e), "user") }
  function Server(e: Value): Option<Value> { Prop(ClusterBody(e), "server") }
  function ContextCluster(e: Value): Option<Value> { Prop(ContextBody(e), "cluster") }
  function ContextUser(e: Value): Option<Value> { Prop(ContextBody(e), "user") }

  // ----- The three named lists of a kubeconfig ----------------------------------------------

  ghost predicate AllEntries(items: seq<Value>) {
    forall i :: 0 <= i < |items| ==> IsEntry(items[i])
  }

  ghost function TagAll(items: seq<Value>): Entries
    requires AllEntries(items)
  {
    seq(|items|, i requires 0 <= i < |items| => Tag(items[i]))
  }

  /** A list value that getNamedEntries returns rather than rejects; an absent list is empty. */
  ghost predicate Accepted(raw: Option<Value>) {
    raw.None? || (raw.value.Arr? && AllEntries(raw.value.items) && Unique(TagAll(raw.value.items)))
  }

  ghost function Listed(raw: Option<Value>): Entries {
    if raw.Some? && Accepted(raw) then TagAll(raw.value.items) else []
  }

  /** Every pair carries the name found in its entry. */
  ghost predicate Tagged(es: Entries) {
    forall i :: 0 <= i < |es| ==> IsEntry(es[i].entry) && es[i] == Tag(es[i].entry)
  }

  function Untag(es: Entries): Value {
    Arr(seq(|es|, i requires 0 <= i < |es| => es[i].entry))
  }

  lemma ListedUntag(es: Entries)
    requires Tagged(es) && Unique(es)
    ensures Accepted(Some(Untag(es))) && Listed(Some(Untag(es))) == es
  {
    assert TagAll(Untag(es).items) == es;
  }

  /** The parts of a kubeconfig that merging looks at. */
  datatype Parts = Parts(clusters: Entries, contexts: Entries, users: Entries, current: Option<Value>)

  ghost predicate Coherent(p: Parts) {
    && Unique(p.clusters) && Unique(p.contexts) && Unique(p.users)
    && Tagged(p.clusters) && Tagged(p.contexts) && Tagged(p.users)
  }

  ghost predicate WellFormed(c: Config) {
    && Accepted(Field(c, "clusters"))
    && Accepted(Field(c, "contexts"))
    && Accepted(Field(c, "users"))
  }

  ghost function PartsOf(c: Config): Parts {
    Parts(Listed(Field(c, "clusters")), Listed(Field(c, "contexts")), Listed(Field(c, "users")),
          Field(c, "current-context"))
  }

  lemma PartsOfCoherent(c: Config)
    requires WellFormed(c)
    ensures Coherent(PartsOf(c))
  {
  }

  function Assemble(base: Config, p: Parts): Config {
    var c := base["clusters" := Untag(p.clusters)]["contexts" := Untag(p.contexts)]["users" := Untag(p.users)];
    if p.current.Some? then c["current-context" := p.current.value] else c
  }

  lemma PartsOfAssemble(base: Config, p: Parts)
    requires Coherent(p)
    requires p.current.None? ==> "current-context" !in base
    ensures WellFormed(Assemble(base, p)) && PartsOf(Assemble(base, p)) == p
  {
    ListedUntag(p.clusters);
    ListedUntag(p.contexts);
    ListedUntag(p.users);
  }

  // ----- What merging promises --------------------------------------------------------------

  /** Some context that the generated config does not redefine refers to that cluster. */
  predicate PreservedCluster(base: Parts, gen: Parts, cluster: string) {
    exists i :: 0 <= i < |base.contexts| && ContextCluster(base.contexts[i].entry) == Some(Str(cluster))
                && !Has(gen.contexts, base.contexts[i].name)
  }

  predicate PreservedUser(base: Parts, gen: Parts, user: string) {
    exists i :: 0 <= i < |base.contexts| && ContextUser(base.contexts[i].entry) == Some(Str(user))
                && !Has(gen.contexts, base.contexts[i].name)
  }

  /** A cluster may be replaced by one with the same API server, and by an equal one if still in use. */
  predicate SameCluster(existing: Value, new_: Value, inUse: bool) {
    && IsNonBlank(Server(existing))
    && Server(existing) == Server(new_)
    && (inUse ==> ClusterBody(existing) == ClusterBody(new_))
  }

  ghost predicate ClusterAgrees(base: Parts, gen: Parts, g: Named<Value>) {
    var taken := View(base.clusters);
    g.name in taken ==> SameCluster(taken[g.name], g.entry, PreservedCluster(base, gen, g.name))
  }

  ghost predicate ContextAgrees(base: Parts, g: Named<Value>) {
    var taken := View(base.contexts);
    g.name in taken ==> ContextBody(taken[g.name]) == ContextBody(g.entry)
  }

  ghost predicate UserAgrees(base: Parts, gen: Parts, g: Named<Value>) {
    var taken := View(base.users);
    g.name in taken && PreservedUser(base, gen, g.name) ==> UserBody(taken[g.name]) == UserBody(g.entry)
  }

  ghost predicate ClustersAgree(base: Parts, gen: Parts) {
    forall i :: 0 <= i < |gen.clusters| ==> ClusterAgrees(base, gen, gen.clusters[i])
  }

  ghost predicate ContextsAgree(base: Parts, gen: Parts) {
    forall i :: 0 <= i < |gen.contexts| ==> ContextAgrees(base, gen.contexts[i])
  }

  ghost predicate UsersAgree(base: Parts, gen: Parts) {
    forall i :: 0 <= i < |gen.users| ==> UserAgrees(base, gen, gen.users[i])
  }

  ghost predicate Mergeable(base: Parts, gen: Parts) {
    ClustersAgree(base, gen) && ContextsAgree(base, gen) && UsersAgree(base, gen)
  }

  ghost function Merged(base: Parts, gen: Parts): Parts {
    Parts(PutAll(base.clusters, gen.clusters), PutAll(base.contexts, gen.contexts),
          PutAll(base.users, gen.users),
          if gen.current.Some? && Truthy(gen.current.value) then gen.current else base.current)
  }

  function ConfigOf(d: Document): Config {
    if d.Parsed? then d.config else map[]
  }

  /** The whole merge: which error comes first, and otherwise the merged configuration. */
  ghost function MergeOutcome(existing: Document, generated: Document): Result<Config, Error> {
    var e, g := ConfigOf(existing), ConfigOf(generated);
    if existing.Malformed? || generated.Malformed? then Failure(BadDocument)
    else if !WellFormed(e) || !WellFormed(g) then Failure(BadEntries)
    else if !ClustersAgree(PartsOf(e), PartsOf(g)) then Failure(ClusterConflict)
    else if !ContextsAgree(PartsOf(e), PartsOf(g)) then Failure(ContextConflict)
    else if !UsersAgree(PartsOf(e), PartsOf(g)) then Failure(UserConflict)
    else Success(Assemble(e, Merged(PartsOf(e), PartsOf(g))))
  }

  lemma PutAllTagged(es: Entries, news: Entries)
    requires Tagged(es) && Tagged(news)
    ensures Tagged(PutAll(es, news))
  {
    if news != [] {
      PutAllTagged(es, news[..|news| - 1]);
    }
  }

  lemma MergedCoherent(base: Parts, gen: Parts)
    requires Coherent(base) && Coherent(gen)
    ensures Coherent(Merged(base, gen))
  {
    PutAllView(base.clusters, gen.clusters);
    PutAllView(base.contexts, gen.contexts);
    PutAllView(base.users, gen.users);
    PutAllTagged(base.clusters, gen.clusters);
    PutAllTagged(base.contexts, gen.contexts);
    PutAllTagged(base.users, gen.users);
  }

  // ----- The source's loops -----------------------------------------------------------------

  ghost predicate NamesOf(es: Entries, names: set<string>) {
    forall n :: n in names <==> Has(es, n)
  }

  lemma NamesSnoc(es: Entries, names: set<string>, e: Named<Value>)
    requires NamesOf(es, names) && Unique(es)
    ensures NamesOf(es + [e], names + {e.name})
    ensures Unique(es + [e]) <==> e.name !in names
  {
    var all := es + [e];
    assert all[|es|] == e && forall i :: 0 <= i < |es| ==> all[i] == es[i];
    forall n ensures n in names + {e.name} <==> Has(all, n) {
      if Has(es, n) { var i :| 0 <= i < |es| && es[i].name == n; assert all[i].name == n; }
    }
    if e.name in names {
      var i :| 0 <= i < |es| && es[i].name == e.name;
      assert all[i].name == all[|es|].name;
    }
  }

  lemma RepeatedStays(es: Entries, more: Entries)
    requires !Unique(es)
    ensures !Unique(es + more)
  {
    var all := es + more;
    var i, j :| 0 <= i < j < |es| && es[i].name == es[j].name;
    assert all[i].name == all[j].name;
  }

  /** getNamedEntries: reject malformed or repeated names, read an absent list as empty. */
  method GetNamedEntries(config: Config, key: string) returns (r: Result<Entries, Error>)
    ensures r == if Accepted(Field(config, key)) then Success(Listed(Field(config, key))) else Failure(BadEntries)
  {
    if key !in config {
      return Success([]);
    }
    if !config[key].Arr? {
      return Failure(BadEntries);
    }
    var items := config[key].items;
    for i := 0 to |items|
      invariant forall j :: 0 <= j < i ==> IsEntry(items[j])
    {
      if !IsEntry(items[i]) {
        return Failure(BadEntries);
      }
    }
    assert AllEntries(items);
    ghost var tagged := TagAll(items);
    var entries: Entries := [];
    var names: set<string> := {};
    for i := 0 to |items|
      invariant entries == tagged[..i]
      invariant NamesOf(entries, names) && Unique(entries)
    {
      var e := Tag(items[i]);
      NamesSnoc(entries, names, e);
      if e.name in names {
        assert tagged == entries + [e] + tagged[i + 1..];
        RepeatedStays(entries + [e], tagged[i + 1..]);
        return Failure(BadEntries);
      }
      entries := entries + [e];
      names := names + {e.name};
    }
    assert entries == tagged;
    return Success(entries);
  }

  /** The first loop of mergeKubeconfig. */
  method MergeClusters(base: Parts, gen: Parts) returns (r: Result<Entries, Error>)
    requires Unique(base.clusters) && Unique(gen.clusters)
    ensures r
         == if ClustersAgree(base, gen) then Success(PutAll(base.clusters, gen.clusters)) else Failure(ClusterConflict)
  {
    var existing := base.clusters;
    for k := 0 to |gen.clusters|
      invariant existing == PutAll(base.clusters, gen.clusters[..k])
      invariant forall j :: 0 <= j < k ==> ClusterAgrees(base, gen, gen.clusters[j])
    {
      var cluster := gen.clusters[k];
      var idx := FindIndex(existing, cluster.name);
      MergeStep(base.clusters, gen.clusters, k, existing, idx);
      if idx >= 0 && !SameCluster(existing[idx].entry, cluster.entry, PreservedCluster(base, gen, cluster.name)) {
        return Failure(ClusterConflict);
      }
      existing := Put(existing, cluster);
    }
    assert gen.clusters[..|gen.clusters|] == gen.clusters;
    return Success(existing);
  }

  /** The second loop of mergeKubeconfig. */
  method MergeContexts(base: Parts, gen: Parts) returns (r: Result<Entries, Error>)
    requires Unique(base.contexts) && Unique(gen.contexts)
    ensures r
         == if ContextsAgree(base, gen) then Success(PutAll(base.contexts, gen.contexts)) else Failure(ContextConflict)
  {
    var existing := base.contexts;
    for k := 0 to |gen.contexts|
      invariant existing == PutAll(base.contexts, gen.contexts[..k])
      invariant forall j :: 0 <= j < k ==> ContextAgrees(base, gen.contexts[j])
    {
      var context := gen.contexts[k];
      var idx := FindIndex(existing, context.name);
      MergeStep(base.contexts, gen.contexts, k, existing, idx);
      if idx >= 0 && ContextBody(existing[idx].entry) != ContextBody(context.entry) {
        return Failure(ContextConflict);
      }
      existing := Put(existing, context);
    }
    assert gen.contexts[..|gen.contexts|] == gen.contexts;
    return Success(existing);
  }

  /**
   The test of the third loop: a context of the already merged list refers to the user, and no
   generated context of that name does.
   */
  predicate PreservedAfterMerge(contexts: Entries, gen: Entries, user: string) {
    exists i :: 0 <= i < |contexts| && ContextUser(contexts[i].entry) == Some(Str(user))
                && !RefersTo(gen, contexts[i].name, user)
  }

  predicate RefersTo(gen: Entries, context: string, user: string) {
    exists j :: 0 <= j < |gen| && gen[j].name == context && ContextUser(gen[j].entry) == Some(Str(user))
  }

  /** Testing the merged list is the same as testing the old list for contexts not redefined. */
  lemma PreservedAfterMergeIsPreserved(base: Parts, gen: Parts, user: string)
    requires Coherent(base) && Coherent(gen) && ContextsAgree(base, gen)
    ensures PreservedAfterMerge(PutAll(base.contexts, gen.contexts), gen.contexts, user)
            <==> PreservedUser(base, gen, user)
  {
    var merged := PutAll(base.contexts, gen.contexts);
    PutAllView(base.contexts, gen.contexts);
    if PreservedUser(base, gen, user) {
      var i :| 0 <= i < |base.contexts| && ContextUser(base.contexts[i].entry) == Some(Str(user))
               && !Has(gen.contexts, base.contexts[i].name);
      var n := base.contexts[i].name;
      ViewAt(base.contexts, i);
      ViewKeys(gen.contexts, n);
      ViewSource(merged, n);
      var k :| 0 <= k < |merged| && merged[k] == Named(n, View(merged)[n]);
      assert !RefersTo(gen.contexts, n, user);
    }
    if PreservedAfterMerge(merged, gen.contexts, user) {
      var k :| 0 <= k < |merged| && ContextUser(merged[k].entry) == Some(Str(user))
               && !RefersTo(gen.contexts, merged[k].name, user);
      var n := merged[k].name;
      ViewAt(merged, k);
      ViewKeys(gen.contexts, n);
      if Has(gen.contexts, n) {
        var j :| 0 <= j < |gen.contexts| && gen.contexts[j].name == n;
        ViewAt(gen.contexts, j);
        assert RefersTo(gen.contexts, n, user);
      } else {
        ViewSource(base.contexts, n);
        var i :| 0 <= i < |base.contexts| && base.contexts[i] == Named(n, View(base.contexts)[n]);
      }
    }
  }

  /** The third loop of mergeKubeconfig, which looks at the contexts merged by the second. */
  method MergeUsers(base: Parts, gen: Parts, contexts: Entries) returns (r: Result<Entries, Error>)
    requires Coherent(base) && Coherent(gen) && ContextsAgree(base, gen)
    requires contexts == PutAll(base.contexts, gen.contexts)
    ensures r == if UsersAgree(base, gen) then Success(PutAll(base.users, gen.users)) else Failure(UserConflict)
  {
    var existing := base.users;
    for k := 0 to |gen.users|
      invariant existing == PutAll(base.users, gen.users[..k])
      invariant forall j :: 0 <= j < k ==> UserAgrees(base, gen, gen.users[j])
    {
      var user := gen.users[k];
      PreservedAfterMergeIsPreserved(base, gen, user.name);
      var idx := FindIndex(existing, user.name);
      MergeStep(base.users, gen.users, k, existing, idx);
      if idx >= 0 && PreservedAfterMerge(contexts, gen.contexts, user.name)
         && UserBody(existing[idx].entry) != UserBody(user.entry) {
        return Failure(UserConflict);
      }
      existing := Put(existing, user);
    }
    assert gen.users[..|gen.users|] == gen.users;
    return Success(existing);
  }

  /** parseKubeconfig followed by getNamedEntries on the three lists. */
  method ReadParts(config: Config) returns (r: Result<Parts, Error>)
    ensures r == if WellFormed(config) then Success(PartsOf(config)) else Failure(BadEntries)
  {
    var clusters := GetNamedEntries(config, "clusters");
    var contexts := GetNamedEntries(config, "contexts");
    var users := GetNamedEntries(config, "users");
    if clusters.Failure? || contexts.Failure? || users.Failure? {
      return Failure(BadEntries);
    }
    return Success(Parts(clusters.value, contexts.value, users.value, Field(config, "current-context")));
  }

  /** mergeKubeconfig. */
  method MergeKubeconfig(existing: Document, generated: Document) returns (r: Result<Config, Error>)
    ensures r == MergeOutcome(existing, generated)
  {
    if existing.Malformed? || generated.Malformed? {
      return Failure(BadDocument);
    }
    var base := ReadParts(ConfigOf(existing));
    var gen := ReadParts(ConfigOf(generated));
    if base.Failure? || gen.Failure? {
      return Failure(BadEntries);
    }
    PartsOfCoherent(ConfigOf(existing));
    PartsOfCoherent(ConfigOf(generated));
    var clusters := MergeClusters(base.value, gen.value);
    if clusters.Failure? {
      return Failure(clusters.error);
    }
    var contexts := MergeContexts(base.value, gen.value);
    if contexts.Failure? {
      return Failure(contexts.error);
    }
    var users := MergeUsers(base.value, gen.value, contexts.value);
    if users.Failure? {
      return Failure(users.error);
    }
    var current := base.value.current;
    if gen.value.current.Some? && Truthy(gen.value.current.value) {
      current := gen.value.current;
    }
    return Success(Assemble(ConfigOf(existing), Parts(clusters.value, contexts.value, users.value, current)));
  }
}
