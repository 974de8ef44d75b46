/** What a successful merge promises about existing contexts, and that merging again is harmless. */
module KubeconfigLaws {
  import opened Common
  import opened NamedLists
  import opened KubeconfigMerge

  /** The API server a context name resolves to. */
  ghost function ResolveServer(p: Parts, context: string): Option<Value> {
    var contexts, clusters := View(p.contexts), View(p.clusters);
    if context !in contexts then None
    else
      var c := ContextCluster(contexts[context]);
      if c.Some? && c.value.Str? && c.value.s in clusters && IsNonBlank(Server(clusters[c.value.s]))
      then Server(clusters[c.value.s]) else None
  }

  /** The three views after a merge are right-biased unions. */
  lemma MergedViews(base: Parts, gen: Parts)
    requires Coherent(base) && Coherent(gen)
    ensures View(Merged(base, gen).clusters) == View(base.clusters) + View(gen.clusters)
    ensures View(Merged(base, gen).contexts) == View(base.contexts) + View(gen.contexts)
    ensures View(Merged(base, gen).users) == View(base.users) + View(gen.users)
  {
    PutAllView(base.clusters, gen.clusters);
    PutAllView(base.contexts, gen.contexts);
    PutAllView(base.users, gen.users);
  }

  lemma RedefinedContext(base: Parts, gen: Parts, n: string)
    requires Coherent(gen) && ContextsAgree(base, gen)
    requires n in View(base.contexts) && n in View(gen.contexts)
    ensures ContextBody(View(gen.contexts)[n]) == ContextBody(View(base.contexts)[n])
  {
    ViewSource(gen.contexts, n);
    var i :| 0 <= i < |gen.contexts| && gen.contexts[i] == Named(n, View(gen.contexts)[n]);
    assert ContextAgrees(base, gen.contexts[i]);
  }

  lemma RedefinedCluster(base: Parts, gen: Parts, n: string)
    requires Coherent(gen) && ClustersAgree(base, gen)
    requires n in View(base.clusters) && n in View(gen.clusters)
    ensures SameCluster(View(base.clusters)[n], View(gen.clusters)[n], PreservedCluster(base, gen, n))
  {
    ViewSource(gen.clusters, n);
    var i :| 0 <= i < |gen.clusters| && gen.clusters[i] == Named(n, View(gen.clusters)[n]);
    assert ClusterAgrees(base, gen, gen.clusters[i]);
  }

  lemma RedefinedUser(base: Parts, gen: Parts, n: string)
    requires Coherent(gen) && UsersAgree(base, gen) && PreservedUser(base, gen, n)
    requires n in View(base.users) && n in View(gen.users)
    ensures UserBody(View(gen.users)[n]) == UserBody(View(base.users)[n])
  {
    ViewSource(gen.users, n);
    var i :| 0 <= i < |gen.users| && gen.users[i] == Named(n, View(gen.users)[n]);
    assert UserAgrees(base, gen, gen.users[i]);
  }

  // ----- Exactly which merges are accepted --------------------------------------------------

  /** The value at a path of keys. */
  function At(v: Value, path: seq<string>): Option<Value> {
    if path == [] then Some(v)
    else if v.Obj? && path[0] in v.fields then At(v.fields[path[0]], path[1..])
    else None
  }

  lemma Paths(e: Value)
    ensures Prop(Some(e), "name") == At(e, ["name"])
    ensures ClusterBody(e) == At(e, ["cluster"]) && Server(e) == At(e, ["cluster", "server"])
    ensures ContextBody(e) == At(e, ["context"]) && UserBody(e) == At(e, ["user"])
    ensures ContextCluster(e) == At(e, ["context", "cluster"]) && ContextUser(e) == At(e, ["context", "user"])
  {
    assert ["cluster", "server"][1..] == ["server"] && ["context", "cluster"][1..] == ["cluster"];
    assert ["context", "user"][1..] == ["user"];
    assert forall k: string, v: Value :: At(v, [k]) == Prop(Some(v), k) by {
      forall k: string, v: Value ensures At(v, [k]) == Prop(Some(v), k) { assert [k][1..] == []; }
    }
  }

  /** An entry list is read exactly when it is absent, or an array of objects with different non-blank names. */
  lemma AcceptedExactlyWhen(raw: Option<Value>)
    ensures Accepted(raw) <==>
            || raw.None?
            || (&& raw.value.Arr?
                && (forall i :: 0 <= i < |raw.value.items| ==> IsNonBlank(At(raw.value.items[i], ["name"])))
                && (forall i, j :: 0 <= i < j < |raw.value.items| ==>
                      At(raw.value.items[i], ["name"]) != At(raw.value.items[j], ["name"])))
  {
    if raw.Some? && raw.value.Arr? {
      var items := raw.value.items;
      forall i | 0 <= i < |items| ensures Prop(Some(items[i]), "name") == At(items[i], ["name"]) { Paths(items[i]); }
      if AllEntries(items) {
        forall i, j | 0 <= i < j < |items|
          ensures TagAll(items)[i].name != TagAll(items)[j].name <==> At(items[i], ["name"]) != At(items[j], ["name"])
        {
          assert IsEntry(items[i]) && IsEntry(items[j]);
        }
      }
    }
  }

  /** Some existing context that is not redefined has that text at the path. */
  ghost predicate KeptContextHas(base: Parts, gen: Parts, path: seq<string>, text: string) {
    exists n :: n in View(base.contexts) && n !in View(gen.contexts)
                && At(View(base.contexts)[n], path) == Some(Str(text))
  }

  ghost predicate ClusterMayReplace(base: Parts, gen: Parts, n: string, was: Value, new_: Value) {
    && IsNonBlank(At(was, ["cluster", "server"])) && At(new_, ["cluster", "server"]) == At(was, ["cluster", "server"])
    && (KeptContextHas(base, gen, ["context", "cluster"], n) ==> At(new_, ["cluster"]) == At(was, ["cluster"]))
  }

  ghost predicate ClustersAcceptable(base: Parts, gen: Parts) {
    forall n :: n in View(base.clusters) && n in View(gen.clusters) ==>
      ClusterMayReplace(base, gen, n, View(base.clusters)[n], View(gen.clusters)[n])
  }

  ghost predicate ContextsAcceptable(base: Parts, gen: Parts) {
    forall n :: n in View(base.contexts) && n in View(gen.contexts) ==>
      At(View(gen.contexts)[n], ["context"]) == At(View(base.contexts)[n], ["context"])
  }

  ghost predicate UsersAcceptable(base: Parts, gen: Parts) {
    forall n :: n in View(base.users) && n in View(gen.users) && KeptContextHas(base, gen, ["context", "user"], n) ==>
      At(View(gen.users)[n], ["user"]) == At(View(base.users)[n], ["user"])
  }

  /** The conditions of a merge, name by name, without the order of lists. */
  ghost predicate Acceptable(base: Parts, gen: Parts) {
    ClustersAcceptable(base, gen) && ContextsAcceptable(base, gen) && UsersAcceptable(base, gen)
  }

  lemma PreservedIsKept(base: Parts, gen: Parts, n: string)
    requires Coherent(base) && Coherent(gen)
    ensures PreservedCluster(base, gen, n) <==> KeptContextHas(base, gen, ["context", "cluster"], n)
    ensures PreservedUser(base, gen, n) <==> KeptContextHas(base, gen, ["context", "user"], n)
  {
    forall i | 0 <= i < |base.contexts|
      ensures var c := base.contexts[i];
              && c.name in View(base.contexts) && View(base.contexts)[c.name] == c.entry
              && (c.name in View(gen.contexts) <==> Has(gen.contexts, c.name))
              && ContextCluster(c.entry) == At(c.entry, ["context", "cluster"])
              && ContextUser(c.entry) == At(c.entry, ["context", "user"])
    {
      ViewAt(base.contexts, i);
      ViewKeys(gen.contexts, base.contexts[i].name);
      Paths(base.contexts[i].entry);
    }
    forall k | k in View(base.contexts) ensures exists i :: 0 <= i < |base.contexts| && base.contexts[i].name == k {
      ViewKeys(base.contexts, k);
    }
  }

  lemma ClustersAgreeExactlyWhen(base: Parts, gen: Parts)
    requires Coherent(base) && Coherent(gen)
    ensures ClustersAgree(base, gen) <==> ClustersAcceptable(base, gen)
  {
    var taken, news := View(base.clusters), View(gen.clusters);
    if ClustersAgree(base, gen) {
      forall n | n in taken && n in news ensures ClusterMayReplace(base, gen, n, taken[n], news[n]) {
        ViewSource(gen.clusters, n);
        var i :| 0 <= i < |gen.clusters| && gen.clusters[i] == Named(n, news[n]);
        assert ClusterAgrees(base, gen, gen.clusters[i]);
        PreservedIsKept(base, gen, n);
        Paths(taken[n]);
        Paths(news[n]);
      }
    }
    if ClustersAcceptable(base, gen) {
      forall i | 0 <= i < |gen.clusters| ensures ClusterAgrees(base, gen, gen.clusters[i]) {
        var g := gen.clusters[i];
        ViewAt(gen.clusters, i);
        if g.name in taken {
          PreservedIsKept(base, gen, g.name);
          Paths(taken[g.name]);
          Paths(g.entry);
        }
      }
    }
  }

  lemma ContextsAgreeExactlyWhen(base: Parts, gen: Parts)
    requires Coherent(base) && Coherent(gen)
    ensures ContextsAgree(base, gen) <==> ContextsAcceptable(base, gen)
  {
    var taken, news := View(base.contexts), View(gen.contexts);
    if ContextsAgree(base, gen) {
      forall n | n in taken && n in news ensures At(news[n], ["context"]) == At(taken[n], ["context"]) {
        ViewSource(gen.contexts, n);
        var i :| 0 <= i < |gen.contexts| && gen.contexts[i] == Named(n, news[n]);
        assert ContextAgrees(base, gen.contexts[i]);
        Paths(taken[n]);
        Paths(news[n]);
      }
    }
    if ContextsAcceptable(base, gen) {
      forall i | 0 <= i < |gen.contexts| ensures ContextAgrees(base, gen.contexts[i]) {
        var g := gen.contexts[i];
        ViewAt(gen.contexts, i);
        if g.name in taken {
          Paths(taken[g.name]);
          Paths(g.entry);
        }
      }
    }
  }

  lemma UsersAgreeExactlyWhen(base: Parts, gen: Parts)
    requires Coherent(base) && Coherent(gen)
    ensures UsersAgree(base, gen) <==> UsersAcceptable(base, gen)
  {
    var taken, news := View(base.users), View(gen.users);
    if UsersAgree(base, gen) {
      forall n | n in taken && n in news
        ensures KeptContextHas(base, gen, ["context", "user"], n) ==> At(news[n], ["user"]) == At(taken[n], ["user"])
      {
        ViewSource(gen.users, n);
        var i :| 0 <= i < |gen.users| && gen.users[i] == Named(n, news[n]);
        assert UserAgrees(base, gen, gen.users[i]);
        PreservedIsKept(base, gen, n);
        Paths(taken[n]);
        Paths(news[n]);
      }
    }
    if UsersAcceptable(base, gen) {
      forall i | 0 <= i < |gen.users| ensures UserAgrees(base, gen, gen.users[i]) {
        var g := gen.users[i];
        ViewAt(gen.users, i);
        if g.name in taken {
          PreservedIsKept(base, gen, g.name);
          Paths(taken[g.name]);
          Paths(g.entry);
        }
      }
    }
  }

  /**
   mergeKubeconfig succeeds exactly when both documents and their lists can be read and, name by name:
   a cluster that is taken has the same non-blank server (and, where a context that is not redefined
   uses it, the same body), a context that is taken has the same body, and so has a user that such a
   context uses. In particular a cluster that only redefined contexts use may get a different body.
   */
  lemma MergeSucceedsExactlyWhen(existing: Document, generated: Document)
    ensures MergeOutcome(existing, generated).Success? <==>
            && !existing.Malformed? && !generated.Malformed?
            && WellFormed(ConfigOf(existing)) && WellFormed(ConfigOf(generated))
            && Acceptable(PartsOf(ConfigOf(existing)), PartsOf(ConfigOf(generated)))
  {
    var e, g := ConfigOf(existing), ConfigOf(generated);
    if WellFormed(e) && WellFormed(g) {
      PartsOfCoherent(e);
      PartsOfCoherent(g);
      ClustersAgreeExactlyWhen(PartsOf(e), PartsOf(g));
      ContextsAgreeExactlyWhen(PartsOf(e), PartsOf(g));
      UsersAgreeExactlyWhen(PartsOf(e), PartsOf(g));
    }
  }

  // ----- What a merge leaves alone ----------------------------------------------------------

  const MERGED_KEYS := {"clusters", "contexts", "users", "current-context"}

  /** Values that JavaScript takes for false. */
  const FALSY := {Str(""), Scalar("null"), Scalar("false"), Scalar("0"), Scalar("-0"), Scalar("NaN")}

  /**
   A successful merge keeps every other top-level field of the existing config, takes none from the
   generated one, and changes the current context exactly when the generated one is not falsy.
   */
  lemma MergeKeepsOtherFields(existing: Document, generated: Document, key: string)
    requires MergeOutcome(existing, generated).Success?
    ensures var e, g, r := ConfigOf(existing), ConfigOf(generated), MergeOutcome(existing, generated).value;
            && (key !in MERGED_KEYS ==> Field(r, key) == Field(e, key))
            && Field(r, "current-context")
            == if "current-context" in g && g["current-context"] !in FALSY then Field(g, "current-context")
               else Field(e, "current-context")
  {
    var g := ConfigOf(generated);
    if "current-context" in g { TruthyExactlyWhen(g["current-context"]); }
    MergeOutcomeParts(existing, generated);
  }

  lemma TruthyExactlyWhen(v: Value)
    ensures Truthy(v) <==> v !in FALSY
  {
  }

  /** Every context that resolved before the merge still resolves to the same API server. */
  lemma ContextsKeepServer(base: Parts, gen: Parts, context: string)
    requires Coherent(base) && Coherent(gen) && Mergeable(base, gen)
    requires ResolveServer(base, context).Some?
    ensures ResolveServer(Merged(base, gen), context) == ResolveServer(base, context)
  {
    ContextKeepsCluster(base, gen, context);
    ClusterKeepsServer(base, gen, ContextCluster(View(base.contexts)[context]).value.s);
  }

  lemma ContextKeepsCluster(base: Parts, gen: Parts, context: string)
    requires Coherent(base) && Coherent(gen) && Mergeable(base, gen) && context in View(base.contexts)
    requires IsContextNamingCluster(View(base.contexts)[context])
    ensures context in View(Merged(base, gen).contexts)
    ensures ContextCluster(View(Merged(base, gen).contexts)[context]) == ContextCluster(View(base.contexts)[context])
  {
    MergedViews(base, gen);
    if context in View(gen.contexts) { RedefinedContext(base, gen, context); }
  }

  predicate IsContextNamingCluster(v: Value) {
    ContextCluster(v).Some? && ContextCluster(v).value.Str?
  }

  lemma ClusterKeepsServer(base: Parts, gen: Parts, cluster: string)
    requires Coherent(base) && Coherent(gen) && Mergeable(base, gen) && cluster in View(base.clusters)
    requires IsNonBlank(Server(View(base.clusters)[cluster]))
    ensures cluster in View(Merged(base, gen).clusters)
    ensures Server(View(Merged(base, gen).clusters)[cluster]) == Server(View(base.clusters)[cluster])
  {
    MergedViews(base, gen);
    if cluster in View(gen.clusters) { RedefinedCluster(base, gen, cluster); }
  }

  /** A context the generated config does not name keeps its entry, its cluster body and its user body. */
  lemma PreservedContextsKeepBodies(base: Parts, gen: Parts, context: string, other: string)
    requires Coherent(base) && Coherent(gen) && Mergeable(base, gen)
    requires context in View(base.contexts) && !Has(gen.contexts, context)
    ensures context in View(Merged(base, gen).contexts)
    ensures View(Merged(base, gen).contexts)[context] == View(base.contexts)[context]
    ensures ContextCluster(View(base.contexts)[context]) == Some(Str(other)) && other in View(base.clusters)
            ==> other in View(Merged(base, gen).clusters)
                && ClusterBody(View(Merged(base, gen).clusters)[other]) == ClusterBody(View(base.clusters)[other])
    ensures ContextUser(View(base.contexts)[context]) == Some(Str(other)) && other in View(base.users)
            ==> other in View(Merged(base, gen).users)
                && UserBody(View(Merged(base, gen).users)[other]) == UserBody(View(base.users)[other])
  {
    MergedViews(base, gen);
    ViewKeys(gen.contexts, context);
    ViewSource(base.contexts, context);
    var i :| 0 <= i < |base.contexts| && base.contexts[i] == Named(context, View(base.contexts)[context]);
    var e := base.contexts[i].entry;
    if ContextCluster(e) == Some(Str(other)) && other in View(base.clusters) && other in View(gen.clusters) {
      assert PreservedCluster(base, gen, other);
      RedefinedCluster(base, gen, other);
    }
    if ContextUser(e) == Some(Str(other)) && other in View(base.users) && other in View(gen.users) {
      assert PreservedUser(base, gen, other);
      RedefinedUser(base, gen, other);
    }
  }

  /** `small` has nothing that `large` does not have. */
  ghost predicate Within(small: Parts, large: Parts) {
    && (forall n :: n in View(small.clusters) ==>
          n in View(large.clusters) && View(large.clusters)[n] == View(small.clusters)[n])
    && (forall n :: n in View(small.contexts) ==>
          n in View(large.contexts) && View(large.contexts)[n] == View(small.contexts)[n])
    && (forall n :: n in View(small.users) ==> n in View(large.users) && View(large.users)[n] == View(small.users)[n])
  }

  lemma PreservedMonotone(small: Parts, large: Parts, gen: Parts, n: string)
    requires Coherent(small) && Within(small, large)
    ensures PreservedCluster(small, gen, n) ==> PreservedCluster(large, gen, n)
    ensures PreservedUser(small, gen, n) ==> PreservedUser(large, gen, n)
  {
    forall i | 0 <= i < |small.contexts| ensures small.contexts[i] in large.contexts {
      ViewAt(small.contexts, i);
      ViewSource(large.contexts, small.contexts[i].name);
    }
  }

  /** A merge that a larger configuration accepts is accepted by every configuration within it. */
  lemma MergeableMonotone(small: Parts, large: Parts, gen: Parts)
    requires Coherent(small) && Within(small, large) && Mergeable(large, gen)
    ensures Mergeable(small, gen)
  {
    forall i | 0 <= i < |gen.clusters| ensures ClusterAgrees(small, gen, gen.clusters[i]) {
      assert ClusterAgrees(large, gen, gen.clusters[i]);
      PreservedMonotone(small, large, gen, gen.clusters[i].name);
    }
    forall i | 0 <= i < |gen.contexts| ensures ContextAgrees(small, gen.contexts[i]) {
      assert ContextAgrees(large, gen.contexts[i]);
    }
    forall i | 0 <= i < |gen.users| ensures UserAgrees(small, gen, gen.users[i]) {
      assert UserAgrees(large, gen, gen.users[i]);
      PreservedMonotone(small, large, gen, gen.users[i].name);
    }
  }

  // ----- Merging twice ----------------------------------------------------------------------

  ghost predicate ServersNamed(gen: Parts) {
    forall i :: 0 <= i < |gen.clusters| ==> IsNonBlank(Server(gen.clusters[i].entry))
  }

  /** After a merge each generated entry is in the result, unchanged. */
  lemma PutAllContains(es: Entries, news: Entries, i: nat)
    requires Unique(es) && Unique(news) && i < |news|
    ensures news[i].name in View(PutAll(es, news)) && View(PutAll(es, news))[news[i].name] == news[i].entry
    ensures news[i] in PutAll(es, news)
  {
    PutAllView(es, news);
    ViewAt(news, i);
    ViewSource(PutAll(es, news), news[i].name);
  }

  lemma MergedAgain(base: Parts, gen: Parts)
    requires Coherent(base) && Coherent(gen)
    ensures Merged(Merged(base, gen), gen) == Merged(base, gen)
    ensures ClustersAgree(Merged(base, gen), gen) <==> ServersNamed(gen)
    ensures ContextsAgree(Merged(base, gen), gen) && UsersAgree(Merged(base, gen), gen)
  {
    var m := Merged(base, gen);
    MergedCoherent(base, gen);
    forall i | 0 <= i < |gen.clusters|
      ensures gen.clusters[i] in m.clusters
      ensures ClusterAgrees(m, gen, gen.clusters[i]) <==> IsNonBlank(Server(gen.clusters[i].entry))
    {
      PutAllContains(base.clusters, gen.clusters, i);
    }
    forall i | 0 <= i < |gen.contexts| ensures gen.contexts[i] in m.contexts && ContextAgrees(m, gen.contexts[i]) {
      PutAllContains(base.contexts, gen.contexts, i);
    }
    forall i | 0 <= i < |gen.users| ensures gen.users[i] in m.users && UserAgrees(m, gen, gen.users[i]) {
      PutAllContains(base.users, gen.users, i);
    }
    PutAllAbsorbed(m.clusters, gen.clusters);
    PutAllAbsorbed(m.contexts, gen.contexts);
    PutAllAbsorbed(m.users, gen.users);
  }

  /** A successful merge yields a kubeconfig whose lists are well named and are the merged ones. */
  lemma MergeOutcomeParts(existing: Document, generated: Document)
    requires MergeOutcome(existing, generated).Success?
    ensures var c := MergeOutcome(existing, generated).value;
            && WellFormed(c)
            && PartsOf(c) == Merged(PartsOf(ConfigOf(existing)), PartsOf(ConfigOf(generated)))
            && Coherent(PartsOf(c))
    ensures Coherent(PartsOf(ConfigOf(existing))) && Coherent(PartsOf(ConfigOf(generated)))
  {
    var e, g := PartsOf(ConfigOf(existing)), PartsOf(ConfigOf(generated));
    PartsOfCoherent(ConfigOf(existing));
    PartsOfCoherent(ConfigOf(generated));
    MergedCoherent(e, g);
    PartsOfAssemble(ConfigOf(existing), Merged(e, g));
  }

  lemma AssembleOwnParts(base: Config, p: Parts)
    ensures Assemble(Assemble(base, p), p) == Assemble(base, p)
  {
  }

  /**
   Registering the same cluster again succeeds and changes nothing, exactly when every generated
   cluster names a server.
   */
  lemma MergeIdempotent(existing: Document, generated: Document)
    requires MergeOutcome(existing, generated).Success?
    ensures var c := MergeOutcome(existing, generated).value;
            MergeOutcome(Parsed(c), generated) == Success(c) <==> ServersNamed(PartsOf(ConfigOf(generated)))
    ensures !ServersNamed(PartsOf(ConfigOf(generated))) ==>
              MergeOutcome(Parsed(MergeOutcome(existing, generated).value), generated) == Failure(ClusterConflict)
  {
    var c := MergeOutcome(existing, generated).value;
    MergeOutcomeParts(existing, generated);
    MergedAgain(PartsOf(ConfigOf(existing)), PartsOf(ConfigOf(generated)));
    AssembleOwnParts(ConfigOf(existing), PartsOf(c));
  }

  /** A generated cluster without a server: merged once, refused the second time. */
  lemma ServerlessClusterConflicts()
    ensures var entry := Obj(map["name" := Str("a")]);
            var generated := Parsed(map["clusters" := Arr([entry])]);
            && MergeOutcome(Blank, generated).Success?
            && MergeOutcome(Parsed(MergeOutcome(Blank, generated).value), generated) == Failure(ClusterConflict)
  {
    var entry := Obj(map["name" := Str("a")]);
    var g: Config := map["clusters" := Arr([entry])];
    assert !JsSpace("a"[0]);
    assert IsEntry(entry) && AllEntries([entry]) && WellFormed(g);
    assert PartsOf(g).clusters == [Tag(entry)] && Server(PartsOf(g).clusters[0].entry).None?;
    MergeIdempotent(Blank, Parsed(g));
  }
}
