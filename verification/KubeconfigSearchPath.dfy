/**
 The search path of app/electron/cluster-registration.ts: the effective view of several kubeconfig
 files, in which earlier files win.
 */
module KubeconfigSearchPath {
  import opened Common
  import opened NamedLists
  import opened KubeconfigMerge

  datatype Kind = Clusters | Contexts | Users

  function ListOf(p: Parts, kind: Kind): Entries {
    match kind
    case Clusters => p.clusters
    case Contexts => p.contexts
    case Users => p.users
  }

  // ----- The effective view -----------------------------------------------------------------

  /** Named entries over the files, the first file that defines a name winning. */
  ghost function EffectiveList(files: seq<Config>, kind: Kind): Entries {
    if files == [] then []
    else AdoptAll(EffectiveList(files[..|files| - 1], kind), ListOf(PartsOf(files[|files| - 1]), kind))
  }

  /** The first non-blank current context. */
  ghost function EffectiveCurrent(files: seq<Config>): Option<Value> {
    if files == [] then None
    else
      var front, last := EffectiveCurrent(files[..|files| - 1]), Field(files[|files| - 1], "current-context");
      if IsNonBlank(front) || !IsNonBlank(last) then front else last
  }

  ghost function EffectiveParts(files: seq<Config>): Parts {
    Parts(EffectiveList(files, Clusters), EffectiveList(files, Contexts), EffectiveList(files, Users),
          EffectiveCurrent(files))
  }

  ghost predicate AllWellFormed(files: seq<Config>) {
    forall i :: 0 <= i < |files| ==> WellFormed(files[i])
  }

  function Configs(docs: seq<Document>): seq<Config> {
    seq(|docs|, i requires 0 <= i < |docs| => ConfigOf(docs[i]))
  }

  /** The error of the first unreadable file, or the effective configuration. */
  ghost function EffectiveOutcome(docs: seq<Document>): Result<Config, Error> {
    if docs == [] then Success(Assemble(map[], EffectiveParts([])))
    else
      var front := EffectiveOutcome(docs[..|docs| - 1]);
      var last := docs[|docs| - 1];
      if front.Failure? then front
      else if last.Malformed? then Failure(BadDocument)
      else if !WellFormed(ConfigOf(last)) then Failure(BadEntries)
      else Success(Assemble(map[], EffectiveParts(Configs(docs))))
  }

  /** The inner loop of effectiveKubeconfig. */
  method AdoptEntries(dest: Entries, more: Entries) returns (r: Entries)
    ensures r == AdoptAll(dest, more)
  {
    r := dest;
    for i := 0 to |more|
      invariant r == AdoptAll(dest, more[..i])
    {
      PutAllStep(dest, more, i);
      if FindIndex(r, more[i].name) < 0 {
        r := r + [more[i]];
      }
    }
    assert more[..|more|] == more;
  }

  /** One turn of the outer loop. */
  lemma EffectiveStep(docs: seq<Document>, i: nat)
    requires i < |docs|
    ensures EffectiveParts(Configs(docs[..i + 1])) ==
            var e, p := EffectiveParts(Configs(docs[..i])), PartsOf(ConfigOf(docs[i]));
            Parts(AdoptAll(e.clusters, p.clusters), AdoptAll(e.contexts, p.contexts), AdoptAll(e.users, p.users),
                  if IsNonBlank(e.current) || !IsNonBlank(p.current) then e.current else p.current)
  {
    assert Configs(docs[..i + 1])[..i] == Configs(docs[..i]);
  }

  lemma EffectiveOutcomeStep(docs: seq<Document>, i: nat)
    requires i < |docs| && EffectiveOutcome(docs[..i]).Success?
    ensures EffectiveOutcome(docs[..i + 1]) ==
            if docs[i].Malformed? then Failure(BadDocument)
            else if !WellFormed(ConfigOf(docs[i])) then Failure(BadEntries)
            else Success(Assemble(map[], EffectiveParts(Configs(docs[..i + 1]))))
  {
    assert docs[..i + 1][..i] == docs[..i];
  }

  /** effectiveKubeconfig. */
  method EffectiveKubeconfig(docs: seq<Document>) returns (r: Result<Config, Error>)
    ensures r == EffectiveOutcome(docs)
  {
    var e := Parts([], [], [], None);
    for i := 0 to |docs|
      invariant EffectiveOutcome(docs[..i]) == Success(Assemble(map[], EffectiveParts(Configs(docs[..i]))))
      invariant e == EffectiveParts(Configs(docs[..i]))
    {
      EffectiveStep(docs, i);
      EffectiveOutcomeStep(docs, i);
      if docs[i].Malformed? {
        FailureStays(docs, i + 1);
        return Failure(BadDocument);
      }
      var config := ConfigOf(docs[i]);
      var p := ReadParts(config);
      if p.Failure? {
        FailureStays(docs, i + 1);
        return Failure(BadEntries);
      }
      var clusters := AdoptEntries(e.clusters, p.value.clusters);
      var contexts := AdoptEntries(e.contexts, p.value.contexts);
      var users := AdoptEntries(e.users, p.value.users);
      var current := if IsNonBlank(e.current) || !IsNonBlank(p.value.current) then e.current else p.value.current;
      e := Parts(clusters, contexts, users, current);
    }
    assert docs[..|docs|] == docs;
    return Success(Assemble(map[], e));
  }

  lemma {:induction false} FailureStays(docs: seq<Document>, k: nat)
    requires k <= |docs| && EffectiveOutcome(docs[..k]).Failure?
    ensures EffectiveOutcome(docs) == EffectiveOutcome(docs[..k])
  {
    if k < |docs| {
      assert docs[..|docs| - 1][..k] == docs[..k];
      FailureStays(docs[..|docs| - 1], k);
    } else {
      assert docs[..k] == docs;
    }
  }

  ghost predicate Readable(docs: seq<Document>) {
    forall i :: 0 <= i < |docs| ==> !docs[i].Malformed? && WellFormed(ConfigOf(docs[i]))
  }

  lemma ReadablePrefix(docs: seq<Document>, last: Document)
    ensures Readable(docs + [last]) <==> Readable(docs) && !last.Malformed? && WellFormed(ConfigOf(last))
  {
    var all := docs + [last];
    assert all[|docs|] == last;
    assert forall i :: 0 <= i < |docs| ==> all[i] == docs[i];
  }

  /** The effective view exists exactly when every file is readable, and is then first-wins. */
  lemma {:induction false} EffectiveOutcomeSuccess(docs: seq<Document>)
    ensures EffectiveOutcome(docs).Success? <==> Readable(docs)
    ensures Readable(docs) ==> EffectiveOutcome(docs) == Success(Assemble(map[], EffectiveParts(Configs(docs))))
  {
    if docs == [] {
      assert Configs(docs) == [];
    } else {
      var n := |docs| - 1;
      assert docs[..n + 1] == docs == docs[..n] + [docs[n]];
      ReadablePrefix(docs[..n], docs[n]);
      EffectiveOutcomeSuccess(docs[..n]);
      if EffectiveOutcome(docs[..n]).Success? { EffectiveOutcomeStep(docs, n); } else { FailureStays(docs, n); }
    }
  }

  lemma {:induction false} AdoptAllTagged(es: Entries, more: Entries)
    requires Tagged(es) && Tagged(more)
    ensures Tagged(AdoptAll(es, more))
  {
    if more != [] {
      AdoptAllTagged(es, more[..|more| - 1]);
    }
  }

  lemma {:induction false} EffectiveListUnique(files: seq<Config>, kind: Kind)
    requires AllWellFormed(files)
    ensures Unique(EffectiveList(files, kind)) && Tagged(EffectiveList(files, kind))
  {
    if files != [] {
      var front, last := files[..|files| - 1], PartsOf(files[|files| - 1]);
      EffectiveListUnique(front, kind);
      PartsOfCoherent(files[|files| - 1]);
      AdoptAllView(EffectiveList(front, kind), ListOf(last, kind));
      AdoptAllTagged(EffectiveList(front, kind), ListOf(last, kind));
    }
  }

  lemma EffectiveCoherent(files: seq<Config>)
    requires AllWellFormed(files)
    ensures Coherent(EffectiveParts(files))
    ensures WellFormed(Assemble(map[], EffectiveParts(files)))
    ensures PartsOf(Assemble(map[], EffectiveParts(files))) == EffectiveParts(files)
  {
    EffectiveListUnique(files, Clusters);
    EffectiveListUnique(files, Contexts);
    EffectiveListUnique(files, Users);
    PartsOfAssemble(map[], EffectiveParts(files));
  }

  /** Appending a file adds only names not seen before. */
  lemma EffectiveAppend(files: seq<Config>, last: Config, kind: Kind)
    requires AllWellFormed(files) && WellFormed(last)
    ensures AllWellFormed(files + [last])
    ensures View(EffectiveList(files + [last], kind))
         == View(ListOf(PartsOf(last), kind)) + View(EffectiveList(files, kind))
  {
    assert (files + [last])[..|files|] == files;
    EffectiveListUnique(files, kind);
    PartsOfCoherent(last);
    AdoptAllView(EffectiveList(files, kind), ListOf(PartsOf(last), kind));
  }

  /** The first file wins over all the others. */
  lemma {:induction false} FirstFileWins(first: Config, rest: seq<Config>, kind: Kind)
    requires WellFormed(first) && AllWellFormed(rest)
    ensures AllWellFormed([first] + rest)
    ensures View(EffectiveList([first] + rest, kind))
         == View(EffectiveList(rest, kind)) + View(ListOf(PartsOf(first), kind))
  {
    if rest == [] {
      OnlyFile(first, kind);
      assert [first] + rest == [first];
    } else {
      var front, last := rest[..|rest| - 1], rest[|rest| - 1];
      assert rest == front + [last];
      FirstFileWins(first, front, kind);
      FirstWinsStill(first, front, last, kind);
    }
  }

  lemma OnlyFile(first: Config, kind: Kind)
    requires WellFormed(first)
    ensures AllWellFormed([first])
    ensures View(EffectiveList([first], kind)) == View(EffectiveList([], kind)) + View(ListOf(PartsOf(first), kind))
  {
    var own := View(ListOf(PartsOf(first), kind));
    assert [first] == [] + [first];
    EffectiveAppend([], first, kind);
    assert own + View<Value>([]) == own == View<Value>([]) + own;
  }

  lemma FirstWinsStill(first: Config, front: seq<Config>, last: Config, kind: Kind)
    requires AllWellFormed(front) && AllWellFormed([first] + front) && WellFormed(last)
    requires View(EffectiveList([first] + front, kind))
          == View(EffectiveList(front, kind)) + View(ListOf(PartsOf(first), kind))
    ensures AllWellFormed([first] + (front + [last]))
    ensures View(EffectiveList([first] + (front + [last]), kind))
         == View(EffectiveList(front + [last], kind)) + View(ListOf(PartsOf(first), kind))
  {
    assert [first] + (front + [last]) == ([first] + front) + [last];
    EffectiveAppend([first] + front, last, kind);
    EffectiveAppend(front, last, kind);
    UnionAssoc(View(ListOf(PartsOf(last), kind)), View(EffectiveList(front, kind)), View(ListOf(PartsOf(first), kind)));
  }

  lemma {:induction false} FirstCurrentWins(first: Config, rest: seq<Config>)
    ensures EffectiveCurrent([first] + rest) ==
            if IsNonBlank(Field(first, "current-context")) then Field(first, "current-context")
            else EffectiveCurrent(rest)
  {
    if rest == [] {
      assert ([first] + rest)[..0] == [];
    } else {
      var front := rest[..|rest| - 1];
      assert ([first] + rest)[..|rest|] == [first] + front;
      FirstCurrentWins(first, front);
    }
  }

  lemma {:induction false} EffectiveCurrentNonBlank(files: seq<Config>)
    ensures EffectiveCurrent(files).None? || IsNonBlank(EffectiveCurrent(files))
  {
    if files != [] { EffectiveCurrentNonBlank(files[..|files| - 1]); }
  }
}
