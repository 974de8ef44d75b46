/**
 mergeKubeconfigTransaction of app/electron/cluster-registration.ts: check the generated config
 against the effective view of the search path, merge it into the first file, replace that file.
 */
module KubeconfigTransaction {
  import opened Common
  import opened NamedLists
  import opened KubeconfigMerge
  import opened KubeconfigSearchPath
  import opened KubeconfigLaws

  // ----- Generated configurations -----------------------------------------------------------

  /** One cluster, one context and one user that refer to each other, the context being current. */
  ghost predicate Sound(g: Config, isServerUrl: string -> bool) {
    WellFormed(g) &&
    var p := PartsOf(g);
    && |p.clusters| == 1 && |p.contexts| == 1 && |p.users| == 1
    && IsNonBlank(p.current) && p.current == Some(Str(p.contexts[0].name))
    && ContextCluster(p.contexts[0].entry) == Some(Str(p.clusters[0].name))
    && ContextUser(p.contexts[0].entry) == Some(Str(p.users[0].name))
    && IsNonBlank(Server(p.clusters[0].entry)) && isServerUrl(Server(p.clusters[0].entry).value.s)
    && UserBody(p.users[0].entry).Some? && UserBody(p.users[0].entry).value.Obj?
    && UserBody(p.users[0].entry).value.fields != map[]
  }

  /** validateGeneratedKubeconfig: look the current identity up, then refuse anything else. */
  method ValidateGeneratedKubeconfig(doc: Document, isServerUrl: string -> bool) returns (ok: bool)
    ensures ok <==> !doc.Malformed? && Sound(ConfigOf(doc), isServerUrl)
  {
    if doc.Malformed? {
      return false;
    }
    var parts := ReadParts(ConfigOf(doc));
    if parts.Failure? || !IsNonBlank(parts.value.current) {
      return false;
    }
    var p := parts.value;
    PartsOfCoherent(ConfigOf(doc));
    var i := FindIndex(p.contexts, p.current.value.s);
    if i < 0 {
      return false;
    }
    var context := p.contexts[i].entry;
    if !IsNonBlank(ContextCluster(context)) || !IsNonBlank(ContextUser(context)) {
      EntryNamesNonBlank(p);
      return false;
    }
    var j := FindIndex(p.clusters, ContextCluster(context).value.s);
    if j < 0 || !IsNonBlank(Server(p.clusters[j].entry)) || !isServerUrl(Server(p.clusters[j].entry).value.s) {
      return false;
    }
    var k := FindIndex(p.users, ContextUser(context).value.s);
    if k < 0 {
      return false;
    }
    var user := UserBody(p.users[k].entry);
    if !user.Some? || !user.value.Obj? || user.value.fields == map[] {
      return false;
    }
    return |p.clusters| == 1 && |p.contexts| == 1 && |p.users| == 1;
  }

  lemma EntryNamesNonBlank(p: Parts)
    requires Coherent(p)
    ensures forall i :: 0 <= i < |p.clusters| ==> NonBlank(p.clusters[i].name)
    ensures forall i :: 0 <= i < |p.users| ==> NonBlank(p.users[i].name)
  {
  }

  // ----- The transaction --------------------------------------------------------------------

  /** The contents of the files of the search path that exist, in order. */
  ghost function Present(fs: Files, paths: seq<string>): seq<Document> {
    if paths == [] then []
    else
      var front, p := Present(fs, paths[..|paths| - 1]), paths[|paths| - 1];
      if p in fs then front + [fs[p]] else front
  }

  ghost function CollisionCheck(search: seq<Document>, generated: Document): Result<Config, Error> {
    var effective := EffectiveOutcome(search);
    if effective.Failure? then effective else MergeOutcome(Parsed(effective.value), generated)
  }

  /** The new contents of the first file, or the error that stops the transaction. */
  ghost function TransactionOutcome(fs: Files, paths: seq<string>, generated: Document): Result<Config, Error>
    requires paths != []
  {
    var search := Present(fs, paths);
    if search != [] && CollisionCheck(search, generated).Failure?
    then Failure(CollisionCheck(search, generated).error)
    else MergeOutcome(Contents(fs, paths[0]), generated)
  }

  // ----- Replacing the file -----------------------------------------------------------------

  /** The calls of writeKubeconfigAtomically's try block, in order. */
  datatype WriteStep = Open | Harden | WriteText | Chmod | Sync | Close | Replace | SyncDirectory

  /** The call of the try block that throws, and whether the finally block's close and removal throw. */
  datatype Faults = Faults(step: Option<WriteStep>, closeAgain: bool, remove: bool)

  const NO_FAULTS := Faults(None, false, false)

  /** The destination has been replaced; a failed directory sync is swallowed. */
  predicate Replaces(f: Faults) {
    f.step.None? || f.step.value.SyncDirectory?
  }

  /** The finally block finds a descriptor: it was opened and no close has succeeded. */
  predicate DescriptorLeft(f: Faults) {
    f.step.Some? && !f.step.value.Open? && !f.step.value.Replace? && !f.step.value.SyncDirectory?
  }

  /** The finally block's close throws; after a throwing close it always does, the descriptor being gone. */
  predicate CloseThrows(f: Faults) {
    DescriptorLeft(f) && (f.step.value.Close? || f.closeAgain)
  }

  /** The call throws: nothing was replaced, or the temporary file's removal threw afterwards. */
  predicate Throws(f: Faults) {
    !Replaces(f) || f.remove
  }

  /** A temporary file is left: it was made, not renamed, and its removal threw or was never reached. */
  predicate LeavesTemporary(f: Faults) {
    !Replaces(f) && !f.step.value.Open? && (CloseThrows(f) || f.remove)
  }

  /** What such a file holds: nothing yet, part of the text, or all of it. */
  function TemporaryContents(f: Faults, contents: Document): Document {
    if f.step == Some(Harden) then Blank else if f.step == Some(WriteText) then Malformed else contents
  }

  /** The files afterwards. */
  function AfterWrite(fs: Files, dest: string, contents: Document, temporary: string, f: Faults): Files {
    if Replaces(f) then fs[dest := contents]
    else if LeavesTemporary(f) then fs[temporary := TemporaryContents(f, contents)]
    else fs
  }

  /** The destination is the old file or the whole new one, and only the temporary file may differ besides. */
  ghost predicate OldOrNew(before: Files, now: Files, dest: string, contents: Document, temporary: string) {
    && (if dest in now then now[dest] == contents || (dest in before && now[dest] == before[dest]) else dest !in before)
    && now - {dest, temporary} == before - {dest, temporary}
  }

  lemma OldOrNewUpdates(before: Files, dest: string, contents: Document, temporary: string, text: Document)
    requires temporary != dest && temporary !in before
    ensures OldOrNew(before, before, dest, contents, temporary)
    ensures OldOrNew(before, before[temporary := text], dest, contents, temporary)
    ensures OldOrNew(before, before[dest := contents], dest, contents, temporary)
  {
  }

  /**
   A write that throws has changed nothing if and only if it left no temporary file and either did
   not get to replace the destination or replaced it by what it held. In terms of the calls: no
   close threw, the removal threw only if there was nothing to remove, and it did not throw after
   the replacement of a different file.
   */
  lemma FailureChangesNothingExactlyWhen(fs: Files, dest: string, contents: Document, temporary: string, f: Faults)
    requires temporary !in fs && temporary != dest && Throws(f)
    ensures AfterWrite(fs, dest, contents, temporary, f) == fs <==>
            match f.step
            case None => dest in fs && fs[dest] == contents
            case Some(SyncDirectory) => dest in fs && fs[dest] == contents
            case Some(Open) => true
            case Some(Close) => false
            case Some(Replace) => !f.remove
            case Some(_) => !f.remove && !f.closeAgain
  {
    if LeavesTemporary(f) { assert temporary in AfterWrite(fs, dest, contents, temporary, f); }
    if Replaces(f) {
      assert AfterWrite(fs, dest, contents, temporary, f)[dest] == contents;
      if dest in fs && fs[dest] == contents { assert fs[dest := contents] == fs; }
    }
  }

  /** A close that throws leaves the temporary file, and a removal that throws hides a finished write. */
  lemma FailedWritesThatChangeFiles(old_: Document, contents: Document)
    ensures var fs, f := map["config" := old_], Faults(Some(Close), false, false);
            Throws(f) && AfterWrite(fs, "config", contents, ".config.tmp", f)
                         == map["config" := old_, ".config.tmp" := contents]
    ensures var fs, f := map["config" := old_], Faults(None, false, true);
            Throws(f) && AfterWrite(fs, "config", contents, ".config.tmp", f) == map["config" := contents]
  {
    assert |"config"| != |".config.tmp"|;
    assert LeavesTemporary(Faults(Some(Close), false, false));
  }

  class KubeconfigStore {
    var files: Files

    constructor (initial: Files)
      ensures files == initial
    {
      files := initial;
    }

    /** The try block of writeKubeconfigAtomically; `descriptor` tells whether one is still held. */
    method TryToReplace(dest: string, contents: Document, temporary: string, f: Faults)
      returns (threw: bool, descriptor: bool, ghost moments: seq<Files>)
      requires temporary !in files && temporary != dest
      modifies this
      ensures forall k :: 0 <= k < |moments| ==> OldOrNew(old(files), moments[k], dest, contents, temporary)
      ensures threw == !Replaces(f) && descriptor == DescriptorLeft(f)
      ensures files == if Replaces(f) then old(files)[dest := contents]
                       else if f.step.value.Open? then old(files)
                       else old(files)[temporary := TemporaryContents(f, contents)]
    {
      moments := [];
      if f.step.Some? && f.step.value.Open? {
        return true, false, moments;
      }
      OldOrNewUpdates(files, dest, contents, temporary, Blank);
      OldOrNewUpdates(files, dest, contents, temporary, TemporaryContents(f, contents));
      files := files[temporary := Blank];
      moments := moments + [files];
      if f.step.Some? && f.step.value.Harden? {
        return true, true, moments;
      }
      files := files[temporary := if f.step == Some(WriteText) then Malformed else contents];
      assert files == old(files)[temporary := TemporaryContents(f, contents)];
      moments := moments + [files];
      if f.step.Some? && !f.step.value.Replace? && !f.step.value.SyncDirectory? {
        return true, true, moments;
      }
      if f.step.Some? && f.step.value.Replace? {
        return true, false, moments;
      }
      files := (files - {temporary})[dest := files[temporary]];
      assert files == old(files)[dest := contents];
      moments := moments + [files];
      return false, false, moments;
    }

    /**
     writeKubeconfigAtomically, with its finally block. `moments` are the files after each change:
     whenever the process were to stop, the destination would be the old file or the whole new one.
     */
    method WriteAtomically(dest: string, contents: Document, temporary: string, f: Faults)
      returns (threw: bool, ghost moments: seq<Files>)
      requires temporary !in files && temporary != dest
      modifies this
      ensures files == AfterWrite(old(files), dest, contents, temporary, f)
      ensures threw <==> Throws(f)
      ensures forall k :: 0 <= k < |moments| ==> OldOrNew(old(files), moments[k], dest, contents, temporary)
      ensures files != old(files) ==> moments != [] && moments[|moments| - 1] == files
    {
      var descriptor;
      threw, descriptor, moments := TryToReplace(dest, contents, temporary, f);
      if descriptor && (f.step.value.Close? || f.closeAgain) {
        moments := moments + [files];
        OldOrNewUpdates(old(files), dest, contents, temporary, TemporaryContents(f, contents));
        return true, moments;
      }
      if !f.remove {
        files := files - {temporary};
        assert files == if Replaces(f) then old(files)[dest := contents] else old(files);
      }
      moments := moments + [files];
      OldOrNewUpdates(old(files), dest, contents, temporary, TemporaryContents(f, contents));
      threw := threw || f.remove;
    }

    /** The body that mergeKubeconfigTransaction runs under the destination's lock. */
    method MergeTransaction(generated: Document, paths: seq<string>, temporary: string, f: Faults)
      returns (threw: bool, error: Option<Error>)
      requires paths != [] && temporary !in files && temporary != paths[0]
      modifies this
      ensures error
           == match TransactionOutcome(old(files), paths, generated) case Success(_) => None case Failure(e) => Some(e)
      ensures threw <==> error.Some? || Throws(f)
      ensures files == match TransactionOutcome(old(files), paths, generated)
                       case Success(c) => AfterWrite(old(files), paths[0], Parsed(c), temporary, f)
                       case Failure(_) => old(files)
    {
      var search: seq<Document> := [];
      for i := 0 to |paths|
        invariant search == Present(files, paths[..i])
        invariant files == old(files)
      {
        assert paths[..i + 1][..i] == paths[..i];
        if paths[i] in files {
          search := search + [files[paths[i]]];
        }
      }
      assert paths[..|paths|] == paths;
      if |search| > 0 {
        var effective := EffectiveKubeconfig(search);
        if effective.Failure? {
          return true, Some(effective.error);
        }
        var check := MergeKubeconfig(Parsed(effective.value), generated);
        if check.Failure? {
          return true, Some(check.error);
        }
      }
      var final := MergeKubeconfig(Contents(files, paths[0]), generated);
      if final.Failure? {
        return true, Some(final.error);
      }
      ghost var moments;
      threw, moments := WriteAtomically(paths[0], Parsed(final.value), temporary, f);
      error := None;
    }
  }

  // ----- Merging commutes with the search path ----------------------------------------------

  lemma {:induction false} PresentSplit(fs: Files, paths: seq<string>)
    requires paths != []
    ensures Present(fs, paths) == (if paths[0] in fs then [fs[paths[0]]] else []) + Present(fs, paths[1..])
  {
    if |paths| > 1 {
      PresentSplit(fs, paths[..|paths| - 1]);
      assert paths[..|paths| - 1][1..] == paths[1..][..|paths| - 2];
    }
  }

  ghost predicate Covers(after: Config, before: Document, kind: Kind) {
    View(ListOf(PartsOf(ConfigOf(before)), kind)).Keys <= View(ListOf(PartsOf(after), kind)).Keys
  }

  ghost function EffectiveView(docs: seq<Document>, kind: Kind): map<string, Value> {
    View(EffectiveList(Configs(docs), kind))
  }

  ghost function FileView(doc: Document, kind: Kind): map<string, Value> {
    View(ListOf(PartsOf(ConfigOf(doc)), kind))
  }

  lemma EffectiveViewAppend(docs: seq<Document>, last: Document, kind: Kind)
    requires Readable(docs) && WellFormed(ConfigOf(last))
    ensures EffectiveView(docs + [last], kind) == FileView(last, kind) + EffectiveView(docs, kind)
  {
    assert Configs(docs + [last]) == Configs(docs) + [ConfigOf(last)];
    EffectiveAppend(Configs(docs), ConfigOf(last), kind);
  }

  lemma PresentStep(fs: Files, ps: seq<string>, kind: Kind)
    requires ps != [] && Readable(Present(fs, ps))
    ensures var front, p := ps[..|ps| - 1], ps[|ps| - 1];
            && Readable(Present(fs, front))
            && EffectiveView(Present(fs, ps), kind) ==
               (if p in fs then FileView(fs[p], kind) else map[]) + EffectiveView(Present(fs, front), kind)
  {
    var front, p := ps[..|ps| - 1], ps[|ps| - 1];
    if p in fs {
      ReadablePrefix(Present(fs, front), fs[p]);
      EffectiveViewAppend(Present(fs, front), fs[p], kind);
    } else {
      assert map[] + EffectiveView(Present(fs, front), kind) == EffectiveView(Present(fs, front), kind);
    }
  }

  lemma {:induction false} StaysReadable(fs: Files, dest: string, after: Config, ps: seq<string>)
    requires WellFormed(after) && Readable(Present(fs, ps))
    ensures Readable(Present(fs[dest := Parsed(after)], ps))
  {
    var fs' := fs[dest := Parsed(after)];
    if ps != [] {
      var front, p := ps[..|ps| - 1], ps[|ps| - 1];
      if p in fs { ReadablePrefix(Present(fs, front), fs[p]); }
      StaysReadable(fs, dest, after, front);
      if p in fs' { ReadablePrefix(Present(fs', front), fs'[p]); }
    }
  }

  /** Rewriting the destination cannot show through later files once the destination is first. */
  lemma {:induction false} LaterFiles(fs: Files, dest: string, after: Config, ps: seq<string>, kind: Kind)
    requires WellFormed(after) && Readable(Present(fs, ps)) && Covers(after, Contents(fs, dest), kind)
    ensures EffectiveView(Present(fs[dest := Parsed(after)], ps), kind) + FileView(Parsed(after), kind)
         == EffectiveView(Present(fs, ps), kind) + FileView(Parsed(after), kind)
  {
    var fs' := fs[dest := Parsed(after)];
    if ps != [] {
      var front, p := ps[..|ps| - 1], ps[|ps| - 1];
      var own := FileView(Parsed(after), kind);
      StaysReadable(fs, dest, after, ps);
      PresentStep(fs, ps, kind);
      PresentStep(fs', ps, kind);
      LaterFiles(fs, dest, after, front, kind);
      var x, y := EffectiveView(Present(fs', front), kind), EffectiveView(Present(fs, front), kind);
      var dx := if p in fs' then FileView(fs'[p], kind) else map[];
      var dy := if p in fs then FileView(fs[p], kind) else map[];
      if p == dest {
        UnionShadow(dx, x, own);
        UnionShadow(dy, y, own);
      } else {
        UnionCongruence(dx, x, y, own);
      }
    }
  }

  lemma ReadableConfigs(docs: seq<Document>)
    requires Readable(docs)
    ensures AllWellFormed(Configs(docs))
  {
  }

  lemma ReadableHead(first: Document, tail: seq<Document>)
    ensures Readable([first] + tail) ==> !first.Malformed? && WellFormed(ConfigOf(first)) && Readable(tail)
  {
    var all := [first] + tail;
    assert all[0] == first;
    assert forall i :: 0 <= i < |tail| ==> all[i + 1] == tail[i];
  }

  lemma EffectiveViewHead(first: Document, tail: seq<Document>, kind: Kind)
    requires WellFormed(ConfigOf(first)) && Readable(tail)
    ensures EffectiveView([first] + tail, kind) == EffectiveView(tail, kind) + FileView(first, kind)
  {
    ReadableConfigs(tail);
    assert Configs([first] + tail) == [ConfigOf(first)] + Configs(tail);
    FirstFileWins(ConfigOf(first), Configs(tail), kind);
  }

  lemma BlankFile(kind: Kind)
    ensures WellFormed(ConfigOf(Blank)) && FileView(Blank, kind) == map[]
  {
  }

  /** The effective view splits into the destination, which wins, and the later files. */
  lemma DestinationWins(fs: Files, paths: seq<string>, kind: Kind)
    requires paths != [] && Readable(Present(fs, paths))
    ensures Readable(Present(fs, paths[1..])) && WellFormed(ConfigOf(Contents(fs, paths[0])))
    ensures EffectiveView(Present(fs, paths), kind)
         == EffectiveView(Present(fs, paths[1..]), kind) + FileView(Contents(fs, paths[0]), kind)
  {
    var tail := Present(fs, paths[1..]);
    PresentSplit(fs, paths);
    if paths[0] in fs {
      ReadableHead(fs[paths[0]], tail);
      EffectiveViewHead(fs[paths[0]], tail, kind);
    } else {
      BlankFile(kind);
      assert [] + tail == tail;
      assert EffectiveView(tail, kind) + map[] == EffectiveView(tail, kind);
    }
  }

  lemma CurrentOfDestination(fs: Files, paths: seq<string>)
    requires paths != []
    ensures var own := Field(ConfigOf(Contents(fs, paths[0])), "current-context");
            EffectiveCurrent(Configs(Present(fs, paths))) ==
            if IsNonBlank(own) then own else EffectiveCurrent(Configs(Present(fs, paths[1..])))
  {
    var docs, tail := Present(fs, paths), Present(fs, paths[1..]);
    PresentSplit(fs, paths);
    if paths[0] in fs {
      assert Configs(docs) == [ConfigOf(docs[0])] + Configs(tail);
      FirstCurrentWins(ConfigOf(docs[0]), Configs(tail));
    } else {
      assert docs == tail;
    }
  }

  /** Parts of the effective configuration, as the collision check sees them. */
  ghost function EffectivePartsOf(fs: Files, paths: seq<string>): Parts {
    EffectiveParts(Configs(Present(fs, paths)))
  }

  lemma CollisionCheckParts(fs: Files, paths: seq<string>, generated: Document)
    ensures CollisionCheck(Present(fs, paths), generated).Success? <==>
            && Readable(Present(fs, paths)) && !generated.Malformed? && WellFormed(ConfigOf(generated))
            && Mergeable(EffectivePartsOf(fs, paths), PartsOf(ConfigOf(generated)))
    ensures CollisionCheck(Present(fs, paths), generated).Success? ==>
            PartsOf(CollisionCheck(Present(fs, paths), generated).value)
            == Merged(EffectivePartsOf(fs, paths), PartsOf(ConfigOf(generated)))
  {
    var docs := Present(fs, paths);
    EffectiveOutcomeSuccess(docs);
    if Readable(docs) {
      ReadableConfigs(docs);
      EffectiveCoherent(Configs(docs));
      if CollisionCheck(docs, generated).Success? {
        MergeOutcomeParts(Parsed(EffectiveOutcome(docs).value), generated);
      }
    }
  }

  lemma DestinationWithin(fs: Files, paths: seq<string>)
    requires paths != [] && Readable(Present(fs, paths))
    ensures Within(PartsOf(ConfigOf(Contents(fs, paths[0]))), EffectivePartsOf(fs, paths))
  {
    DestinationWins(fs, paths, Clusters);
    DestinationWins(fs, paths, Contexts);
    DestinationWins(fs, paths, Users);
  }

  lemma DestinationMerges(fs: Files, paths: seq<string>, generated: Document)
    requires paths != [] && CollisionCheck(Present(fs, paths), generated).Success?
    ensures MergeOutcome(Contents(fs, paths[0]), generated).Success?
  {
    var dest := Contents(fs, paths[0]);
    CollisionCheckParts(fs, paths, generated);
    DestinationReadable(fs, paths);
    DestinationWithin(fs, paths);
    PartsOfCoherent(ConfigOf(dest));
    MergeableMonotone(PartsOf(ConfigOf(dest)), EffectivePartsOf(fs, paths), PartsOf(ConfigOf(generated)));
  }

  /** Once the generated config merges into the effective view, it merges into the destination. */
  lemma DestinationMergeNeverThrows(fs: Files, paths: seq<string>, generated: Document)
    requires paths != []
    ensures TransactionOutcome(fs, paths, generated).Success?
            <==> CollisionCheck(Present(fs, paths), generated).Success?
  {
    if CollisionCheck(Present(fs, paths), generated).Success? {
      DestinationMerges(fs, paths, generated);
    } else if Present(fs, paths) == [] {
      EmptySearchPath(fs, paths, generated);
    }
  }

  lemma EmptySearchPath(fs: Files, paths: seq<string>, generated: Document)
    requires paths != [] && Present(fs, paths) == []
    ensures MergeOutcome(Contents(fs, paths[0]), generated).Success? ==> CollisionCheck([], generated).Success?
  {
    PresentSplit(fs, paths);
    CollisionCheckParts(fs, paths, generated);
    assert Configs(Present(fs, paths)) == [];
    assert PartsOf(map[]) == EffectivePartsOf(fs, paths);
  }

  lemma DestinationReadable(fs: Files, paths: seq<string>)
    requires paths != [] && Readable(Present(fs, paths))
    ensures !Contents(fs, paths[0]).Malformed? && WellFormed(ConfigOf(Contents(fs, paths[0])))
  {
    PresentSplit(fs, paths);
    if paths[0] in fs { ReadableHead(fs[paths[0]], Present(fs, paths[1..])); } else { BlankFile(Clusters); }
  }

  /** The files after a successful transaction. */
  ghost function After(fs: Files, paths: seq<string>, generated: Document): Files
    requires paths != [] && TransactionOutcome(fs, paths, generated).Success?
  {
    fs[paths[0] := Parsed(TransactionOutcome(fs, paths, generated).value)]
  }

  lemma MergedListView(base: Parts, gen: Parts, kind: Kind)
    requires Coherent(base) && Coherent(gen)
    ensures View(ListOf(Merged(base, gen), kind)) == View(ListOf(base, kind)) + View(ListOf(gen, kind))
  {
    MergedViews(base, gen);
  }

  lemma MergedFileView(dest: Document, generated: Document, kind: Kind)
    requires MergeOutcome(dest, generated).Success?
    ensures WellFormed(MergeOutcome(dest, generated).value)
    ensures FileView(Parsed(MergeOutcome(dest, generated).value), kind)
         == FileView(dest, kind) + FileView(generated, kind)
  {
    MergeOutcomeParts(dest, generated);
    MergedListView(PartsOf(ConfigOf(dest)), PartsOf(ConfigOf(generated)), kind);
  }

  lemma CommutesOn(fs: Files, paths: seq<string>, generated: Document, kind: Kind)
    requires paths != [] && TransactionOutcome(fs, paths, generated).Success?
    ensures Readable(Present(After(fs, paths, generated), paths))
    ensures EffectiveView(Present(After(fs, paths, generated), paths), kind)
         == EffectiveView(Present(fs, paths), kind) + FileView(generated, kind)
  {
    var fs', dest := After(fs, paths, generated), Contents(fs, paths[0]);
    var after := TransactionOutcome(fs, paths, generated).value;
    var tail := paths[1..];
    DestinationMergeNeverThrows(fs, paths, generated);
    CollisionCheckParts(fs, paths, generated);
    DestinationWins(fs, paths, kind);
    MergedFileView(dest, generated, kind);
    StaysReadable(fs, paths[0], after, paths);
    DestinationWins(fs', paths, kind);
    LaterFiles(fs, paths[0], after, tail, kind);
    UnionAssoc(EffectiveView(Present(fs, tail), kind), FileView(dest, kind), FileView(generated, kind));
  }

  /** The generated current context is either ignored by the merge or usable as one. */
  predicate UsableCurrent(g: Config) {
    "current-context" in g && Truthy(g["current-context"]) ==> IsNonBlank(Field(g, "current-context"))
  }

  lemma CurrentAppend(docs: seq<Document>, last: Document)
    ensures var front, own := EffectiveCurrent(Configs(docs)), Field(ConfigOf(last), "current-context");
            EffectiveCurrent(Configs(docs + [last])) == if IsNonBlank(front) || !IsNonBlank(own) then front else own
  {
    assert Configs(docs + [last])[..|docs|] == Configs(docs);
  }

  lemma {:induction false} LaterCurrent(fs: Files, dest: string, after: Config, ps: seq<string>)
    requires Field(ConfigOf(Contents(fs, dest)), "current-context") == Field(after, "current-context")
    ensures EffectiveCurrent(Configs(Present(fs[dest := Parsed(after)], ps)))
         == EffectiveCurrent(Configs(Present(fs, ps)))
  {
    var fs' := fs[dest := Parsed(after)];
    if ps != [] {
      var front, p := ps[..|ps| - 1], ps[|ps| - 1];
      LaterCurrent(fs, dest, after, front);
      if p in fs { CurrentAppend(Present(fs, front), fs[p]); }
      if p in fs' { CurrentAppend(Present(fs', front), fs'[p]); }
    }
  }

  lemma CurrentCommutes(fs: Files, paths: seq<string>, generated: Document)
    requires paths != [] && TransactionOutcome(fs, paths, generated).Success?
    ensures EffectivePartsOf(After(fs, paths, generated), paths).current
         == Merged(EffectivePartsOf(fs, paths), PartsOf(ConfigOf(generated))).current
         <==> UsableCurrent(ConfigOf(generated))
  {
    var fs', dest := After(fs, paths, generated), Contents(fs, paths[0]);
    var after := TransactionOutcome(fs, paths, generated).value;
    MergeOutcomeParts(dest, generated);
    CurrentOfDestination(fs, paths);
    CurrentOfDestination(fs', paths);
    EffectiveCurrentNonBlank(Configs(Present(fs', paths)));
    var g := Field(ConfigOf(generated), "current-context");
    if !(g.Some? && Truthy(g.value)) {
      LaterCurrent(fs, paths[0], after, paths[1..]);
    }
  }

  /**
   Merging into the first file commutes with taking the effective view: name for name the view
   afterwards is the old view merged with the generated config, and so is the current context,
   exactly when the generated current context is usable.
   */
  lemma MergeCommutesWithSearchPath(fs: Files, paths: seq<string>, generated: Document)
    requires paths != [] && TransactionOutcome(fs, paths, generated).Success?
    ensures EffectiveOutcome(Present(After(fs, paths, generated), paths)).Success?
    ensures CollisionCheck(Present(fs, paths), generated).Success?
    ensures var now := PartsOf(EffectiveOutcome(Present(After(fs, paths, generated), paths)).value);
            var merged := PartsOf(CollisionCheck(Present(fs, paths), generated).value);
            && View(now.clusters) == View(merged.clusters)
            && View(now.contexts) == View(merged.contexts)
            && View(now.users) == View(merged.users)
            && (now.current == merged.current <==> UsableCurrent(ConfigOf(generated)))
  {
    DestinationMergeNeverThrows(fs, paths, generated);
    ListCommutes(fs, paths, generated, Clusters);
    ListCommutes(fs, paths, generated, Contexts);
    ListCommutes(fs, paths, generated, Users);
    CurrentCommutes(fs, paths, generated);
    CollisionCheckParts(fs, paths, generated);
    EffectivePartsRead(After(fs, paths, generated), paths);
  }

  /** The same for one of the three lists. */
  lemma ListCommutes(fs: Files, paths: seq<string>, generated: Document, kind: Kind)
    requires paths != [] && TransactionOutcome(fs, paths, generated).Success?
    requires CollisionCheck(Present(fs, paths), generated).Success?
    ensures Readable(Present(After(fs, paths, generated), paths))
    ensures EffectiveOutcome(Present(After(fs, paths, generated), paths)).Success?
    ensures View(ListOf(PartsOf(EffectiveOutcome(Present(After(fs, paths, generated), paths)).value), kind))
         == View(ListOf(PartsOf(CollisionCheck(Present(fs, paths), generated).value), kind))
  {
    CommutesOn(fs, paths, generated, kind);
    CollisionView(fs, paths, generated, kind);
    EffectivePartsRead(After(fs, paths, generated), paths);
  }

  lemma EffectivePartsRead(fs: Files, paths: seq<string>)
    requires Readable(Present(fs, paths))
    ensures EffectiveOutcome(Present(fs, paths)).Success?
    ensures PartsOf(EffectiveOutcome(Present(fs, paths)).value) == EffectivePartsOf(fs, paths)
    ensures Coherent(EffectivePartsOf(fs, paths))
  {
    EffectiveOutcomeSuccess(Present(fs, paths));
    ReadableConfigs(Present(fs, paths));
    EffectiveCoherent(Configs(Present(fs, paths)));
  }

  lemma CollisionView(fs: Files, paths: seq<string>, generated: Document, kind: Kind)
    requires CollisionCheck(Present(fs, paths), generated).Success?
    ensures View(ListOf(PartsOf(CollisionCheck(Present(fs, paths), generated).value), kind))
         == EffectiveView(Present(fs, paths), kind) + FileView(generated, kind)
  {
    CollisionCheckParts(fs, paths, generated);
    EffectivePartsRead(fs, paths);
    PartsOfCoherent(ConfigOf(generated));
    MergedListView(EffectivePartsOf(fs, paths), PartsOf(ConfigOf(generated)), kind);
  }

  /** Over the whole search path, a transaction leaves every context on its API server. */
  lemma TransactionKeepsServers(fs: Files, paths: seq<string>, generated: Document, context: string)
    requires paths != [] && TransactionOutcome(fs, paths, generated).Success?
    requires ResolveServer(EffectivePartsOf(fs, paths), context).Some?
    ensures ResolveServer(EffectivePartsOf(After(fs, paths, generated), paths), context)
         == ResolveServer(EffectivePartsOf(fs, paths), context)
  {
    DestinationMergeNeverThrows(fs, paths, generated);
    CollisionCheckParts(fs, paths, generated);
    EffectivePartsRead(fs, paths);
    PartsOfCoherent(ConfigOf(generated));
    ContextsKeepServer(EffectivePartsOf(fs, paths), PartsOf(ConfigOf(generated)), context);
    MergedListView(EffectivePartsOf(fs, paths), PartsOf(ConfigOf(generated)), Clusters);
    MergedListView(EffectivePartsOf(fs, paths), PartsOf(ConfigOf(generated)), Contexts);
    CommutesOn(fs, paths, generated, Clusters);
    CommutesOn(fs, paths, generated, Contexts);
  }

  /** A transaction keeps every other file, and of its destination every field that it does not merge. */
  lemma TransactionKeepsOtherFields(fs: Files, paths: seq<string>, generated: Document, path: string, key: string)
    requires paths != [] && TransactionOutcome(fs, paths, generated).Success?
    ensures path != paths[0] ==> Contents(After(fs, paths, generated), path) == Contents(fs, path)
    ensures key !in MERGED_KEYS ==>
              Field(ConfigOf(Contents(After(fs, paths, generated), path)), key)
              == Field(ConfigOf(Contents(fs, path)), key)
  {
    MergeKeepsOtherFields(Contents(fs, paths[0]), generated, key);
  }

  /** A validated configuration satisfies the side conditions of commuting and of merging twice. */
  lemma SoundIsMergeable(g: Config, isServerUrl: string -> bool)
    requires Sound(g, isServerUrl)
    ensures WellFormed(g) && UsableCurrent(g) && ServersNamed(PartsOf(g))
  {
  }

  /** A configuration whose current context is a blank string: merged, yet never effective. */
  lemma BlankCurrentDoesNotCommute()
    ensures var generated := Parsed(map["current-context" := Str(" ")]);
            && TransactionOutcome(map[], ["config"], generated).Success?
            && EffectivePartsOf(After(map[], ["config"], generated), ["config"]).current
            != Merged(EffectivePartsOf(map[], ["config"]), PartsOf(ConfigOf(generated))).current
  {
    var g: Config := map["current-context" := Str(" ")];
    BlankFile(Clusters);
    DestinationMergeNeverThrows(map[], ["config"], Parsed(g));
    assert Readable(Present(map[], ["config"]));
    CollisionCheckParts(map[], ["config"], Parsed(g));
    CurrentCommutes(map[], ["config"], Parsed(g));
  }
}
