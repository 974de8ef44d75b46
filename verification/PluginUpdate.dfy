/**
 Plugin installation receipts and the update transaction of app/electron/plugin-management.ts.

 Directories are values keyed by location (inventory path and bundle name, symbolic links already
 resolved); the receipt store is one file outside them. Each file-system call of the source that
 can throw is a step at which a fault may be injected.
 */
module PluginUpdate {
  import opened Common

  datatype Location = Location(inventory: string, bundle: string)

  datatype Identity = Identity(repository: string, package: string, packageId: string, repositoryId: string)

  /** What a caller expects of an identity; the two IDs are optional. */
  datatype Expected = Expected(repository: string, package: string, packageId: Option<string>,
                               repositoryId: Option<string>)

  /**
   A bundle directory: package.json without its integrity metadata, that metadata, the other
   regular files, and whether it is free of links and special files.
   */
  datatype Bundle = Bundle(package: Option<string>, executables: map<string, string>, files: map<string, string>,
                           plain: bool)

  type Digests = map<string, string>

  datatype Receipt = Receipt(at: Location, identity: Identity, files: Digests)

  /** An element of the stored array: null, an object of the wrong shape, or a receipt. */
  datatype Stored = NullEntry | Malformed | Entry(receipt: Receipt)

  datatype Store = Unreadable | Store(version: int, entries: seq<Stored>)

  // ----- Digests ----------------------------------------------------------------------------

  /** SHA-256 in lowercase hexadecimal; nothing else about it matters here. */
  ghost predicate IsDigest(hash: string -> string) {
    forall s :: HexDigest(hash(s))
  }

  /** A bundle of regular files with non-empty relative paths, package.json kept apart. */
  predicate Proper(b: Bundle) {
    "" !in b.files && "package.json" !in b.files
  }

  /** pluginBundleFiles, for a bundle it does not reject; hashPluginPackage ignores the metadata. */
  function DigestsOf(hash: string -> string, b: Bundle): Digests {
    var others := map f | f in b.files :: hash(b.files[f]);
    if b.package.Some? then others["package.json" := hash(b.package.value)] else others
  }

  /** Object.keys(...).length equality and every(...) of verifyPluginInstallationIntegrity. */
  method SameDigests(current: Digests, recorded: Digests) returns (same: bool)
    ensures same <==> current == recorded
  {
    if |current| != |recorded| {
      return false;
    }
    var paths := recorded.Keys;
    while paths != {}
      invariant paths <= recorded.Keys
      invariant forall f :: f in recorded && f !in paths ==> f in current && current[f] == recorded[f]
      decreases |paths|
    {
      var f :| f in paths;
      if f !in current || current[f] != recorded[f] {
        return false;
      }
      paths := paths - {f};
    }
    SubsetOfSameSize(recorded.Keys, current.Keys);
    return true;
  }

  lemma SubsetOfSameSize(a: set<string>, b: set<string>)
    requires a <= b && |a| == |b|
    ensures a == b
  {
    assert |b| == |a| + |b - a|;
  }

  // ----- The receipt store ------------------------------------------------------------------

  predicate IsAbsolute(path: string) {
    path != "" && path[0] == '/'
  }

  predicate ValidReceipt(r: Receipt) {
    IsAbsolute(r.at.inventory) && r.at.bundle != "" && forall f :: f in r.files ==> f != "" && HexDigest(r.files[f])
  }

  function ValidEntries(entries: seq<Stored>): seq<Receipt> {
    if entries == [] then []
    else
      var front, last := ValidEntries(entries[..|entries| - 1]), entries[|entries| - 1];
      if last.Entry? && ValidReceipt(last.receipt) then front + [last.receipt] else front
  }

  /** readPluginInstallationReceipts: a null element throws, and the reader answers with nothing. */
  function ReadReceipts(store: Store): seq<Receipt> {
    if store.Unreadable? || store.version != 1 || NullEntry in store.entries then [] else ValidEntries(store.entries)
  }

  function Find(receipts: seq<Receipt>, at: Location): Option<Receipt> {
    if receipts == [] then None
    else if receipts[0].at == at then Some(receipts[0])
    else Find(receipts[1..], at)
  }

  function Without(receipts: seq<Receipt>, at: Location): seq<Receipt> {
    if receipts == [] then []
    else if receipts[0].at == at then Without(receipts[1..], at)
    else [receipts[0]] + Without(receipts[1..], at)
  }

  function Serialize(receipts: seq<Receipt>): Store {
    Store(1, seq(|receipts|, i requires 0 <= i < |receipts| => Entry(receipts[i])))
  }

  predicate Matches(r: Identity, e: Expected) {
    && r.repository == e.repository && r.package == e.package
    && (e.packageId.Some? ==> r.packageId == e.packageId.value)
    && (e.repositoryId.Some? ==> r.repositoryId == e.repositoryId.value)
  }

  /** readPluginInstallationReceipt. */
  function Lookup(store: Store, at: Location, e: Expected): Option<Receipt> {
    var r := Find(ReadReceipts(store), at);
    if r.Some? && Matches(r.value.identity, e) then r else None
  }

  /** verifyPluginInstallationIntegrity. */
  predicate Verifies(hash: string -> string, dirs: map<Location, Bundle>, store: Store, at: Location, e: Expected) {
    var r := Lookup(store, at, e);
    && at in dirs && dirs[at].plain && r.Some? && DigestsOf(hash, dirs[at]) == r.value.files
  }

  lemma {:induction false} SerializeRead(receipts: seq<Receipt>)
    requires forall i :: 0 <= i < |receipts| ==> ValidReceipt(receipts[i])
    ensures ReadReceipts(Serialize(receipts)) == receipts
  {
    if receipts != [] {
      var front := receipts[..|receipts| - 1];
      SerializeRead(front);
      assert Serialize(receipts).entries[..|receipts| - 1] == Serialize(front).entries;
    }
  }

  lemma {:induction false} EntriesAreValid(entries: seq<Stored>)
    ensures forall i :: 0 <= i < |ValidEntries(entries)| ==> ValidReceipt(ValidEntries(entries)[i])
  {
    if entries != [] { EntriesAreValid(entries[..|entries| - 1]); }
  }

  lemma {:induction false} WithoutKeeps(receipts: seq<Receipt>, at: Location, other: Location)
    ensures Find(Without(receipts, at), other) == if other == at then None else Find(receipts, other)
    ensures forall r :: r in Without(receipts, at) ==> r in receipts
  {
    if receipts != [] { WithoutKeeps(receipts[1..], at, other); }
  }

  lemma {:induction false} FindAppend(receipts: seq<Receipt>, r: Receipt, at: Location)
    ensures Find(receipts + [r], at) ==
            if Find(receipts, at).Some? then Find(receipts, at) else if r.at == at then Some(r) else None
  {
    if receipts != [] {
      assert (receipts + [r])[1..] == receipts[1..] + [r];
      FindAppend(receipts[1..], r, at);
    }
  }

  /** The store after recording a receipt. */
  function Recorded(store: Store, r: Receipt): Store {
    Serialize(Without(ReadReceipts(store), r.at) + [r])
  }

  /** Recording replaces the receipt of its own location and leaves every other valid one. */
  lemma RecordedLookup(store: Store, r: Receipt, at: Location)
    requires ValidReceipt(r)
    ensures Find(ReadReceipts(Recorded(store, r)), at) == if at == r.at then Some(r) else Find(ReadReceipts(store), at)
  {
    var kept := Without(ReadReceipts(store), r.at);
    if !store.Unreadable? { EntriesAreValid(store.entries); }
    WithoutKeeps(ReadReceipts(store), r.at, at);
    forall i | 0 <= i < |kept + [r]| ensures ValidReceipt((kept + [r])[i]) {
      if i < |kept| { assert kept[i] in ReadReceipts(store); }
    }
    SerializeRead(kept + [r]);
    FindAppend(kept, r, at);
  }

  // ----- Identities -------------------------------------------------------------------------

  predicate IsUuid(s: string) {
    && |s| == 36
    && (forall i :: 0 <= i < 36 ==>
          if i in {8, 13, 18, 23} then s[i] == '-'
          else '0' <= s[i] <= '9' || 'a' <= s[i] <= 'f' || 'A' <= s[i] <= 'F')
    && '1' <= s[14] <= '5' && s[19] in {'8', '9', 'a', 'b', 'A', 'B'}
  }

  predicate ValidIdentity(i: Identity) {
    IsName(i.repository) && IsName(i.package) && IsUuid(i.packageId) && IsUuid(i.repositoryId)
  }

  predicate HexDigit(c: char) {
    '0' <= c <= '9' || 'a' <= c <= 'f' || 'A' <= c <= 'F'
  }

  /** Groups of 8, 4, 4, 4 and 12 hexadecimal digits; the third begins with 1 to 5, the fourth with 8, 9, a or b. */
  predicate UuidGroups(s: string, a: string, b: string, c: string, d: string, e: string) {
    && s == a + "-" + b + "-" + c + "-" + d + "-" + e
    && |a| == 8 && |b| == 4 && |c| == 4 && |d| == 4 && |e| == 12
    && (forall x :: x in a + b + c + d + e ==> HexDigit(x))
    && c[0] in {'1', '2', '3', '4', '5'} && d[0] in {'8', '9', 'a', 'A', 'b', 'B'}
  }

  lemma UuidFrom(s: string, a: string, b: string, c: string, d: string, e: string)
    requires UuidGroups(s, a, b, c, d, e)
    ensures IsUuid(s)
  {
    var all := a + b + c + d + e;
    assert |s| == 36;
    assert s[8] == '-' && s[13] == '-' && s[18] == '-' && s[23] == '-' && s[14] == c[0] && s[19] == d[0];
    forall i | 0 <= i < 36 && i !in {8, 13, 18, 23} ensures HexDigit(s[i]) {
      var k := if i < 8 then i else if i < 13 then i - 1 else if i < 18 then i - 2 else if i < 23 then i - 3 else i - 4;
      assert s[i] == all[k];
    }
  }

  lemma UuidHas(s: string)
    requires IsUuid(s)
    ensures UuidGroups(s, s[..8], s[9..13], s[14..18], s[19..23], s[24..])
  {
    assert s == s[..8] + [s[8]] + s[9..13] + [s[13]] + s[14..18] + [s[18]] + s[19..23] + [s[23]] + s[24..];
  }

  ghost predicate HasUuidGroups(s: string) {
    exists a, b, c, d, e :: UuidGroups(s, a, b, c, d, e)
  }

  lemma UuidExactly(s: string)
    ensures IsUuid(s) <==> HasUuidGroups(s)
  {
    if IsUuid(s) { UuidHas(s); }
    if a, b, c, d, e :| UuidGroups(s, a, b, c, d, e) { UuidFrom(s, a, b, c, d, e); }
  }

  /** Which identities are recorded: two names and two UUIDs. */
  lemma IdentityAcceptedExactlyWhen(i: Identity)
    ensures ValidIdentity(i) <==>
            && IsName(i.repository) && IsName(i.package)
            && HasUuidGroups(i.packageId) && HasUuidGroups(i.repositoryId)
  {
    UuidExactly(i.packageId);
    UuidExactly(i.repositoryId);
  }

  function Expecting(i: Identity): Expected {
    Expected(i.repository, i.package, Some(i.packageId), Some(i.repositoryId))
  }

  // ----- The file system --------------------------------------------------------------------

  /** Calls that can throw. The rollback and the final removal of the backup have their own flags. */
  datatype Fault =
    | NoFault
    | BackupRename
    | MoveDirs(partial: Option<Bundle>)
    | Executables
    | StoreDirectory
    | StoreWrite
    | StoreRename
    | StoreCleanup

  /** How the catch block itself fares; a removal that throws leaves some of the new directory. */
  datatype Rollback = Works | RemoveFails(left: Bundle) | RestoreFails

  /** The receipt store's rename is reached: no earlier call threw. */
  predicate Reached(identity: Identity, download: Bundle, fault: Fault) {
    (fault.NoFault? || fault.StoreCleanup?) && ValidIdentity(identity) && download.plain && download.package.Some?
  }

  class FileSystem {
    var dirs: map<Location, Bundle>
    var store: Store

    constructor (dirs: map<Location, Bundle>, store: Store)
      ensures this.dirs == dirs && this.store == store
    {
      this.dirs, this.store := dirs, store;
    }

    /** writePluginInstallationReceipts: the cleanup in the finally block runs after the rename. */
    method WriteReceipts(receipts: seq<Receipt>, fault: Fault) returns (ok: bool)
      modifies this`store
      ensures ok <==> !fault.StoreDirectory? && !fault.StoreWrite? && !fault.StoreRename? && !fault.StoreCleanup?
      ensures store == if ok || fault.StoreCleanup? then Serialize(receipts) else old(store)
    {
      if fault.StoreDirectory? || fault.StoreWrite? || fault.StoreRename? {
        return false;
      }
      store := Serialize(receipts);
      ok := !fault.StoreCleanup?;
    }

    /** recordPluginInstallationIntegrity. */
    method RecordInstallation(hash: string -> string, at: Location, identity: Identity, fault: Fault) returns (ok: bool)
      modifies this`store
      ensures var writes := ValidIdentity(identity) && at in dirs && dirs[at].plain;
              && (ok <==> writes && !fault.StoreDirectory? && !fault.StoreWrite? && !fault.StoreRename?
                          && !fault.StoreCleanup?)
              && store == (if ok || (writes && fault.StoreCleanup?)
                           then Recorded(old(store), Receipt(at, identity, DigestsOf(hash, dirs[at])))
                           else old(store))
    {
      if !ValidIdentity(identity) || at !in dirs || !dirs[at].plain {
        return false;
      }
      var receipt := Receipt(at, identity, DigestsOf(hash, dirs[at]));
      var kept := FilterOut(ReadReceipts(store), at);
      ok := WriteReceipts(kept + [receipt], fault);
    }

    /** removePluginInstallationReceipt: write only when something was removed. */
    method RemoveReceipt(at: Location) returns (written: bool)
      modifies this`store
      ensures Find(ReadReceipts(store), at) == None
      ensures forall other :: other != at ==> Find(ReadReceipts(store), other) == Find(ReadReceipts(old(store)), other)
      ensures !written ==> store == old(store)
    {
      var receipts := ReadReceipts(store);
      var retained := FilterOut(receipts, at);
      written := |retained| != |receipts|;
      RemovalFacts(store, at);
      if written {
        store := Serialize(retained);
      }
    }

    /** The try block of update: move the new bundle in, record executable digests, record the receipt. */
    method InstallDownload(hash: string -> string, at: Location, download: Bundle, executables: map<string, string>,
                           identity: Identity, fault: Fault) returns (ok: bool)
      requires at !in dirs && !fault.BackupRename?
      modifies this
      ensures ok <==> fault == NoFault && Reached(identity, download, fault)
      ensures ok ==> dirs == old(dirs)[at := download.(executables := executables)]
      ensures dirs - {at} == old(dirs)
      ensures store == if Reached(identity, download, fault)
                       then Recorded(old(store), Receipt(at, identity, DigestsOf(hash, download))) else old(store)
    {
      ok := false;
      if fault.MoveDirs? {
        if fault.partial.Some? {
          dirs := dirs[at := fault.partial.value];
        }
        return;
      }
      dirs := dirs[at := download];
      if fault.Executables? || download.package.None? {
        return;
      }
      dirs := dirs[at := download.(executables := executables)];
      DigestsIgnoreMetadata(hash, download, executables);
      ok := RecordInstallation(hash, at, identity, fault);
    }

    /** The catch block: delete the new directory and rename the backup into place. */
    method RollBack(at: Location, backup: Location, rollback: Rollback)
      requires backup in dirs && backup != at
      modifies this`dirs
      ensures dirs == match rollback
                      case Works => (old(dirs) - {at, backup})[at := old(dirs)[backup]]
                      case RemoveFails(left) => old(dirs)[at := left]
                      case RestoreFails => old(dirs) - {at}
    {
      if rollback.RemoveFails? {
        dirs := dirs[at := rollback.left];
        return;
      }
      dirs := dirs - {at};
      if rollback.RestoreFails? {
        return;
      }
      dirs := (dirs - {backup})[at := dirs[backup]];
      assert dirs == (old(dirs) - {at, backup})[at := old(dirs)[backup]];
    }

    /** PluginManager.update from the backup rename on. */
    method Update(hash: string -> string, at: Location, backup: Location, download: Bundle,
                  executables: map<string, string>, identity: Identity, fault: Fault, rollback: Rollback,
                  backupRemoved: bool)
      returns (ok: bool)
      requires IsDigest(hash) && at in dirs && backup !in dirs && backup != at
      requires Proper(download) && IsAbsolute(at.inventory) && at.bundle != ""
      modifies this
      // Success: the new bundle is in place, nothing else moved, and its new identity verifies.
      ensures ok <==> fault == NoFault && Reached(identity, download, fault)
      ensures ok ==> dirs == (if backupRemoved then old(dirs) else old(dirs)[backup := old(dirs)[at]])
                             [at := download.(executables := executables)]
      ensures ok ==> Verifies(hash, dirs, store, at, Expecting(identity))
      // Failure with a working rollback: every directory is as it was.
      ensures !ok && (rollback.Works? || fault.BackupRename?) ==> dirs == old(dirs)
      // Failure of the rollback too: the old bundle is still in the backup, and nothing else moved.
      ensures !ok && !rollback.Works? && !fault.BackupRename? ==>
                dirs - {at} == (old(dirs) - {at})[backup := old(dirs)[at]]
      // The store changes only when its rename was reached; then the new receipt is in it.
      ensures store == if Reached(identity, download, fault)
                       then Recorded(old(store), Receipt(at, identity, DigestsOf(hash, download))) else old(store)
      // Either way the valid receipts of other bundles are unchanged.
      ensures forall other :: other != at ==> Find(ReadReceipts(store), other) == Find(ReadReceipts(old(store)), other)
    {
      if fault.BackupRename? {
        return false;
      }
      RecordedFacts(hash, store, at, identity, download);
      dirs := (dirs - {at})[backup := dirs[at]];
      ok := InstallDownload(hash, at, download, executables, identity, fault);
      if !ok {
        RestoredDirs(old(dirs), dirs, at, backup);
        RollBack(at, backup, rollback);
        return;
      }
      UpdatedDirs(old(dirs), dirs, at, backup, download.(executables := executables));
      if backupRemoved {
        dirs := dirs - {backup};
      }
    }
  }

  lemma RestoredDirs(before: map<Location, Bundle>, now: map<Location, Bundle>, at: Location, backup: Location)
    requires at in before && backup !in before && backup != at
    requires now - {at} == (before - {at})[backup := before[at]]
    ensures backup in now && (now - {at, backup})[at := now[backup]] == before
  {
    assert backup in now - {at};
    assert now - {at, backup} == (now - {at}) - {backup} == before - {at};
  }

  lemma UpdatedDirs(before: map<Location, Bundle>, now: map<Location, Bundle>, at: Location, backup: Location,
                    b: Bundle)
    requires at in before && backup !in before && backup != at
    requires now == (before - {at})[backup := before[at]][at := b]
    ensures now == before[backup := before[at]][at := b] && now - {backup} == before[at := b]
  {
  }

  /** `receipts.filter(...)` by location. */
  method FilterOut(receipts: seq<Receipt>, at: Location) returns (kept: seq<Receipt>)
    ensures kept == Without(receipts, at)
  {
    kept := [];
    var i := |receipts|;
    while i > 0
      invariant 0 <= i <= |receipts|
      invariant kept == Without(receipts[i..], at)
    {
      i := i - 1;
      assert receipts[i..][1..] == receipts[i + 1..];
      if receipts[i].at != at {
        kept := [receipts[i]] + kept;
      }
    }
    assert receipts[0..] == receipts;
  }

  lemma {:induction false} WithoutLength(receipts: seq<Receipt>, at: Location)
    ensures |Without(receipts, at)| <= |receipts|
    ensures |Without(receipts, at)| == |receipts| ==> Find(receipts, at).None?
  {
    if receipts != [] { WithoutLength(receipts[1..], at); }
  }

  lemma RemovalFacts(store: Store, at: Location)
    ensures var kept := Without(ReadReceipts(store), at);
            && (|kept| == |ReadReceipts(store)| ==> Find(ReadReceipts(store), at).None?)
            && ReadReceipts(Serialize(kept)) == kept
            && Find(kept, at).None?
            && forall other :: other != at ==> Find(kept, other) == Find(ReadReceipts(store), other)
  {
    var kept := Without(ReadReceipts(store), at);
    WithoutLength(ReadReceipts(store), at);
    if !store.Unreadable? { EntriesAreValid(store.entries); }
    WithoutKeeps(ReadReceipts(store), at, at);
    forall i | 0 <= i < |kept| ensures ValidReceipt(kept[i]) {
      assert kept[i] in ReadReceipts(store);
    }
    SerializeRead(kept);
    forall other | other != at ensures Find(kept, other) == Find(ReadReceipts(store), other) {
      WithoutKeeps(ReadReceipts(store), at, other);
    }
  }

  /** Recording executable digests in package.json does not disturb the recorded package digest. */
  lemma DigestsIgnoreMetadata(hash: string -> string, b: Bundle, executables: map<string, string>)
    ensures DigestsOf(hash, b.(executables := executables)) == DigestsOf(hash, b)
  {
  }

  lemma RecordedFacts(hash: string -> string, store: Store, at: Location, identity: Identity, b: Bundle)
    requires IsDigest(hash) && Proper(b) && IsAbsolute(at.inventory) && at.bundle != ""
    ensures var r := Receipt(at, identity, DigestsOf(hash, b));
            && Find(ReadReceipts(Recorded(store, r)), at) == Some(r)
            && forall other :: other != at ==>
                 Find(ReadReceipts(Recorded(store, r)), other) == Find(ReadReceipts(store), other)
  {
    var r := Receipt(at, identity, DigestsOf(hash, b));
    assert ValidReceipt(r);
    RecordedLookup(store, r, at);
    forall other | other != at
      ensures Find(ReadReceipts(Recorded(store, r)), other) == Find(ReadReceipts(store), other) {
      RecordedLookup(store, r, other);
    }
  }

  // ----- What verification means ------------------------------------------------------------

  /** No two texts have one digest. */
  ghost predicate Collisionless(hash: string -> string) {
    forall s, t :: hash(s) == hash(t) ==> s == t
  }

  /** What a bundle holds under a path; package.json counts without its metadata. */
  function ContentsAt(b: Bundle, f: string): Option<string> {
    if f == "package.json" then b.package else if f in b.files then Some(b.files[f]) else None
  }

  lemma DigestAt(hash: string -> string, b: Bundle, f: string)
    ensures f in DigestsOf(hash, b) <==> ContentsAt(b, f).Some? || (f == "package.json" && f in b.files)
    ensures ContentsAt(b, f).Some? ==> DigestsOf(hash, b)[f] == hash(ContentsAt(b, f).value)
  {
  }

  lemma SameContents(a: Bundle, b: Bundle)
    requires Proper(a) && Proper(b) && forall f :: ContentsAt(a, f) == ContentsAt(b, f)
    ensures a.package == b.package && a.files == b.files
  {
    assert ContentsAt(a, "package.json") == ContentsAt(b, "package.json");
    forall f ensures f in a.files <==> f in b.files { assert ContentsAt(a, f) == ContentsAt(b, f); }
    forall f | f in a.files ensures a.files[f] == b.files[f] { assert ContentsAt(a, f) == ContentsAt(b, f); }
  }

  /** Digest maps are equal exactly when package.json (without its metadata) and every other file are. */
  lemma DigestsTellContents(hash: string -> string, a: Bundle, b: Bundle)
    requires Collisionless(hash) && Proper(a) && Proper(b)
    ensures DigestsOf(hash, a) == DigestsOf(hash, b) <==> a.package == b.package && a.files == b.files
  {
    if DigestsOf(hash, a) == DigestsOf(hash, b) {
      forall f ensures ContentsAt(a, f) == ContentsAt(b, f) {
        DigestAt(hash, a, f);
        DigestAt(hash, b, f);
      }
      SameContents(a, b);
    }
  }

  /**
   Once a bundle has been recorded, what is found at its place verifies exactly when it is free of
   links and special files, the expected identity is the recorded one (as far as it is given), and
   package.json and every other file are as they were: none changed, added or removed.
   */
  lemma VerifiesExactlyWhenUnchanged(hash: string -> string, dirs: map<Location, Bundle>, store: Store, at: Location,
                                     identity: Identity, recorded: Bundle, e: Expected)
    requires IsDigest(hash) && Collisionless(hash) && Proper(recorded) && (at in dirs ==> Proper(dirs[at]))
    requires IsAbsolute(at.inventory) && at.bundle != ""
    ensures Verifies(hash, dirs, Recorded(store, Receipt(at, identity, DigestsOf(hash, recorded))), at, e) <==>
            && at in dirs && dirs[at].plain
            && e.repository == identity.repository && e.package == identity.package
            && (e.packageId == None || e.packageId == Some(identity.packageId))
            && (e.repositoryId == None || e.repositoryId == Some(identity.repositoryId))
            && dirs[at].package == recorded.package && dirs[at].files == recorded.files
  {
    RecordedFacts(hash, store, at, identity, recorded);
    if at in dirs { DigestsTellContents(hash, dirs[at], recorded); }
  }

  /** A stored element that counts: a receipt with an absolute place, a bundle name and proper digests. */
  ghost predicate Counts(entry: Stored, at: Location) {
    && entry.Entry? && entry.receipt.at == at && at.bundle != "" && at.inventory != "" && at.inventory[0] == '/'
    && forall f :: f in entry.receipt.files ==> f != "" && HexDigest(entry.receipt.files[f])
  }

  /** The first element that counts for a place. */
  ghost predicate FirstFor(entries: seq<Stored>, at: Location, i: nat) {
    i < |entries| && Counts(entries[i], at) && forall j :: 0 <= j < i ==> !Counts(entries[j], at)
  }

  lemma {:induction false} FindIsFirst(entries: seq<Stored>, at: Location)
    ensures match Find(ValidEntries(entries), at)
            case Some(r) => exists i: nat :: FirstFor(entries, at, i) && entries[i] == Entry(r)
            case None => forall i :: 0 <= i < |entries| ==> !Counts(entries[i], at)
  {
    if entries != [] {
      var front, last := entries[..|entries| - 1], entries[|entries| - 1];
      FindIsFirst(front, at);
      if last.Entry? && ValidReceipt(last.receipt) { FindAppend(ValidEntries(front), last.receipt, at); }
      if Find(ValidEntries(front), at).Some? {
        var i: nat :| FirstFor(front, at, i) && front[i] == Entry(Find(ValidEntries(front), at).value);
        assert FirstFor(entries, at, i);
      } else if Counts(last, at) {
        assert FirstFor(entries, at, |entries| - 1);
      }
    }
  }

  /**
   The receipt consulted for a place is the first one in the store that counts for it, provided that
   the store is readable, has version 1 and holds no null; and its identity must be the expected one.
   */
  lemma LookupExactly(store: Store, at: Location, e: Expected, r: Receipt)
    ensures Lookup(store, at, e) == Some(r) <==>
            && store.Store? && store.version == 1 && NullEntry !in store.entries
            && (exists i: nat :: FirstFor(store.entries, at, i) && store.entries[i] == Entry(r))
            && e.repository == r.identity.repository && e.package == r.identity.package
            && (e.packageId == None || e.packageId == Some(r.identity.packageId))
            && (e.repositoryId == None || e.repositoryId == Some(r.identity.repositoryId))
  {
    if store.Store? {
      FindIsFirst(store.entries, at);
      forall i: nat, j: nat | FirstFor(store.entries, at, i) && FirstFor(store.entries, at, j) ensures i == j {}
    }
  }

  // ----- What a failed update leaves behind -------------------------------------------------

  /**
   After a rollback the old bundle is back, and the answer for any expectation is the old one
   unless the failure came from the store's cleanup; in that case the new receipt is what the old
   bundle is compared with.
   */
  lemma RolledBackAnswer(hash: string -> string, dirs: map<Location, Bundle>, store: Store, at: Location,
                         identity: Identity, download: Bundle, e: Expected)
    requires IsDigest(hash) && Proper(download) && at in dirs && IsAbsolute(at.inventory) && at.bundle != ""
    ensures var after := Recorded(store, Receipt(at, identity, DigestsOf(hash, download)));
            && Verifies(hash, dirs, after, at, e) ==
               (dirs[at].plain && Matches(identity, e) && DigestsOf(hash, dirs[at]) == DigestsOf(hash, download))
            && forall other, x :: other != at ==>
                 Verifies(hash, dirs, after, other, x) == Verifies(hash, dirs, store, other, x)
  {
    RecordedFacts(hash, store, at, identity, download);
  }

  /**
   For an installed bundle that verified, a rolled-back update whose store cleanup failed keeps the
   old answer exactly when the update would have changed nothing that is checked.
   */
  lemma CleanupFaultKeepsAnswerIffNothingChanged(hash: string -> string, dirs: map<Location, Bundle>, store: Store,
                                                 at: Location, identity: Identity, download: Bundle, e: Expected)
    requires IsDigest(hash) && Proper(download) && at in dirs && IsAbsolute(at.inventory) && at.bundle != ""
    requires Verifies(hash, dirs, store, at, e)
    ensures Verifies(hash, dirs, Recorded(store, Receipt(at, identity, DigestsOf(hash, download))), at, e)
            <==> Matches(identity, e) && DigestsOf(hash, dirs[at]) == DigestsOf(hash, download)
  {
    RolledBackAnswer(hash, dirs, store, at, identity, download, e);
  }

  /** An installed bundle that verified, and an update to one with an extra file whose store cleanup failed. */
  lemma CleanupFaultLosesVerification(hash: string -> string, at: Location, identity: Identity)
    requires IsDigest(hash) && IsAbsolute(at.inventory) && at.bundle != ""
    ensures var installed := Bundle(Some("{}"), map[], map[], true);
            var download := Bundle(Some("{}"), map[], map["main.js" := ""], true);
            var dirs := map[at := installed];
            var store := Recorded(Store(1, []), Receipt(at, identity, DigestsOf(hash, installed)));
            && Verifies(hash, dirs, store, at, Expecting(identity))
            && !Verifies(hash, dirs, Recorded(store, Receipt(at, identity, DigestsOf(hash, download))),
                         at, Expecting(identity))
  {
    var installed := Bundle(Some("{}"), map[], map[], true);
    var download := Bundle(Some("{}"), map[], map["main.js" := ""], true);
    var store := Recorded(Store(1, []), Receipt(at, identity, DigestsOf(hash, installed)));
    RecordedFacts(hash, Store(1, []), at, identity, installed);
    assert "main.js" in DigestsOf(hash, download) && "main.js" !in DigestsOf(hash, installed);
    CleanupFaultKeepsAnswerIffNothingChanged(hash, map[at := installed], store, at, identity, download,
                                             Expecting(identity));
  }
}
