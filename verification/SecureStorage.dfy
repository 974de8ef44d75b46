/**
 Plugin secure storage of app/electron/secureStorage.ts: one flat JSON record keyed by
 `namespace:key` that must behave as a two-level map, within limits.
 */
module SecureStorage {
  import opened Common
  import opened FlatRecords

  const MAX_NAMESPACE_LENGTH := 214
  const MAX_KEY_LENGTH := 128
  const MAX_VALUE_LENGTH := 64 * 1024
  const MAX_ENTRIES_PER_NAMESPACE := 256
  const MAX_NAMESPACES := 256

  type Record = map<string, string>
  type Model = map<(string, string), string>

  /** The file: absent, unreadable, or a JSON object whose members may be anything (None: not a string). */
  datatype Disk = Absent | Unreadable | Json(members: map<string, Option<string>>)

  // ----- Names ------------------------------------------------------------------------------

  /** `@scope/name`, each part a name. */
  predicate IsScoped(s: string) {
    s != "" && s[0] == '@' && exists i :: 1 <= i < |s| && s[i] == '/' && IsName(s[1..i]) && IsName(s[i + 1..])
  }

  predicate IsValidNamespace(s: string) {
    |s| <= MAX_NAMESPACE_LENGTH && (IsName(s) || IsScoped(s))
  }

  predicate IsValidKey(s: string) {
    && 0 < |s| <= MAX_KEY_LENGTH
    && s[0] != ':' && (forall i :: 0 <= i < |s| ==> Alnum(s[i]) || s[i] in {':', '_', '-'})
    && s !in {"__proto__", "constructor", "prototype"}
  }

  /** A key: one to 128 letters, digits, colons, underscores and hyphens, no colon first, none of three names. */
  lemma KeyExactly(s: string)
    ensures IsValidKey(s) <==>
            && 1 <= |s| <= 128 && s[0] != ':'
            && (forall i :: 0 <= i < |s| ==>
                  || 'a' <= s[i] <= 'z' || 'A' <= s[i] <= 'Z' || '0' <= s[i] <= '9'
                  || s[i] == ':' || s[i] == '_' || s[i] == '-')
            && s != "__proto__" && s != "constructor" && s != "prototype"
  {
  }

  predicate ScopedAs(s: string, scope: string, name: string) {
    s == "@" + scope + "/" + name && IsName(scope) && IsName(name)
  }

  lemma ScopedHas(s: string, i: nat)
    requires 1 <= i < |s| && s[0] == '@' && s[i] == '/' && IsName(s[1..i]) && IsName(s[i + 1..])
    ensures ScopedAs(s, s[1..i], s[i + 1..])
  {
    assert s == [s[0]] + s[1..i] + [s[i]] + s[i + 1..];
  }

  lemma ScopedFrom(s: string, scope: string, name: string)
    requires ScopedAs(s, scope, name)
    ensures IsScoped(s)
  {
    var i := |scope| + 1;
    assert s[i] == '/' && s[1..i] == scope && s[i + 1..] == name;
  }

  /** A namespace: at most 214 characters, a name or an at sign, a name, a slash and a name. */
  lemma NamespaceExactly(s: string)
    ensures IsValidNamespace(s) <==> |s| <= 214 && (IsName(s) || exists scope, name :: ScopedAs(s, scope, name))
  {
    if IsScoped(s) {
      var i :| 1 <= i < |s| && s[i] == '/' && IsName(s[1..i]) && IsName(s[i + 1..]);
      ScopedHas(s, i);
    }
    if scope, name :| ScopedAs(s, scope, name) { ScopedFrom(s, scope, name); }
  }

  function StoredKey(namespace: string, key: string): string {
    namespace + ":" + key
  }

  /** `key.indexOf(':')`. */
  function Colon(s: string): (i: int)
    ensures -1 <= i < |s|
    ensures i >= 0 ==> s[i] == ':' && forall j :: 0 <= j < i ==> s[j] != ':'
    ensures i < 0 ==> forall j :: 0 <= j < |s| ==> s[j] != ':'
  {
    if s == "" then -1
    else if s[0] == ':' then 0
    else
      var i := Colon(s[1..]);
      assert forall j :: 1 <= j < |s| ==> s[j] == s[1..][j - 1];
      if i < 0 then -1 else i + 1
  }

  predicate IsValidStoredKey(s: string) {
    var i := Colon(s);
    i > 0 && IsValidNamespace(s[..i]) && IsValidKey(s[i + 1..])
  }

  function NamespaceOf(s: string): string {
    if Colon(s) < 0 then "" else s[..Colon(s)]
  }

  function KeyOf(s: string): string {
    if Colon(s) < 0 then "" else s[Colon(s) + 1..]
  }

  lemma NamespaceHasNoColon(s: string)
    requires IsValidNamespace(s)
    ensures s != "" && forall j :: 0 <= j < |s| ==> s[j] != ':'
  {
    if !IsName(s) {
      var i :| 1 <= i < |s| && s[i] == '/' && IsName(s[1..i]) && IsName(s[i + 1..]);
      forall j | 0 <= j < |s| ensures s[j] != ':' {
        if 1 <= j < i { assert s[j] == s[1..i][j - 1]; }
        if i < j { assert s[j] == s[i + 1..][j - i - 1]; }
      }
    }
  }

  /** The flat key splits back into exactly the pair it was made from, though keys may hold colons. */
  lemma StoredKeySplits(namespace: string, key: string)
    requires IsValidNamespace(namespace)
    ensures Colon(StoredKey(namespace, key)) == |namespace|
    ensures NamespaceOf(StoredKey(namespace, key)) == namespace && KeyOf(StoredKey(namespace, key)) == key
    ensures IsValidKey(key) ==> IsValidStoredKey(StoredKey(namespace, key))
  {
    NamespaceHasNoColon(namespace);
    var s := StoredKey(namespace, key);
    assert s[|namespace|] == ':';
    assert forall j :: 0 <= j < |namespace| ==> s[j] == namespace[j];
    assert s[..|namespace|] == namespace && s[|namespace| + 1..] == key;
  }

  lemma StoredKeyJoins(s: string)
    requires IsValidStoredKey(s)
    ensures StoredKey(NamespaceOf(s), KeyOf(s)) == s
  {
  }

  /** `startsWith(namespace + ':')` selects exactly the entries of the namespace. */
  lemma PrefixIsNamespace(namespace: string, s: string)
    requires IsValidNamespace(namespace) && IsValidStoredKey(s)
    ensures namespace + ":" <= s <==> NamespaceOf(s) == namespace
  {
    NamespaceHasNoColon(namespace);
    if namespace + ":" <= s {
      assert forall j :: 0 <= j < |namespace| ==> s[j] == namespace[j];
      assert s[|namespace|] == (namespace + ":")[|namespace|] == ':';
      assert Colon(s) == |namespace|;
    }
    if NamespaceOf(s) == namespace {
      StoredKeyJoins(s);
    }
  }

  // ----- The store --------------------------------------------------------------------------

  /** What readSecureStorageFile keeps of a file. */
  function Kept(disk: Disk): Record {
    if disk.Json?
    then map s | s in disk.members && disk.members[s].Some? && IsValidStoredKey(s) :: disk.members[s].value
    else map[]
  }

  /** readSecureStorageFile: None when it throws. */
  method ReadSecureStorageFile(disk: Disk) returns (r: Option<Record>)
    ensures r == if disk.Unreadable? then None else Some(Kept(disk))
  {
    match disk
    case Unreadable => return None;
    case Absent => return Some(map[]);
    case Json(members) =>
      var result: Record := map[];
      var rest := members.Keys;
      while rest != {}
        invariant rest <= members.Keys
        invariant result
             == map s | s in members && s !in rest && members[s].Some? && IsValidStoredKey(s) :: members[s].value
        decreases |rest|
      {
        var key :| key in rest;
        if members[key].Some? && IsValidStoredKey(key) {
          result := result[key := members[key].value];
        }
        rest := rest - {key};
      }
      assert result == Kept(disk);
      return Some(result);
  }

  function Write(data: Record): Disk {
    Json(map s | s in data :: Some(data[s]))
  }

  lemma KeptWrite(data: Record)
    requires forall s :: s in data ==> IsValidStoredKey(s)
    ensures Kept(Write(data)) == data
  {
  }

  // The record as a flat form of the two-level map.

  type Pair = (string, string)

  const WRITE: Pair -> string := (p: Pair) => StoredKey(p.0, p.1)
  const VALID_PAIR: Pair -> bool := (p: Pair) => IsValidNamespace(p.0) && IsValidKey(p.1)
  const NAMESPACE: string -> string := (s: string) => NamespaceOf(s)

  lemma WriteIsInjective()
    ensures Injective(WRITE, VALID_PAIR)
  {
    forall p: Pair, q: Pair | VALID_PAIR(p) && VALID_PAIR(q) && WRITE(p) == WRITE(q) ensures p == q {
      StoredKeySplits(p.0, p.1);
      StoredKeySplits(q.0, q.1);
    }
  }

  ghost predicate Sound(data: Record, model: Model, decrypt: string -> Option<string>) {
    && Represents(data, model, WRITE, VALID_PAIR, decrypt)
    && Within(data, NAMESPACE, MAX_NAMESPACES, MAX_ENTRIES_PER_NAMESPACE)
  }

  function WithPrefix(data: Record, namespace: string): set<string> {
    set s | s in data && namespace + ":" <= s
  }

  lemma PrefixEntries(disk: Disk, namespace: string)
    requires IsValidNamespace(namespace)
    ensures WithPrefix(Kept(disk), namespace) == InGroup(Kept(disk), NAMESPACE, namespace)
  {
    forall s | s in Kept(disk) ensures namespace + ":" <= s <==> NAMESPACE(s) == namespace {
      PrefixIsNamespace(namespace, s);
    }
  }

  /** save refuses a new namespace past the limit and a new entry past the limit, and nothing else. */
  ghost predicate HasRoom(data: Record, model: Model, p: Pair) {
    && (InGroup(data, NAMESPACE, p.0) == {} ==> |Groups(data, NAMESPACE)| < 256)
    && (p !in model ==> |InGroup(data, NAMESPACE, p.0)| < 256)
  }

  lemma EntryLookup(data: Record, model: Model, decrypt: string -> Option<string>, p: Pair)
    requires Sound(data, model, decrypt) && VALID_PAIR(p)
    ensures StoredKey(p.0, p.1) in data <==> p in model
    ensures p in model ==> data[StoredKey(p.0, p.1)] != "" && decrypt(data[StoredKey(p.0, p.1)]) == Some(model[p])
    ensures NAMESPACE(StoredKey(p.0, p.1)) == p.0
  {
    WriteIsInjective();
    RepresentsLookup(data, model, WRITE, VALID_PAIR, decrypt, p);
    StoredKeySplits(p.0, p.1);
  }

  lemma SoundInsert(data: Record, model: Model, decrypt: string -> Option<string>, p: Pair, cipher: string, v: string)
    requires Sound(data, model, decrypt) && VALID_PAIR(p) && HasRoom(data, model, p)
    requires cipher != "" && decrypt(cipher) == Some(v)
    ensures Sound(data[StoredKey(p.0, p.1) := cipher], model[p := v], decrypt)
  {
    EntryLookup(data, model, decrypt, p);
    WriteIsInjective();
    RepresentsInsert(data, model, WRITE, VALID_PAIR, decrypt, p, cipher, v);
    InsertWithin(data, NAMESPACE, MAX_NAMESPACES, MAX_ENTRIES_PER_NAMESPACE, StoredKey(p.0, p.1), cipher);
  }

  lemma SoundDelete(data: Record, model: Model, decrypt: string -> Option<string>, p: Pair)
    requires Sound(data, model, decrypt) && VALID_PAIR(p)
    ensures Sound(data - {StoredKey(p.0, p.1)}, model - {p}, decrypt)
  {
    WriteIsInjective();
    RepresentsDelete(data, model, WRITE, VALID_PAIR, decrypt, p);
    DeleteWithin(data, NAMESPACE, MAX_NAMESPACES, MAX_ENTRIES_PER_NAMESPACE, StoredKey(p.0, p.1));
  }

  lemma KeptInsert(disk: Disk, p: Pair, cipher: string)
    requires VALID_PAIR(p)
    ensures Kept(Write(Kept(disk)[StoredKey(p.0, p.1) := cipher])) == Kept(disk)[StoredKey(p.0, p.1) := cipher]
    ensures Kept(Write(Kept(disk) - {StoredKey(p.0, p.1)})) == Kept(disk) - {StoredKey(p.0, p.1)}
  {
    StoredKeySplits(p.0, p.1);
    KeptWrite(Kept(disk)[StoredKey(p.0, p.1) := cipher]);
    KeptWrite(Kept(disk) - {StoredKey(p.0, p.1)});
  }

  /** What Save needs of the record: where the entry is, its namespace, and the record afterwards. */
  lemma SaveFacts(disk: Disk, model: Model, decrypt: string -> Option<string>, p: Pair, cipher: string, v: string)
    requires Sound(Kept(disk), model, decrypt) && VALID_PAIR(p) && cipher != "" && decrypt(cipher) == Some(v)
    ensures var data, entry := Kept(disk), StoredKey(p.0, p.1);
            && (entry in data <==> p in model)
            && WithPrefix(data, p.0) == InGroup(data, NAMESPACE, p.0)
            && (HasRoom(data, model, p) ==> Sound(Kept(Write(data[entry := cipher])), model[p := v], decrypt))
  {
    EntryLookup(Kept(disk), model, decrypt, p);
    PrefixEntries(disk, p.0);
    KeptInsert(disk, p, cipher);
    if HasRoom(Kept(disk), model, p) { SoundInsert(Kept(disk), model, decrypt, p, cipher, v); }
  }

  /** What Delete needs of the record. */
  lemma DeleteFacts(disk: Disk, model: Model, decrypt: string -> Option<string>, p: Pair)
    requires Sound(Kept(disk), model, decrypt) && VALID_PAIR(p)
    ensures var data, entry := Kept(disk), StoredKey(p.0, p.1);
            && (entry in data <==> p in model)
            && (p !in model ==> model - {p} == model)
            && Sound(Kept(Write(data - {entry})), model - {p}, decrypt)
  {
    EntryLookup(Kept(disk), model, decrypt, p);
    SoundDelete(Kept(disk), model, decrypt, p);
    KeptInsert(disk, p, "");
    if p !in model { RemoveAbsent(model, p); }
  }

  lemma RemoveAbsent(model: Model, p: Pair)
    requires p !in model
    ensures model - {p} == model
  {
  }

  /** What the surroundings decide in one call: is encryption available, does reading, does writing work. */
  datatype Conditions = Conditions(encryption: bool, reading: bool, writing: bool)

  datatype Loaded = Failed | Value(value: Option<string>)

  class PluginSecureStorage {
    const decrypt: string -> Option<string>
    var disk: Disk
    ghost var model: Model

    ghost predicate Valid()
      reads this
    {
      !disk.Unreadable? && Sound(Kept(disk), model, decrypt)
    }

    /** No file yet. */
    constructor (decrypt: string -> Option<string>)
      ensures Valid() && model == map[] && this.decrypt == decrypt
    {
      this.decrypt := decrypt;
      disk := Absent;
      model := map[];
    }

    /** save; `cipher` is what safeStorage.encryptString returned. */
    method Save(namespace: string, key: string, value: string, cipher: string, now: Conditions) returns (ok: bool)
      requires Valid() && cipher != "" && decrypt(cipher) == Some(value)
      modifies this`disk, this`model
      ensures Valid()
      ensures model == if ok then old(model)[(namespace, key) := value] else old(model)
      ensures !ok ==> disk == old(disk)
      ensures ok <==>
        && IsValidNamespace(namespace) && IsValidKey(key) && |value| <= 65536
        && now.encryption && now.reading && now.writing
        && HasRoom(Kept(old(disk)), old(model), (namespace, key))
    {
      if !IsValidNamespace(namespace) || !IsValidKey(key) || |value| > MAX_VALUE_LENGTH {
        return false;
      }
      if !now.encryption || !now.reading {
        return false;
      }
      var stored := ReadSecureStorageFile(disk);
      var data, entry := stored.value, StoredKey(namespace, key);
      var namespaceEntries := WithPrefix(data, namespace);
      SaveFacts(disk, model, decrypt, (namespace, key), cipher, value);
      if namespaceEntries == {} && |Groups(data, NAMESPACE)| >= MAX_NAMESPACES {
        return false;
      }
      if entry !in data && |namespaceEntries| >= MAX_ENTRIES_PER_NAMESPACE {
        return false;
      }
      if !now.writing {
        return false;
      }
      disk := Write(data[entry := cipher]);
      model := model[(namespace, key) := value];
      return true;
    }

    /** load. */
    method Load(namespace: string, key: string, now: Conditions) returns (r: Loaded)
      requires Valid()
      ensures r == if IsValidNamespace(namespace) && IsValidKey(key) && now.encryption && now.reading
                   then Value(if (namespace, key) in model then Some(model[(namespace, key)]) else None) else Failed
    {
      if !IsValidNamespace(namespace) || !IsValidKey(key) || !now.encryption || !now.reading {
        return Failed;
      }
      var stored := ReadSecureStorageFile(disk);
      var data, entry := stored.value, StoredKey(namespace, key);
      EntryLookup(data, model, decrypt, (namespace, key));
      if entry !in data || data[entry] == "" {
        return Value(None);
      }
      var plain := decrypt(data[entry]);
      return if plain.Some? then Value(plain) else Failed;
    }

    /** delete. */
    method Delete(namespace: string, key: string, now: Conditions) returns (ok: bool)
      requires Valid()
      modifies this`disk, this`model
      ensures Valid()
      ensures model == if ok then old(model) - {(namespace, key)} else old(model)
      ensures !ok ==> disk == old(disk)
      ensures ok <==> IsValidNamespace(namespace) && IsValidKey(key) && now.encryption && now.reading
                      && ((namespace, key) in old(model) ==> now.writing)
    {
      if !IsValidNamespace(namespace) || !IsValidKey(key) || !now.encryption || !now.reading {
        return false;
      }
      var stored := ReadSecureStorageFile(disk);
      var data, entry := stored.value, StoredKey(namespace, key);
      DeleteFacts(disk, model, decrypt, (namespace, key));
      if entry !in data {
        return true;
      }
      if !now.writing {
        return false;
      }
      disk := Write(data - {entry});
      model := model - {(namespace, key)};
      return true;
    }
  }

  // ----- Whole runs -------------------------------------------------------------------------

  datatype Operation =
    | SaveOp(namespace: string, key: string, value: string, cipher: string, now: Conditions)
    | DeleteOp(namespace: string, key: string, now: Conditions)

  /** The effect of one operation on the two-level map. */
  function After(model: Model, op: Operation, ok: bool): Model {
    if !ok then model
    else match op
      case SaveOp(n, k, v, _, _) => model[(n, k) := v]
      case DeleteOp(n, k, _) => model - {(n, k)}
  }

  /** The two-level map after a run, given which operations reported success. */
  function Replay(ops: seq<Operation>, done: seq<bool>): Model
    requires |ops| == |done|
  {
    if ops == [] then map[]
    else After(Replay(ops[..|ops| - 1], done[..|ops| - 1]), ops[|ops| - 1], done[|ops| - 1])
  }

  lemma ReplayStep(ops: seq<Operation>, i: nat, done: seq<bool>, ok: bool)
    requires i < |ops| && |done| == i
    ensures Replay(ops[..i + 1], done + [ok]) == After(Replay(ops[..i], done), ops[i], ok)
  {
    assert ops[..i + 1][..i] == ops[..i] && (done + [ok])[..i] == done;
  }

  ghost predicate Encrypted(op: Operation, decrypt: string -> Option<string>) {
    op.SaveOp? ==> op.cipher != "" && decrypt(op.cipher) == Some(op.value)
  }

  method Perform(storage: PluginSecureStorage, op: Operation) returns (ok: bool)
    requires storage.Valid() && Encrypted(op, storage.decrypt)
    modifies storage
    ensures storage.Valid() && storage.model == After(old(storage.model), op, ok)
  {
    match op
    case SaveOp(n, k, v, c, now) => ok := storage.Save(n, k, v, c, now);
    case DeleteOp(n, k, now) => ok := storage.Delete(n, k, now);
  }

  /** From an absent file, any run leaves a store that stands for the replayed map, within limits. */
  method Run(decrypt: string -> Option<string>, ops: seq<Operation>)
    returns (done: seq<bool>, storage: PluginSecureStorage)
    requires forall i :: 0 <= i < |ops| ==> Encrypted(ops[i], decrypt)
    ensures |done| == |ops| && storage.Valid()
    ensures storage.model == Replay(ops, done)
  {
    storage := new PluginSecureStorage(decrypt);
    done := [];
    for i := 0 to |ops|
      invariant |done| == i && fresh(storage) && storage.Valid() && storage.decrypt == decrypt
      invariant storage.model == Replay(ops[..i], done)
    {
      var ok := Perform(storage, ops[i]);
      ReplayStep(ops, i, done, ok);
      done := done + [ok];
    }
    assert ops[..|ops|] == ops;
  }

  /** The limits, said about the two-level map. */
  lemma ModelWithinLimits(data: Record, model: Model, decrypt: string -> Option<string>, namespace: string)
    requires Sound(data, model, decrypt)
    ensures |set p | p in model && p.0 == namespace| <= 256
    ensures |set p | p in model :: p.0| <= 256
  {
    var pairs := set p | p in model && p.0 == namespace;
    var entries := InGroup(data, NAMESPACE, namespace);
    WriteIsInjective();
    forall p | p in pairs ensures VALID_PAIR(p) && WRITE(p) in entries {
      EntryLookup(data, model, decrypt, p);
    }
    ImageIsNoLarger(pairs, entries, WRITE, VALID_PAIR);
    var names := set p | p in model :: p.0;
    forall n | n in names ensures n in Groups(data, NAMESPACE) {
      var p :| p in model && p.0 == n;
      EntryLookup(data, model, decrypt, p);
    }
    SubsetIsNoLarger(names, Groups(data, NAMESPACE));
  }
}
