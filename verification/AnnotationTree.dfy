/**
 convertAnnotations of app/electron/plugin-management.ts: path-style keys become nested objects.

 An object's own properties are a map. Properties that every object inherits are given as a set of
 names: reading one that is not shadowed leaves the tree, and a text assigned to `proto`
 (JavaScript's __proto__) is dropped.
 */
module AnnotationTree {
  import opened Common

  datatype Tree = Text(value: string) | Object(members: map<string, Tree>)

  type Path = seq<string>

  const SLASH := '/'

  /** key.split('/'). */
  function PathOf(key: string): (p: Path)
    ensures p != []
  {
    Split(key, SLASH)
  }

  function JoinPath(p: Path): string
    requires p != []
  {
    if |p| == 1 then p[0] else p[0] + [SLASH] + JoinPath(p[1..])
  }

  lemma JoinEmptyFirst(rest: Path)
    requires rest != []
    ensures JoinPath([""] + rest) == [SLASH] + JoinPath(rest)
  {
    assert ([""] + rest)[1..] == rest;
    assert "" + [SLASH] == [SLASH];
  }

  lemma JoinLonger(c: char, rest: Path)
    requires rest != []
    ensures JoinPath([[c] + rest[0]] + rest[1..]) == [c] + JoinPath(rest)
  {
    var longer := [[c] + rest[0]] + rest[1..];
    assert longer[1..] == rest[1..];
    if |rest| > 1 {
      var tail := JoinPath(rest[1..]);
      assert ([c] + rest[0]) + [SLASH] + tail == [c] + (rest[0] + [SLASH] + tail);
    }
  }

  lemma {:induction false} PathThenJoin(key: string)
    ensures JoinPath(PathOf(key)) == key
  {
    if key != "" {
      PathThenJoin(key[1..]);
      if key[0] == SLASH { JoinEmptyFirst(PathOf(key[1..])); } else { JoinLonger(key[0], PathOf(key[1..])); }
      assert key == [key[0]] + key[1..];
    }
  }

  lemma PathInjective(a: string, b: string)
    requires PathOf(a) == PathOf(b)
    ensures a == b
  {
    PathThenJoin(a);
    PathThenJoin(b);
  }

  // ----- Building ---------------------------------------------------------------------------

  datatype Names = Names(inherited: set<string>, proto: string)

  /** The names of Object.prototype. */
  const OBJECT_PROTOTYPE :=
    Names({"constructor", "hasOwnProperty", "isPrototypeOf", "propertyIsEnumerable",
           "toLocaleString", "toString", "valueOf",
           "__defineGetter__", "__defineSetter__", "__lookupGetter__", "__lookupSetter__", "__proto__"}, "__proto__")

  /** What `if (!current[part]) current[part] = {}; current = current[part]` moves to. */
  function Child(names: Names, members: map<string, Tree>, part: string): Option<Tree> {
    if part in members then Some(if members[part] == Text("") then Object(map[]) else members[part])
    else if part in names.inherited then None
    else Some(Object(map[]))
  }

  /**
   The walk along one key. None means that it leaves the tree: it assigns to a property of a
   string, which throws, or follows an inherited property.
   */
  function Insert(names: Names, t: Tree, path: Path, value: string): Option<Tree>
    requires path != []
    decreases path
  {
    if t.Text? then None
    else if |path| == 1 then
      Some(if path[0] == names.proto then t else Object(t.members[path[0] := Text(value)]))
    else
      var child := Child(names, t.members, path[0]);
      if child.None? then None
      else
        var changed := Insert(names, child.value, path[1..], value);
        if changed.None? then None else Some(Object(t.members[path[0] := changed.value]))
  }

  function InsertAll(names: Names, annotations: map<string, string>, keys: seq<string>): Option<Tree>
    requires forall k :: k in keys ==> k in annotations
  {
    if keys == [] then Some(Object(map[]))
    else
      var key := keys[|keys| - 1];
      var before := InsertAll(names, annotations, keys[..|keys| - 1]);
      if before.None? then None else Insert(names, before.value, PathOf(key), annotations[key])
  }

  /** An order in which `for (const key in annotations)` may visit the keys. */
  ghost predicate IsOrder(annotations: map<string, string>, keys: seq<string>) {
    && (forall k :: k in keys <==> k in annotations)
    && (forall i, j :: 0 <= i < j < |keys| ==> keys[i] != keys[j])
  }

  /** convertAnnotations, visiting the keys in the given order. */
  method ConvertAnnotations(names: Names, annotations: map<string, string>, keys: seq<string>) returns (r: Option<Tree>)
    requires IsOrder(annotations, keys)
    ensures r == InsertAll(names, annotations, keys)
  {
    var result := Object(map[]);
    for i := 0 to |keys|
      invariant InsertAll(names, annotations, keys[..i]) == Some(result)
    {
      assert keys[..i + 1][..i] == keys[..i];
      var next := Insert(names, result, PathOf(keys[i]), annotations[keys[i]]);
      if next.None? {
        NoneStays(names, annotations, keys, i + 1);
        return None;
      }
      result := next.value;
    }
    assert keys[..|keys|] == keys;
    r := Some(result);
  }

  lemma {:induction false} NoneStays(names: Names, annotations: map<string, string>, keys: seq<string>, i: nat)
    requires i <= |keys| && forall k :: k in keys ==> k in annotations
    requires InsertAll(names, annotations, keys[..i]).None?
    ensures InsertAll(names, annotations, keys).None?
  {
    if i < |keys| {
      assert keys[..|keys| - 1][..i] == keys[..i];
      NoneStays(names, annotations, keys[..|keys| - 1], i);
    } else {
      assert keys[..i] == keys;
    }
  }

  // ----- Looking up -------------------------------------------------------------------------

  function At(t: Tree, path: Path): Option<Tree> {
    if path == [] then Some(t)
    else if t.Object? && path[0] in t.members then At(t.members[path[0]], path[1..])
    else None
  }

  function LeafAt(t: Tree, path: Path): Option<string> {
    var found := At(t, path);
    if found.Some? && found.value.Text? then Some(found.value.value) else None
  }

  predicate Prefix(p: Path, q: Path) {
    |p| <= |q| && q[..|p|] == p
  }

  predicate ProperPrefix(p: Path, q: Path) {
    |p| < |q| && q[..|p|] == p
  }

  lemma PrefixStep(p: Path, q: Path)
    requires p != [] && q != [] && p[0] == q[0]
    ensures Prefix(p, q) <==> Prefix(p[1..], q[1..])
    ensures p == q <==> p[1..] == q[1..]
  {
    assert p == [p[0]] + p[1..] && q == [q[0]] + q[1..];
    if |p| <= |q| { assert q[..|p|] == [q[0]] + q[1..][..|p| - 1]; }
  }

  predicate Last(p: Path, name: string) {
    p != [] && p[|p| - 1] == name
  }

  /** Below the name itself, what the walk moves to holds what was there. */
  lemma ChildAt(names: Names, t: Tree, q: Path)
    requires t.Object? && |q| > 1 && Child(names, t.members, q[0]).Some?
    ensures At(Child(names, t.members, q[0]).value, q[1..]) == At(t, q)
  {
    var rest := q[1..];
    assert At(Object(map[]), rest).None? && At(Text(""), rest).None?;
  }

  /** What one insertion does to every leaf: it sets its own and clears the ones in its way. */
  lemma {:induction false} InsertLeaf(names: Names, t: Tree, path: Path, value: string, q: Path)
    requires path != [] && !Last(path, names.proto) && Insert(names, t, path, value).Some?
    ensures LeafAt(Insert(names, t, path, value).value, q)
         == if q == path then Some(value) else if Prefix(q, path) || Prefix(path, q) then None else LeafAt(t, q)
    decreases path
  {
    if q == [] {
    } else if q[0] != path[0] {
      assert !Prefix(q, path) && !Prefix(path, q);
    } else {
      PrefixStep(q, path);
      PrefixStep(path, q);
      if |path| > 1 {
        InsertLeaf(names, Child(names, t.members, path[0]).value, path[1..], value, q[1..]);
        if |q| > 1 { ChildAt(names, t, q); }
      } else {
        assert Prefix(path, q) && (|q| == 1 ==> q == path) && path[0] != names.proto;
        assert At(Insert(names, t, path, value).value, q) == At(Text(value), q[1..]);
      }
    }
  }

  /** Nothing comes to exist but the key's own path and the ordinary objects on the way. */
  lemma {:induction false} InsertCreates(names: Names, t: Tree, path: Path, value: string, q: Path)
    requires path != [] && Insert(names, t, path, value).Some? && q != []
    requires At(Insert(names, t, path, value).value, q).Some? && At(t, q).None?
    ensures Prefix(q, path) && if q == path then !Last(path, names.proto) else q[|q| - 1] !in names.inherited
    decreases path
  {
    assert q[0] == path[0];
    PrefixStep(q, path);
    if |path| > 1 && |q| > 1 {
      ChildAt(names, t, q);
      InsertCreates(names, Child(names, t.members, path[0]).value, path[1..], value, q[1..]);
    }
  }

  /** Neither a text nor an inherited name ends the first d names of the path. */
  predicate Clear(names: Names, t: Tree, path: Path, d: nat)
    requires 0 < d <= |path|
  {
    path[d - 1] !in names.inherited && LeafAt(t, path[..d]).None?
  }

  /** The walk stays in the tree when no text and no inherited property is in its way. */
  lemma {:induction false} InsertSucceeds(names: Names, t: Tree, path: Path, value: string)
    requires path != [] && t.Object?
    requires forall d :: 0 < d < |path| ==> Clear(names, t, path, d)
    ensures Insert(names, t, path, value).Some? && Insert(names, t, path, value).value.Object?
    decreases path
  {
    if |path| > 1 {
      assert Clear(names, t, path, 1);
      assert path[..1][1..] == [] && path[..1][0] == path[0];
      assert path[0] in t.members ==> At(t, path[..1]) == Some(t.members[path[0]]);
      var child := Child(names, t.members, path[0]).value;
      forall d | 0 < d < |path| - 1 ensures Clear(names, child, path[1..], d) {
        assert Clear(names, t, path, d + 1);
        assert path[..d + 1][1..] == path[1..][..d];
        ChildAt(names, t, path[..d + 1]);
      }
      assert child.Object?;
      InsertSucceeds(names, child, path[1..], value);
    }
  }

  /** The first d names of the path can be walked: what is there is an object or the empty text, or can be made. */
  predicate Passable(names: Names, t: Tree, path: Path, d: nat)
    requires 0 < d <= |path|
  {
    var found := At(t, path[..d]);
    if found.None? then path[d - 1] !in names.inherited else found.value.Object? || found.value == Text("")
  }

  lemma PassableBelow(names: Names, t: Tree, path: Path, d: nat)
    requires t.Object? && |path| > 1 && 0 < d < |path| && Child(names, t.members, path[0]).Some?
    ensures Passable(names, t, path, d + 1) <==> Passable(names, Child(names, t.members, path[0]).value, path[1..], d)
  {
    assert path[..d + 1][1..] == path[1..][..d] && path[..d + 1][0] == path[0];
    ChildAt(names, t, path[..d + 1]);
  }

  lemma PassableFirst(names: Names, t: Tree, path: Path)
    requires t.Object? && |path| > 1
    ensures var child := Child(names, t.members, path[0]);
            Passable(names, t, path, 1) <==> child.Some? && child.value.Object?
  {
    assert path[..1][1..] == [] && path[..1][0] == path[0];
    assert path[0] in t.members ==> At(t, path[..1]) == Some(t.members[path[0]]);
  }

  /** One key is inserted exactly when every object on its way is there or can be made. */
  lemma {:induction false} InsertedExactlyWhen(names: Names, t: Tree, path: Path, value: string)
    requires path != []
    ensures Insert(names, t, path, value).Some? <==>
            t.Object? && forall d :: 0 < d < |path| ==> Passable(names, t, path, d)
    decreases path
  {
    if t.Object? && |path| > 1 {
      PassableFirst(names, t, path);
      var child := Child(names, t.members, path[0]);
      if child.Some? {
        InsertedExactlyWhen(names, child.value, path[1..], value);
        forall d | 0 < d < |path| - 1
          ensures Passable(names, t, path, d + 1) <==> Passable(names, child.value, path[1..], d)
        {
          PassableBelow(names, t, path, d);
        }
        if Insert(names, t, path, value).Some? {
          forall d | 0 < d < |path| ensures Passable(names, t, path, d) {
            if d > 1 { assert Passable(names, child.value, path[1..], d - 1); PassableBelow(names, t, path, d - 1); }
          }
        }
      }
    }
  }

  /** A walk that passes an inherited name found it shadowed. */
  lemma {:induction false} InsertPassed(names: Names, t: Tree, path: Path, value: string, d: nat)
    requires path != [] && Insert(names, t, path, value).Some?
    requires d + 1 < |path| && path[d] in names.inherited
    ensures At(t, path[..d + 1]).Some?
    decreases path
  {
    if d > 0 {
      InsertPassed(names, Child(names, t.members, path[0]).value, path[1..], value, d - 1);
      assert path[..d + 1][1..] == path[1..][..d];
      ChildAt(names, t, path[..d + 1]);
    }
  }

  // ----- Keys that build a faithful tree ----------------------------------------------------

  /** The leaf that the keys ask for at a path. */
  function Expected(annotations: map<string, string>, keys: seq<string>, q: Path): Option<string>
    requires forall k :: k in keys ==> k in annotations
  {
    if q != [] && JoinPath(q) in keys && PathOf(JoinPath(q)) == q then Some(annotations[JoinPath(q)]) else None
  }

  lemma ExpectedAt(annotations: map<string, string>, keys: seq<string>, k: string)
    requires (forall l :: l in keys ==> l in annotations) && k in keys
    ensures Expected(annotations, keys, PathOf(k)) == Some(annotations[k])
  {
    PathThenJoin(k);
  }

  lemma ExpectedSnoc(annotations: map<string, string>, keys: seq<string>, k: string, q: Path)
    requires (forall l :: l in keys ==> l in annotations) && k in annotations
    ensures Expected(annotations, keys + [k], q)
         == if q == PathOf(k) then Some(annotations[k]) else Expected(annotations, keys, q)
  {
    PathThenJoin(k);
  }

  predicate Ordinary(names: Names, p: Path) {
    !Last(p, names.proto) && forall d :: 0 <= d < |p| - 1 ==> p[d] !in names.inherited
  }

  /** No key's path is a proper prefix of another's, and no inherited name stands where an object is needed. */
  ghost predicate Safe(names: Names, keys: seq<string>) {
    && (forall k :: k in keys ==> Ordinary(names, PathOf(k)))
    && (forall k, l :: k in keys && l in keys ==> !ProperPrefix(PathOf(k), PathOf(l)))
  }

  ghost predicate Faithful(annotations: map<string, string>, keys: seq<string>, t: Tree)
    requires forall k :: k in keys ==> k in annotations
  {
    forall q :: LeafAt(t, q) == Expected(annotations, keys, q)
  }

  lemma InTheWay(annotations: map<string, string>, keys: seq<string>, key: string, names: Names, q: Path)
    requires (forall k :: k in keys ==> k in annotations) && Safe(names, keys + [key])
    requires q != PathOf(key) && (Prefix(q, PathOf(key)) || Prefix(PathOf(key), q))
    ensures Expected(annotations, keys, q).None?
  {
    var all := keys + [key];
    assert key in all && forall l :: l in keys ==> l in all;
    if q != [] && JoinPath(q) in keys {
      var p := PathOf(JoinPath(q));
      assert !ProperPrefix(p, PathOf(key)) && !ProperPrefix(PathOf(key), p);
    }
  }

  lemma {:induction false} SafeBuilds(names: Names, annotations: map<string, string>, keys: seq<string>)
    requires (forall k :: k in keys ==> k in annotations) && Safe(names, keys)
    ensures var r := InsertAll(names, annotations, keys);
            r.Some? && r.value.Object? && Faithful(annotations, keys, r.value)
  {
    if keys == [] {
      assert forall q :: LeafAt(Object(map[]), q).None?;
    } else {
      var init, key := keys[..|keys| - 1], keys[|keys| - 1];
      assert keys == init + [key];
      SafeBuilds(names, annotations, init);
      var before, path := InsertAll(names, annotations, init).value, PathOf(key);
      assert Ordinary(names, path);
      forall d | 0 < d < |path| ensures Clear(names, before, path, d) {
        InTheWay(annotations, init, key, names, path[..d]);
      }
      InsertSucceeds(names, before, path, annotations[key]);
      forall q ensures LeafAt(InsertAll(names, annotations, keys).value, q) == Expected(annotations, keys, q) {
        InsertLeaf(names, before, path, annotations[key], q);
        ExpectedSnoc(annotations, init, key, q);
        if q != path && (Prefix(q, path) || Prefix(path, q)) { InTheWay(annotations, init, key, names, q); }
      }
    }
  }

  // ----- Only those keys --------------------------------------------------------------------

  /** An inherited name appears in the tree only as the end of a key, and proto never. */
  lemma {:induction false} InheritedOnlyAsKey(names: Names, annotations: map<string, string>, keys: seq<string>,
                                              q: Path)
    requires (forall k :: k in keys ==> k in annotations) && InsertAll(names, annotations, keys).Some?
    requires At(InsertAll(names, annotations, keys).value, q).Some? && q != [] && q[|q| - 1] in names.inherited
    ensures q[|q| - 1] != names.proto && exists k :: k in keys && PathOf(k) == q
  {
    if keys != [] {
      var init, key := keys[..|keys| - 1], keys[|keys| - 1];
      var before := InsertAll(names, annotations, init).value;
      if At(before, q).Some? {
        InheritedOnlyAsKey(names, annotations, init, q);
        var k :| k in init && PathOf(k) == q;
        assert k in keys;
      } else {
        InsertCreates(names, before, PathOf(key), annotations[key], q);
      }
    }
  }

  predicate Apart(p: Path, q: Path) {
    !Prefix(p, q) && !Prefix(q, p)
  }

  lemma SafeSnoc(names: Names, keys: seq<string>, key: string)
    requires Safe(names, keys) && Ordinary(names, PathOf(key)) && forall k :: k in keys ==>
              Apart(PathOf(k), PathOf(key))
    ensures Safe(names, keys + [key])
  {
  }

  /** A leaf that is there after another key was inserted was there before, out of its way. */
  lemma LeafSurvived(names: Names, t: Tree, path: Path, value: string, q: Path)
    requires path != [] && !Last(path, names.proto) && Insert(names, t, path, value).Some?
    requires LeafAt(Insert(names, t, path, value).value, q).Some? && q != path
    ensures LeafAt(t, q).Some? && Apart(q, path)
  {
    InsertLeaf(names, t, path, value, q);
  }

  /** A key that was inserted out of the others' way has no inherited name before its end. */
  lemma InsertedIsOrdinary(names: Names, annotations: map<string, string>, keys: seq<string>, path: Path, value: string)
    requires path != [] && !Last(path, names.proto)
    requires (forall k :: k in keys ==> k in annotations && Apart(PathOf(k), path))
    requires InsertAll(names, annotations, keys).Some?
    requires Insert(names, InsertAll(names, annotations, keys).value, path, value).Some?
    ensures Ordinary(names, path)
  {
    forall d | 0 <= d < |path| - 1 ensures path[d] !in names.inherited {
      assert Prefix(path[..d + 1], path);
      if path[d] in names.inherited {
        InsertPassed(names, InsertAll(names, annotations, keys).value, path, value, d);
        InheritedOnlyAsKey(names, annotations, keys, path[..d + 1]);
      }
    }
  }

  /** If every key can be looked up at the end, no key was in another's way or left the tree. */
  lemma {:induction false} LookupsNeedSafe(names: Names, annotations: map<string, string>, keys: seq<string>)
    requires names.proto in names.inherited && (forall k :: k in keys ==> k in annotations)
    requires forall i, j :: 0 <= i < j < |keys| ==> keys[i] != keys[j]
    requires InsertAll(names, annotations, keys).Some?
    requires forall k :: k in keys ==> LeafAt(InsertAll(names, annotations, keys).value, PathOf(k)).Some?
    ensures Safe(names, keys)
  {
    if keys != [] {
      var init, key := keys[..|keys| - 1], keys[|keys| - 1];
      assert keys == init + [key] && key !in init;
      var before, path := InsertAll(names, annotations, init).value, PathOf(key);
      if Last(path, names.proto) { InheritedOnlyAsKey(names, annotations, keys, path); }
      forall k | k in init ensures LeafAt(before, PathOf(k)).Some? && Apart(PathOf(k), path) {
        if PathOf(k) == path { PathInjective(k, key); }
        LeafSurvived(names, before, path, annotations[key], PathOf(k));
      }
      LookupsNeedSafe(names, annotations, init);
      InsertedIsOrdinary(names, annotations, init, path, annotations[key]);
      SafeSnoc(names, init, key);
    }
  }

  /**
   Looking up each split key gives its value, and the tree has no other leaf, exactly when no
   key's path is a proper prefix of another's and no inherited name stands where an object is
   needed; and this does not depend on the order of the keys.
   */
  lemma FaithfulExactlyWhenSafe(names: Names, annotations: map<string, string>, keys: seq<string>)
    requires names.proto in names.inherited && IsOrder(annotations, keys)
    ensures (InsertAll(names, annotations, keys).Some?
             && Faithful(annotations, keys, InsertAll(names, annotations, keys).value))
            <==> Safe(names, keys)
  {
    if Safe(names, keys) {
      SafeBuilds(names, annotations, keys);
    } else if InsertAll(names, annotations, keys).Some?
              && Faithful(annotations, keys, InsertAll(names, annotations, keys).value) {
      forall k | k in keys ensures LeafAt(InsertAll(names, annotations, keys).value, PathOf(k)).Some? {
        ExpectedAt(annotations, keys, k);
      }
      LookupsNeedSafe(names, annotations, keys);
    }
  }

  // ----- Order ------------------------------------------------------------------------------

  ghost predicate HasLeaf(t: Tree) {
    exists q :: LeafAt(t, q).Some?
  }

  /** Everything in the tree leads to a leaf. */
  ghost predicate Leads(t: Tree) {
    forall r :: r != [] && At(t, r).Some? ==> HasLeaf(At(t, r).value)
  }

  lemma {:induction false} AtAppend(t: Tree, r: Path, q: Path)
    requires At(t, r).Some?
    ensures At(t, r + q) == At(At(t, r).value, q)
    decreases r
  {
    if r == [] {
      assert r + q == q;
    } else {
      assert (r + q)[1..] == r[1..] + q;
      AtAppend(t.members[r[0]], r[1..], q);
    }
  }

  lemma InsertLeads(names: Names, t: Tree, path: Path, value: string)
    requires path != [] && !Last(path, names.proto) && Insert(names, t, path, value).Some? && Leads(t)
    ensures Leads(Insert(names, t, path, value).value)
  {
    var t' := Insert(names, t, path, value).value;
    forall r | r != [] && At(t', r).Some? ensures HasLeaf(At(t', r).value) {
      if Prefix(r, path) {
        InsertLeaf(names, t, path, value, path);
        assert r + path[|r|..] == path;
        AtAppend(t', r, path[|r|..]);
        assert LeafAt(At(t', r).value, path[|r|..]).Some?;
      } else {
        if At(t, r).None? { InsertCreates(names, t, path, value, r); }
        var q :| LeafAt(At(t, r).value, q).Some?;
        AtAppend(t, r, q);
        NotInTheWay(names, t, path, value, r, q);
        InsertLeaf(names, t, path, value, r + q);
        AtAppend(t', r, q);
        assert LeafAt(At(t', r).value, q).Some?;
      }
    }
  }

  lemma PrefixOfAppend(p: Path, r: Path, q: Path)
    ensures Prefix(r + q, p) ==> Prefix(r, p)
    ensures Prefix(p, r + q) ==> Prefix(p, r) || Prefix(r, p)
  {
    var rq := r + q;
    assert forall i :: 0 <= i < |r| ==> rq[i] == r[i];
    if Prefix(p, rq) {
      assert forall i :: 0 <= i < |p| ==> p[i] == rq[..|p|][i];
      if |p| <= |r| { assert r[..|p|] == p; } else { assert p[..|r|] == r; }
    }
    if Prefix(rq, p) {
      assert forall i :: 0 <= i < |r| ==> p[..|rq|][i] == rq[i];
      assert p[..|r|] == r;
    }
  }

  lemma NotInTheWay(names: Names, t: Tree, path: Path, value: string, r: Path, q: Path)
    requires path != [] && !Last(path, names.proto) && Insert(names, t, path, value).Some?
    requires At(Insert(names, t, path, value).value, r).Some? && !Prefix(r, path)
    ensures !Prefix(r + q, path) && !Prefix(path, r + q)
  {
    var t' := Insert(names, t, path, value).value;
    PrefixOfAppend(path, r, q);
    if Prefix(path, r) {
      InsertLeaf(names, t, path, value, path);
      assert r == path + r[|path|..];
      AtAppend(t', path, r[|path|..]);
    }
  }

  lemma {:induction false} SafeLeads(names: Names, annotations: map<string, string>, keys: seq<string>)
    requires (forall k :: k in keys ==> k in annotations) && Safe(names, keys)
    ensures InsertAll(names, annotations, keys).Some? && Leads(InsertAll(names, annotations, keys).value)
  {
    SafeBuilds(names, annotations, keys);
    if keys == [] {
      assert forall r :: r != [] ==> At(Object(map[]), r).None?;
    } else {
      var init, key := keys[..|keys| - 1], keys[|keys| - 1];
      assert keys == init + [key] && Ordinary(names, PathOf(key));
      SafeLeads(names, annotations, init);
      InsertLeads(names, InsertAll(names, annotations, init).value, PathOf(key), annotations[key]);
    }
  }

  /** A tree without dead ends is determined by its leaves. */
  lemma {:induction false} SameLeavesSameTree(t: Tree, u: Tree)
    requires Leads(t) && Leads(u) && forall q :: LeafAt(t, q) == LeafAt(u, q)
    ensures t == u
    decreases t
  {
    assert LeafAt(t, []) == LeafAt(u, []);
    if t.Object? {
      SameMembers(t, u);
      SameMembers(u, t);
      forall c | c in t.members ensures t.members[c] == u.members[c] {
        ChildLeads(t, c);
        ChildLeads(u, c);
        forall q ensures LeafAt(t.members[c], q) == LeafAt(u.members[c], q) {
          assert ([c] + q)[1..] == q;
          assert LeafAt(t, [c] + q) == LeafAt(u, [c] + q);
        }
        SameLeavesSameTree(t.members[c], u.members[c]);
      }
      assert t.members == u.members;
    }
  }

  lemma SameMembers(t: Tree, u: Tree)
    requires t.Object? && u.Object? && Leads(t) && forall q :: LeafAt(t, q) == LeafAt(u, q)
    ensures forall c :: c in t.members ==> c in u.members
  {
    forall c | c in t.members ensures c in u.members {
      assert [c][1..] == [] && At(t, [c]) == Some(t.members[c]);
      assert HasLeaf(t.members[c]);
      var q :| LeafAt(t.members[c], q).Some?;
      var path := [c] + q;
      assert path[0] == c && path[1..] == q;
      assert At(t, path) == At(t.members[c], q);
      assert LeafAt(u, path) == LeafAt(t, path);
    }
  }

  lemma ChildLeads(t: Tree, c: string)
    requires t.Object? && c in t.members && Leads(t)
    ensures Leads(t.members[c])
  {
    var child := t.members[c];
    forall r | r != [] && At(child, r).Some? ensures HasLeaf(At(child, r).value) {
      assert ([c] + r)[1..] == r && At(t, [c] + r) == At(child, r);
    }
  }

  /** For safe keys the tree itself does not depend on the order in which the keys are visited. */
  lemma OrderDoesNotMatter(names: Names, annotations: map<string, string>, keys: seq<string>, keys': seq<string>)
    requires IsOrder(annotations, keys) && IsOrder(annotations, keys') && Safe(names, keys)
    ensures InsertAll(names, annotations, keys) == InsertAll(names, annotations, keys')
  {
    SafeBuilds(names, annotations, keys);
    SafeBuilds(names, annotations, keys');
    SafeLeads(names, annotations, keys);
    SafeLeads(names, annotations, keys');
    var t, u := InsertAll(names, annotations, keys).value, InsertAll(names, annotations, keys').value;
    forall q ensures LeafAt(t, q) == LeafAt(u, q) {
      assert LeafAt(t, q) == Expected(annotations, keys, q) && LeafAt(u, q) == Expected(annotations, keys', q);
    }
    SameLeavesSameTree(t, u);
  }

  // ----- Keys that do not build a faithful tree ---------------------------------------------

  lemma OneKey(names: Names, annotations: map<string, string>, k: string)
    requires k in annotations
    ensures InsertAll(names, annotations, [k]) == Insert(names, Object(map[]), PathOf(k), annotations[k])
  {
    assert [k][..0] == [];
  }

  lemma TwoKeys(names: Names, annotations: map<string, string>, k: string, l: string)
    requires k in annotations && l in annotations
    ensures InsertAll(names, annotations, [k, l]) ==
            var first := Insert(names, Object(map[]), PathOf(k), annotations[k]);
            if first.None? then None else Insert(names, first.value, PathOf(l), annotations[l])
  {
    OneKey(names, annotations, k);
    var keys := [k, l];
    assert keys[..|keys| - 1] == [k] && keys[|keys| - 1] == l;
  }

  lemma LiteralPath(first: string, second: string)
    requires SLASH !in first && SLASH !in second
    ensures PathOf(first) == [first] && PathOf(first + [SLASH] + second) == [first, second]
  {
    SplitNone(first, SLASH);
    SplitNone(second, SLASH);
    SplitOff(first, second, SLASH);
  }

  lemma ShortPaths(names: Names, x: string, y: string, v: string, w: string)
    requires x != names.proto && y != names.proto && x !in names.inherited && v != ""
    ensures Insert(names, Object(map[]), [x], v) == Some(Object(map[x := Text(v)]))
    ensures Insert(names, Object(map[x := Text(v)]), [x, y], w).None?
    ensures Insert(names, Object(map[]), [x, y], w) == Some(Object(map[x := Object(map[y := Text(w)])]))
    ensures Insert(names, Object(map[x := Object(map[y := Text(w)])]), [x], v) == Some(Object(map[x := Text(v)]))
  {
    var path := [x, y];
    assert path[1..] == [y] && path[0] == x;
    assert Child(names, map[x := Text(v)], x) == Some(Text(v)) && Insert(names, Text(v), [y], w).None?;
    assert Insert(names, Object(map[]), [y], w) == Some(Object(map[y := Text(w)]));
    assert map[x := Object(map[y := Text(w)])][x := Text(v)] == map[x := Text(v)];
  }

  lemma InheritedPaths(names: Names, x: string, y: string, v: string)
    requires x in names.inherited
    ensures Insert(names, Object(map[]), [x, y], v).None?
    ensures Insert(names, Object(map[]), [names.proto], v) == Some(Object(map[]))
  {
  }

  /** A key below a text throws; inserted before that text it is lost. */
  lemma PrefixKeysCollide(names: Names, x: string, y: string, v: string, w: string)
    requires SLASH !in x && SLASH !in y && x != names.proto && y != names.proto && x !in names.inherited && v != ""
    ensures var long := x + [SLASH] + y;
            && InsertAll(names, map[x := v, long := w], [x, long]).None?
            && InsertAll(names, map[x := v, long := w], [long, x]) == Some(Object(map[x := Text(v)]))
  {
    var long := x + [SLASH] + y;
    LiteralPath(x, y);
    ShortPaths(names, x, y, v, w);
    TwoKeys(names, map[x := v, long := w], x, long);
    TwoKeys(names, map[x := v, long := w], long, x);
  }

  lemma PrefixKeysCollideInJavaScript()
    ensures InsertAll(OBJECT_PROTOTYPE, map["a" := "x", "a/b" := "y"], ["a", "a/b"]).None?
    ensures InsertAll(OBJECT_PROTOTYPE, map["a" := "x", "a/b" := "y"], ["a/b", "a"])
         == Some(Object(map["a" := Text("x")]))
  {
    assert "a" + [SLASH] + "b" == "a/b";
    assert forall n :: n in OBJECT_PROTOTYPE.inherited ==> |n| > 1;
    PrefixKeysCollide(OBJECT_PROTOTYPE, "a", "b", "x", "y");
  }

  /** A key that goes through an inherited name leaves the tree, and one that is `proto` is dropped. */
  lemma InheritedKeysAreLost(names: Names, x: string, y: string, v: string)
    requires SLASH !in x && SLASH !in y && SLASH !in names.proto && x in names.inherited
    ensures InsertAll(names, map[x + [SLASH] + y := v], [x + [SLASH] + y]).None?
    ensures InsertAll(names, map[names.proto := v], [names.proto]) == Some(Object(map[]))
  {
    LiteralPath(x, y);
    LiteralPath(names.proto, y);
    InheritedPaths(names, x, y, v);
    OneKey(names, map[x + [SLASH] + y := v], x + [SLASH] + y);
    OneKey(names, map[names.proto := v], names.proto);
  }

  lemma InheritedNamesCollide()
    ensures InsertAll(OBJECT_PROTOTYPE, map["constructor/x" := "v"], ["constructor/x"]).None?
    ensures InsertAll(OBJECT_PROTOTYPE, map["__proto__" := "v"], ["__proto__"]) == Some(Object(map[]))
  {
    assert "constructor" + [SLASH] + "x" == "constructor/x";
    InheritedKeysAreLost(OBJECT_PROTOTYPE, "constructor", "x", "v");
  }
}
