/**
 A flat record that stands for a map with structured keys, and the counting of its entries by
 group. Nothing here knows how keys are written.
 */
module FlatRecords {
  import opened Common

  ghost predicate Injective<P(!new), S(!new)>(write: P -> S, ok: P -> bool) {
    forall p, q :: ok(p) && ok(q) && write(p) == write(q) ==> p == q
  }

  /** Same entries under written keys, each value recovered by `read`; no stored value is empty. */
  ghost predicate Represents<P(!new), S(!new)>(data: map<S, string>, model: map<P, string>, write: P -> S,
                                               ok: P -> bool, read: string -> Option<string>) {
    && (forall p :: p in model ==>
          ok(p) && write(p) in data && data[write(p)] != "" && read(data[write(p)]) == Some(model[p]))
    && (forall s :: s in data ==> exists p :: p in model && write(p) == s)
  }

  lemma RepresentsLookup<P(!new), S(!new)>(data: map<S, string>, model: map<P, string>, write: P -> S, ok: P -> bool,
                                           read: string -> Option<string>, p: P)
    requires Injective(write, ok) && Represents(data, model, write, ok, read) && ok(p)
    ensures write(p) in data <==> p in model
  {
  }

  lemma RepresentsInsert<P(!new), S(!new)>(data: map<S, string>, model: map<P, string>, write: P -> S, ok: P -> bool,
                                           read: string -> Option<string>, p: P, stored: string, v: string)
    requires Injective(write, ok) && Represents(data, model, write, ok, read) && ok(p)
    requires stored != "" && read(stored) == Some(v)
    ensures Represents(data[write(p) := stored], model[p := v], write, ok, read)
  {
    var data', model' := data[write(p) := stored], model[p := v];
    forall s | s in data' ensures exists q :: q in model' && write(q) == s {
      if s == write(p) {
        assert p in model';
      } else {
        var q :| q in model && write(q) == s;
        assert q in model';
      }
    }
  }

  lemma RepresentsDelete<P(!new), S(!new)>(data: map<S, string>, model: map<P, string>, write: P -> S, ok: P -> bool,
                                           read: string -> Option<string>, p: P)
    requires Injective(write, ok) && Represents(data, model, write, ok, read) && ok(p)
    ensures Represents(data - {write(p)}, model - {p}, write, ok, read)
  {
    var data', model' := data - {write(p)}, model - {p};
    forall s | s in data' ensures exists q :: q in model' && write(q) == s {
      var q :| q in model && write(q) == s;
      assert q in model';
    }
  }

  // ----- Counting by group ------------------------------------------------------------------

  function InGroup<S>(data: map<S, string>, group: S -> string, g: string): set<S> {
    set s | s in data && group(s) == g
  }

  function Groups<S>(data: map<S, string>, group: S -> string): set<string> {
    set s | s in data :: group(s)
  }

  ghost predicate Within<S(!new)>(data: map<S, string>, group: S -> string, groups: nat, each: nat) {
    |Groups(data, group)| <= groups && forall g :: |InGroup(data, group, g)| <= each
  }

  lemma SubsetIsNoLarger<T>(a: set<T>, b: set<T>)
    requires a <= b
    ensures |a| <= |b|
  {
    assert |b| == |a| + |b - a|;
  }

  lemma InsertGroups<S(!new)>(data: map<S, string>, group: S -> string, s: S, v: string)
    ensures Groups(data[s := v], group) == Groups(data, group) + {group(s)}
    ensures InGroup(data, group, group(s)) != {} ==> group(s) in Groups(data, group)
  {
  }

  lemma InsertInGroup<S(!new)>(data: map<S, string>, group: S -> string, s: S, v: string, g: string)
    ensures InGroup(data[s := v], group, g) == InGroup(data, group, g) + (if g == group(s) then {s} else {})
    ensures s in data ==> s in InGroup(data, group, group(s))
  {
  }

  lemma InsertWithin<S(!new)>(data: map<S, string>, group: S -> string, groups: nat, each: nat, s: S, v: string)
    requires Within(data, group, groups, each)
    requires InGroup(data, group, group(s)) == {} ==> |Groups(data, group)| < groups
    requires s !in data ==> |InGroup(data, group, group(s))| < each
    ensures Within(data[s := v], group, groups, each)
  {
    InsertGroups(data, group, s, v);
    if group(s) in Groups(data, group) { assert Groups(data, group) + {group(s)} == Groups(data, group); }
    var data' := data[s := v];
    forall g ensures |InGroup(data', group, g)| <= each {
      InsertInGroup(data, group, s, v, g);
      if s in data && g == group(s) { assert InGroup(data, group, g) + {s} == InGroup(data, group, g); }
    }
  }

  lemma DeleteWithin<S(!new)>(data: map<S, string>, group: S -> string, groups: nat, each: nat, s: S)
    requires Within(data, group, groups, each)
    ensures Within(data - {s}, group, groups, each)
  {
    SubsetIsNoLarger(Groups(data - {s}, group), Groups(data, group));
    var data' := data - {s};
    forall g ensures |InGroup(data', group, g)| <= each {
      SubsetIsNoLarger(InGroup(data', group, g), InGroup(data, group, g));
    }
  }

  /** A set that maps one-to-one into another is no larger. */
  lemma {:induction false} ImageIsNoLarger<P(!new), S(!new)>(ps: set<P>, ss: set<S>, write: P -> S, ok: P -> bool)
    requires Injective(write, ok) && forall p :: p in ps ==> ok(p) && write(p) in ss
    ensures |ps| <= |ss|
    decreases |ps|
  {
    if ps != {} {
      var p :| p in ps;
      ImageIsNoLarger(ps - {p}, ss - {write(p)}, write, ok);
    }
  }
}
