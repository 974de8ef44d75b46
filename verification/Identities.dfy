/** NUL-joined identities, and lists in which an identity occurs once. */
module Identities {
  import opened Common

  const NUL := '\0'

  predicate NulFree(s: string) {
    NUL !in s
  }

  function Join(a: string, b: string): string {
    a + [NUL] + b
  }

  lemma JoinSplits(a: string, b: string, a': string, b': string)
    requires NulFree(a) && NulFree(a') && Join(a, b) == Join(a', b')
    ensures a == a' && b == b'
  {
    var s := Join(a, b);
    assert s[|a|] == NUL && s[|a'|] == NUL;
    assert forall i :: 0 <= i < |a| ==> s[i] == a[i];
    assert forall i :: 0 <= i < |a'| ==> s[i] == a'[i];
    assert |a| == |a'|;
    assert a == s[..|a|] && b == s[|a| + 1..] && b' == s[|a| + 1..];
  }

  /** Where one side is free of NUL the other is split in the same place, whatever it holds. */
  lemma JoinFreeSplits(a: string, b: string, a': string, b': string)
    requires NulFree(a) && NulFree(b) && Join(a, b) == Join(a', b')
    ensures a == a' && b == b'
  {
    var s := Join(a, b);
    assert s[|a'|] == NUL;
    assert forall i :: 0 <= i < |a| ==> s[i] == a[i];
    assert forall i :: |a| < i < |s| ==> s[i] == b[i - |a| - 1];
    assert |a| == |a'|;
    assert a == s[..|a|] && a' == s[..|a|] && b == s[|a| + 1..] && b' == s[|a| + 1..];
  }

  function Identity(source: string, bundle: string, package: string): string {
    Join(source, Join(bundle, package))
  }

  /** An identity of NUL-free fields is not confused with any other, even one with NULs in its fields. */
  lemma IdentityIsExact(source: string, bundle: string, package: string, source': string, bundle': string,
                        package': string)
    requires NulFree(source) && NulFree(source') && NulFree(bundle) && NulFree(package)
    ensures Identity(source, bundle, package) == Identity(source', bundle', package')
            <==> source == source' && bundle == bundle' && package == package'
  {
    if Identity(source, bundle, package) == Identity(source', bundle', package') {
      JoinSplits(source, Join(bundle, package), source', Join(bundle', package'));
      JoinFreeSplits(bundle, package, bundle', package');
    }
  }

  /** Without NUL-free fields on one side, two identities can coincide. */
  lemma IdentityConfusesNulFields()
    ensures Identity("user", "a\0b", "c") == Identity("user", "a", "b\0c")
  {
    assert Identity("user", "a\0b", "c") == "user\0a\0b\0c";
    assert Identity("user", "a", "b\0c") == "user\0a\0b\0c";
  }

  /** A string with a NUL is two strings joined. */
  lemma CutAtNul(s: string) returns (a: string, b: string)
    requires !NulFree(s)
    ensures s == Join(a, b)
  {
    var i :| 0 <= i < |s| && s[i] == NUL;
    a, b := s[..i], s[i + 1..];
    assert s == s[..i] + [s[i]] + s[i + 1..];
  }

  /** Other names have the same identity if and only if one of the two names contains a NUL. */
  lemma IdentityIsSharedExactlyWhen(source: string, bundle: string, package: string)
    requires NulFree(source)
    ensures (exists b, p :: (b, p) != (bundle, package) && Identity(source, b, p) == Identity(source, bundle, package))
            <==> !(NulFree(bundle) && NulFree(package))
  {
    if NulFree(bundle) && NulFree(package) {
      forall b, p | Identity(source, b, p) == Identity(source, bundle, package) ensures (b, p) == (bundle, package) {
        IdentityIsExact(source, bundle, package, source, b, p);
      }
    } else if !NulFree(bundle) {
      var b, rest := CutAtNul(bundle);
      assert Join(b, Join(rest, package)) == Join(bundle, package);
      assert |b| < |bundle| && Identity(source, b, Join(rest, package)) == Identity(source, bundle, package);
    } else {
      var front, p := CutAtNul(package);
      assert Join(Join(bundle, front), p) == Join(bundle, package);
      assert |p| < |package| && Identity(source, Join(bundle, front), p) == Identity(source, bundle, package);
    }
  }

  // ----- Occurrences ------------------------------------------------------------------------

  function Count<K(==)>(keys: seq<Option<K>>, k: K): nat {
    if keys == [] then 0 else Count(keys[..|keys| - 1], k) + if keys[|keys| - 1] == Some(k) then 1 else 0
  }

  ghost predicate OnlyAt<K>(keys: seq<Option<K>>, k: K, i: nat) {
    i < |keys| && keys[i] == Some(k) && forall j :: 0 <= j < |keys| && keys[j] == Some(k) ==> j == i
  }

  ghost predicate OccursOnce<K>(keys: seq<Option<K>>, k: K) {
    exists i: nat :: OnlyAt(keys, k, i)
  }

  lemma {:induction false} CountZero<K>(keys: seq<Option<K>>, k: K)
    ensures Count(keys, k) == 0 <==> Some(k) !in keys
  {
    if keys != [] {
      CountZero(keys[..|keys| - 1], k);
      assert keys == keys[..|keys| - 1] + [keys[|keys| - 1]];
    }
  }

  lemma OccursOnceSnoc<K>(keys: seq<Option<K>>, x: Option<K>, k: K)
    ensures OccursOnce(keys + [x], k) <==> if x == Some(k) then Some(k) !in keys else OccursOnce(keys, k)
  {
    var all := keys + [x];
    assert forall i :: 0 <= i < |keys| ==> all[i] == keys[i];
    if x == Some(k) {
      assert all[|keys|] == Some(k);
      if Some(k) !in keys { assert OnlyAt(all, k, |keys|); }
      if i: nat :| OnlyAt(all, k, i) { assert i == |keys|; }
    } else {
      assert forall i: nat :: OnlyAt(keys, k, i) ==> OnlyAt(all, k, i);
      if i: nat :| OnlyAt(all, k, i) { assert OnlyAt(keys, k, i); }
    }
  }

  lemma {:induction false} CountOne<K>(keys: seq<Option<K>>, k: K)
    ensures Count(keys, k) == 1 <==> OccursOnce(keys, k)
  {
    if keys != [] {
      var init, last := keys[..|keys| - 1], keys[|keys| - 1];
      CountZero(init, k);
      CountOne(init, k);
      OccursOnceSnoc(init, last, k);
      assert keys == init + [last];
    }
  }

  /** No element twice. */
  predicate Distinct<K(==)>(ks: seq<K>) {
    ks == [] || (Distinct(ks[..|ks| - 1]) && ks[|ks| - 1] !in ks[..|ks| - 1])
  }

  lemma {:induction false} DistinctMeans<K>(ks: seq<K>)
    ensures Distinct(ks) <==> forall i, j :: 0 <= i < j < |ks| ==> ks[i] != ks[j]
  {
    if ks != [] {
      var init := ks[..|ks| - 1];
      DistinctMeans(init);
      assert forall i :: 0 <= i < |init| ==> init[i] == ks[i];
      if forall i, j :: 0 <= i < j < |ks| ==> ks[i] != ks[j] {
        forall i, j | 0 <= i < j < |init| ensures init[i] != init[j] { assert ks[i] != ks[j]; }
        forall i | 0 <= i < |init| ensures init[i] != ks[|ks| - 1] { assert ks[i] != ks[|ks| - 1]; }
      }
    }
  }

  lemma DistinctSnoc<K>(ks: seq<K>, k: K)
    ensures Distinct(ks + [k]) <==> Distinct(ks) && k !in ks
  {
    assert (ks + [k])[..|ks|] == ks;
  }

  lemma {:induction false} DistinctPrefix<K>(ks: seq<K>, more: seq<K>)
    requires Distinct(ks + more)
    ensures Distinct(ks)
  {
    if more == [] {
      assert ks + more == ks;
    } else {
      assert (ks + more)[..|ks + more| - 1] == ks + more[..|more| - 1];
      DistinctPrefix(ks, more[..|more| - 1]);
    }
  }
}
