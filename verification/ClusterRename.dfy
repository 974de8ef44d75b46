/**
 Cluster renaming of backend/cmd/headlamp.go: custom names kept in a context's extensions, and
 name lookup over a Go map, whose iteration order is arbitrary.
 */
module ClusterRename {
  import opened Common

  /** The headlamp_info extension: absent, not decodable, or carrying a custom name (possibly empty). */
  datatype Info = NoInfo | BadInfo | Custom(name: string)

  type Contexts = map<string, Info>

  /** The custom name that lookups see. */
  function CustomName(i: Info): string {
    if i.Custom? then i.name else ""
  }

  predicate HasCustom(ctxs: Contexts, k: string, n: string) {
    k in ctxs && n != "" && CustomName(ctxs[k]) == n
  }

  // ----- String order -----------------------------------------------------------------------

  /** Go's string order; comparing UTF-8 bytes and comparing code points agree. */
  predicate StringLe(a: string, b: string) {
    a == "" || (b != "" && (a[0] < b[0] || (a[0] == b[0] && StringLe(a[1..], b[1..]))))
  }

  lemma {:induction false} StringLeTotal(a: string, b: string)
    ensures StringLe(a, b) || StringLe(b, a)
    ensures StringLe(a, b) && StringLe(b, a) ==> a == b
  {
    if a != "" && b != "" {
      StringLeTotal(a[1..], b[1..]);
      assert a == [a[0]] + a[1..] && b == [b[0]] + b[1..];
    }
  }

  lemma {:induction false} StringLeTransitive(a: string, b: string, c: string)
    requires StringLe(a, b) && StringLe(b, c)
    ensures StringLe(a, c)
  {
    if a != "" && a[0] == b[0] == c[0] {
      StringLeTransitive(a[1..], b[1..], c[1..]);
    }
  }

  // ----- Lookup -----------------------------------------------------------------------------

  /** An order in which a loop may visit the map. */
  ghost predicate IsOrder(ctxs: Contexts, order: seq<string>) {
    forall k :: k in order <==> k in ctxs
  }

  predicate DnsMatch(ctxs: Contexts, dns: string -> string, k: string, n: string) {
    k in ctxs && dns(k) == n
  }

  /**
   What findMatchingContextName may answer: a context with that custom name, else the key itself,
   else the first key in string order whose DNS-friendly form it is, else the name unchanged.
   */
  ghost predicate Resolves(ctxs: Contexts, dns: string -> string, n: string, r: string) {
    if exists k :: HasCustom(ctxs, k, n) then HasCustom(ctxs, r, n)
    else if n in ctxs then r == n
    else if exists k :: DnsMatch(ctxs, dns, k, n)
    then DnsMatch(ctxs, dns, r, n) && forall k :: DnsMatch(ctxs, dns, k, n) ==> StringLe(r, k)
    else r == n
  }

  /** findMatchingContextName; the two loops may visit the map in different orders. */
  method FindMatchingContextName(ctxs: Contexts, first: seq<string>, second: seq<string>, dns: string -> string,
                                 clusterName: string)
    returns (r: string)
    requires IsOrder(ctxs, first) && IsOrder(ctxs, second)
    ensures Resolves(ctxs, dns, clusterName, r)
  {
    for i := 0 to |first|
      invariant forall j :: 0 <= j < i ==> !HasCustom(ctxs, first[j], clusterName)
    {
      assert first[i] in first;
      if HasCustom(ctxs, first[i], clusterName) {
        return first[i];
      }
    }
    assert forall k :: !HasCustom(ctxs, k, clusterName);
    if clusterName in ctxs {
      return clusterName;
    }
    var matches: seq<string> := [];
    for i := 0 to |second|
      invariant forall m :: m in matches ==> DnsMatch(ctxs, dns, m, clusterName)
      invariant forall j :: 0 <= j < i && dns(second[j]) == clusterName ==> second[j] in matches
    {
      assert second[i] in second;
      if dns(second[i]) == clusterName {
        matches := matches + [second[i]];
      }
    }
    assert forall k :: DnsMatch(ctxs, dns, k, clusterName) ==> k in second && k in matches;
    if |matches| == 0 {
      return clusterName;
    }
    r := First(matches);
  }

  /** sort.Strings(matches), matches[0]. */
  method First(names: seq<string>) returns (r: string)
    requires names != []
    ensures r in names && forall n :: n in names ==> StringLe(r, n)
  {
    r := names[0];
    for i := 0 to |names|
      invariant r in names
      invariant forall j :: 0 <= j < i ==> StringLe(r, names[j])
    {
      StringLeTotal(r, names[i]);
      StringLeTotal(names[i], names[i]);
      if !StringLe(r, names[i]) {
        forall j | 0 <= j < i ensures StringLe(names[i], names[j]) {
          StringLeTransitive(names[i], r, names[j]);
        }
        r := names[i];
      }
    }
  }

  /** No context other than `own` answers to the name, by key or by custom name. */
  predicate Free(ctxs: Contexts, own: string, n: string) {
    forall k :: k in ctxs && k != own ==> k != n && !HasCustom(ctxs, k, n)
  }

  /** CheckUniqueName: the answer is about the key that the lookup takes for the context being renamed. */
  method CheckUniqueName(ctxs: Contexts, orders: seq<seq<string>>, dns: string -> string, current: string,
                         newName: string)
    returns (unique: bool)
    requires |orders| == 3 && forall i :: 0 <= i < 3 ==> IsOrder(ctxs, orders[i])
    ensures exists own :: Resolves(ctxs, dns, current, own) && (unique <==> Free(ctxs, own, newName))
  {
    var ownKey := FindMatchingContextName(ctxs, orders[0], orders[1], dns, current);
    var order := orders[2];
    for i := 0 to |order|
      invariant forall j :: 0 <= j < i && order[j] != ownKey ==>
                order[j] != newName && !HasCustom(ctxs, order[j], newName)
    {
      var name := order[i];
      assert name in order;
      if name != ownKey && (name == newName || HasCustom(ctxs, name, newName)) {
        assert !Free(ctxs, ownKey, newName);
        return false;
      }
    }
    assert Free(ctxs, ownKey, newName);
    return true;
  }

  // ----- Renaming ---------------------------------------------------------------------------

  /** Going back to the context's own name clears the custom name. */
  function NameToStore(dns: string -> string, target: string, newName: string): string {
    if newName == target || newName == dns(target) then "" else newName
  }

  /** A rename that is written: both lookups, the uniqueness check, and the new name. */
  ghost predicate Renamed(ctxs: Contexts, dns: string -> string, current: string, newName: string, target: string,
                          ctxs': Contexts) {
    && target in ctxs && Resolves(ctxs, dns, current, target)
    && (exists own :: Resolves(ctxs, dns, current, own) && Free(ctxs, own, newName))
    && ctxs' == ctxs[target := Custom(NameToStore(dns, target, newName))]
  }

  class KubeconfigFile {
    var contexts: Contexts

    constructor (contexts: Contexts)
      ensures this.contexts == contexts
    {
      this.contexts := contexts;
    }

    /**
     handleClusterRename. `writes` is whether clientcmd.WriteToFile succeeds, `caches` whether the
     context store can then be brought up to date. The request succeeds if both do; the file has
     been renamed in as soon as the first does.
     */
    method HandleClusterRename(orders: seq<seq<string>>, dns: string -> string, clusterName: string, newName: string,
                               writes: bool, caches: bool)
      returns (ok: bool, written: bool, target: string)
      requires |orders| == 5 && forall i :: 0 <= i < 5 ==> IsOrder(contexts, orders[i])
      modifies this
      ensures ok <==> written && caches
      ensures written ==> writes && Renamed(old(contexts), dns, clusterName, newName, target, contexts)
      ensures !written ==> contexts == old(contexts)
      ensures !written && writes ==>
                exists own ::
                  Resolves(contexts, dns, clusterName, own) && (own !in contexts || !Free(contexts, own, newName))
    {
      target := "";
      var unique := CheckUniqueName(contexts, orders[..3], dns, clusterName, newName);
      if !unique {
        return false, false, target;
      }
      target := FindMatchingContextName(contexts, orders[3], orders[4], dns, clusterName);
      if target !in contexts || !writes {
        return false, false, target;
      }
      var stored := NameToStore(dns, target, newName);
      contexts := contexts[target := Custom(stored)];
      return caches, true, target;
    }
  }

  // ----- The invariant ----------------------------------------------------------------------

  /** Custom names are pairwise distinct and none is a context key. */
  ghost predicate Inv(ctxs: Contexts) {
    && (forall k, l, n :: HasCustom(ctxs, k, n) && HasCustom(ctxs, l, n) ==> k == l)
    && (forall k, n :: HasCustom(ctxs, k, n) ==> n !in ctxs)
  }

  predicate NoCustomNames(ctxs: Contexts) {
    forall k :: k in ctxs ==> CustomName(ctxs[k]) == ""
  }

  /** With distinct custom names a lookup has one answer, whatever the iteration order. */
  lemma LookupIsDetermined(ctxs: Contexts, dns: string -> string, n: string, r: string, r': string)
    requires Inv(ctxs) && Resolves(ctxs, dns, n, r) && Resolves(ctxs, dns, n, r')
    ensures r == r'
  {
    if (forall k :: !HasCustom(ctxs, k, n)) && n !in ctxs && exists k :: DnsMatch(ctxs, dns, k, n) {
      StringLeTotal(r, r');
    }
  }

  lemma KeyResolvesToItself(ctxs: Contexts, dns: string -> string, k: string, r: string)
    requires Inv(ctxs) && k in ctxs && Resolves(ctxs, dns, k, r)
    ensures r == k
  {
  }

  lemma RenameKeepsInv(ctxs: Contexts, dns: string -> string, current: string, newName: string, target: string,
                       ctxs': Contexts)
    requires Inv(ctxs) && Renamed(ctxs, dns, current, newName, target, ctxs')
    ensures Inv(ctxs') && ctxs'.Keys == ctxs.Keys
  {
    var own :| Resolves(ctxs, dns, current, own) && Free(ctxs, own, newName);
    LookupIsDetermined(ctxs, dns, current, own, target);
    var stored := NameToStore(dns, target, newName);
    assert stored != "" ==> newName !in ctxs;
    forall k, n | HasCustom(ctxs', k, n) ensures n !in ctxs && (k != target ==> HasCustom(ctxs, k, n)) {
      if k != target { assert HasCustom(ctxs, k, n); }
    }
    forall k, l, n | HasCustom(ctxs', k, n) && HasCustom(ctxs', l, n) ensures k == l {
    }
  }

  /**
   The name just given resolves to the context it was given to. The one exception is a name that is
   only the DNS-friendly form of the context's key: it is not stored, and resolves back exactly when
   no earlier key has the same form.
   */
  ghost predicate ResolvesBack(ctxs: Contexts, dns: string -> string, newName: string, target: string) {
    newName == dns(target) && newName != target ==> forall k :: DnsMatch(ctxs, dns, k, newName) ==> StringLe(target, k)
  }

  lemma NewNameResolvesToTarget(ctxs: Contexts, dns: string -> string, current: string, newName: string, target: string,
                                ctxs': Contexts, r: string)
    requires Inv(ctxs) && Renamed(ctxs, dns, current, newName, target, ctxs')
    requires newName != "" && Resolves(ctxs', dns, newName, r)
    ensures r == target <==> ResolvesBack(ctxs, dns, newName, target)
  {
    RenameKeepsInv(ctxs, dns, current, newName, target, ctxs');
    if newName == target {
      KeyResolvesToItself(ctxs', dns, target, r);
    } else if newName != dns(target) {
      assert HasCustom(ctxs', target, newName);
    } else {
      ClearedNameIsFree(ctxs, dns, current, newName, target, ctxs');
      assert DnsMatch(ctxs', dns, target, newName);
      forall k ensures DnsMatch(ctxs', dns, k, newName) <==> DnsMatch(ctxs, dns, k, newName) {}
      StringLeTotal(r, target);
    }
  }

  lemma ClearedNameIsFree(ctxs: Contexts, dns: string -> string, current: string, newName: string, target: string,
                          ctxs': Contexts)
    requires Inv(ctxs) && Renamed(ctxs, dns, current, newName, target, ctxs') && newName == dns(target) != target
    ensures newName !in ctxs' && forall k :: !HasCustom(ctxs', k, newName)
  {
    var own :| Resolves(ctxs, dns, current, own) && Free(ctxs, own, newName);
    LookupIsDetermined(ctxs, dns, current, own, target);
    forall k ensures !HasCustom(ctxs', k, newName) {
      if k in ctxs && k != target { assert ctxs'[k] == ctxs[k] && !HasCustom(ctxs, k, newName); }
    }
  }

  // ----- A shared DNS-friendly form ---------------------------------------------------------

  /** kubeconfig.MakeDNSFriendly. */
  function MakeDnsFriendly(s: string): string {
    if s == "" then ""
    else (if s[0] == '/' then "--" else if s[0] == ' ' then "__" else [s[0]]) + MakeDnsFriendly(s[1..])
  }

  /** Of two keys with one form, the later one in string order cannot be reached by it, even renamed to it. */
  lemma SharedFormGoesToTheFirst(dns: string -> string, first: string, later: string, form: string)
    requires first != later && StringLe(first, later) && dns(first) == form && dns(later) == form
    requires form !in {first, later}
    ensures var ctxs := map[first := NoInfo, later := NoInfo];
            var ctxs' := ctxs[later := Custom("")];
            && Renamed(ctxs, dns, later, form, later, ctxs')
            && Resolves(ctxs', dns, form, first) && !Resolves(ctxs', dns, form, later)
  {
    var ctxs := map[first := NoInfo, later := NoInfo];
    var ctxs' := ctxs[later := Custom("")];
    assert forall k, n :: !HasCustom(ctxs, k, n) && !HasCustom(ctxs', k, n);
    assert Resolves(ctxs, dns, later, later) && Free(ctxs, later, form);
    assert DnsMatch(ctxs', dns, first, form) && DnsMatch(ctxs', dns, later, form);
    StringLeTotal(first, later);
    StringLeTotal(first, first);
  }

  /** Two such keys. */
  lemma SharedFormExists()
    ensures MakeDnsFriendly("a--b c") == MakeDnsFriendly("a/b c") == "a--b__c" && StringLe("a--b c", "a/b c")
  {
    var tail := "b c";
    assert tail[1..] == " c" && " c"[1..] == "c" && "c"[1..] == "";
    assert MakeDnsFriendly(" c") == "__c" && MakeDnsFriendly(tail) == "b__c";
    assert "a/b c"[1..] == "/b c" && "/b c"[1..] == tail;
    assert MakeDnsFriendly("/b c") == "--b__c";
    assert "a--b c"[1..] == "--b c" && "--b c"[1..] == "-b c" && "-b c"[1..] == tail;
    assert MakeDnsFriendly("-b c") == "-b__c" && MakeDnsFriendly("--b c") == "--b__c";
  }

  /** Renamed to its own DNS-friendly form, the second of them still resolves to the first. */
  lemma RenamedToSharedFormIsLost()
    ensures var ctxs := map["a--b c" := NoInfo, "a/b c" := NoInfo];
            var ctxs' := ctxs["a/b c" := Custom("")];
            && Renamed(ctxs, MakeDnsFriendly, "a/b c", "a--b__c", "a/b c", ctxs')
            && Resolves(ctxs', MakeDnsFriendly, "a--b__c", "a--b c")
            && !Resolves(ctxs', MakeDnsFriendly, "a--b__c", "a/b c")
  {
    SharedFormExists();
    assert "a--b c"[1] != "a/b c"[1] && |"a--b__c"| == 7;
    SharedFormGoesToTheFirst(MakeDnsFriendly, "a--b c", "a/b c", "a--b__c");
  }

  // ----- Whole runs -------------------------------------------------------------------------

  datatype Request = Request(current: string, newName: string, target: string)

  /** States of a file under the renames written to it; the other requests leave it as it is. */
  ghost predicate IsHistory(dns: string -> string, states: seq<Contexts>, requests: seq<Request>) {
    && |states| == |requests| + 1 && NoCustomNames(states[0])
    && forall i :: 0 <= i < |requests| ==>
         Renamed(states[i], dns, requests[i].current, requests[i].newName, requests[i].target, states[i + 1])
  }

  lemma {:induction false} HistoryKeepsInv(dns: string -> string, states: seq<Contexts>, requests: seq<Request>, i: nat)
    requires IsHistory(dns, states, requests) && i < |states|
    ensures Inv(states[i]) && states[i].Keys == states[0].Keys
  {
    if i > 0 {
      HistoryKeepsInv(dns, states, requests, i - 1);
      var q := requests[i - 1];
      RenameKeepsInv(states[i - 1], dns, q.current, q.newName, q.target, states[i]);
    }
  }

  /**
   After any sequence of renames from a file without custom names: custom names are distinct and
   never a key, every lookup has one answer, every key answers for itself, and the name just given
   answers for its context.
   */
  lemma RenamingStaysUnambiguous(dns: string -> string, states: seq<Contexts>, requests: seq<Request>, i: nat,
                                 n: string, r: string, r': string)
    requires IsHistory(dns, states, requests) && i < |states|
    requires Resolves(states[i], dns, n, r) && Resolves(states[i], dns, n, r')
    ensures Inv(states[i]) && r == r'
    ensures n in states[0] ==> r == n
    ensures (i > 0 && n != "" && n == requests[i - 1].newName) ==>
              (r == requests[i - 1].target <==> ResolvesBack(states[i - 1], dns, n, requests[i - 1].target))
  {
    HistoryKeepsInv(dns, states, requests, i);
    LookupIsDetermined(states[i], dns, n, r, r');
    if n in states[0] { KeyResolvesToItself(states[i], dns, n, r); }
    if i > 0 && n != "" && n == requests[i - 1].newName {
      HistoryKeepsInv(dns, states, requests, i - 1);
      var q := requests[i - 1];
      NewNameResolvesToTarget(states[i - 1], dns, q.current, q.newName, q.target, states[i], r);
    }
  }
}
