/**
 Lists of named entries and the two ways the kubeconfig code combines them. Both are
 characterised by what they do to the name-to-entry view.
 */
module NamedLists {

  datatype Named<T> = Named(name: string, entry: T)

  predicate Has<T>(es: seq<Named<T>>, n: string) {
    exists i :: 0 <= i < |es| && es[i].name == n
  }

  ghost predicate Unique<T>(es: seq<Named<T>>) {
    forall i, j :: 0 <= i < j < |es| ==> es[i].name != es[j].name
  }

  /** The name-to-entry view of a list. */
  ghost function View<T>(es: seq<Named<T>>): map<string, T> {
    if es == [] then map[]
    else View(es[..|es| - 1])[es[|es| - 1].name := es[|es| - 1].entry]
  }

  lemma {:induction false} ViewKeys<T>(es: seq<Named<T>>, n: string)
    ensures n in View(es) <==> Has(es, n)
  {
    if es != [] {
      var front := es[..|es| - 1];
      ViewKeys(front, n);
      if Has(front, n) { var i :| 0 <= i < |front| && front[i].name == n; assert es[i].name == n; }
      if Has(es, n) && es[|es| - 1].name != n {
        var i :| 0 <= i < |es| && es[i].name == n;
        assert front[i].name == n;
      }
    }
  }

  /** In a list without repeated names the view holds exactly the listed pairs. */
  lemma {:induction false} ViewAt<T>(es: seq<Named<T>>, i: nat)
    requires Unique(es) && i < |es|
    ensures es[i].name in View(es) && View(es)[es[i].name] == es[i].entry
  {
    if i < |es| - 1 {
      assert es[..|es| - 1][i] == es[i];
      ViewAt(es[..|es| - 1], i);
    }
  }

  lemma {:induction false} ViewSource<T>(es: seq<Named<T>>, n: string)
    requires n in View(es)
    ensures Named(n, View(es)[n]) in es
  {
    if n != es[|es| - 1].name {
      ViewSource(es[..|es| - 1], n);
    } else {
      assert es[|es| - 1] == Named(n, View(es)[n]);
    }
  }

  /** Array.prototype.findIndex on the name. */
  function FindIndex<T>(es: seq<Named<T>>, n: string): (i: int)
    ensures -1 <= i < |es|
    ensures i >= 0 ==> es[i].name == n
    ensures i < 0 <==> !Has(es, n)
  {
    if es == [] then -1
    else
      var last := |es| - 1;
      var i := FindIndex(es[..last], n);
      assert forall j :: 0 <= j < last ==> es[..last][j] == es[j];
      if i >= 0 then i else if es[last].name == n then last else -1
  }

  lemma {:induction false} FindIndexIsFirst<T>(es: seq<Named<T>>, n: string, j: nat)
    requires j < FindIndex(es, n)
    ensures es[j].name != n
  {
    var last := |es| - 1;
    if FindIndex(es[..last], n) >= 0 { FindIndexIsFirst(es[..last], n, j); }
    if FindIndex(es[..last], n) < 0 { assert es[..last][j] == es[j] && !Has(es[..last], n); }
  }

  /** `existing[idx] = entry` when the name is taken, `existing.push(entry)` otherwise. */
  function Put<T>(es: seq<Named<T>>, e: Named<T>): seq<Named<T>> {
    var i := FindIndex(es, e.name);
    if i >= 0 then es[i := e] else es + [e]
  }

  function PutAll<T>(es: seq<Named<T>>, news: seq<Named<T>>): seq<Named<T>> {
    if news == [] then es else Put(PutAll(es, news[..|news| - 1]), news[|news| - 1])
  }

  /** Push the entry unless its name is already there. */
  function Adopt<T>(es: seq<Named<T>>, e: Named<T>): seq<Named<T>> {
    if FindIndex(es, e.name) >= 0 then es else es + [e]
  }

  function AdoptAll<T>(es: seq<Named<T>>, more: seq<Named<T>>): seq<Named<T>> {
    if more == [] then es else Adopt(AdoptAll(es, more[..|more| - 1]), more[|more| - 1])
  }

  lemma AppendView<T>(es: seq<Named<T>>, e: Named<T>)
    ensures View(es + [e]) == View(es)[e.name := e.entry]
    ensures Unique(es) && !Has(es, e.name) ==> Unique(es + [e])
  {
    assert (es + [e])[..|es|] == es;
  }

  lemma {:induction false} ReplaceView<T>(es: seq<Named<T>>, k: nat, e: Named<T>)
    requires Unique(es) && k < |es| && es[k].name == e.name
    ensures Unique(es[k := e])
    ensures View(es[k := e]) == View(es)[e.name := e.entry]
  {
    var last := |es| - 1;
    if k < last {
      ReplaceView(es[..last], k, e);
      assert es[k := e][..last] == es[..last][k := e];
    } else {
      assert es[k := e][..last] == es[..last];
    }
  }

  lemma PutView<T>(es: seq<Named<T>>, e: Named<T>)
    requires Unique(es)
    ensures Unique(Put(es, e))
    ensures View(Put(es, e)) == View(es)[e.name := e.entry]
  {
    var k := FindIndex(es, e.name);
    if k < 0 { AppendView(es, e); } else { ReplaceView(es, k, e); }
  }

  lemma UnionUpdate<T>(a: map<string, T>, b: map<string, T>, k: string, v: T)
    ensures a + b[k := v] == (a + b)[k := v]
    ensures k in a ==> b[k := v] + a == b + a
    ensures k !in a ==> b[k := v] + a == (b + a)[k := v]
  {
  }

  /** What stands left of a union that covers its names does not matter. */
  lemma UnionShadow<T>(d: map<string, T>, x: map<string, T>, a: map<string, T>)
    requires d.Keys <= a.Keys
    ensures (d + x) + a == x + a
  {
  }

  lemma UnionCongruence<T>(d: map<string, T>, x: map<string, T>, y: map<string, T>, a: map<string, T>)
    requires x + a == y + a
    ensures (d + x) + a == (d + y) + a
  {
    UnionAssoc(d, x, a);
    UnionAssoc(d, y, a);
  }

  lemma UnionAssoc<T>(a: map<string, T>, b: map<string, T>, c: map<string, T>)
    ensures a + (b + c) == (a + b) + c
  {
  }

  /** Merging a list is right-biased union of views, and names stay unique. */
  lemma {:induction false} PutAllView<T>(es: seq<Named<T>>, news: seq<Named<T>>)
    requires Unique(es)
    ensures Unique(PutAll(es, news))
    ensures View(PutAll(es, news)) == View(es) + View(news)
  {
    if news != [] {
      var front, last := news[..|news| - 1], news[|news| - 1];
      PutAllView(es, front);
      PutView(PutAll(es, front), last);
      UnionUpdate(View(es), View(front), last.name, last.entry);
    } else {
      assert View(es) + View(news) == View(es);
    }
  }

  /** The search-path union is left-biased: earlier lists win. */
  lemma {:induction false} AdoptAllView<T>(es: seq<Named<T>>, more: seq<Named<T>>)
    requires Unique(es) && Unique(more)
    ensures Unique(AdoptAll(es, more))
    ensures View(AdoptAll(es, more)) == View(more) + View(es)
  {
    if more != [] {
      var front, last := more[..|more| - 1], more[|more| - 1];
      AdoptAllView(es, front);
      var sofar := AdoptAll(es, front);
      ViewKeys(sofar, last.name);
      ViewKeys(front, last.name);
      assert !Has(front, last.name) by {
        forall i | 0 <= i < |front| ensures front[i].name != last.name { assert front[i] == more[i]; }
      }
      AppendView(sofar, last);
      UnionUpdate(View(es), View(front), last.name, last.entry);
    } else {
      assert View(more) + View(es) == View(es);
    }
  }

  /**
   One turn of a merge loop: looking up the next name finds the original entry or nothing, and
   putting the new entry there is the next stage of PutAll.
   */
  lemma MergeStep<T>(es: seq<Named<T>>, news: seq<Named<T>>, k: nat, so: seq<Named<T>>, i: int)
    requires Unique(es) && Unique(news) && k < |news|
    requires so == PutAll(es, news[..k]) && i == FindIndex(so, news[k].name)
    ensures i >= 0 <==> news[k].name in View(es)
    ensures i >= 0 ==> so[i].entry == View(es)[news[k].name]
    ensures PutAll(es, news[..k + 1]) == Put(so, news[k])
  {
    var n := news[k].name;
    PutAllView(es, news[..k]);
    ViewKeys(so, n);
    ViewKeys(news[..k], n);
    assert !Has(news[..k], n);
    if i >= 0 { ViewAt(so, i); }
    PutAllStep(es, news, k);
  }

  lemma PutAllStep<T>(es: seq<Named<T>>, news: seq<Named<T>>, k: nat)
    requires k < |news|
    ensures PutAll(es, news[..k + 1]) == Put(PutAll(es, news[..k]), news[k])
    ensures AdoptAll(es, news[..k + 1]) == Adopt(AdoptAll(es, news[..k]), news[k])
  {
    assert news[..k + 1][..k] == news[..k];
  }

  /** Putting entries that are already there, unchanged, changes nothing. */
  lemma {:induction false} PutAllAbsorbed<T>(es: seq<Named<T>>, news: seq<Named<T>>)
    requires Unique(es)
    requires forall i :: 0 <= i < |news| ==> news[i] in es
    ensures PutAll(es, news) == es
  {
    if news != [] {
      PutAllAbsorbed(es, news[..|news| - 1]);
      var last := news[|news| - 1];
      var j :| 0 <= j < |es| && es[j] == last;
      var k := FindIndex(es, last.name);
      assert es[k].name == es[j].name;
    }
  }
}
