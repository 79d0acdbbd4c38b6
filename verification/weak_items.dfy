/** The weak-item table: lang-item name to weak language item, and its
    vector of entries sorted by name. */
module WeakItems {
  import opened LangItems
  import SymbolOrder

  /** One table entry: the lang-item name and the item it denotes. */
  type Entry = (string, LangItem)

  type Table = map<string, LangItem>

  /** Names strictly ascending, so in particular pairwise distinct. */
  predicate StrictlySorted(es: seq<Entry>) {
    forall i, j | 0 <= i < j < |es| :: SymbolOrder.Less(es[i].0, es[j].0)
  }

  /** `es` lists exactly the entries of `table`, sorted by name. */
  ghost predicate IsSortedVectorOf(es: seq<Entry>, table: Table) {
    && StrictlySorted(es)
    && forall e :: e in es <==> e in table.Items
  }

  /** Inserts an entry whose name is not yet present into a sorted vector. */
  function Insert(es: seq<Entry>, e: Entry): (r: seq<Entry>)
    ensures multiset(r) == multiset(es) + multiset{e}
    ensures StrictlySorted(es) && (forall x | x in es :: x.0 != e.0) ==> StrictlySorted(r)
    decreases |es|
  {
    if |es| == 0 then [e]
    else if SymbolOrder.Less(e.0, es[0].0) then
      InsertFrontSorted(es, e);
      [e] + es
    else
      var rest := Insert(es[1..], e);
      assert es == [es[0]] + es[1..];
      InsertConsSorted(es, e, rest);
      [es[0]] + rest
  }

  lemma InsertFrontSorted(es: seq<Entry>, e: Entry)
    requires |es| > 0 && SymbolOrder.Less(e.0, es[0].0)
    ensures StrictlySorted(es) ==> StrictlySorted([e] + es)
  {
    if StrictlySorted(es) {
      forall i, j | 0 <= i < j < |[e] + es|
        ensures SymbolOrder.Less(([e] + es)[i].0, ([e] + es)[j].0)
      {
        if i == 0 && j > 1 {
          SymbolOrder.LessTransitive(e.0, es[0].0, es[j - 1].0);
        }
      }
    }
  }

  lemma InsertConsSorted(es: seq<Entry>, e: Entry, rest: seq<Entry>)
    requires |es| > 0 && !SymbolOrder.Less(e.0, es[0].0)
    requires multiset(rest) == multiset(es[1..]) + multiset{e}
    requires StrictlySorted(es) && (forall x | x in es :: x.0 != e.0) ==> StrictlySorted(rest)
    ensures StrictlySorted(es) && (forall x | x in es :: x.0 != e.0) ==> StrictlySorted([es[0]] + rest)
  {
    if StrictlySorted(es) && (forall x | x in es :: x.0 != e.0) {
      SymbolOrder.LessTotal(e.0, es[0].0);
      forall k | 0 <= k < |rest|
        ensures SymbolOrder.Less(es[0].0, rest[k].0)
      {
        assert rest[k] in multiset(rest);
        if rest[k] != e {
          assert rest[k] in multiset(es[1..]);
          var m :| 0 <= m < |es[1..]| && es[1..][m] == rest[k];
          assert es[m + 1] == rest[k];
        }
      }
    }
  }

  /** Builds the sorted vector of a table: every entry is taken out of the
      table in some order and inserted at its place by name. */
  method IntoSortedVector(table: Table) returns (es: seq<Entry>)
    ensures IsSortedVectorOf(es, table)
  {
    es := [];
    var rest := table.Keys;
    while rest != {}
      invariant rest <= table.Keys
      invariant StrictlySorted(es)
      invariant forall e :: e in es <==> e in table.Items && e.0 !in rest
      decreases rest
    {
      var n :| n in rest;
      var e := (n, table[n]);
      assert e in table.Items;
      forall x | x in es
        ensures x.0 != e.0
      {
      }
      var es' := Insert(es, e);
      forall x
        ensures x in es' <==> x in es || x == e
      {
        assert x in es' <==> x in multiset(es');
        assert x in es <==> x in multiset(es);
      }
      forall x | x in table.Items && x.0 == n
        ensures x == e
      {
      }
      es := es';
      rest := rest - {n};
    }
  }

  /** A strictly sorted vector is determined by its set of entries. */
  lemma {:induction false} SortedVectorUnique(a: seq<Entry>, b: seq<Entry>)
    requires StrictlySorted(a) && StrictlySorted(b)
    requires forall e :: e in a <==> e in b
    ensures a == b
    decreases |a|
  {
    assert |a| > 0 ==> a[0] in a;
    assert |b| > 0 ==> b[0] in b;
    if |a| > 0 && |b| > 0 {
      assert a[0] == b[0] by {
        assert a[0] in b && b[0] in a;
        var i :| 0 <= i < |b| && b[i] == a[0];
        var j :| 0 <= j < |a| && a[j] == b[0];
        if i > 0 {
          assert SymbolOrder.Less(b[0].0, a[0].0);
          if j == 0 {
            SymbolOrder.LessIrreflexive(a[0].0);
          } else {
            SymbolOrder.LessAsymmetric(b[0].0, a[0].0);
          }
        }
      }
      forall e
        ensures e in a[1..] <==> e in b[1..]
      {
        SortedTail(a, e);
        SortedTail(b, e);
      }
      SortedVectorUnique(a[1..], b[1..]);
      assert a == [a[0]] + a[1..] && b == [b[0]] + b[1..];
    }
  }

  /** The tail of a strictly sorted vector holds every entry but the head. */
  lemma SortedTail(a: seq<Entry>, e: Entry)
    requires StrictlySorted(a) && |a| > 0
    ensures e in a[1..] <==> e in a && e != a[0]
  {
    if e in a[1..] {
      var k :| 0 <= k < |a[1..]| && a[1..][k] == e;
      assert SymbolOrder.Less(a[0].0, a[k + 1].0);
      SymbolOrder.LessIrreflexive(a[0].0);
    }
    if e in a && e != a[0] {
      var k :| 0 <= k < |a| && a[k] == e;
      assert a[1..][k - 1] == e;
    }
  }
}
