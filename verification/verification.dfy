/** The final check: for crate types that are linked, every weak item some
    upstream crate left missing, that the target requires and that is still
    undefined, gets a diagnostic, in the order of the sorted weak-item table. */
module Verification {
  import opened LangItems
  import opened WeakItems
  import opened Session
  import SymbolOrder

  /** Some requested crate type is linked now, so the check must run. */
  predicate NeedsCheck(kinds: seq<CrateType>) {
    exists k | k in kinds :: k.IsLinked()
  }

  /** The union, as a set, of the missing lists of every upstream crate. */
  function AggregateMissing(lists: seq<seq<LangItem>>): (s: set<LangItem>)
    ensures forall it :: it in s <==> exists i | 0 <= i < |lists| :: it in lists[i]
    decreases |lists|
  {
    if |lists| == 0 then {}
    else
      var init := lists[..|lists| - 1];
      assert forall i | 0 <= i < |lists| - 1 :: lists[i] == init[i];
      var last := lists[|lists| - 1];
      AggregateMissing(init) + (set i | 0 <= i < |last| :: last[i])
  }

  /** An item with neither a panic-handler nor an OOM-specific diagnostic. */
  predicate Generic(it: LangItem) {
    it != PanicImpl && it != Oom
  }

  /** `it` was left missing upstream, is required, and is undefined in the
      crate's registry. */
  predicate Unresolved(sess: Session, missing: set<LangItem>, items: LanguageItems, it: LangItem) {
    it in missing && it in sess.required && items.Require(it).Err?
  }

  /** `Unresolved` against the union of the upstream missing lists. */
  predicate UnresolvedAtLink(sess: Session, items: LanguageItems, it: LangItem) {
    Unresolved(sess, AggregateMissing(sess.upstreamMissing), items, it)
  }

  /** The diagnostics for one entry of the sorted table. */
  function DiagnoseEntry(sess: Session, missing: set<LangItem>, items: LanguageItems, e: Entry): (r: seq<Diag>) {
    var (name, item) := e;
    if Unresolved(sess, missing, items, item) then
      if item == PanicImpl then [PanicHandlerRequired]
      else if item == Oom then
        if !sess.defaultAllocErrorHandler then [AllocErrorHandlerRequired, DefaultAllocErrorHandlerNote]
        else []
      else [LangItemRequired(name)]
    else []
  }

  /** The diagnostic loop over the sorted table entries. */
  function VerifyLoop(sess: Session, missing: set<LangItem>, items: LanguageItems, sorted: seq<Entry>): (r: seq<Diag>)
    ensures forall d :: d in r <==>
              exists i | 0 <= i < |sorted| :: d in DiagnoseEntry(sess, missing, items, sorted[i])
    decreases |sorted|
  {
    if |sorted| == 0 then []
    else
      var head := DiagnoseEntry(sess, missing, items, sorted[0]);
      var rest := VerifyLoop(sess, missing, items, sorted[1..]);
      assert forall i | 1 <= i < |sorted| :: sorted[i] == sorted[1..][i - 1];
      head + rest
  }

  /** The OOM error and its note always come as an adjacent pair, error first. */
  predicate OomNotePaired(r: seq<Diag>) {
    && (forall i | 0 <= i < |r| && r[i] == DefaultAllocErrorHandlerNote ::
          i > 0 && r[i - 1] == AllocErrorHandlerRequired)
    && (forall i | 0 <= i < |r| && r[i] == AllocErrorHandlerRequired ::
          i + 1 < |r| && r[i + 1] == DefaultAllocErrorHandlerNote)
  }

  /** The loop emits the OOM error and its note as an adjacent pair. */
  lemma {:induction false} VerifyLoopOomPaired(sess: Session, missing: set<LangItem>, items: LanguageItems, sorted: seq<Entry>)
    ensures OomNotePaired(VerifyLoop(sess, missing, items, sorted))
    decreases |sorted|
  {
    if |sorted| > 0 {
      var head := DiagnoseEntry(sess, missing, items, sorted[0]);
      var rest := VerifyLoop(sess, missing, items, sorted[1..]);
      VerifyLoopOomPaired(sess, missing, items, sorted[1..]);
      assert VerifyLoop(sess, missing, items, sorted) == head + rest;
      assert OomNotePaired(head);
      PairedAppend(head, rest);
    }
  }

  /** Pairing is kept by concatenation. */
  lemma PairedAppend(a: seq<Diag>, b: seq<Diag>)
    requires OomNotePaired(a) && OomNotePaired(b)
    ensures OomNotePaired(a + b)
  {
    var r := a + b;
    forall i | 0 <= i < |r| && r[i] == DefaultAllocErrorHandlerNote
      ensures i > 0 && r[i - 1] == AllocErrorHandlerRequired
    {
      if i >= |a| {
        assert r[i] == b[i - |a|];
      } else {
        assert r[i] == a[i];
      }
    }
    forall i | 0 <= i < |r| && r[i] == AllocErrorHandlerRequired
      ensures i + 1 < |r| && r[i + 1] == DefaultAllocErrorHandlerNote
    {
      if i >= |a| {
        assert r[i] == b[i - |a|];
        assert r[i + 1] == b[i + 1 - |a|];
      } else {
        assert r[i] == a[i];
      }
    }
  }

  /** With the pairing kept, a nonempty output starts with an error: the
      note is never emitted on its own. */
  lemma PairedStartsWithError(r: seq<Diag>)
    requires OomNotePaired(r)
    ensures r != [] ==> r[0].IsError()
    ensures forall i | 0 <= i < |r| && !r[i].IsError() :: i > 0 && r[i - 1].IsError()
  {
  }

  /** The number of entries whose item is `it`. */
  function ItemCount(sorted: seq<Entry>, it: LangItem): (c: nat)
    ensures c <= |sorted|
    ensures c == 0 <==> forall i | 0 <= i < |sorted| :: sorted[i].1 != it
    decreases |sorted|
  {
    if |sorted| == 0 then 0
    else
      assert forall i | 1 <= i < |sorted| :: sorted[i] == sorted[1..][i - 1];
      (if sorted[0].1 == it then 1 else 0) + ItemCount(sorted[1..], it)
  }

  /** Each unresolved entry of the panic handler yields one panic-handler
      error, and each unresolved entry of the OOM handler one error and one
      note while the feature is off; nothing else yields them. */
  lemma {:induction false} VerifyLoopHookCounts(sess: Session, missing: set<LangItem>, items: LanguageItems, sorted: seq<Entry>)
    ensures var r := VerifyLoop(sess, missing, items, sorted);
      && multiset(r)[PanicHandlerRequired]
         == (if Unresolved(sess, missing, items, PanicImpl) then ItemCount(sorted, PanicImpl) else 0)
      && multiset(r)[AllocErrorHandlerRequired]
         == (if Unresolved(sess, missing, items, Oom) && !sess.defaultAllocErrorHandler
             then ItemCount(sorted, Oom) else 0)
      && multiset(r)[DefaultAllocErrorHandlerNote] == multiset(r)[AllocErrorHandlerRequired]
    decreases |sorted|
  {
    if |sorted| > 0 {
      var head := DiagnoseEntry(sess, missing, items, sorted[0]);
      var rest := VerifyLoop(sess, missing, items, sorted[1..]);
      VerifyLoopHookCounts(sess, missing, items, sorted[1..]);
      assert VerifyLoop(sess, missing, items, sorted) == head + rest;
      assert multiset(head + rest) == multiset(head) + multiset(rest);
      EntryHookCounts(sess, missing, items, sorted[0]);
      assert ItemCount(sorted, PanicImpl) == (if sorted[0].1 == PanicImpl then 1 else 0) + ItemCount(sorted[1..], PanicImpl);
      assert ItemCount(sorted, Oom) == (if sorted[0].1 == Oom then 1 else 0) + ItemCount(sorted[1..], Oom);
    }
  }

  /** How many hook-specific diagnostics one entry yields. */
  lemma EntryHookCounts(sess: Session, missing: set<LangItem>, items: LanguageItems, e: Entry)
    ensures var h := multiset(DiagnoseEntry(sess, missing, items, e));
      && h[PanicHandlerRequired] == (if e.1 == PanicImpl && Unresolved(sess, missing, items, PanicImpl) then 1 else 0)
      && h[AllocErrorHandlerRequired]
         == (if e.1 == Oom && Unresolved(sess, missing, items, Oom) && !sess.defaultAllocErrorHandler then 1 else 0)
      && h[DefaultAllocErrorHandlerNote] == h[AllocErrorHandlerRequired]
  {
  }

  /** When no two entries share item `it`, it is counted at most once. */
  lemma {:induction false} ItemCountAtMostOne(sorted: seq<Entry>, it: LangItem)
    requires forall i, j | 0 <= i < j < |sorted| :: sorted[i].1 == it ==> sorted[j].1 != it
    ensures ItemCount(sorted, it) <= 1
    decreases |sorted|
  {
    if |sorted| > 0 {
      assert forall i | 1 <= i < |sorted| :: sorted[i] == sorted[1..][i - 1];
      ItemCountAtMostOne(sorted[1..], it);
    }
  }

  /** Which diagnostics the loop emits, per kind: the generic error names
      exactly the table names of unresolved items other than the panic
      handler and the OOM handler; the panic-handler error appears exactly
      when that item is unresolved; the OOM error and its note appear
      exactly when that item is unresolved and the default handler feature
      is off; and the loop never emits E0264. */
  lemma VerifyLoopDiagnoses(sess: Session, missing: set<LangItem>, items: LanguageItems, sorted: seq<Entry>)
    ensures var r := VerifyLoop(sess, missing, items, sorted);
      && (forall d | d in r :: !d.UnknownExternalLangItem?)
      && (forall n :: LangItemRequired(n) in r <==>
            exists i | 0 <= i < |sorted| ::
              sorted[i].0 == n && Generic(sorted[i].1) && Unresolved(sess, missing, items, sorted[i].1))
      && (PanicHandlerRequired in r <==>
            Unresolved(sess, missing, items, PanicImpl) && exists i | 0 <= i < |sorted| :: sorted[i].1 == PanicImpl)
      && (AllocErrorHandlerRequired in r <==>
            && !sess.defaultAllocErrorHandler
            && Unresolved(sess, missing, items, Oom)
            && exists i | 0 <= i < |sorted| :: sorted[i].1 == Oom)
      && (DefaultAllocErrorHandlerNote in r <==> AllocErrorHandlerRequired in r)
  {
    var r := VerifyLoop(sess, missing, items, sorted);
    forall d | d in r
      ensures !d.UnknownExternalLangItem?
    {
      var i :| 0 <= i < |sorted| && d in DiagnoseEntry(sess, missing, items, sorted[i]);
      EntryDiagnoses(sess, missing, items, sorted[i], d);
    }
    forall n
      ensures LangItemRequired(n) in r <==>
                exists i | 0 <= i < |sorted| ::
                  sorted[i].0 == n && Generic(sorted[i].1) && Unresolved(sess, missing, items, sorted[i].1)
    {
      if LangItemRequired(n) in r {
        var i :| 0 <= i < |sorted| && LangItemRequired(n) in DiagnoseEntry(sess, missing, items, sorted[i]);
        EntryDiagnoses(sess, missing, items, sorted[i], LangItemRequired(n));
      }
      if exists i | 0 <= i < |sorted| ::
           sorted[i].0 == n && Generic(sorted[i].1) && Unresolved(sess, missing, items, sorted[i].1) {
        var i :| 0 <= i < |sorted| &&
                 sorted[i].0 == n && Generic(sorted[i].1) && Unresolved(sess, missing, items, sorted[i].1);
        EntryDiagnoses(sess, missing, items, sorted[i], LangItemRequired(n));
      }
    }
    KindDiagnosed(sess, missing, items, sorted, PanicImpl, PanicHandlerRequired);
    KindDiagnosed(sess, missing, items, sorted, Oom, AllocErrorHandlerRequired);
    KindDiagnosed(sess, missing, items, sorted, Oom, DefaultAllocErrorHandlerNote);
  }

  /** The diagnostics one entry yields, by the kind of its item: none when
      it is resolved, the OOM error and note as one pair, one otherwise. */
  lemma EntryDiagnoses(sess: Session, missing: set<LangItem>, items: LanguageItems, e: Entry, d: Diag)
    ensures |DiagnoseEntry(sess, missing, items, e)|
            == if !Unresolved(sess, missing, items, e.1) then 0
               else if e.1 == Oom then (if sess.defaultAllocErrorHandler then 0 else 2)
               else 1
    ensures d in DiagnoseEntry(sess, missing, items, e) <==>
              && Unresolved(sess, missing, items, e.1)
              && (|| (e.1 == PanicImpl && d == PanicHandlerRequired)
                  || (e.1 == Oom && !sess.defaultAllocErrorHandler
                      && (d == AllocErrorHandlerRequired || d == DefaultAllocErrorHandlerNote))
                  || (Generic(e.1) && d == LangItemRequired(e.0)))
  {
  }

  /** A hook-specific diagnostic `d` of item `it` is emitted iff some entry
      maps to `it` and yields `d`. */
  lemma KindDiagnosed(sess: Session, missing: set<LangItem>, items: LanguageItems, sorted: seq<Entry>, it: LangItem, d: Diag)
    requires (it == PanicImpl && d == PanicHandlerRequired)
          || (it == Oom && (d == AllocErrorHandlerRequired || d == DefaultAllocErrorHandlerNote))
    ensures d in VerifyLoop(sess, missing, items, sorted) <==>
              && (it == Oom ==> !sess.defaultAllocErrorHandler)
              && Unresolved(sess, missing, items, it)
              && exists i | 0 <= i < |sorted| :: sorted[i].1 == it
  {
    if d in VerifyLoop(sess, missing, items, sorted) {
      var i :| 0 <= i < |sorted| && d in DiagnoseEntry(sess, missing, items, sorted[i]);
      EntryDiagnoses(sess, missing, items, sorted[i], d);
    }
    if && (it == Oom ==> !sess.defaultAllocErrorHandler)
       && Unresolved(sess, missing, items, it)
       && exists i | 0 <= i < |sorted| :: sorted[i].1 == it {
      var i :| 0 <= i < |sorted| && sorted[i].1 == it;
      EntryDiagnoses(sess, missing, items, sorted[i], d);
    }
  }

  /** The check as a whole, given the table's sorted vector. */
  function VerifySorted(sess: Session, sorted: seq<Entry>, items: LanguageItems): (r: seq<Diag>)
    ensures !NeedsCheck(sess.crateTypes) ==> r == []
  {
    if !NeedsCheck(sess.crateTypes) then []
    else VerifyLoop(sess, AggregateMissing(sess.upstreamMissing), items, sorted)
  }

  /** The loop is a fold: the diagnostics of a concatenation of entries are
      those of the first part followed by those of the second. */
  lemma {:induction false} VerifyLoopAppend(sess: Session, missing: set<LangItem>, items: LanguageItems, a: seq<Entry>, b: seq<Entry>)
    ensures VerifyLoop(sess, missing, items, a + b)
            == VerifyLoop(sess, missing, items, a) + VerifyLoop(sess, missing, items, b)
    decreases |a|
  {
    if |a| == 0 {
      assert a + b == b;
    } else {
      assert (a + b)[0] == a[0];
      assert (a + b)[1..] == a[1..] + b;
      VerifyLoopAppend(sess, missing, items, a[1..], b);
    }
  }

  /** Over a strictly sorted vector, the generic errors name their items in
      strictly ascending order, so no name is reported twice. */
  lemma {:induction false} VerifyLoopNamesAscending(sess: Session, missing: set<LangItem>, items: LanguageItems, sorted: seq<Entry>)
    requires StrictlySorted(sorted)
    ensures GenericNamesAscending(VerifyLoop(sess, missing, items, sorted))
    decreases |sorted|
  {
    if |sorted| > 0 {
      var r := VerifyLoop(sess, missing, items, sorted);
      var head := DiagnoseEntry(sess, missing, items, sorted[0]);
      var rest := VerifyLoop(sess, missing, items, sorted[1..]);
      assert r == head + rest;
      VerifyLoopNamesAscending(sess, missing, items, sorted[1..]);
      forall i, j | 0 <= i < j < |r| && r[i].LangItemRequired? && r[j].LangItemRequired?
        ensures SymbolOrder.Less(r[i].name, r[j].name)
      {
        if i >= |head| {
          assert r[i] == rest[i - |head|] && r[j] == rest[j - |head|];
          assert GenericNamesAscending(rest);
        } else {
          assert r[i] == head[i];
          GenericNamesEntry(sess, missing, items, sorted[0], r[i]);
          assert r[j] == rest[j - |head|];
          assert r[j] in rest;
          var k :| 0 <= k < |sorted[1..]| && r[j] in DiagnoseEntry(sess, missing, items, sorted[1..][k]);
          assert sorted[1..][k] == sorted[k + 1];
          GenericNamesEntry(sess, missing, items, sorted[k + 1], r[j]);
          assert SymbolOrder.Less(sorted[0].0, sorted[k + 1].0);
        }
      }
    }
  }

  /** The generic errors of `r` name strictly ascending table keys. */
  predicate GenericNamesAscending(r: seq<Diag>) {
    forall i, j | 0 <= i < j < |r| && r[i].LangItemRequired? && r[j].LangItemRequired? ::
      SymbolOrder.Less(r[i].name, r[j].name)
  }

  /** A generic error names the table entry it comes from and is the only
      diagnostic of that entry. */
  lemma GenericNamesEntry(sess: Session, missing: set<LangItem>, items: LanguageItems, e: Entry, d: Diag)
    requires d in DiagnoseEntry(sess, missing, items, e) && d.LangItemRequired?
    ensures d.name == e.0 && DiagnoseEntry(sess, missing, items, e) == [d]
  {
  }

  /** Entries none of which is unresolved produce no diagnostics. */
  lemma {:induction false} QuietEntriesEmitNothing(sess: Session, missing: set<LangItem>, items: LanguageItems, sorted: seq<Entry>)
    requires forall k | 0 <= k < |sorted| :: !Unresolved(sess, missing, items, sorted[k].1)
    ensures VerifyLoop(sess, missing, items, sorted) == []
    decreases |sorted|
  {
    if |sorted| > 0 {
      assert forall k | 0 <= k < |sorted[1..]| :: sorted[1..][k] == sorted[k + 1];
      QuietEntriesEmitNothing(sess, missing, items, sorted[1..]);
    }
  }

  /** The loop reads only the crate's registry of definitions (which also
      holds its dependencies' definitions), never the local crate's own
      `missing` list. */
  lemma {:induction false} VerifyLoopIgnoresLocalMissing(sess: Session, missing: set<LangItem>, items: LanguageItems, local: seq<LangItem>, sorted: seq<Entry>)
    ensures VerifyLoop(sess, missing, items, sorted) == VerifyLoop(sess, missing, items.(missing := local), sorted)
    decreases |sorted|
  {
    if |sorted| > 0 {
      VerifyLoopIgnoresLocalMissing(sess, missing, items, local, sorted[1..]);
      assert items.Require(sorted[0].1).Err? == items.(missing := local).Require(sorted[0].1).Err?;
    }
  }

  /** The union does not depend on the order of the crates. */
  lemma AggregateOrderIndependent(a: seq<seq<LangItem>>, b: seq<seq<LangItem>>)
    requires multiset(a) == multiset(b)
    ensures AggregateMissing(a) == AggregateMissing(b)
  {
    forall it | it in AggregateMissing(a)
      ensures it in AggregateMissing(b)
    {
      var i :| 0 <= i < |a| && it in a[i];
      assert a[i] in multiset(b);
    }
    forall it | it in AggregateMissing(b)
      ensures it in AggregateMissing(a)
    {
      var i :| 0 <= i < |b| && it in b[i];
      assert b[i] in multiset(a);
    }
  }

  /** Listing every crate twice changes nothing. */
  lemma AggregateIdempotent(a: seq<seq<LangItem>>)
    ensures AggregateMissing(a + a) == AggregateMissing(a)
  {
    forall it | it in AggregateMissing(a + a)
      ensures it in AggregateMissing(a)
    {
      var i :| 0 <= i < |a + a| && it in (a + a)[i];
      if i >= |a| {
        assert (a + a)[i] == a[i - |a|];
      }
    }
    forall it | it in AggregateMissing(a)
      ensures it in AggregateMissing(a + a)
    {
      var i :| 0 <= i < |a| && it in a[i];
      assert (a + a)[i] == a[i];
    }
  }

  /** When every requested crate type is an rlib, including when none is
      requested, nothing is reported. */
  lemma RlibOnlyEmitsNothing(sess: Session, sorted: seq<Entry>, items: LanguageItems)
    requires forall k | k in sess.crateTypes :: k == Rlib
    ensures VerifySorted(sess, sorted, items) == []
  {
  }

  /** Any linked crate type makes the check run, even alongside an rlib. */
  lemma LinkedKindRunsCheck(sess: Session, sorted: seq<Entry>, items: LanguageItems, k: CrateType)
    requires k in sess.crateTypes && k != Rlib
    ensures VerifySorted(sess, sorted, items)
            == VerifyLoop(sess, AggregateMissing(sess.upstreamMissing), items, sorted)
  {
  }

  /** When every required item is defined in the crate's registry, which
      also holds its dependencies' definitions, or is left missing by no
      upstream crate, nothing is reported. */
  lemma ResolvedEmitsNothing(sess: Session, sorted: seq<Entry>, items: LanguageItems)
    requires forall it | it in sess.required ::
               it in items.defs || forall i | 0 <= i < |sess.upstreamMissing| :: it !in sess.upstreamMissing[i]
    ensures VerifySorted(sess, sorted, items) == []
  {
    var missing := AggregateMissing(sess.upstreamMissing);
    forall k | 0 <= k < |sorted|
      ensures !Unresolved(sess, missing, items, sorted[k].1)
    {
    }
    QuietEntriesEmitNothing(sess, missing, items, sorted);
  }

  /** The verdict depends neither on the order of the upstream crates nor on
      the local crate's own `missing` list. */
  lemma VerifyIndependentOfOrder(sess: Session, upstream: seq<seq<LangItem>>, local: seq<LangItem>, sorted: seq<Entry>, items: LanguageItems)
    requires multiset(upstream) == multiset(sess.upstreamMissing)
    ensures VerifySorted(sess, sorted, items)
            == VerifySorted(sess.(upstreamMissing := upstream), sorted, items.(missing := local))
  {
    AggregateOrderIndependent(upstream, sess.upstreamMissing);
    VerifyLoopIgnoresLocalMissing(sess, AggregateMissing(sess.upstreamMissing), items, local, sorted);
    VerifyLoopSameRequirements(sess, sess.(upstreamMissing := upstream), AggregateMissing(upstream), items.(missing := local), sorted);
  }

  /** The loop reads only the session's requirements and feature flag. */
  lemma {:induction false} VerifyLoopSameRequirements(s1: Session, s2: Session, missing: set<LangItem>, items: LanguageItems, sorted: seq<Entry>)
    requires s1.required == s2.required && s1.defaultAllocErrorHandler == s2.defaultAllocErrorHandler
    ensures VerifyLoop(s1, missing, items, sorted) == VerifyLoop(s2, missing, items, sorted)
    decreases |sorted|
  {
    if |sorted| > 0 {
      VerifyLoopSameRequirements(s1, s2, missing, items, sorted[1..]);
      assert DiagnoseEntry(s1, missing, items, sorted[0]) == DiagnoseEntry(s2, missing, items, sorted[0]);
    }
  }

  /** No two keys of the table denote the same item. */
  predicate OneKeyPerItem(table: Table) {
    forall n, m | n in table && m in table && n != m :: table[n] != table[m]
  }

  /** In the sorted vector of such a table, no two entries share an item. */
  lemma SortedItemsDistinct(sorted: seq<Entry>, table: Table)
    requires IsSortedVectorOf(sorted, table) && OneKeyPerItem(table)
    ensures forall i, j | 0 <= i < j < |sorted| :: sorted[i].1 != sorted[j].1
  {
    forall i, j | 0 <= i < j < |sorted|
      ensures sorted[i].1 != sorted[j].1
    {
      assert sorted[i] in table.Items && sorted[j] in table.Items;
      SymbolOrder.LessIrreflexive(sorted[i].0);
      assert sorted[i].0 != sorted[j].0;
    }
  }

  /** The loop's diagnostics over a sorted vector, stated in terms of the
      table itself. */
  lemma VerifyLoopOverTable(sess: Session, table: Table, sorted: seq<Entry>, missing: set<LangItem>, items: LanguageItems)
    requires IsSortedVectorOf(sorted, table)
    ensures var r := VerifyLoop(sess, missing, items, sorted);
      && (forall d | d in r :: !d.UnknownExternalLangItem?)
      && (forall n :: LangItemRequired(n) in r <==>
            n in table && Generic(table[n]) && Unresolved(sess, missing, items, table[n]))
      && (PanicHandlerRequired in r <==>
            PanicImpl in table.Values && Unresolved(sess, missing, items, PanicImpl))
      && (AllocErrorHandlerRequired in r <==>
            !sess.defaultAllocErrorHandler && Oom in table.Values && Unresolved(sess, missing, items, Oom))
      && (DefaultAllocErrorHandlerNote in r <==> AllocErrorHandlerRequired in r)
  {
    VerifyLoopDiagnoses(sess, missing, items, sorted);
    forall n
      ensures (exists i | 0 <= i < |sorted| :: sorted[i].0 == n && Generic(sorted[i].1) && Unresolved(sess, missing, items, sorted[i].1))
              <==> n in table && Generic(table[n]) && Unresolved(sess, missing, items, table[n])
    {
      if n in table {
        assert (n, table[n]) in sorted;
      }
      if exists i | 0 <= i < |sorted| :: sorted[i].0 == n && Generic(sorted[i].1) && Unresolved(sess, missing, items, sorted[i].1) {
        var i :| 0 <= i < |sorted| && sorted[i].0 == n && Generic(sorted[i].1) && Unresolved(sess, missing, items, sorted[i].1);
        assert sorted[i] in table.Items;
      }
    }
    forall it
      ensures (exists i | 0 <= i < |sorted| :: sorted[i].1 == it) <==> it in table.Values
    {
      if it in table.Values {
        var n :| n in table && table[n] == it;
        assert (n, it) in sorted;
      }
      if exists i | 0 <= i < |sorted| :: sorted[i].1 == it {
        var i :| 0 <= i < |sorted| && sorted[i].1 == it;
        assert sorted[i] in table.Items;
      }
    }
  }

  /** Over the sorted vector of a table with one key per item, the
      panic-handler error, the OOM error and its note appear at most once. */
  lemma VerifyLoopHooksOnce(sess: Session, table: Table, sorted: seq<Entry>, missing: set<LangItem>, items: LanguageItems)
    requires IsSortedVectorOf(sorted, table) && OneKeyPerItem(table)
    ensures var r := VerifyLoop(sess, missing, items, sorted);
      && multiset(r)[PanicHandlerRequired] <= 1
      && multiset(r)[AllocErrorHandlerRequired] <= 1
      && multiset(r)[DefaultAllocErrorHandlerNote] <= 1
  {
    VerifyLoopHookCounts(sess, missing, items, sorted);
    SortedItemsDistinct(sorted, table);
    ItemCountAtMostOne(sorted, PanicImpl);
    ItemCountAtMostOne(sorted, Oom);
  }

  /** The check over the weak-item table: sorts the table, then diagnoses.
      Its output is the same for every sorted vector of the table, so it
      does not depend on how the table is stored. */
  method Verify(sess: Session, table: Table, items: LanguageItems) returns (diags: seq<Diag>)
    ensures !NeedsCheck(sess.crateTypes) ==> diags == []
    ensures forall d | d in diags :: !d.UnknownExternalLangItem?
    ensures forall d | d in diags :: d.Code().None? && d.Location().None?
    ensures diags != [] ==> diags[0].IsError()
    ensures NeedsCheck(sess.crateTypes) ==>
              forall n :: LangItemRequired(n) in diags <==>
                n in table && Generic(table[n]) && UnresolvedAtLink(sess, items, table[n])
    ensures NeedsCheck(sess.crateTypes) ==>
              (PanicHandlerRequired in diags <==>
                 PanicImpl in table.Values && UnresolvedAtLink(sess, items, PanicImpl))
    ensures NeedsCheck(sess.crateTypes) ==>
              (AllocErrorHandlerRequired in diags <==>
                 !sess.defaultAllocErrorHandler && Oom in table.Values && UnresolvedAtLink(sess, items, Oom))
    ensures DefaultAllocErrorHandlerNote in diags <==> AllocErrorHandlerRequired in diags
    ensures OomNotePaired(diags)
    ensures OneKeyPerItem(table) ==>
              && multiset(diags)[PanicHandlerRequired] <= 1
              && multiset(diags)[AllocErrorHandlerRequired] <= 1
              && multiset(diags)[DefaultAllocErrorHandlerNote] <= 1
    ensures GenericNamesAscending(diags)
    ensures forall es | IsSortedVectorOf(es, table) :: diags == VerifySorted(sess, es, items)
  {
    var sorted := IntoSortedVector(table);
    diags := VerifySorted(sess, sorted, items);
    if NeedsCheck(sess.crateTypes) {
      var missing := AggregateMissing(sess.upstreamMissing);
      VerifyLoopOverTable(sess, table, sorted, missing, items);
      VerifyLoopNamesAscending(sess, missing, items, sorted);
      VerifyLoopOomPaired(sess, missing, items, sorted);
      if OneKeyPerItem(table) {
        VerifyLoopHooksOnce(sess, table, sorted, missing, items);
      }
    }
    forall es | IsSortedVectorOf(es, table)
      ensures diags == VerifySorted(sess, es, items)
    {
      SortedVectorUnique(sorted, es);
    }
    PairedStartsWithError(diags);
  }
}
