/** The pass's entry point: pre-seed, scan, then verify. */
module WeakLangItems {
  import opened LangItems
  import opened WeakItems
  import opened Session
  import opened Scan
  import opened Verification

  /** Checks one crate. Returns the crate's registry, whose `missing` list
      the crate exports to its dependents, and every diagnostic: first the
      E0264 errors of the scan in declaration order, then those of the
      final check. */
  method CheckCrate(sess: Session, table: Table, items: LanguageItems, krate: seq<ForeignItem>)
    returns (items': LanguageItems, diags: seq<Diag>)
    ensures items'.defs == items.defs
    ensures items'.missing == PreSeed(items, sess.isLikeEmscripten).missing + MissingFrom(table, items.defs, krate)
    ensures forall es | IsSortedVectorOf(es, table) ::
              diags == UnknownFrom(table, krate) + VerifySorted(sess, es, items)
    ensures WellAttributed(table, krate, diags)
  {
    var seeded := PreSeed(items, sess.isLikeEmscripten);
    var cx := ScanItems(table, Context(seeded, []), krate);
    ScanIsFilter(table, Context(seeded, []), krate);
    var verified := Verify(sess, table, cx.items);
    items' := cx.items;
    diags := cx.diags + verified;
    ComposedDiagnostics(table, krate, verified);
    assert cx.items.(missing := items.missing) == items;
    forall es | IsSortedVectorOf(es, table)
      ensures diags == UnknownFrom(table, krate) + VerifySorted(sess, es, items)
    {
      VerifyIndependentOfOrder(sess, sess.upstreamMissing, items.missing, es, cx.items);
    }
  }

  /** Every coded diagnostic is E0264 at the span of a foreign item whose
      lang-item name the table lacks, and only those carry a location; the
      OOM error and its note come as an adjacent pair; and the output never
      opens with the note. */
  predicate WellAttributed(table: Table, krate: seq<ForeignItem>, diags: seq<Diag>) {
    && (forall d | d in diags && d.Code().Some? ::
          && d.Code() == Some("E0264")
          && exists i | 0 <= i < |krate| :: Unknown(table, krate[i]) && d.Location() == Some(krate[i].span))
    && (forall d | d in diags && d.Location().Some? :: d.Code().Some?)
    && OomNotePaired(diags)
    && (diags != [] ==> diags[0].IsError())
  }

  /** The scan's errors followed by the output of the final check are well
      attributed, given what `Verify` promises about the latter. */
  lemma ComposedDiagnostics(table: Table, krate: seq<ForeignItem>, v: seq<Diag>)
    requires forall d | d in v :: d.Code().None? && d.Location().None?
    requires OomNotePaired(v)
    requires v != [] ==> v[0].IsError()
    ensures WellAttributed(table, krate, UnknownFrom(table, krate) + v)
  {
    var u := UnknownFrom(table, krate);
    assert OomNotePaired(u) by {
      assert forall i | 0 <= i < |u| :: u[i] in u;
    }
    PairedAppend(u, v);
    PairedStartsWithError(u + v);
  }
}
