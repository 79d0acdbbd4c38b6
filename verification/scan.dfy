/** Pre-seeding the compiler-generated items and scanning the crate's
    foreign items for lang-item attributes. */
module Scan {
  import opened LangItems
  import opened WeakItems
  import opened Session

  /** The checker's running state: the crate's registry and the
      diagnostics emitted so far. */
  datatype Context = Context(items: LanguageItems, diags: seq<Diag>)

  /** Pushes the items the compiler itself generates calls to when they
      are undefined: the personality routine always, the catch type-info
      routine on emscripten-like targets only. */
  function PreSeed(items: LanguageItems, isLikeEmscripten: bool): (r: LanguageItems)
    ensures r.defs == items.defs
    ensures |items.missing| <= |r.missing| <= |items.missing| + 2
    ensures r.missing[..|items.missing|] == items.missing
    ensures EhPersonality in r.missing[|items.missing|..] <==> EhPersonality !in items.defs
    ensures EhCatchTypeinfo in r.missing[|items.missing|..]
            <==> isLikeEmscripten && EhCatchTypeinfo !in items.defs
    ensures forall it | it in r.missing[|items.missing|..] :: it == EhPersonality || it == EhCatchTypeinfo
    ensures |r.missing| == |items.missing| + 2
            ==> r.missing[|items.missing|..] == [EhPersonality, EhCatchTypeinfo]
  {
    var personality := if items.EhPersonalityDef().None? then [EhPersonality] else [];
    var typeinfo := if isLikeEmscripten && items.EhCatchTypeinfoDef().None? then [EhCatchTypeinfo] else [];
    var m := items.missing + (personality + typeinfo);
    assert m[..|items.missing|] == items.missing && m[|items.missing|..] == personality + typeinfo;
    items.(missing := m)
  }

  /** Registers a lang-item name found on a foreign item. A name the table
      knows whose item is undefined goes to `missing` (once per call, with
      no check for an earlier entry); a defined one changes nothing; a name
      the table lacks gives error E0264 at the item's span. */
  function Register(table: Table, cx: Context, name: string, span: Span): (r: Context)
    ensures r.items.defs == cx.items.defs
    ensures name in table && table[name] !in cx.items.defs
            ==> r.items.missing == cx.items.missing + [table[name]] && r.diags == cx.diags
    ensures name in table && table[name] in cx.items.defs ==> r == cx
    ensures name !in table
            ==> r.items == cx.items && r.diags == cx.diags + [UnknownExternalLangItem(name, span)]
  {
    if name in table then
      var item := table[name];
      if cx.items.Require(item).Err? then
        cx.(items := cx.items.(missing := cx.items.missing + [item]))
      else
        cx
    else
      cx.(diags := cx.diags + [UnknownExternalLangItem(name, span)])
  }

  /** Visits one foreign item: registers its lang-item name, if it has one. */
  function VisitForeignItem(table: Table, cx: Context, fi: ForeignItem): (r: Context)
    ensures r.items.defs == cx.items.defs
    ensures fi.langItemName.None? ==> r == cx
    ensures |cx.items.missing| <= |r.items.missing| <= |cx.items.missing| + 1
    ensures |cx.diags| <= |r.diags| <= |cx.diags| + 1
    ensures |r.items.missing| + |r.diags| <= |cx.items.missing| + |cx.diags| + 1
  {
    match fi.langItemName
    case Some(name) => Register(table, cx, name, fi.span)
    case None => cx
  }

  /** Visits the crate's foreign items in declaration order. */
  function ScanItems(table: Table, cx: Context, krate: seq<ForeignItem>): (r: Context)
    ensures r.items.defs == cx.items.defs
    ensures |cx.items.missing| <= |r.items.missing| && r.items.missing[..|cx.items.missing|] == cx.items.missing
    ensures |cx.diags| <= |r.diags| && r.diags[..|cx.diags|] == cx.diags
    decreases |krate|
  {
    if |krate| == 0 then cx
    else ScanItems(table, VisitForeignItem(table, cx, krate[0]), krate[1..])
  }

  /** Reference definition: the items a crate's foreign items add to
      `missing`, one per foreign item naming an undefined weak item. */
  function MissingFrom(table: Table, defs: map<LangItem, DefId>, krate: seq<ForeignItem>): (r: seq<LangItem>)
    ensures forall it :: it in r <==>
              it !in defs && exists i | 0 <= i < |krate| :: Names(table, krate[i], it)
    decreases |krate|
  {
    if |krate| == 0 then []
    else
      var head := MissingOf(table, defs, krate[0]);
      var rest := MissingFrom(table, defs, krate[1..]);
      assert forall i | 1 <= i < |krate| :: krate[i] == krate[1..][i - 1];
      head + rest
  }

  /** What one foreign item adds to `missing`. */
  function MissingOf(table: Table, defs: map<LangItem, DefId>, fi: ForeignItem): (r: seq<LangItem>)
    ensures forall it :: it in r <==> it !in defs && Names(table, fi, it)
  {
    match fi.langItemName
    case Some(n) => if n in table && table[n] !in defs then [table[n]] else []
    case None => []
  }

  /** The foreign item carries the name of weak item `it`. */
  predicate Names(table: Table, fi: ForeignItem, it: LangItem) {
    fi.langItemName.Some? && fi.langItemName.value in table && table[fi.langItemName.value] == it
  }

  /** Reference definition: one E0264 error per foreign item whose
      lang-item name the table lacks, in declaration order. */
  function UnknownFrom(table: Table, krate: seq<ForeignItem>): (r: seq<Diag>)
    ensures forall d :: d in r <==>
              exists i | 0 <= i < |krate| :: Unknown(table, krate[i]) && d == UnknownExternalLangItem(krate[i].langItemName.value, krate[i].span)
    decreases |krate|
  {
    if |krate| == 0 then []
    else
      var head := UnknownOf(table, krate[0]);
      var rest := UnknownFrom(table, krate[1..]);
      assert forall i | 1 <= i < |krate| :: krate[i] == krate[1..][i - 1];
      head + rest
  }

  /** The error one foreign item gives, if any. */
  function UnknownOf(table: Table, fi: ForeignItem): (r: seq<Diag>)
    ensures forall d :: d in r <==> Unknown(table, fi) && d == UnknownExternalLangItem(fi.langItemName.value, fi.span)
  {
    if Unknown(table, fi) then [UnknownExternalLangItem(fi.langItemName.value, fi.span)] else []
  }

  /** The foreign item carries a lang-item name the table lacks. */
  predicate Unknown(table: Table, fi: ForeignItem) {
    fi.langItemName.Some? && fi.langItemName.value !in table
  }

  /** Scanning appends exactly the reference lists: the missing weak items
      and the E0264 errors, each in declaration order. */
  lemma ScanIsFilter(table: Table, cx: Context, krate: seq<ForeignItem>)
    ensures ScanItems(table, cx, krate)
            == Context(cx.items.(missing := cx.items.missing + MissingFrom(table, cx.items.defs, krate)),
                       cx.diags + UnknownFrom(table, krate))
  {
    ScanMissingIsFilter(table, cx, krate);
    ScanDiagsIsFilter(table, cx, krate);
  }

  /** The `missing` half of `ScanIsFilter`. */
  lemma {:induction false} ScanMissingIsFilter(table: Table, cx: Context, krate: seq<ForeignItem>)
    ensures ScanItems(table, cx, krate).items.missing
            == cx.items.missing + MissingFrom(table, cx.items.defs, krate)
    decreases |krate|
  {
    if |krate| > 0 {
      var cx' := VisitForeignItem(table, cx, krate[0]);
      var hm := MissingOf(table, cx.items.defs, krate[0]);
      var mf := MissingFrom(table, cx.items.defs, krate[1..]);
      assert cx'.items.missing == cx.items.missing + hm && cx'.items.defs == cx.items.defs by {
        VisitAppendsHead(table, cx, krate[0]);
      }
      assert ScanItems(table, cx', krate[1..]).items.missing == cx'.items.missing + mf by {
        ScanMissingIsFilter(table, cx', krate[1..]);
      }
      MissingFromCons(table, cx.items.defs, krate);
      assert (cx.items.missing + hm) + mf == cx.items.missing + (hm + mf);
    }
  }

  /** The diagnostics half of `ScanIsFilter`. */
  lemma {:induction false} ScanDiagsIsFilter(table: Table, cx: Context, krate: seq<ForeignItem>)
    ensures ScanItems(table, cx, krate).diags == cx.diags + UnknownFrom(table, krate)
    decreases |krate|
  {
    if |krate| > 0 {
      var cx' := VisitForeignItem(table, cx, krate[0]);
      var hu := UnknownOf(table, krate[0]);
      var uf := UnknownFrom(table, krate[1..]);
      assert cx'.diags == cx.diags + hu by {
        VisitAppendsHead(table, cx, krate[0]);
      }
      assert ScanItems(table, cx', krate[1..]).diags == cx'.diags + uf by {
        ScanDiagsIsFilter(table, cx', krate[1..]);
      }
      UnknownFromCons(table, krate);
      assert (cx.diags + hu) + uf == cx.diags + (hu + uf);
    }
  }

  lemma MissingFromCons(table: Table, defs: map<LangItem, DefId>, krate: seq<ForeignItem>)
    requires |krate| > 0
    ensures MissingFrom(table, defs, krate) == MissingOf(table, defs, krate[0]) + MissingFrom(table, defs, krate[1..])
  {
  }

  lemma UnknownFromCons(table: Table, krate: seq<ForeignItem>)
    requires |krate| > 0
    ensures UnknownFrom(table, krate) == UnknownOf(table, krate[0]) + UnknownFrom(table, krate[1..])
  {
  }

  /** What a scan adds: to `missing`, exactly the undefined weak items some
      foreign item names; to the diagnostics, exactly one E0264 error per
      foreign item with an unknown name, at that item's span. */
  lemma ScanAdds(table: Table, cx: Context, krate: seq<ForeignItem>)
    ensures var r := ScanItems(table, cx, krate);
            && |cx.items.missing| <= |r.items.missing|
            && (forall it :: it in r.items.missing[|cx.items.missing|..] <==>
                  it !in cx.items.defs && exists i | 0 <= i < |krate| :: Names(table, krate[i], it))
            && |cx.diags| <= |r.diags|
            && (forall d :: d in r.diags[|cx.diags|..] <==>
                  exists i | 0 <= i < |krate| ::
                    Unknown(table, krate[i]) && d == UnknownExternalLangItem(krate[i].langItemName.value, krate[i].span))
  {
    ScanIsFilter(table, cx, krate);
    var r := ScanItems(table, cx, krate);
    assert r.items.missing[|cx.items.missing|..] == MissingFrom(table, cx.items.defs, krate);
    assert r.diags[|cx.diags|..] == UnknownFrom(table, krate);
  }

  lemma VisitAppendsHead(table: Table, cx: Context, fi: ForeignItem)
    ensures VisitForeignItem(table, cx, fi)
            == Context(cx.items.(missing := cx.items.missing + MissingOf(table, cx.items.defs, fi)),
                       cx.diags + UnknownOf(table, fi))
  {
  }

  /** The table lookup does not deduplicate: naming the same undefined weak
      item twice puts it in `missing` twice. */
  lemma RegisterTwiceAppendsTwice(table: Table, cx: Context, name: string, s1: Span, s2: Span)
    requires name in table && table[name] !in cx.items.defs
    ensures Register(table, Register(table, cx, name, s1), name, s2).items.missing
            == cx.items.missing + [table[name], table[name]]
  {
  }
}
