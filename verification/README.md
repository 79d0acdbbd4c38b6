# Weak lang item checking, modelled in Dafny

This project models the rustc pass that checks weak lang items
(`compiler/rustc_passes/src/weak_lang_items.rs`). A weak lang item is a runtime
hook the generated code calls implicitly but that some crate in the dependency
graph must supply. The hooks are the panic handler (`PanicImpl`), the OOM
handler (`Oom`), the exception personality routine (`EhPersonality`) and the
catch type-info routine (`EhCatchTypeinfo`). The pass runs once per crate in
three steps:

1. **Pre-seeding** (`Scan.PreSeed`). The compiler generates calls to the
   personality routine, and on emscripten-like targets to the catch type-info
   routine. So if either is undefined, it is pushed onto the crate's `missing`
   list.
2. **Scanning** (`Scan.Register`, `Scan.VisitForeignItem`, `Scan.ScanItems`).
   Every foreign item whose attributes carry a lang-item name is registered:
   - If the weak-item table knows the name and the item is undefined, the item
     is pushed onto `missing`.
   - If the item is defined, nothing happens.
   - If the name is unknown, error E0264 is emitted at the item's span.
3. **Verification** (`Verification.Verify`). Verification runs only if some
   requested crate type is linked, meaning anything but an rlib. It unions the
   `missing` lists of the upstream crates. It then walks the table sorted by
   name. For each item that is in the union, required by the target and
   undefined in the crate's registry (which also holds its dependencies'
   definitions), it emits:
   - the panic-handler error for `PanicImpl`;
   - for `Oom`, the alloc-error-handler error plus a note, unless the
     `default_alloc_error_handler` feature is on, in which case nothing;
   - for any other item, the generic error naming the table key.

Modules:

- `LangItems` (`lang_items.dfy`): the items, `DefId` and the per-crate registry
  `LanguageItems`. `Require` fails exactly when an item is undefined.
- `SymbolOrder` (`symbol_order.dfy`): the order of the sorted table, with
  proofs that it is a strict total order.
- `WeakItems` (`weak_items.dfy`): the table (`map<string, LangItem>`) and its
  sorted vector.
- `Session` (`session.dfy`): diagnostics, crate types, the session inputs and
  foreign items.
- `Scan` (`scan.dfy`): pre-seeding and the scan.
- `Verification` (`verification.dfy`): the gate, the union and the diagnostic
  loop.
- `WeakLangItems` (`check_crate.dfy`): `CheckCrate`, the whole pass.

Two behaviours of the code are easy to miss:

- `require` only looks an item up; it does not mark the item as satisfied.
  The scan does not deduplicate `missing` either. Registering the same
  undefined item twice pushes it twice (`Scan.RegisterTwiceAppendsTwice`).
- The union in `verify` ranges over the crates that `tcx.crates(())` returns.
  Those are the upstream crates only. The local crate's own `missing` list,
  including what pre-seeding put there, is never read by `verify`
  (`Verification.VerifyIndependentOfOrder`). Definitions are checked only
  through `items.require`, against the crate's registry, which also holds its
  dependencies' definitions. So an item that an upstream crate lists as
  missing is still resolved when another dependency defines it.

## Model

| member | source | states |
|---|---|---|
| Session.MessageNamesItem | compiler/rustc_passes/src/weak_lang_items.rs:72-85 | two generic errors, or two unknown-name errors, have the same text iff they carry the same name |
| Session.MessageIdentifiesKind | compiler/rustc_passes/src/weak_lang_items.rs:64-87 | diagnostics of different kinds never share a text, so the message tells the unknown-name, generic, panic-handler and alloc-error-handler errors apart |
| Scan.PreSeed | compiler/rustc_passes/src/weak_lang_items.rs:22-31 | definitions are untouched and the old `missing` list is kept as a prefix; `EhPersonality` is appended iff it is undefined; `EhCatchTypeinfo` is appended iff the target is emscripten-like and it is undefined; nothing else is appended, and the personality routine comes first |
| Scan.Register | compiler/rustc_passes/src/weak_lang_items.rs:79-88 | a known name whose item is undefined appends that item to `missing` with no diagnostic; a known name whose item is defined changes nothing; an unknown name leaves the registry alone and appends exactly one E0264 error carrying the name and span |
| Scan.VisitForeignItem | compiler/rustc_passes/src/weak_lang_items.rs:98-105 | an item without a lang-item name changes nothing; otherwise at most one entry is added, to `missing` or to the diagnostics, and definitions never change |
| Scan.VisitAppendsHead | compiler/rustc_passes/src/weak_lang_items.rs:98-103 | visiting one foreign item appends exactly that item's contribution: the undefined weak item it names, or its E0264 error |
| Scan.ScanItems | compiler/rustc_passes/src/weak_lang_items.rs:33-36 | the scan never changes definitions and only appends to `missing` and to the diagnostics |
| Scan.MissingFrom | compiler/rustc_passes/src/weak_lang_items.rs:80-83 | reference list: an item is in it iff it is undefined and some foreign item names it through the table |
| Scan.UnknownFrom | compiler/rustc_passes/src/weak_lang_items.rs:84-87 | reference list: a diagnostic is in it iff it is the E0264 error, with name and span, of a foreign item whose name the table lacks |
| Scan.ScanIsFilter | compiler/rustc_passes/src/weak_lang_items.rs:33-36 | scanning appends exactly the reference lists to `missing` and to the diagnostics, in declaration order |
| Scan.ScanMissingIsFilter | compiler/rustc_passes/src/weak_lang_items.rs:80-83 | the scan's `missing` list is the old list followed by the reference list of undefined weak items, in declaration order |
| Scan.ScanDiagsIsFilter | compiler/rustc_passes/src/weak_lang_items.rs:84-87 | the scan's diagnostics are the old ones followed by one E0264 error per unknown name, in declaration order |
| Scan.ScanAdds | compiler/rustc_passes/src/weak_lang_items.rs:79-88 | what the scan adds to `missing` are exactly the undefined weak items some foreign item names; what it adds to the diagnostics are exactly the E0264 errors for unknown names |
| Scan.RegisterTwiceAppendsTwice | compiler/rustc_passes/src/weak_lang_items.rs:80-83 | no deduplication: registering an undefined item twice appends it twice |
| Verification.AggregateMissing | compiler/rustc_passes/src/weak_lang_items.rs:55-60 | the union holds an item iff some upstream crate lists it as missing |
| Verification.AggregateOrderIndependent | compiler/rustc_passes/src/weak_lang_items.rs:55-60 | the union does not depend on the order of the crates |
| Verification.AggregateIdempotent | compiler/rustc_passes/src/weak_lang_items.rs:55-60 | listing every crate twice gives the same union |
| Verification.RlibOnlyEmitsNothing | compiler/rustc_passes/src/weak_lang_items.rs:43-53 | when every requested crate type is `Rlib`, or none is requested, no diagnostic is emitted |
| Verification.LinkedKindRunsCheck | compiler/rustc_passes/src/weak_lang_items.rs:43-53 | any non-rlib crate type makes the check run over the union, even when `Rlib` is requested as well |
| Verification.VerifySorted | compiler/rustc_passes/src/weak_lang_items.rs:40-53 | the gate: without a linked crate type the result is empty |
| Verification.VerifyLoop | compiler/rustc_passes/src/weak_lang_items.rs:62-75 | a diagnostic is emitted iff some table entry yields it |
| Verification.VerifyLoopOomPaired | compiler/rustc_passes/src/weak_lang_items.rs:66-70 | the OOM error is always followed directly by its note, and the note always directly follows that error |
| Verification.VerifyLoopHookCounts | compiler/rustc_passes/src/weak_lang_items.rs:62-70 | the panic-handler error is emitted once per table entry of `PanicImpl` when that item is unresolved, and never otherwise. The OOM error is emitted once per entry of `Oom` when it is unresolved and the feature is off, and never otherwise. The note is emitted as often as the OOM error |
| Verification.EntryHookCounts | compiler/rustc_passes/src/weak_lang_items.rs:63-70 | one entry yields the panic-handler error once iff its item is the unresolved `PanicImpl`. It yields the OOM error and the note once each iff its item is the unresolved `Oom` and the feature is off |
| Verification.VerifyLoopDiagnoses | compiler/rustc_passes/src/weak_lang_items.rs:62-75 | the loop never emits E0264. A generic error names key `n` iff `n`'s item is unresolved and is neither the panic handler nor the OOM handler. The panic-handler error appears iff `PanicImpl` is in the table and unresolved. The OOM error and its note appear iff `Oom` is in the table, is unresolved and the feature is off |
| Verification.EntryDiagnoses | compiler/rustc_passes/src/weak_lang_items.rs:63-73 | one table entry yields exactly one diagnostic when its item is unresolved, except that `Oom` yields two (the error and its note) with the feature off and none with it on; a resolved item yields none. `PanicImpl` yields only the panic-handler error. `Oom` yields only its error and note. Any other item yields only the generic error naming the entry's key |
| Verification.KindDiagnosed | compiler/rustc_passes/src/weak_lang_items.rs:62-70 | the panic-handler error, the OOM error and the OOM note are each emitted iff some entry maps to that item and the item is unresolved, with the feature off for the OOM pair |
| Verification.VerifyLoopAppend | compiler/rustc_passes/src/weak_lang_items.rs:62-63 | the loop is a fold: the entries' diagnostics are emitted in entry order |
| Verification.VerifyLoopNamesAscending | compiler/rustc_passes/src/weak_lang_items.rs:62-72 | over the sorted vector, generic errors name strictly ascending keys, so no key is reported twice |
| Verification.VerifyLoopIgnoresLocalMissing | compiler/rustc_passes/src/weak_lang_items.rs:62-63 | the loop reads only the crate's registry of definitions (which also holds its dependencies' definitions), never the local crate's `missing` list |
| Verification.VerifyIndependentOfOrder | compiler/rustc_passes/src/weak_lang_items.rs:55-63 | the verdict depends neither on the order of the upstream crates nor on the local crate's `missing` list |
| Verification.ResolvedEmitsNothing | compiler/rustc_passes/src/weak_lang_items.rs:62-63 | when each required item is defined in the crate's registry (which also holds its dependencies' definitions) or listed missing by no upstream crate, nothing is emitted |
| Verification.VerifyLoopOverTable | compiler/rustc_passes/src/weak_lang_items.rs:62-73 | over the table's sorted vector, each key and hook gets its diagnostic iff its item is unresolved, stated in terms of the table's keys and values |
| Verification.VerifyLoopHooksOnce | compiler/rustc_passes/src/weak_lang_items.rs:62-70 | when no two keys of the table denote the same item, the panic-handler error, the OOM error and its note each appear at most once |
| Verification.Verify | compiler/rustc_passes/src/weak_lang_items.rs:40-76 | verification in terms of the table. Without a linked crate type, nothing is emitted. Otherwise each table key and hook gets its diagnostic iff its item is unresolved against the union, with the kinds of `VerifyLoopDiagnoses`. No diagnostic carries an error code or a location, so E0264 is never emitted. The OOM error and its note come as an adjacent pair, so a nonempty output starts with an error. With one key per item, the panic-handler error and the OOM pair appear at most once. Generic errors come in ascending key order. The output is the same for every sorted vector of the table |
| WeakItems.Insert | compiler/rustc_passes/src/weak_lang_items.rs:62 | insertion adds exactly the one entry, and keeps a vector strictly sorted when the name is new |
| WeakItems.IntoSortedVector | compiler/rustc_passes/src/weak_lang_items.rs:62 | the result lists exactly the table's entries, strictly sorted by name |
| WeakItems.SortedVectorUnique | compiler/rustc_passes/src/weak_lang_items.rs:62 | two strictly sorted vectors with the same entries are equal, so the diagnostic order is determined by the table alone |
| WeakLangItems.CheckCrate | compiler/rustc_passes/src/weak_lang_items.rs:22-38 | the whole pass keeps definitions. Its `missing` list is the pre-seeded list followed by the scan's reference list. Its diagnostics are the scan's E0264 errors in declaration order, followed by the verification's output for any sorted vector of the table. Only E0264 errors carry a code and a location, and each is at the span of a foreign item whose name the table lacks. The OOM error and its note stay an adjacent pair, and the note never comes first |
| WeakLangItems.ComposedDiagnostics | compiler/rustc_passes/src/weak_lang_items.rs:33-37 | the scan's errors (line 85, E0264 at the item's span) followed by any output that has no code or location, keeps the OOM pairing and starts with an error, form a sequence in which every coded diagnostic is E0264 at an unknown item's span, only coded ones have a location, the pairing holds, and the first diagnostic is an error |
| Verification.PairedStartsWithError | compiler/rustc_passes/src/weak_lang_items.rs:66-70 | when the OOM note only ever directly follows the OOM error, the note never comes first and is always preceded by an error |

## Left out

- The HIR walk (`visit_all_item_likes`, `walk_foreign_item`, `nested_visit_map`) and attribute extraction (`lang_items::extract`). The crate is given as the sequence of all its foreign items, each exactly once, with the lang-item name its attributes carry, if any. That sequence includes foreign items declared inside nested bodies: `visit_all_item_likes` hands every item-like of the crate to the visitor. `NestedVisitorMap::None` keeps the walk from reaching a second time the foreign items `visit_all_item_likes` already hands over, and keeps it out of bodies.
- `TyCtxt` and the session. Each query the pass makes becomes a field of `Session.Session`: the `required` predicate as a set of items, `is_like_emscripten`, the `default_alloc_error_handler` feature, the requested crate types, and the `missing_lang_items` of each crate in `tcx.crates(())`.
- `LanguageItems::require` and the accessors `eh_personality`/`eh_catch_typeinfo` are in rustc_hir's `lang_items.rs`, which is not part of this model. They are modelled as lookups in a map from item to `DefId`. The order of the lang-item enumeration is not modelled.
- The contents of `WEAK_ITEMS_REFS` are in rustc_hir's `weak_lang_items.rs`, which is not part of this model. The table is a parameter of the pass.
- Sorting by `Symbol`: rustc orders symbols by their interned index. For the pre-interned symbols that make up the table, this is their alphabetical order. The model sorts by the name string (`SymbolOrder.Less`).
- Diagnostic rendering (`struct_span_err!`, `sess.err`, `note_without_error`) and the session's error count. A diagnostic is a `Session.Diag` value appended to a sequence. It keeps its message text, error code and span.
- `FxHashSet` hashing is modelled as a mathematical set.
- Duplicate or conflicting definitions across crates are not diagnosed by this pass, so they are not modelled.
- Scan.VisitForeignItem: its own contract bounds only what one visit adds. The exact addition is stated by `Scan.VisitAppendsHead`.
- Verification.VerifySorted: its own contract states only the gate. The diagnostics it emits are stated by `Verification.VerifyLoop`, `Verification.VerifyLoopDiagnoses` and `Verification.Verify`.
