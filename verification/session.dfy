/** What the checker reads from the compiler session and what it emits. */
module Session {
  import opened LangItems

  /** A source location: byte offsets of the start and end of an item. */
  datatype Span = Span(lo: nat, hi: nat)

  /** The diagnostics this checker can emit. All but the note are errors. */
  datatype Diag =
      /** E0264: a foreign item names a lang item the weak-item table lacks. */
    | UnknownExternalLangItem(name: string, span: Span)
    | PanicHandlerRequired
    | AllocErrorHandlerRequired
      /** The note that follows `AllocErrorHandlerRequired`. */
    | DefaultAllocErrorHandlerNote
      /** The generic error for any other weak item, naming its table key. */
    | LangItemRequired(name: string)
  {
    predicate IsError() {
      !DefaultAllocErrorHandlerNote?
    }

    function Code(): (c: Option<string>) {
      if UnknownExternalLangItem? then Some("E0264") else None
    }

    function Location(): (l: Option<Span>) {
      if UnknownExternalLangItem? then Some(span) else None
    }

    function Message(): (m: string) {
      match this
      case UnknownExternalLangItem(n, _) => "unknown external lang item: `" + n + "`"
      case PanicHandlerRequired => HandlerRequired("panic_handler")
      case AllocErrorHandlerRequired => HandlerRequired("alloc_error_handler") + "."
      case DefaultAllocErrorHandlerNote =>
        "Use `#![feature(" + "default_alloc_error_handler" + ")]` for a default error handler."
      case LangItemRequired(n) => "language item required, but not found: `" + n + "`"
    }
  }

  /** The text of the error for a missing `#[attr]` handler function. */
  function HandlerRequired(attr: string): (m: string) {
    "`#[" + attr + "]` function required, but not found"
  }

  /** Only the unknown-name error carries a code and a location: E0264 at
      the foreign item's span. Every diagnostic but the note is an error. */
  lemma DiagnosticAttributes(d: Diag)
    ensures d.Code().Some? <==> d.UnknownExternalLangItem?
    ensures d.Location().Some? <==> d.UnknownExternalLangItem?
    ensures d.UnknownExternalLangItem? ==> d.Code() == Some("E0264") && d.Location() == Some(d.span)
    ensures d.IsError() <==> !d.DefaultAllocErrorHandlerNote?
  {
  }

  /** `prefix + n + suffix` determines `n`. */
  lemma {:induction false} AffixCancel(prefix: string, suffix: string, n: string, m: string)
    requires prefix + n + suffix == prefix + m + suffix
    ensures n == m
  {
    var s := prefix + n + suffix;
    assert |n| == |m|;
    assert n == s[|prefix|..|prefix| + |n|];
    assert m == (prefix + m + suffix)[|prefix|..|prefix| + |m|];
  }

  /** Two unknown-name errors read the same iff they name the same item, and
      two generic errors read the same iff they are the same error: the
      message text identifies the name. */
  lemma MessageNamesItem(a: Diag, b: Diag)
    requires (a.UnknownExternalLangItem? && b.UnknownExternalLangItem?)
             || (a.LangItemRequired? && b.LangItemRequired?)
    ensures a.Message() == b.Message() <==> a.name == b.name
  {
    if a.Message() == b.Message() {
      if a.UnknownExternalLangItem? {
        AffixCancel("unknown external lang item: `", "`", a.name, b.name);
      } else {
        AffixCancel("language item required, but not found: `", "`", a.name, b.name);
      }
    }
  }

  /** Indexing into a prefix of a concatenation. */
  lemma PrefixAt(prefix: string, n: string, suffix: string, i: nat)
    requires i < |prefix|
    ensures (prefix + n + suffix)[i] == prefix[i]
  {
  }

  /** Indexing into the middle part of a concatenation. */
  lemma MiddleAt(prefix: string, n: string, suffix: string, j: nat)
    requires j < |n|
    ensures (prefix + n + suffix)[|prefix| + j] == n[j]
  {
  }

  /** The first and fourth characters of a message tell its kind. */
  lemma MessageLead(d: Diag)
    ensures |d.Message()| > 3
    ensures d.Message()[0] == 'u' <==> d.UnknownExternalLangItem?
    ensures d.Message()[0] == 'l' <==> d.LangItemRequired?
    ensures d.Message()[0] == '`' && d.Message()[3] == 'p' <==> d.PanicHandlerRequired?
    ensures d.Message()[0] == '`' && d.Message()[3] == 'a' <==> d.AllocErrorHandlerRequired?
  {
    var tail := "]` function required, but not found";
    match d
    case UnknownExternalLangItem(n, _) =>
      PrefixAt("unknown external lang item: `", n, "`", 0);
    case LangItemRequired(n) =>
      PrefixAt("language item required, but not found: `", n, "`", 0);
    case PanicHandlerRequired =>
      PrefixAt("`#[", "panic_handler", tail, 0);
      MiddleAt("`#[", "panic_handler", tail, 0);
    case AllocErrorHandlerRequired =>
      var h := HandlerRequired("alloc_error_handler");
      PrefixAt("`#[", "alloc_error_handler", tail, 0);
      MiddleAt("`#[", "alloc_error_handler", tail, 0);
      PrefixAt(h, [], ".", 0);
      PrefixAt(h, [], ".", 3);
    case DefaultAllocErrorHandlerNote =>
      PrefixAt("Use `#![feature(", "default_alloc_error_handler", ")]` for a default error handler.", 0);
  }

  /** Messages of different kinds never coincide. */
  lemma MessageIdentifiesKind(a: Diag, b: Diag)
    requires a.Message() == b.Message()
    ensures a.UnknownExternalLangItem? <==> b.UnknownExternalLangItem?
    ensures a.LangItemRequired? <==> b.LangItemRequired?
    ensures a.PanicHandlerRequired? <==> b.PanicHandlerRequired?
    ensures a.AllocErrorHandlerRequired? <==> b.AllocErrorHandlerRequired?
  {
    MessageLead(a);
    MessageLead(b);
  }

  datatype CrateType = Executable | Dylib | Rlib | Staticlib | Cdylib | ProcMacro
  {
    /** Whether emitting this kind of crate links it, so that every weak
        item must be resolved by now; an rlib defers that to its users. */
    predicate IsLinked() {
      match this
      case Dylib | ProcMacro | Cdylib | Executable | Staticlib => true
      case Rlib => false
    }
  }

  /** The inputs the checker takes from the compiler session.
      `required` is the set of items the target and features require;
      `upstreamMissing` holds, for each crate the session's crate list
      returns, that crate's exported list of missing lang items. */
  datatype Session = Session(
    crateTypes: seq<CrateType>,
    isLikeEmscripten: bool,
    defaultAllocErrorHandler: bool,
    required: set<LangItem>,
    upstreamMissing: seq<seq<LangItem>>)

  /** A foreign item of the crate, with the lang-item name its attributes
      carry, if any. A crate is given as the sequence of all its foreign
      items, each exactly once, including those declared inside nested
      bodies: the pass visits every item-like of the crate directly and does
      not walk into nested bodies. */
  datatype ForeignItem = ForeignItem(langItemName: Option<string>, span: Span)
}
