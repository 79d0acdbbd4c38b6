/** The language items a crate can define, and the per-crate registry of
    which of them are defined and which are still missing. */
module LangItems {

  datatype Option<+T> = None | Some(value: T)

  datatype Result<+T, +E> = Ok(value: T) | Err(error: E)

  /** A closed catalogue of language items: the four weak ones the checker
      cares about, and a few ordinary ones to show that the weak-item table
      need not cover every item. */
  datatype LangItem =
    | PanicImpl
    | EhPersonality
    | EhCatchTypeinfo
    | Oom
    | Sized
    | Start
    | DropInPlace
  {
    /** The item's name as written in a `#[lang = "..."]` attribute. */
    function Name(): (s: string) {
      match this
      case PanicImpl => "panic_impl"
      case EhPersonality => "eh_personality"
      case EhCatchTypeinfo => "eh_catch_typeinfo"
      case Oom => "oom"
      case Sized => "sized"
      case Start => "start"
      case DropInPlace => "drop_in_place"
    }
  }

  /** A definition in some crate: crate number and index within it. */
  datatype DefId = DefId(krate: nat, index: nat)

  /** The registry of one crate: `defs` holds the items that crate or any
      of its dependencies defines; an item absent from `defs` is undefined.
      `missing` is the ordered list the crate exports to its dependents as
      still unresolved. */
  datatype LanguageItems = LanguageItems(defs: map<LangItem, DefId>, missing: seq<LangItem>)
  {
    function Get(it: LangItem): (r: Option<DefId>)
      ensures r.Some? <==> it in defs
    {
      if it in defs then Some(defs[it]) else None
    }

    /** The definition of `it`, or an error message when it is undefined.
        Looking an item up never changes the registry. */
    function Require(it: LangItem): (r: Result<DefId, string>)
      ensures r.Ok? <==> it in defs
      ensures r.Ok? ==> r.value == defs[it]
    {
      match Get(it)
      case Some(d) => Ok(d)
      case None => Err("requires `" + it.Name() + "` lang_item")
    }

    /** The personality routine's definition, if the registry has one. */
    function EhPersonalityDef(): (r: Option<DefId>)
      ensures r.Some? <==> EhPersonality in defs
    {
      Get(EhPersonality)
    }

    /** The catch-typeinfo item's definition, if the registry has one. */
    function EhCatchTypeinfoDef(): (r: Option<DefId>)
      ensures r.Some? <==> EhCatchTypeinfo in defs
    {
      Get(EhCatchTypeinfo)
    }
  }
}
