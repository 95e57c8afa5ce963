/** The option catalog, the section names, and `findOption` (src/util.ts). */
module Options {
  import opened Results
  import opened Errors

  /** Where an assignment lands: `top` is outside any header; the other three are the
      network sections `[main]`, `[test]` and `[regtest]`. */
  datatype Section = Top | Main | Test | Regtest

  function SectionName(s: Section): string
  {
    match s
    case Top => "top"
    case Main => "main"
    case Test => "test"
    case Regtest => "regtest"
  }

  /** `castToNetworkName`: exactly `main`, `test` or `regtest`, with no trimming and no
      case folding. */
  function CastToNetworkName(text: string): (r: Result<Section, Error>)
    ensures r.Ok? <==> text == "main" || text == "test" || text == "regtest"
    ensures r.Ok? ==> r.value != Top && SectionName(r.value) == text
    ensures r.Err? ==> r.error == InvalidNetworkName(text)
  {
    if text == "main" then Ok(Main)
    else if text == "test" then Ok(Test)
    else if text == "regtest" then Ok(Regtest)
    else Err(InvalidNetworkName(text))
  }

  /** Every network section is reached from its own name. */
  lemma NetworkNameRoundTrip(s: Section)
    requires s != Top
    ensures CastToNetworkName(SectionName(s)) == Ok(s)
  {
  }

  /** The declared type of an option's value. */
  datatype TypeName = StringType | StringArrayType | BooleanType | NumberType

  /** The part of a catalog entry the parser consults. */
  datatype OptionDescriptor = OptionDescriptor(
    typeName: TypeName,
    onlyAllowedInTop: bool,
    notAllowedInMain: bool)

  /** The fixed table of known options, keyed by option name. */
  type Catalog = map<string, OptionDescriptor>

  datatype Found = Found(optionName: string, option: OptionDescriptor)

  /** `findOption`: exact-name lookup, then, only when a section is given, the scoping
      checks. Any section value counts as given, `top` included. */
  function FindOption(catalog: Catalog, maybeOptionName: string, sectionName: Option<Section>): (r: Result<Found, Error>)
    ensures maybeOptionName !in catalog ==> r == Err(UnknownOptionName(maybeOptionName))
    ensures r.Err? ==> !r.error.ParseError?
    ensures r.Ok? ==> maybeOptionName in catalog && r.value == Found(maybeOptionName, catalog[maybeOptionName])
    ensures sectionName.None? ==> (r.Ok? <==> maybeOptionName in catalog)
    ensures maybeOptionName in catalog && sectionName.Some? && catalog[maybeOptionName].onlyAllowedInTop
            ==> r == Err(MustBeAtTopLevel(maybeOptionName))
    ensures maybeOptionName in catalog && sectionName == Some(Main)
            && !catalog[maybeOptionName].onlyAllowedInTop && catalog[maybeOptionName].notAllowedInMain
            ==> r == Err(NotAllowedInMain(maybeOptionName))
    ensures maybeOptionName in catalog && sectionName.Some? && sectionName.value != Main
            && !catalog[maybeOptionName].onlyAllowedInTop
            ==> r.Ok?
    ensures r.Ok? <==>
              && maybeOptionName in catalog
              && (sectionName.Some? ==> !catalog[maybeOptionName].onlyAllowedInTop)
              && (sectionName == Some(Main) ==> !catalog[maybeOptionName].notAllowedInMain)
  {
    if maybeOptionName !in catalog then Err(UnknownOptionName(maybeOptionName))
    else
      var option := catalog[maybeOptionName];
      if sectionName.Some? && option.onlyAllowedInTop then Err(MustBeAtTopLevel(maybeOptionName))
      else if sectionName == Some(Main) && option.notAllowedInMain then Err(NotAllowedInMain(maybeOptionName))
      else Ok(Found(maybeOptionName, option))
  }

  /** The scoping checks only ever turn a success into a failure: whatever succeeds with a
      section succeeds, with the same answer, without one. */
  lemma {:induction false} ScopingOnlyRestricts(catalog: Catalog, name: string, s: Section)
    ensures FindOption(catalog, name, Some(s)).Ok?
            ==> FindOption(catalog, name, Some(s)) == FindOption(catalog, name, None)
  {
  }

  /** `test` and `regtest` are scoped alike, and anything allowed in `main` is allowed there. */
  lemma {:induction false} NetworkScoping(catalog: Catalog, name: string)
    ensures FindOption(catalog, name, Some(Test)) == FindOption(catalog, name, Some(Regtest))
    ensures FindOption(catalog, name, Some(Main)).Ok? ==> FindOption(catalog, name, Some(Test)).Ok?
  {
  }

  /** As written, asking for section `top` rejects an option that may only appear at the
      top level: the check fires for every section given, `top` included. */
  lemma {:induction false} TopRejectsTopOnlyOption(catalog: Catalog, name: string)
    requires name in catalog && catalog[name].onlyAllowedInTop
    ensures FindOption(catalog, name, Some(Top)) == Err(MustBeAtTopLevel(name))
  {
  }

  /** The scoping `findOption` evidently intends: a top-only option is accepted in `top`
      and refused in every network section. */
  function FindOptionInScope(catalog: Catalog, maybeOptionName: string, sectionName: Option<Section>): (r: Result<Found, Error>)
    ensures r.Ok? <==>
              && maybeOptionName in catalog
              && (sectionName.Some? && sectionName.value != Top ==> !catalog[maybeOptionName].onlyAllowedInTop)
              && (sectionName == Some(Main) ==> !catalog[maybeOptionName].notAllowedInMain)
    ensures r.Ok? ==> r.value == Found(maybeOptionName, catalog[maybeOptionName])
    ensures maybeOptionName !in catalog ==> r == Err(UnknownOptionName(maybeOptionName))
    ensures r.Err? ==> !r.error.ParseError?
  {
    if maybeOptionName !in catalog then Err(UnknownOptionName(maybeOptionName))
    else
      var option := catalog[maybeOptionName];
      if sectionName.Some? && sectionName.value != Top && option.onlyAllowedInTop then Err(MustBeAtTopLevel(maybeOptionName))
      else if sectionName == Some(Main) && option.notAllowedInMain then Err(NotAllowedInMain(maybeOptionName))
      else Ok(Found(maybeOptionName, option))
  }

  /** The intended lookup differs from the written one only for section `top`: without a
      section, and in every network section, the two give the same answer. */
  lemma {:induction false} InScopeAgreesOffTop(catalog: Catalog, name: string, sectionName: Option<Section>)
    requires sectionName != Some(Top)
    ensures FindOptionInScope(catalog, name, sectionName) == FindOption(catalog, name, sectionName)
  {
  }
}
