/**
 The texts of a certificate: `resolveTranslation` of `i18n/types.ts`, what one edit of `catalog.service.ts` makes of a
 certificate, and what holds after any history of edits.
 */
module Translations {
  import opened Wrappers

  /** What one locale says; a text that was not given is `None`. */
  datatype Block = Block(title: Option<string>, description: Option<string>)

  type Texts = map<string, Block>

  /** A price is in cents. */
  datatype Certificate = Certificate(
    title: string, programCode: string, price: int, currency: string, description: Option<string>,
    thumbnailUrl: Option<string>, active: bool, translations: Texts)

  const LOCALES := {"en", "tr", "fr", "es", "ar", "de"}
  const DEFAULT := "en"

  predicate IsLocale(key: string) {
    key in LOCALES
  }

  datatype Field = TITLE | DESCRIPTION

  datatype Resolution = Resolution(value: Option<string>, localeUsed: Option<string>, fallbackUsed: bool)

  function Said(texts: Texts, field: Field, locale: string): Option<string> {
    if locale !in texts then None else if field.TITLE? then texts[locale].title else texts[locale].description
  }

  predicate Filled(text: Option<string>) {
    text.Some? && text.value != ""
  }

  function ResolveTranslation(texts: Texts, field: Field, locale: string): Resolution {
    var direct := Said(texts, field, locale);
    var fallback := Said(texts, field, DEFAULT);
    if Filled(direct) then Resolution(direct, Some(locale), false)
    else if Filled(fallback) then Resolution(fallback, Some(DEFAULT), true)
    else Resolution(None, None, false)
  }

  /** The title of `toItemDto`. */
  function ShownTitle(c: Certificate, locale: string): string {
    ResolveTranslation(c.translations, TITLE, locale).value.UnwrapOr(c.title)
  }

  // ---- Edits ---------------------------------------------------------------------------------------------

  datatype CreateDto = CreateDto(
    title: string, programCode: string, price: int, currency: Option<string>, description: Option<string>,
    thumbnailUrl: Option<string>, active: Option<bool>, translations: Option<Texts>)

  /** A description or thumbnail of `Some(None)` is an explicit null. */
  datatype UpdateDto = UpdateDto(
    title: Option<string>, programCode: Option<string>, price: Option<int>, currency: Option<string>,
    description: Option<Option<string>>, thumbnailUrl: Option<Option<string>>, active: Option<bool>,
    translations: Option<Texts>)

  /** `buildTranslations`: what was there, what was given, and the canonical text's mirror unless `en` was given. */
  function Layered(existing: Texts, given: Texts, title: string, description: Option<string>): Texts {
    existing + given + if DEFAULT in given then map[] else map[DEFAULT := Block(Some(title), description)]
  }

  function Created(dto: CreateDto): Certificate {
    Certificate(
      dto.title, dto.programCode, dto.price, dto.currency.UnwrapOr("USD"), dto.description, dto.thumbnailUrl,
      dto.active.UnwrapOr(true), Layered(map[], dto.translations.UnwrapOr(map[]), dto.title, dto.description))
  }

  function Updated(c: Certificate, dto: UpdateDto): Certificate {
    var title := dto.title.UnwrapOr(c.title);
    var description := dto.description.UnwrapOr(c.description);
    var rebuilt := dto.title.Some? || dto.description.Some? || dto.translations.Some?;
    Certificate(
      title, dto.programCode.UnwrapOr(c.programCode), dto.price.UnwrapOr(c.price), dto.currency.UnwrapOr(c.currency),
      description, dto.thumbnailUrl.UnwrapOr(c.thumbnailUrl), dto.active.UnwrapOr(c.active),
      if rebuilt then Layered(c.translations, dto.translations.UnwrapOr(map[]), title, description) else c.translations)
  }

  /** `updateTranslations`, once every key is known to be a locale. */
  function Translated(c: Certificate, incoming: Texts): Certificate {
    var merged := c.translations + incoming;
    var english := Said(merged, TITLE, DEFAULT);
    c.(title := if Filled(english) then english.value else c.title, translations := merged)
  }

  predicate Accepted(incoming: Texts) {
    forall key :: key in incoming ==> IsLocale(key)
  }

  datatype Edit = Update(dto: UpdateDto) | SetTranslations(incoming: Texts)

  /** A rejected edit changes nothing. */
  function Edited(c: Certificate, e: Edit): Certificate {
    match e
    case Update(dto) => Updated(c, dto)
    case SetTranslations(incoming) => if Accepted(incoming) then Translated(c, incoming) else c
  }

  function History(c: Certificate, edits: seq<Edit>): Certificate
    decreases |edits|
  {
    if edits == [] then c else Edited(History(c, edits[..|edits| - 1]), edits[|edits| - 1])
  }

  // ---- What each of these says ---------------------------------------------------------------------------

  /** A text of the locale's own, else the English one, else the canonical title. */
  lemma TitleShown(c: Certificate, locale: string)
    ensures var own := locale in c.translations && c.translations[locale].title.UnwrapOr("") != "";
            var english := "en" in c.translations && c.translations["en"].title.UnwrapOr("") != "";
            && ShownTitle(c, locale)
               == (if own then c.translations[locale].title.value
                   else if english then c.translations["en"].title.value else c.title)
            && (ResolveTranslation(c.translations, TITLE, locale).fallbackUsed <==> !own && english)
            && ResolveTranslation(c.translations, TITLE, locale).localeUsed
               == (if own then Some(locale) else if english then Some("en") else None)
  {
  }

  /** The same of a description, for which there may be no text at all. */
  lemma DescriptionShown(texts: Texts, locale: string)
    ensures var own := locale in texts && texts[locale].description.UnwrapOr("") != "";
            var english := "en" in texts && texts["en"].description.UnwrapOr("") != "";
            ResolveTranslation(texts, DESCRIPTION, locale)
            == if own then Resolution(texts[locale].description, Some(locale), false)
               else if english then Resolution(texts["en"].description, Some("en"), true)
               else Resolution(None, None, false)
  {
  }

  /** The texts after an edit: `given` replaces what was there, and the English block repeats the canonical text. */
  predicate Rebuilt(
      texts: Texts, existing: Texts, given: Option<Texts>, title: string, description: Option<string>) {
    && texts.Keys == existing.Keys + (if given.Some? then given.value.Keys else {}) + {"en"}
    && (given.Some? ==> forall key :: key in given.value ==> texts[key] == given.value[key])
    && (forall key :: key in existing && key != "en" && (given.None? || key !in given.value) ==>
          texts[key] == existing[key])
    && (given.None? || "en" !in given.value ==> texts["en"] == Block(Some(title), description))
  }

  lemma CreatedColumns(dto: CreateDto)
    ensures var c := Created(dto);
      && c.title == dto.title && c.programCode == dto.programCode && c.price == dto.price
      && c.description == dto.description && c.thumbnailUrl == dto.thumbnailUrl
      && (match dto.currency case Some(currency) => c.currency == currency case None => c.currency == "USD")
      && (match dto.active case Some(active) => c.active == active case None => c.active)
      && Rebuilt(c.translations, map[], dto.translations, dto.title, dto.description)
  {
  }

  /** A field that was sent is written and any other stays; the texts follow when one of theirs was sent. */
  predicate Edits(c: Certificate, dto: UpdateDto, d: Certificate) {
    && d.title == (if dto.title.Some? then dto.title.value else c.title)
    && d.programCode == (if dto.programCode.Some? then dto.programCode.value else c.programCode)
    && d.price == (if dto.price.Some? then dto.price.value else c.price)
    && d.currency == (if dto.currency.Some? then dto.currency.value else c.currency)
    && d.description == (if dto.description.Some? then dto.description.value else c.description)
    && d.thumbnailUrl == (if dto.thumbnailUrl.Some? then dto.thumbnailUrl.value else c.thumbnailUrl)
    && d.active == (if dto.active.Some? then dto.active.value else c.active)
    && if dto.title.None? && dto.description.None? && dto.translations.None? then d.translations == c.translations
       else Rebuilt(d.translations, c.translations, dto.translations, d.title, d.description)
  }

  lemma UpdatedColumns(c: Certificate, dto: UpdateDto)
    ensures Edits(c, dto, Updated(c, dto))
  {
  }

  /** A non-empty English title becomes the canonical one; the given locales replace theirs and nothing else moves. */
  lemma TranslatedColumns(c: Certificate, incoming: Texts)
    ensures var d := Translated(c, incoming);
      && d == c.(title := d.title, translations := d.translations)
      && d.translations.Keys == c.translations.Keys + incoming.Keys
      && (forall key :: key in d.translations ==>
            d.translations[key] == if key in incoming then incoming[key] else c.translations[key])
      && (if "en" in d.translations && d.translations["en"].title.UnwrapOr("") != ""
          then Some(d.title) == d.translations["en"].title else d.title == c.title)
  {
  }

  /** The locales of the platform. */
  lemma LocalesAre(key: string)
    ensures IsLocale(key) <==> key == "en" || key == "tr" || key == "fr" || key == "es" || key == "ar" || key == "de"
  {
  }

  // ---- Locales are kept ----------------------------------------------------------------------------------

  /** The block that an edit brings for a locale. */
  function Brought(e: Edit, locale: string): Option<Block> {
    var given := match e
      case Update(dto) => dto.translations.UnwrapOr(map[])
      case SetTranslations(incoming) => if Accepted(incoming) then incoming else map[];
    if locale in given then Some(given[locale]) else None
  }

  function LastBrought(edits: seq<Edit>, locale: string): Option<Block> {
    if edits == [] then None
    else
      var later := LastBrought(edits[1..], locale);
      if later.Some? then later else Brought(edits[0], locale)
  }

  function BlockOf(c: Certificate, locale: string): Option<Block> {
    if locale in c.translations then Some(c.translations[locale]) else None
  }

  lemma {:induction false} LastBroughtAtEnd(edits: seq<Edit>, locale: string)
    requires edits != []
    ensures var n := |edits| - 1;
            LastBrought(edits, locale)
            == if Brought(edits[n], locale).Some? then Brought(edits[n], locale) else LastBrought(edits[..n], locale)
  {
    var n := |edits| - 1;
    if n > 0 {
      LastBroughtAtEnd(edits[1..], locale);
      assert edits[1..][..n - 1] == edits[..n][1..];
    } else {
      assert edits[1..] == [] && edits[..n] == [];
    }
  }

  /** After any history a locale other than English says what it was last given, whatever else was edited. */
  lemma {:induction false} LocalesKeepWhatTheyWereGiven(c: Certificate, edits: seq<Edit>, locale: string)
    requires locale != DEFAULT
    ensures BlockOf(History(c, edits), locale)
         == if LastBrought(edits, locale).Some? then LastBrought(edits, locale) else BlockOf(c, locale)
    decreases |edits|
  {
    if edits == [] {
    } else {
      LocalesKeepWhatTheyWereGiven(c, edits[..|edits| - 1], locale);
      LastBroughtAtEnd(edits, locale);
    }
  }

  // ---- A title is always shown ---------------------------------------------------------------------------

  /** What request validation grants: a title that is sent is not empty. */
  predicate Titled(e: Edit) {
    e.Update? && e.dto.title.Some? ==> e.dto.title.value != ""
  }

  /** No history leaves a locale without a title to show. */
  lemma {:induction false} SomeTitleIsShown(dto: CreateDto, edits: seq<Edit>, locale: string)
    requires dto.title != "" && forall e :: e in edits ==> Titled(e)
    ensures History(Created(dto), edits).title != "" && ShownTitle(History(Created(dto), edits), locale) != ""
    decreases |edits|
  {
    if edits == [] {
    } else {
      assert edits[|edits| - 1] in edits;
      SomeTitleIsShown(dto, edits[..|edits| - 1], locale);
    }
  }

  // ---- The canonical title and its mirror ----------------------------------------------------------------

  predicate Aligned(c: Certificate) {
    Said(c.translations, TITLE, DEFAULT) == Some(c.title)
  }

  /** The English block that a create or update gives, if any, repeats the title that the row will have. */
  predicate Repeats(given: Texts, title: string) {
    DEFAULT in given ==> given[DEFAULT].title == Some(title)
  }

  predicate Faithful(c: Certificate, e: Edit) {
    match e
    case Update(dto) => Repeats(dto.translations.UnwrapOr(map[]), dto.title.UnwrapOr(c.title))
    case SetTranslations(incoming) => Accepted(incoming) && DEFAULT in incoming ==> Filled(incoming[DEFAULT].title)
  }

  lemma FaithfulStep(c: Certificate, e: Edit)
    requires c.title != "" && Aligned(c)
    ensures Aligned(Edited(c, e)) <==> Faithful(c, e)
  {
  }

  function Before(edits: seq<Edit>): seq<Edit>
    requires edits != []
  {
    edits[..|edits| - 1]
  }

  /** After every edit of the history, and before the first. */
  predicate AlignedThroughout(c: Certificate, edits: seq<Edit>) {
    Aligned(History(c, edits)) && (edits != [] ==> AlignedThroughout(c, Before(edits)))
  }

  /** Every edit is faithful to the certificate it is made to. */
  predicate FaithfulThroughout(c: Certificate, edits: seq<Edit>) {
    edits != []
    ==> Faithful(History(c, Before(edits)), edits[|edits| - 1]) && FaithfulThroughout(c, Before(edits))
  }

  /** A history keeps the mirror throughout exactly when its creation and each of its edits are faithful. */
  lemma {:induction false} MirrorKeptExactly(dto: CreateDto, edits: seq<Edit>)
    requires dto.title != "" && forall e :: e in edits ==> Titled(e)
    ensures AlignedThroughout(Created(dto), edits)
       <==> Repeats(dto.translations.UnwrapOr(map[]), dto.title) && FaithfulThroughout(Created(dto), edits)
    decreases |edits|
  {
    if edits == [] {
    } else {
      var before := History(Created(dto), Before(edits));
      MirrorKeptExactly(dto, Before(edits));
      SomeTitleIsShown(dto, Before(edits), DEFAULT);
      if Aligned(before) {
        FaithfulStep(before, edits[|edits| - 1]);
      }
    }
  }

  /** An edit is plain when it gives no English block, or a title with the one it sets. */
  predicate Plain(e: Edit) {
    match e
    case Update(dto) => DEFAULT !in dto.translations.UnwrapOr(map[])
    case SetTranslations(incoming) => DEFAULT in incoming ==> Filled(incoming[DEFAULT].title)
  }

  lemma {:induction false} PlainIsFaithful(c: Certificate, edits: seq<Edit>)
    requires forall e :: e in edits ==> Plain(e)
    ensures FaithfulThroughout(c, edits)
    decreases |edits|
  {
    if edits == [] {
    } else {
      assert edits[|edits| - 1] in edits;
      PlainIsFaithful(c, Before(edits));
    }
  }

  /** In particular, edits that never give English by hand keep `title` and `translations.en.title` the same. */
  lemma PlainEditsKeepTheMirror(dto: CreateDto, edits: seq<Edit>)
    requires dto.title != "" && DEFAULT !in dto.translations.UnwrapOr(map[])
    requires forall e :: e in edits ==> Titled(e) && Plain(e)
    ensures Aligned(History(Created(dto), edits))
    ensures ShownTitle(History(Created(dto), edits), DEFAULT) == History(Created(dto), edits).title
  {
    PlainIsFaithful(Created(dto), edits);
    MirrorKeptExactly(dto, edits);
    SomeTitleIsShown(dto, edits, DEFAULT);
  }

  /** A certificate created with a title alone. */
  function TitledOnly(title: string): CreateDto {
    CreateDto(title, "", 0, None, None, None, None, None)
  }

  /** Clearing the English block, as the endpoint offers to do for any locale, parts the title from its mirror. */
  lemma ClearingEnglishBreaksTheMirror(title: string)
    requires title != ""
    ensures var clearing := SetTranslations(map[DEFAULT := Block(None, None)]);
            && Titled(clearing) && Aligned(Created(TitledOnly(title)))
            && !Aligned(History(Created(TitledOnly(title)), [clearing]))
  {
    var clearing := SetTranslations(map[DEFAULT := Block(None, None)]);
    assert [clearing][..0] == [];
    assert History(Created(TitledOnly(title)), []) == Created(TitledOnly(title));
  }

  // ---- Merging or replacing ------------------------------------------------------------------------------

  /** The column as an update that replaces it would leave it. */
  function Replaced(c: Certificate, dto: UpdateDto): Texts {
    Layered(
      map[], dto.translations.UnwrapOr(map[]), dto.title.UnwrapOr(c.title), dto.description.UnwrapOr(c.description))
  }

  /** "Replaces the entire column" holds of an update with translations exactly when there was no other locale. */
  lemma ReplacesExactly(c: Certificate, dto: UpdateDto)
    requires dto.translations.Some?
    ensures Updated(c, dto).translations == Replaced(c, dto)
       <==> c.translations.Keys <= dto.translations.value.Keys + {DEFAULT}
  {
    var merged, replaced := Updated(c, dto).translations, Replaced(c, dto);
    assert merged.Keys == c.translations.Keys + dto.translations.value.Keys + {DEFAULT};
    assert replaced.Keys == dto.translations.value.Keys + {DEFAULT};
    if c.translations.Keys <= dto.translations.value.Keys + {DEFAULT} {
      assert forall key :: key in replaced ==> merged[key] == replaced[key];
    } else {
      var key :| key in c.translations && key !in dto.translations.value.Keys + {DEFAULT};
      assert key in merged && key !in replaced;
    }
  }

  /** For instance, an update that gives Turkish only leaves the French there was. */
  lemma UpdateMayMerge(c: Certificate, turkish: Block)
    requires "fr" in c.translations
    ensures var dto := UpdateDto(None, None, None, None, None, None, None, Some(map["tr" := turkish]));
            Updated(c, dto).translations != Replaced(c, dto)
  {
    ReplacesExactly(c, UpdateDto(None, None, None, None, None, None, None, Some(map["tr" := turkish])));
    assert "fr" != "tr" && "fr" != "en" by {
      assert "fr"[0] == 'f';
    }
  }

  // ---- A new title ---------------------------------------------------------------------------------------

  /** A new canonical title reaches every locale without a title of its own, and no other. */
  lemma RenameReaches(c: Certificate, dto: UpdateDto, locale: string)
    requires dto.title.Some? && dto.title.value != "" && dto.translations.None?
    ensures ShownTitle(Updated(c, dto), locale)
         == if locale != DEFAULT && Filled(Said(c.translations, TITLE, locale)) then ShownTitle(c, locale)
            else dto.title.value
  {
    var after := Updated(c, dto);
    assert Said(after.translations, TITLE, DEFAULT) == dto.title;
    assert locale != DEFAULT ==> Said(after.translations, TITLE, locale) == Said(c.translations, TITLE, locale);
  }
}
