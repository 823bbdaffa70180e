/** The write methods of `catalog.service.ts`, on the table they change. */
module CatalogEditing {
  import opened Wrappers
  import opened Translations

  datatype Error = NotFound | Conflict(programCode: string) | BadRequest(key: string)

  class CatalogService {
    /** The certificates by id. */
    var rows: map<nat, Certificate>

    constructor ()
      ensures rows == map[]
    {
      rows := map[];
    }

    predicate Taken(programCode: string)
      reads this
    {
      exists id :: id in rows && rows[id].programCode == programCode
    }

    predicate CodesDistinct()
      reads this
    {
      forall i, j :: i in rows && j in rows && i != j ==> rows[i].programCode != rows[j].programCode
    }

    method BuildTranslations(existing: Texts, given: Texts, title: string, description: Option<string>)
      returns (merged: Texts)
      ensures merged == Layered(existing, given, title, description)
    {
      merged := existing;
      var locales := given.Keys;
      while locales != {}
        invariant locales <= given.Keys
        invariant merged.Keys == existing.Keys + (given.Keys - locales)
        invariant forall key :: key in given && key !in locales ==> merged[key] == given[key]
        invariant forall key :: key in existing && (key !in given || key in locales) ==> merged[key] == existing[key]
      {
        var locale :| locale in locales;
        merged := merged[locale := given[locale]];
        locales := locales - {locale};
      }
      assert merged == existing + given;
      if DEFAULT !in given {
        merged := merged[DEFAULT := Block(Some(title), description)];
      }
    }

    /** A new row with a fresh id, unless its program code is taken. */
    method Create(id: nat, dto: CreateDto) returns (r: Result<Certificate, Error>)
      requires id !in rows
      modifies this
      ensures if old(Taken(dto.programCode)) then r == Err(Conflict(dto.programCode)) && rows == old(rows)
              else r == Ok(Created(dto)) && rows == old(rows)[id := Created(dto)]
      ensures r.Err? <==> exists other :: other in old(rows) && old(rows)[other].programCode == dto.programCode
      ensures r.Ok? ==>
                && r.value.title == dto.title && r.value.programCode == dto.programCode && r.value.price == dto.price
                && r.value.currency == (if dto.currency.Some? then dto.currency.value else "USD")
                && r.value.description == dto.description && r.value.thumbnailUrl == dto.thumbnailUrl
                && r.value.active == (if dto.active.Some? then dto.active.value else true)
                && Rebuilt(r.value.translations, map[], dto.translations, dto.title, dto.description)
      ensures old(CodesDistinct()) ==> CodesDistinct()
    {
      if Taken(dto.programCode) {
        return Err(Conflict(dto.programCode));
      }
      var translations :=
        BuildTranslations(map[], dto.translations.UnwrapOr(map[]), dto.title, dto.description);
      var saved := Certificate(
        dto.title, dto.programCode, dto.price, dto.currency.UnwrapOr("USD"), dto.description, dto.thumbnailUrl,
        dto.active.UnwrapOr(true), translations);
      CreatedColumns(dto);
      rows := rows[id := saved];
      r := Ok(saved);
    }

    /** The fields that were sent, with the translations that follow from them. */
    method Update(id: nat, dto: UpdateDto) returns (r: Result<Certificate, Error>)
      modifies this
      ensures id !in old(rows) ==> r == Err(NotFound) && rows == old(rows)
      ensures id in old(rows)
          ==> var c := old(rows)[id];
              var clash := dto.programCode.Some? && dto.programCode.value !in ["", c.programCode]
                           && old(Taken(dto.programCode.value));
              if clash then r == Err(Conflict(dto.programCode.value)) && rows == old(rows)
              else r == Ok(Updated(c, dto)) && rows == old(rows)[id := Updated(c, dto)]
      ensures r.Ok? ==> Edits(old(rows)[id], dto, r.value)
      ensures r.Err? && id in old(rows) <==>
                && id in old(rows) && dto.programCode.Some? && dto.programCode.value != ""
                && dto.programCode.value != old(rows)[id].programCode
                && exists other :: other in old(rows) && old(rows)[other].programCode == dto.programCode.value
      ensures old(CodesDistinct()) && dto.programCode != Some("") ==> CodesDistinct()
    {
      if id !in rows {
        return Err(NotFound);
      }
      var cert := rows[id];
      if dto.programCode.Some? && dto.programCode.value != "" && dto.programCode.value != cert.programCode {
        if Taken(dto.programCode.value) {
          return Err(Conflict(dto.programCode.value));
        }
      }
      var patched := Patch(cert, dto);
      UpdatedColumns(cert, dto);
      rows := rows[id := patched];
      r := Ok(patched);
    }

    method PatchColumns(cert: Certificate, dto: UpdateDto) returns (patched: Certificate)
      ensures patched == Updated(cert, dto).(translations := cert.translations)
    {
      patched := cert;
      if dto.title.Some? {
        patched := patched.(title := dto.title.value);
      }
      if dto.programCode.Some? {
        patched := patched.(programCode := dto.programCode.value);
      }
      if dto.price.Some? {
        patched := patched.(price := dto.price.value);
      }
      if dto.currency.Some? {
        patched := patched.(currency := dto.currency.value);
      }
      if dto.description.Some? {
        patched := patched.(description := dto.description.value);
      }
      if dto.thumbnailUrl.Some? {
        patched := patched.(thumbnailUrl := dto.thumbnailUrl.value);
      }
      if dto.active.Some? {
        patched := patched.(active := dto.active.value);
      }
    }

    method Patch(cert: Certificate, dto: UpdateDto) returns (patched: Certificate)
      ensures patched == Updated(cert, dto)
    {
      patched := PatchColumns(cert, dto);
      if dto.title.Some? || dto.description.Some? || dto.translations.Some? {
        var translations := BuildTranslations(
          cert.translations, dto.translations.UnwrapOr(map[]), dto.title.UnwrapOr(cert.title),
          dto.description.UnwrapOr(cert.description));
        patched := patched.(translations := translations);
      }
    }

    /** The given locales replace those of the row; one bad key rejects the request. */
    method UpdateTranslations(id: nat, incoming: Texts) returns (r: Result<Certificate, Error>)
      modifies this
      ensures id !in old(rows) ==> r == Err(NotFound) && rows == old(rows)
      ensures id in old(rows) && !Accepted(incoming)
          ==> r.Err? && r.error.BadRequest? && r.error.key in incoming && !IsLocale(r.error.key) && rows == old(rows)
      ensures id in old(rows) && Accepted(incoming)
          ==> var c := Translated(old(rows)[id], incoming);
              r == Ok(c) && rows == old(rows)[id := c]
      ensures r.Ok? <==>
                id in old(rows) && forall key :: key in incoming ==> key in {"en", "tr", "fr", "es", "ar", "de"}
      ensures r.Ok? ==>
                && r.value.translations == old(rows)[id].translations + incoming
                && r.value == old(rows)[id].(title := r.value.title, translations := r.value.translations)
      ensures old(CodesDistinct()) ==> CodesDistinct()
    {
      if id !in rows {
        return Err(NotFound);
      }
      var cert := rows[id];
      var keys := incoming.Keys;
      while keys != {}
        invariant keys <= incoming.Keys
        invariant forall key :: key in incoming && key !in keys ==> IsLocale(key)
      {
        var key :| key in keys;
        if !IsLocale(key) {
          return Err(BadRequest(key));
        }
        keys := keys - {key};
      }
      var merged := cert.translations + incoming;
      var english := Said(merged, TITLE, DEFAULT);
      if Filled(english) && english.value != cert.title {
        rows := rows[id := cert.(title := english.value, translations := merged)];
      } else {
        rows := rows[id := cert.(translations := merged)];
      }
      r := Ok(rows[id]);
    }

    method SoftDelete(id: nat) returns (r: Result<(), Error>)
      modifies this
      ensures id !in old(rows) ==> r == Err(NotFound) && rows == old(rows)
      ensures id in old(rows) ==> r == Ok(()) && rows == old(rows)[id := old(rows)[id].(active := false)]
      ensures old(CodesDistinct()) ==> CodesDistinct()
    {
      if id !in rows {
        return Err(NotFound);
      }
      rows := rows[id := rows[id].(active := false)];
      r := Ok(());
    }
  }
}
