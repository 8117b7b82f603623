/**
 * Helpers of the listing publisher: the property-type and subtype tables,
 * subtype detection from free text, the completeness check of a listing
 * record and the generation of an ad title.
 */
module Publisher {
  import opened Wrappers
  import opened Text

  // ---------------------------------------------------------------------------
  // Tables
  // ---------------------------------------------------------------------------

  /** A property type: its form code and the subtypes the form offers for it. */
  datatype TypeInfo = TypeInfo(code: string, subtypes: seq<string>)

  const PropertyTypes: map<string, TypeInfo> := map[
    "Apartamento" := TypeInfo("APARTMENT", ["Padrão", "Duplex", "Triplex", "Cobertura"]),
    "Casa" := TypeInfo("HOME", ["Padrão", "Casa de condomínio", "Casa de vila"]),
    "Terreno" := TypeInfo("ALLOTMENT_LAND", ["Padrão"])
  ]

  /** Form codes of the subtypes. */
  const SubtypeCodes: map<string, string> := map[
    "Padrão" := "CategoryNONE",
    "Duplex" := "DUPLEX",
    "Triplex" := "TRIPLEX",
    "Cobertura" := "PENTHOUSE",
    "Casa de condomínio" := "CONDOMINIUM",
    "Casa de vila" := "VILLAGE_HOUSE"
  ]

  /** Every subtype offered for a property type has a form code. */
  lemma OfferedSubtypesHaveCodes(tipo: string, i: nat)
    requires tipo in PropertyTypes && i < |PropertyTypes[tipo].subtypes|
    ensures PropertyTypes[tipo].subtypes[i] in SubtypeCodes
  {
  }

  // ---------------------------------------------------------------------------
  // Subtype detection
  // ---------------------------------------------------------------------------

  /**
   * The subtype suggested by the title and the description: the lower-cased
   * text `titulo + " " + descricao` is searched for, in priority order,
   * "duplex", "triplex", "cobertura", "condomínio" or "condominio", and "vila";
   * the first keyword found decides, and "Padrão" is the default.
   */
  function DetectSubtype(titulo: string, descricao: string): (subtype: string)
    ensures subtype in SubtypeCodes
    ensures var t := Lower(titulo + " " + descricao);
      var duplex, triplex, cobertura := Contains(t, "duplex"), Contains(t, "triplex"), Contains(t, "cobertura");
      var condominio, vila := Contains(t, "condomínio") || Contains(t, "condominio"), Contains(t, "vila");
      (subtype == "Duplex" <==> duplex)
      && (subtype == "Triplex" <==> !duplex && triplex)
      && (subtype == "Cobertura" <==> !duplex && !triplex && cobertura)
      && (subtype == "Casa de condomínio" <==> !duplex && !triplex && !cobertura && condominio)
      && (subtype == "Casa de vila" <==> !duplex && !triplex && !cobertura && !condominio && vila)
      && (subtype == "Padrão" <==> !duplex && !triplex && !cobertura && !condominio && !vila)
  {
    var texto := Lower(titulo + " " + descricao);
    if Contains(texto, "duplex") then "Duplex"
    else if Contains(texto, "triplex") then "Triplex"
    else if Contains(texto, "cobertura") then "Cobertura"
    else if Contains(texto, "condomínio") || Contains(texto, "condominio") then "Casa de condomínio"
    else if Contains(texto, "vila") then "Casa de vila"
    else "Padrão"
  }

  /** A keyword in the title is seen whatever the description says. */
  lemma KeywordInTitle(titulo: string, descricao: string, keyword: string)
    requires Contains(Lower(titulo), keyword)
    ensures Contains(Lower(titulo + " " + descricao), keyword)
  {
    assert titulo + " " + descricao == titulo + (" " + descricao);
    LowerConcat(titulo, " " + descricao);
    ContainsPrefix(Lower(titulo), Lower(" " + descricao), keyword);
  }

  /** A keyword in the description is seen whatever the title says. */
  lemma KeywordInDescription(titulo: string, descricao: string, keyword: string)
    requires Contains(Lower(descricao), keyword)
    ensures Contains(Lower(titulo + " " + descricao), keyword)
  {
    assert titulo + " " + descricao == (titulo + " ") + descricao;
    LowerConcat(titulo + " ", descricao);
    ContainsSuffix(Lower(titulo + " "), Lower(descricao), keyword);
  }

  /** "duplex" anywhere in the title wins over every other keyword. */
  lemma DuplexTitleWins(titulo: string, descricao: string)
    requires Contains(Lower(titulo), "duplex")
    ensures DetectSubtype(titulo, descricao) == "Duplex"
  {
    KeywordInTitle(titulo, descricao, "duplex");
  }

  /**
   * Detection does not look at the property type, so a house whose text says
   * "duplex" gets a subtype the form does not offer for houses.
   */
  lemma SubtypeMayNotFitType()
    ensures DetectSubtype("Casa duplex", "") == "Duplex"
    ensures "Duplex" !in PropertyTypes["Casa"].subtypes
  {
    assert Lower("Casa duplex" + " " + "") == "casa duplex ";
    ContainsAt("casa duplex ", "duplex", 5);
  }

  // ---------------------------------------------------------------------------
  // Completeness check
  // ---------------------------------------------------------------------------

  /** A value of the listing record, as loaded from JSON. */
  datatype Value =
    | Null | Bool(b: bool) | Int(i: int) | Str(s: string)
    | List(items: seq<Value>) | Dict(entries: map<string, Value>)

  /** Python truthiness. */
  predicate Truthy(v: Value)
  {
    match v
    case Null => false
    case Bool(b) => b
    case Int(i) => i != 0
    case Str(s) => s != ""
    case List(items) => items != []
    case Dict(entries) => entries != map[]
  }

  type Record = map<string, Value>

  /** `dados.get(key)` is truthy. */
  predicate Filled(dados: Record, key: string)
  {
    key in dados && Truthy(dados[key])
  }

  /** The required keys and their display labels, in declaration order. */
  const RequiredFields: seq<(string, string)> := [
    ("preco", "Preço"),
    ("cep", "CEP"),
    ("endereco", "Endereço"),
    ("numero", "Número"),
    ("bairro", "Bairro"),
    ("cidade", "Cidade"),
    ("estado", "Estado"),
    ("codigo_corretor", "Código do Corretor")
  ]

  const PhotosLabel: string := "Mínimo 3 fotos"

  const MinPhotos: nat := 3

  /** The labels of the fields that are absent or falsy, in the order of `fields`. */
  function MissingLabels(dados: Record, fields: seq<(string, string)>): (labels: seq<string>)
    ensures |labels| <= |fields|
    ensures forall l :: l in labels ==> exists i :: 0 <= i < |fields| && fields[i].1 == l
  {
    if |fields| == 0 then []
    else
      var init := MissingLabels(dados, fields[..|fields| - 1]);
      var last := fields[|fields| - 1];
      if Filled(dados, last.0) then init else init + [last.1]
  }

  /** A field's label is reported exactly when the field is absent or falsy (labels being distinct). */
  lemma {:induction false} MissingLabelsExact(dados: Record, fields: seq<(string, string)>, i: nat)
    requires i < |fields|
    requires forall j, k :: 0 <= j < k < |fields| ==> fields[j].1 != fields[k].1
    ensures fields[i].1 in MissingLabels(dados, fields) <==> !Filled(dados, fields[i].0)
    decreases |fields|
  {
    var n := |fields| - 1;
    var init := fields[..n];
    if i < n {
      assert init[i] == fields[i];
      MissingLabelsExact(dados, init, i);
      assert fields[i].1 != fields[n].1;
    }
  }

  /** An unfilled field's label is reported, whatever the other labels are. */
  lemma {:induction false} UnfilledReported(dados: Record, fields: seq<(string, string)>, i: nat)
    requires i < |fields| && !Filled(dados, fields[i].0)
    ensures fields[i].1 in MissingLabels(dados, fields)
    decreases |fields|
  {
    var n := |fields| - 1;
    if i < n {
      assert fields[..n][i] == fields[i];
      UnfilledReported(dados, fields[..n], i);
    }
  }

  /** With distinct labels, no label is reported twice. */
  lemma {:induction false} MissingLabelsDistinct(dados: Record, fields: seq<(string, string)>)
    requires forall j, k :: 0 <= j < k < |fields| ==> fields[j].1 != fields[k].1
    ensures forall a, b :: 0 <= a < b < |MissingLabels(dados, fields)| ==>
      MissingLabels(dados, fields)[a] != MissingLabels(dados, fields)[b]
    decreases |fields|
  {
    if |fields| > 0 {
      var n := |fields| - 1;
      var init := fields[..n];
      assert forall j, k :: 0 <= j < k < |init| ==> init[j] == fields[j] && init[k] == fields[k];
      MissingLabelsDistinct(dados, init);
      var previous := MissingLabels(dados, init);
      var labels := MissingLabels(dados, fields);
      assert fields[n].1 !in previous by {
        forall l | l in previous
          ensures l != fields[n].1
        {
          var j :| 0 <= j < |init| && init[j].1 == l;
          assert init[j] == fields[j];
        }
      }
      assert labels == previous || labels == previous + [fields[n].1];
      forall a, b | 0 <= a < b < |labels|
        ensures labels[a] != labels[b]
      {
        assert labels[a] == previous[a] && previous[a] in previous;
        if b < |previous| {
          assert labels[b] == previous[b];
        }
      }
    }
  }

  /** Two unfilled fields are reported in declaration order. */
  lemma {:induction false} MissingLabelsInOrder(dados: Record, fields: seq<(string, string)>, i: nat, j: nat)
    requires i < j < |fields|
    requires !Filled(dados, fields[i].0) && !Filled(dados, fields[j].0)
    ensures exists a, b ::
      0 <= a < b < |MissingLabels(dados, fields)|
      && MissingLabels(dados, fields)[a] == fields[i].1 && MissingLabels(dados, fields)[b] == fields[j].1
    decreases |fields|
  {
    var n := |fields| - 1;
    var init := fields[..n];
    var previous := MissingLabels(dados, init);
    var labels := MissingLabels(dados, fields);
    assert init[i] == fields[i];
    assert labels == previous || labels == previous + [fields[n].1];
    if j < n {
      assert init[j] == fields[j];
      MissingLabelsInOrder(dados, init, i, j);
      var a, b :| 0 <= a < b < |previous| && previous[a] == fields[i].1 && previous[b] == fields[j].1;
      assert 0 <= a < b < |labels| && labels[a] == fields[i].1 && labels[b] == fields[j].1;
    } else {
      UnfilledReported(dados, init, i);
      var a :| 0 <= a < |previous| && previous[a] == fields[i].1;
      assert labels == previous + [fields[n].1];
      assert labels[a] == fields[i].1 && labels[|previous|] == fields[j].1;
    }
  }

  /** No label is reported when every field is filled, and conversely. */
  lemma {:induction false} MissingLabelsEmpty(dados: Record, fields: seq<(string, string)>)
    ensures MissingLabels(dados, fields) == [] <==> forall i :: 0 <= i < |fields| ==> Filled(dados, fields[i].0)
    decreases |fields|
  {
    if |fields| > 0 {
      var n := |fields| - 1;
      MissingLabelsEmpty(dados, fields[..n]);
      assert forall i :: 0 <= i < n ==> fields[..n][i] == fields[i];
    }
  }

  /**
   * `len(dados.get('fotos', []))`: the length of a list or a string, the
   * number of keys of a dict, 0 when the key is absent; any other value (None
   * included) raises a TypeError.
   */
  function PhotoCount(dados: Record): (count: Result<nat>)
    ensures count.Success? <==>
      "fotos" !in dados || dados["fotos"].List? || dados["fotos"].Str? || dados["fotos"].Dict?
  {
    if "fotos" !in dados then Success(0)
    else match dados["fotos"]
      case List(items) => Success(|items|)
      case Str(s) => Success(|s|)
      case Dict(entries) => Success(|entries|)
      case _ => Failure("TypeError")
  }

  /** The verdict of the completeness check. */
  datatype Validation = Validation(valid: bool, missing: seq<string>)

  /**
   * The completeness check: collects the labels of the required fields that
   * are absent or falsy, in declaration order, then the photo requirement when
   * fewer than three photos are present; the record is valid when nothing was
   * collected.
   */
  method Validate(dados: Record) returns (r: Result<Validation>)
    ensures r.Failure? <==> PhotoCount(dados).Failure?
    ensures r.Success? ==>
      r.value.missing == MissingLabels(dados, RequiredFields) + (if PhotoCount(dados).value < MinPhotos then [PhotosLabel] else [])
    ensures r.Success? ==> (r.value.valid <==> r.value.missing == [])
  {
    var missing: seq<string> := [];
    var i := 0;
    while i < |RequiredFields|
      invariant 0 <= i <= |RequiredFields|
      invariant missing == MissingLabels(dados, RequiredFields[..i])
    {
      assert RequiredFields[..i + 1][..i] == RequiredFields[..i];
      var key, name := RequiredFields[i].0, RequiredFields[i].1;
      if !(key in dados && Truthy(dados[key])) {
        missing := missing + [name];
      }
      i := i + 1;
    }
    assert RequiredFields[..i] == RequiredFields;
    var count := PhotoCount(dados);
    if count.Failure? {
      return Failure(count.error);
    }
    if count.value < MinPhotos {
      missing := missing + [PhotosLabel];
    }
    r := Success(Validation(|missing| == 0, missing));
  }

  /**
   * A record passes the check exactly when all eight required fields are
   * filled and it has at least three photos.
   */
  lemma ValidIffComplete(dados: Record)
    requires PhotoCount(dados).Success?
    ensures var missing := MissingLabels(dados, RequiredFields)
        + (if PhotoCount(dados).value < MinPhotos then [PhotosLabel] else []);
      missing == [] <==>
        (forall i :: 0 <= i < |RequiredFields| ==> Filled(dados, RequiredFields[i].0))
        && PhotoCount(dados).value >= MinPhotos
  {
    MissingLabelsEmpty(dados, RequiredFields);
  }

  /** Each required field's label is reported exactly when that field is absent or falsy. */
  lemma RequiredLabelReported(dados: Record, i: nat)
    requires i < |RequiredFields|
    ensures RequiredFields[i].1 in MissingLabels(dados, RequiredFields) <==> !Filled(dados, RequiredFields[i].0)
  {
    MissingLabelsExact(dados, RequiredFields, i);
  }

  // ---------------------------------------------------------------------------
  // Title generation
  // ---------------------------------------------------------------------------

  /** A record entry: absent, present with `None`, or present with a value. */
  datatype Field<T> = Missing | Null | Has(value: T)

  /** The record entries the title is built from. */
  datatype TitleFields = TitleFields(tipo: Field<string>, quartos: Field<int>, area: Field<int>, bairro: Field<string>)

  const MaxTitleLength: nat := 100

  /** The first `n` characters of `s` (Python's `s[:n]`). */
  function Truncate(s: string, n: nat): (r: string)
    ensures |r| <= n && r <= s
    ensures |s| <= n ==> r == s
  {
    if |s| <= n then s else s[..n]
  }

  /** The room count part of the title, when the count is given and not zero. */
  function RoomsPart(f: TitleFields): string
  {
    if f.quartos.Has? && f.quartos.value != 0 then " " + IntToString(f.quartos.value) + " quartos" else ""
  }

  /** The area part of the title, when the area is given and not zero. */
  function AreaPart(f: TitleFields): string
  {
    if f.area.Has? && f.area.value != 0 then " " + IntToString(f.area.value) + "m²" else ""
  }

  /** The neighbourhood part of the title, when it is given and not empty. */
  function NeighbourhoodPart(f: TitleFields): string
  {
    if f.bairro.Has? && f.bairro.value != "" then " - " + f.bairro.value else ""
  }

  /** The untruncated title: the type, then the room count, the area and the neighbourhood when given. */
  function FullTitle(tipo: string, f: TitleFields): string
  {
    tipo + RoomsPart(f) + AreaPart(f) + NeighbourhoodPart(f)
  }

  /**
   * Builds the ad title: the parts are joined with single spaces and the
   * result is cut to 100 characters. The type defaults to "Imóvel" when the
   * entry is absent; an entry holding `None` makes the join raise.
   */
  method GenerateTitle(f: TitleFields) returns (title: Result<string>)
    ensures title.Failure? <==> f.tipo.Null?
    ensures title.Success? ==>
      var tipo := if f.tipo.Has? then f.tipo.value else "Imóvel";
      title.value == Truncate(FullTitle(tipo, f), MaxTitleLength)
  {
    var tipo: string;
    match f.tipo {
      case Missing => tipo := "Imóvel";
      case Null => return Failure("TypeError");
      case Has(t) => tipo := t;
    }
    var partes := [tipo];
    ghost var shown := tipo;
    if f.quartos.Has? && f.quartos.value != 0 {
      var part := IntToString(f.quartos.value) + " quartos";
      assert Join(partes + [part], ' ') == Join(partes, ' ') + RoomsPart(f) by {
        JoinAppend(partes, [part]);
        assert " " + part == RoomsPart(f);
      }
      partes := partes + [part];
    }
    shown := shown + RoomsPart(f);
    assert Join(partes, ' ') == shown;
    if f.area.Has? && f.area.value != 0 {
      var part := IntToString(f.area.value) + "m²";
      assert Join(partes + [part], ' ') == Join(partes, ' ') + AreaPart(f) by {
        JoinAppend(partes, [part]);
        assert " " + part == AreaPart(f);
      }
      partes := partes + [part];
    }
    shown := shown + AreaPart(f);
    assert Join(partes, ' ') == shown;
    if f.bairro.Has? && f.bairro.value != "" {
      var part := "- " + f.bairro.value;
      assert Join(partes + [part], ' ') == Join(partes, ' ') + NeighbourhoodPart(f) by {
        JoinAppend(partes, [part]);
        assert " " + part == NeighbourhoodPart(f);
      }
      partes := partes + [part];
    }
    shown := shown + NeighbourhoodPart(f);
    assert Join(partes, ' ') == shown;
    title := Success(Truncate(Join(partes, ' '), MaxTitleLength));
  }

  /** Appending at most one piece adds a separator and that piece. */
  lemma JoinAppend(pieces: seq<string>, more: seq<string>)
    requires |pieces| > 0 && |more| <= 1
    ensures Join(pieces + more, ' ') == Join(pieces, ' ') + (if more == [] then "" else " " + more[0])
    decreases |pieces|
  {
    if more == [] {
      assert pieces + more == pieces;
    } else if |pieces| == 1 {
      assert (pieces + more)[1..] == more;
    } else {
      assert (pieces + more)[1..] == pieces[1..] + more;
      JoinAppend(pieces[1..], more);
    }
  }

  /** The title never exceeds 100 characters and begins like the full title. */
  lemma TitleBounded(tipo: string, f: TitleFields)
    ensures |Truncate(FullTitle(tipo, f), MaxTitleLength)| <= MaxTitleLength
    ensures Truncate(FullTitle(tipo, f), MaxTitleLength) <= FullTitle(tipo, f)
  {
  }

  /** A type of at most 100 characters always starts the title. */
  lemma TitleStartsWithType(tipo: string, f: TitleFields)
    requires |tipo| <= MaxTitleLength
    ensures tipo <= Truncate(FullTitle(tipo, f), MaxTitleLength)
  {
    var full := FullTitle(tipo, f);
    assert full[..|tipo|] == tipo;
  }

  /** Without a room count, an area or a neighbourhood, the title is the type alone (cut to 100). */
  lemma TitleOfTypeOnly(tipo: string, f: TitleFields)
    requires !(f.quartos.Has? && f.quartos.value != 0)
    requires !(f.area.Has? && f.area.value != 0)
    requires !(f.bairro.Has? && f.bairro.value != "")
    ensures Truncate(FullTitle(tipo, f), MaxTitleLength) == Truncate(tipo, MaxTitleLength)
  {
    assert FullTitle(tipo, f) == tipo;
  }
}
