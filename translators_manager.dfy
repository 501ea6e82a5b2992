/**
  * The translators screen of the admin console (`TranslatorsManager`): the
  * comma-separated list parsing, the filter query sent when the list is
  * loaded, and the form's submit, edit and reset handlers. The requests
  * themselves are parameters: whether saving succeeds, and the page the
  * list request answers with (or none, when it fails).
  */
module TranslatorsManager {
  import opened Wrappers
  import opened JsStrings
  import opened Lists

  /** A translator as the list holds it. */
  datatype Translator = Translator(
    id: string, fullName: string, languages: string, specialization: string, experience: string,
    location: string, photoUrl: string, qrUrl: string, nickname: string)

  /** `TranslatorRequest`: the eight fields of the form, also the record sent. */
  datatype TranslatorRequest = TranslatorRequest(
    fullName: string, languages: string, specialization: string, experience: string,
    location: string, photoUrl: string, qrUrl: string, nickname: string)

  /** `emptyForm`. */
  const EmptyForm: TranslatorRequest := TranslatorRequest("", "", "", "", "", "", "", "")

  // ------------------------------------------------------- list parsing

  predicate NonEmpty(item: string)
  {
    |item| > 0
  }

  /** `parseCsv`: the comma-separated pieces, trimmed, blank ones dropped. */
  function ParseCsv(value: string): (items: seq<string>)
    ensures IsSubsequence(items, SplitCommaTrim(value))
    ensures forall x :: x in items <==> x in SplitCommaTrim(value) && x != []
  {
    Filter(SplitCommaTrim(value), NonEmpty)
  }

  /** Every item is non-empty, trimmed and free of commas. */
  lemma {:induction false} ParseCsvItems(value: string, x: string)
    requires x in ParseCsv(value)
    ensures x != [] && IsTrimmed(x) && ',' !in x
  {
    var pieces := Split(value, ',');
    var i :| 0 <= i < |SplitCommaTrim(value)| && SplitCommaTrim(value)[i] == x;
    SplitCommaTrimItem(value, i);
    TrimSpec(pieces[i]);
    if ',' in x {
      TrimKeepsOnlyItsChars(pieces[i], ',');
    }
  }

  /** Only whitespace and commas. */
  predicate OnlyCommasAndWhitespace(value: string)
  {
    forall k :: 0 <= k < |value| ==> value[k] == ',' || IsWhitespace(value[k])
  }

  /** The list is empty exactly when the text holds nothing but commas and
      whitespace (the empty text included). */
  lemma {:induction false} ParseCsvEmptyIff(value: string)
    ensures ParseCsv(value) == [] <==> OnlyCommasAndWhitespace(value)
  {
    var pieces := Split(value, ',');
    var trimmed := SplitCommaTrim(value);
    if OnlyCommasAndWhitespace(value) {
      forall i | 0 <= i < |trimmed|
        ensures trimmed[i] == []
      {
        SplitCommaTrimItem(value, i);
        forall c | c in pieces[i]
          ensures IsWhitespace(c)
        {
          SplitPieceChars(value, ',', i, c);
        }
        assert AllWhitespace(pieces[i]);
        TrimSpec(pieces[i]);
      }
    } else {
      var k :| 0 <= k < |value| && value[k] != ',' && !IsWhitespace(value[k]);
      SplitCoversChars(value, ',', k);
      var i :| 0 <= i < |pieces| && value[k] in pieces[i];
      TrimSpec(pieces[i]);
      SplitCommaTrimItem(value, i);
      assert trimmed[i] in trimmed && NonEmpty(trimmed[i]);
      assert trimmed[i] in ParseCsv(value);
    }
  }

  /** Items that are non-empty, trimmed and comma-free come back unchanged
      from being joined with ", " and parsed again. */
  lemma {:induction false} ParseCsvJoin(items: seq<string>)
    requires forall i :: 0 <= i < |items| ==> items[i] != [] && IsPlainItem(items[i])
    ensures ParseCsv(Join(items, ", ")) == items
  {
    if items == [] {
      ParseCsvOfNoItems(items);
    } else {
      ParseCsvOfSomeItems(items);
    }
  }

  lemma {:induction false} ParseCsvOfNoItems(items: seq<string>)
    requires items == []
    ensures ParseCsv(Join(items, ", ")) == items
  {
    var text := Join(items, ", ");
    assert text == "";
    ParseCsvEmptyIff(text);
  }

  lemma {:induction false} ParseCsvOfSomeItems(items: seq<string>)
    requires items != []
    requires forall i :: 0 <= i < |items| ==> items[i] != [] && IsPlainItem(items[i])
    ensures ParseCsv(Join(items, ", ")) == items
  {
    SplitCommaTrimCommaSpaceJoin(items);
    ParseCsvOfFilledPieces(Join(items, ", "), items);
  }

  /** When no trimmed piece is empty, the parse keeps every piece. */
  lemma {:induction false} ParseCsvOfFilledPieces(value: string, pieces: seq<string>)
    requires SplitCommaTrim(value) == pieces
    requires forall i :: 0 <= i < |pieces| ==> pieces[i] != []
    ensures ParseCsv(value) == pieces
  {
    FilterKeepsAll(pieces, NonEmpty);
  }

  /** `splitValues`: the list shown for a translator's languages and
      specialisations; empty text gives an empty list. */
  function SplitValues(value: string): (items: seq<string>)
    ensures value == [] ==> items == []
  {
    if value == [] then [] else ParseCsv(value)
  }

  /** The empty-text guard of `splitValues` changes nothing: the parse of
      the empty text is already empty. */
  lemma {:induction false} SplitValuesIsParseCsv(value: string)
    ensures SplitValues(value) == ParseCsv(value)
  {
    if value == [] {
      ParseCsvEmptyIff(value);
    }
  }

  // ------------------------------------------------------------ filters

  /** The filter inputs. */
  datatype Filters = Filters(q: string, languages: string, specializations: string, experience: string)

  /** `initialFilters`. */
  const InitialFilters: Filters := Filters("", "", "", "")

  /** The arguments of the list request. */
  datatype Query = Query(
    page: int, size: int, q: Option<string>, languages: seq<string>,
    specializations: seq<string>, experience: Option<string>)

  /** The query `loadTranslators` sends for a page, a page size and filters. */
  function BuildQuery(page: int, size: int, f: Filters): (r: Query)
    ensures r.page == page && r.size == size
    ensures r.q.None? <==> AllWhitespace(f.q)
    ensures r.experience.None? <==> AllWhitespace(f.experience)
    ensures r.q == TrimOrUndefined(f.q) && r.experience == TrimOrUndefined(f.experience)
    ensures r.languages == ParseCsv(f.languages) && r.specializations == ParseCsv(f.specializations)
  {
    Query(page, size, TrimOrUndefined(f.q), ParseCsv(f.languages), ParseCsv(f.specializations),
          TrimOrUndefined(f.experience))
  }

  /** The query for the initial filters asks for everything. */
  lemma InitialQueryIsUnfiltered(page: int, size: int)
    ensures BuildQuery(page, size, InitialFilters) == Query(page, size, None, [], [], None)
  {
    ParseCsvEmptyIff("");
  }

  /** Blank filters and filters of commas only send the same query as no filters. */
  lemma BlankFiltersAreUnfiltered(page: int, size: int, f: Filters)
    requires AllWhitespace(f.q) && AllWhitespace(f.experience)
    requires OnlyCommasAndWhitespace(f.languages) && OnlyCommasAndWhitespace(f.specializations)
    ensures BuildQuery(page, size, f) == BuildQuery(page, size, InitialFilters)
  {
    ParseCsvEmptyIff(f.languages);
    ParseCsvEmptyIff(f.specializations);
    InitialQueryIsUnfiltered(page, size);
  }

  /** The page the list request answers with. */
  datatype TranslatorPage = TranslatorPage(items: seq<Translator>, page: int, size: int, total: int)
  {
    function Listing(): (seq<Translator>, int, int, int)
    {
      (items, page, size, total)
    }
  }

  // ------------------------------------------------------------- submit

  /** The record `handleSubmit` validates and sends: every field trimmed. */
  function TrimRequest(f: TranslatorRequest): TranslatorRequest
  {
    TranslatorRequest(
      Trim(f.fullName), Trim(f.languages), Trim(f.specialization), Trim(f.experience),
      Trim(f.location), Trim(f.photoUrl), Trim(f.qrUrl), Trim(f.nickname))
  }

  /** The form's fields, in the order `Object.keys` lists them. */
  datatype Field = FullName | Languages | Specialization | Experience | Location | PhotoUrl | QrUrl | Nickname

  const FieldOrder: seq<Field> :=
    [FullName, Languages, Specialization, Experience, Location, PhotoUrl, QrUrl, Nickname]

  function FieldValue(f: TranslatorRequest, field: Field): string
  {
    match field
    case FullName => f.fullName
    case Languages => f.languages
    case Specialization => f.specialization
    case Experience => f.experience
    case Location => f.location
    case PhotoUrl => f.photoUrl
    case QrUrl => f.qrUrl
    case Nickname => f.nickname
  }

  /** Every field of the record sent is the form's field trimmed, so it is
      empty exactly when the form's field is blank. */
  lemma TrimRequestFields(f: TranslatorRequest, field: Field)
    ensures FieldValue(TrimRequest(f), field) == Trim(FieldValue(f, field))
    ensures IsTrimmed(FieldValue(TrimRequest(f), field))
    ensures FieldValue(TrimRequest(f), field) == [] <==> AllWhitespace(FieldValue(f, field))
  {
    TrimSpec(FieldValue(f, field));
  }

  /** Trimming the record a second time changes nothing. */
  lemma TrimRequestIdempotent(f: TranslatorRequest)
    ensures TrimRequest(TrimRequest(f)) == TrimRequest(f)
  {
    TrimIdempotent(f.fullName);
    TrimIdempotent(f.languages);
    TrimIdempotent(f.specialization);
    TrimIdempotent(f.experience);
    TrimIdempotent(f.location);
    TrimIdempotent(f.photoUrl);
    TrimIdempotent(f.qrUrl);
    TrimIdempotent(f.nickname);
  }

  /** `Object.keys(trimmed).find(...)`: the first field left empty. */
  function FirstMissing(f: TranslatorRequest): (r: Option<Field>)
    ensures r.Some? ==> FieldValue(f, r.value) == []
    ensures r.Some? ==> exists k :: 0 <= k < |FieldOrder| && FieldOrder[k] == r.value
                          && forall j :: 0 <= j < k ==> FieldValue(f, FieldOrder[j]) != []
    ensures r.None? <==> forall k :: 0 <= k < |FieldOrder| ==> FieldValue(f, FieldOrder[k]) != []
  {
    match FirstIndex(FieldOrder, (field: Field) => FieldValue(f, field) == [])
    case Some(k) => Some(FieldOrder[k])
    case None => None
  }

  /** Every field is listed in `FieldOrder`. */
  lemma FieldListed(field: Field)
    ensures field in FieldOrder
  {
    match field
    case FullName => assert FieldOrder[0] == field;
    case Languages => assert FieldOrder[1] == field;
    case Specialization => assert FieldOrder[2] == field;
    case Experience => assert FieldOrder[3] == field;
    case Location => assert FieldOrder[4] == field;
    case PhotoUrl => assert FieldOrder[5] == field;
    case QrUrl => assert FieldOrder[6] == field;
    case Nickname => assert FieldOrder[7] == field;
  }

  /** Nothing is reported missing exactly when every field is filled. */
  lemma FirstMissingNoneIff(f: TranslatorRequest)
    ensures FirstMissing(f).None? <==> forall field: Field :: FieldValue(f, field) != []
  {
    if FirstMissing(f).None? {
      forall field: Field
        ensures FieldValue(f, field) != []
      {
        FieldListed(field);
      }
    }
  }

  /** A trimmed record passes validation exactly when no field of the form
      is blank. */
  lemma NothingMissingIff(f: TranslatorRequest)
    ensures FirstMissing(TrimRequest(f)).None? <==>
      forall field: Field :: !AllWhitespace(FieldValue(f, field))
  {
    FirstMissingNoneIff(TrimRequest(f));
    forall field: Field
      ensures FieldValue(TrimRequest(f), field) == [] <==> AllWhitespace(FieldValue(f, field))
    {
      TrimRequestFields(f, field);
    }
  }

  /** The request `handleSubmit` sends. */
  datatype Request = Create(payload: TranslatorRequest) | Update(id: string, payload: TranslatorRequest)

  datatype SubmitOutcome =
    | UploadInProgress
    | MissingField(field: Field)
    | Sent(request: Request, succeeded: bool)

  // ------------------------------------------------------- the component

  class Component {
    var translators: seq<Translator>
    var isLoading: bool
    var showDialog: bool
    var editingTranslator: Option<Translator>
    var formData: TranslatorRequest
    var filters: Filters
    var page: int
    var size: int
    var total: int
    var isUploadingPhoto: bool
    var isUploadingQr: bool

    /** The loaded list and its pagination. */
    function Listing(): (seq<Translator>, int, int, int)
      reads this
    {
      (translators, page, size, total)
    }

    constructor()
      ensures translators == [] && isLoading && !showDialog && editingTranslator == None
      ensures formData == EmptyForm && filters == InitialFilters
      ensures page == 1 && size == 20 && total == 0
      ensures !isUploadingPhoto && !isUploadingQr
    {
      translators := [];
      isLoading := true;
      showDialog := false;
      editingTranslator := None;
      formData := EmptyForm;
      filters := InitialFilters;
      page := 1;
      size := 20;
      total := 0;
      isUploadingPhoto := false;
      isUploadingQr := false;
    }

    /** `loadTranslators`: the query is built from the given filters; a
        page that arrives replaces the list and the pagination, a failed
        request leaves them; either way loading ends. */
    method LoadTranslators(pageNumber: int, nextFilters: Filters, pageSize: int, response: Option<TranslatorPage>)
      returns (query: Query)
      modifies this
      ensures query == BuildQuery(pageNumber, pageSize, nextFilters)
      ensures Listing() == if response.Some? then response.value.Listing() else old(Listing())
      ensures !isLoading
      ensures showDialog == old(showDialog) && editingTranslator == old(editingTranslator)
      ensures formData == old(formData) && filters == old(filters)
      ensures isUploadingPhoto == old(isUploadingPhoto) && isUploadingQr == old(isUploadingQr)
    {
      query := BuildQuery(pageNumber, pageSize, nextFilters);
      ReceivePage(response);
    }

    /** The answer to the list request: a page replaces the list and the
        pagination, a failure leaves them; either way loading ends. The
        request runs to completion here, so the loading flag the source sets
        when it starts is not observable and is not set. */
    method ReceivePage(response: Option<TranslatorPage>)
      modifies this
      ensures Listing() == if response.Some? then response.value.Listing() else old(Listing())
      ensures !isLoading
      ensures showDialog == old(showDialog) && editingTranslator == old(editingTranslator)
      ensures formData == old(formData) && filters == old(filters)
      ensures isUploadingPhoto == old(isUploadingPhoto) && isUploadingQr == old(isUploadingQr)
    {
      if response.Some? {
        var r := response.value;
        translators, page, size, total := r.items, r.page, r.size, r.total;
      }
      isLoading := false;
    }

    /** `resetForm`; clearing the file inputs is not modelled. */
    method ResetForm()
      modifies this
      ensures formData == EmptyForm && editingTranslator == None
      ensures Listing() == old(Listing()) && isLoading == old(isLoading)
      ensures showDialog == old(showDialog) && filters == old(filters)
      ensures isUploadingPhoto == old(isUploadingPhoto) && isUploadingQr == old(isUploadingQr)
    {
      formData := EmptyForm;
      editingTranslator := None;
    }

    /** `handleSubmit`. Nothing is sent while a photo or QR upload runs or
        while a trimmed field is empty; otherwise the edited translator is
        updated, or a new one created, with the trimmed record. On success
        the dialog closes, the form is reset and page 1 is reloaded with the
        current filters; `reload` is that reload's query. */
    method HandleSubmit(saveSucceeds: bool, response: Option<TranslatorPage>)
      returns (outcome: SubmitOutcome, reload: Option<Query>)
      modifies this
      ensures old(isUploadingPhoto) || old(isUploadingQr) ==> outcome == UploadInProgress
      ensures !(old(isUploadingPhoto) || old(isUploadingQr)) ==>
        match FirstMissing(TrimRequest(old(formData)))
        case Some(field) => outcome == MissingField(field)
        case None => outcome == Sent(
          if old(editingTranslator).Some? then Update(old(editingTranslator).value.id, TrimRequest(old(formData)))
          else Create(TrimRequest(old(formData))),
          saveSucceeds)
      ensures outcome.Sent? && outcome.succeeded ==>
        && !showDialog && formData == EmptyForm && editingTranslator == None
        && reload == Some(BuildQuery(1, old(size), old(filters)))
        && !isLoading
        && Listing() == (if response.Some? then response.value.Listing() else old(Listing()))
      ensures !(outcome.Sent? && outcome.succeeded) ==>
        && reload == None && showDialog == old(showDialog) && formData == old(formData)
        && editingTranslator == old(editingTranslator) && Listing() == old(Listing())
        && isLoading == old(isLoading)
      ensures filters == old(filters)
      ensures isUploadingPhoto == old(isUploadingPhoto) && isUploadingQr == old(isUploadingQr)
    {
      reload := None;
      if isUploadingPhoto || isUploadingQr {
        return UploadInProgress, None;
      }
      var trimmed := TrimRequest(formData);
      var missing := FirstMissing(trimmed);
      if missing.Some? {
        return MissingField(missing.value), None;
      }
      var request := if editingTranslator.Some? then Update(editingTranslator.value.id, trimmed) else Create(trimmed);
      outcome := Sent(request, saveSucceeds);
      if saveSucceeds {
        showDialog := false;
        ResetForm();
        var query := LoadTranslators(1, filters, size, response);
        reload := Some(query);
      }
    }

    /** `handleEdit`: the translator's eight request fields are copied into
        the form and the dialog opens. */
    method HandleEdit(translator: Translator)
      modifies this
      ensures editingTranslator == Some(translator) && showDialog
      ensures forall field: Field :: FieldValue(formData, field) == TranslatorField(translator, field)
      ensures Listing() == old(Listing()) && isLoading == old(isLoading) && filters == old(filters)
      ensures isUploadingPhoto == old(isUploadingPhoto) && isUploadingQr == old(isUploadingQr)
    {
      editingTranslator := Some(translator);
      formData := TranslatorRequest(
        translator.fullName, translator.languages, translator.specialization, translator.experience,
        translator.location, translator.photoUrl, translator.qrUrl, translator.nickname);
      showDialog := true;
    }

    /** `handleFilterSubmit`: page 1 with the current filters. */
    method HandleFilterSubmit(response: Option<TranslatorPage>) returns (query: Query)
      modifies this
      ensures query == BuildQuery(1, old(size), old(filters))
      ensures Listing() == if response.Some? then response.value.Listing() else old(Listing())
      ensures filters == old(filters) && formData == old(formData) && !isLoading
      ensures editingTranslator == old(editingTranslator) && showDialog == old(showDialog)
      ensures isUploadingPhoto == old(isUploadingPhoto) && isUploadingQr == old(isUploadingQr)
    {
      query := LoadTranslators(1, filters, size, response);
    }

    /** `handleResetFilters`: all four filters cleared and page 1 loaded
        without any filter. */
    method HandleResetFilters(response: Option<TranslatorPage>) returns (query: Query)
      modifies this
      ensures filters == InitialFilters
      ensures query == Query(1, old(size), None, [], [], None)
      ensures Listing() == if response.Some? then response.value.Listing() else old(Listing())
      ensures formData == old(formData) && editingTranslator == old(editingTranslator) && !isLoading
      ensures showDialog == old(showDialog)
      ensures isUploadingPhoto == old(isUploadingPhoto) && isUploadingQr == old(isUploadingQr)
    {
      filters := InitialFilters;
      query := LoadTranslators(1, InitialFilters, size, response);
      InitialQueryIsUnfiltered(1, old(size));
    }
  }

  /** The field of a translator record named by a form field. */
  function TranslatorField(t: Translator, field: Field): string
  {
    match field
    case FullName => t.fullName
    case Languages => t.languages
    case Specialization => t.specialization
    case Experience => t.experience
    case Location => t.location
    case PhotoUrl => t.photoUrl
    case QrUrl => t.qrUrl
    case Nickname => t.nickname
  }
}
