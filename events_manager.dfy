/**
  * The event form of the admin console (`EventsManager`): the start and end
  * date handlers, the region and city dropdowns, and the normalisation and
  * validation done on submit. A form field that holds `undefined` is read
  * as the empty string, as every use of a field in the component does
  * (`?? ""`, `|| ...`). Saving is a parameter: whether the create or update
  * request succeeds.
  */
module EventsManager {
  import opened Wrappers
  import opened JsStrings
  import opened Lists

  /** The event record as the form and the list use it. */
  datatype Event = Event(
    id: string, title: string, description: string, eventDate: string, eventEndDate: string,
    eventTime: string, location: string, format: string, region: string, sphere: string,
    coverUrl: string, registrationUrl: string)

  /** `formData`. */
  datatype EventForm = EventForm(
    title: string, description: string, eventDate: string, eventEndDate: string,
    eventTime: string, location: string, format: string, region: string, sphere: string,
    coverUrl: string, registrationUrl: string)

  /** The record sent to the create or update request. */
  datatype EventPayload = EventPayload(
    title: string, description: string, eventDate: string, eventEndDate: string,
    eventTime: string, location: string, format: string, region: string, sphere: string,
    coverUrl: Option<string>, registrationUrl: Option<string>)

  /** The empty form the dialog opens with, and `resetForm` restores. */
  const EmptyForm: EventForm :=
    EventForm("", "", "", "", "00:00", "", "ONLINE", "", "", "", "")

  // ------------------------------------------------------------ dates

  /** The end date is empty or not before the start date (ISO dates compare
      as strings), and both are trimmed. */
  predicate DatesOrdered(f: EventForm)
  {
    && Trim(f.eventDate) == f.eventDate
    && Trim(f.eventEndDate) == f.eventEndDate
    && (f.eventEndDate == [] || LessOrEqual(f.eventDate, f.eventEndDate))
  }

  /** `handleEventStartDateChange`: clearing the start clears both dates;
      a start after an empty or earlier end moves the end up to it. */
  function StartDateChanged(f: EventForm, value: string): (r: EventForm)
    ensures Trim(value) == [] ==> r == f.(eventDate := [], eventEndDate := [])
    ensures Trim(value) != [] ==> r.eventDate == Trim(value)
    ensures r == f.(eventDate := r.eventDate, eventEndDate := r.eventEndDate)
  {
    var trimmed := Trim(value);
    if trimmed == [] then f.(eventDate := [], eventEndDate := [])
    else
      var currentEnd := Trim(f.eventEndDate);
      var normalizedEnd := if currentEnd == [] || Less(currentEnd, trimmed) then trimmed else currentEnd;
      f.(eventDate := trimmed, eventEndDate := normalizedEnd)
  }

  /** A new start keeps a later end, and replaces an empty or earlier one. */
  lemma StartDateMovesEarlierEnd(f: EventForm, value: string)
    requires Trim(value) != []
    ensures var r, start, end := StartDateChanged(f, value), Trim(value), Trim(f.eventEndDate);
      && (end == [] || Less(end, start) ==> r.eventEndDate == start)
      && (end != [] && !Less(end, start) ==> r.eventEndDate == end && LessOrEqual(start, end))
  {
    LessTotal(Trim(f.eventEndDate), Trim(value));
  }

  /** `handleEventEndDateChange`: clearing the end leaves the start alone;
      an end before a non-empty start is clamped to the start. */
  function EndDateChanged(f: EventForm, value: string): (r: EventForm)
    ensures Trim(value) == [] ==> r == f.(eventEndDate := [])
    ensures r == f.(eventEndDate := r.eventEndDate)
  {
    var trimmed := Trim(value);
    if trimmed == [] then f.(eventEndDate := [])
    else
      var start := Trim(f.eventDate);
      var normalizedEnd := if start != [] && Less(trimmed, start) then start else trimmed;
      f.(eventEndDate := normalizedEnd)
  }

  /** A new end is kept unless it is before a non-empty start. */
  lemma EndDateClampedToStart(f: EventForm, value: string)
    requires Trim(value) != []
    ensures var r, start, end := EndDateChanged(f, value), Trim(f.eventDate), Trim(value);
      && (start != [] && Less(end, start) ==> r.eventEndDate == start)
      && (start == [] || !Less(end, start) ==> r.eventEndDate == end)
  {
  }

  /** Whatever the form held, a start-date change leaves the dates ordered. */
  lemma StartDateChangeOrdersDates(f: EventForm, value: string)
    ensures DatesOrdered(StartDateChanged(f, value))
  {
    var trimmed := Trim(value);
    TrimIdempotent(value);
    TrimIdempotent(f.eventEndDate);
    if trimmed != [] {
      var currentEnd := Trim(f.eventEndDate);
      LessTotal(currentEnd, trimmed);
    }
  }

  /** An end-date change keeps the dates ordered. */
  lemma EndDateChangeKeepsDatesOrdered(f: EventForm, value: string)
    requires DatesOrdered(f)
    ensures DatesOrdered(EndDateChanged(f, value))
  {
    var trimmed := Trim(value);
    TrimIdempotent(value);
    if trimmed != [] {
      LessTotal(trimmed, f.eventDate);
      if f.eventDate == [] {
        assert LessOrEqual(f.eventDate, trimmed) by {
          assert Less(f.eventDate, trimmed);
        }
      }
    }
  }

  /** Any sequence of date changes from the empty form keeps the dates
      ordered: `true` is a start change, `false` an end change. */
  function DateChanges(f: EventForm, changes: seq<(bool, string)>): EventForm
    decreases |changes|
  {
    if changes == [] then f
    else
      var next := if changes[0].0 then StartDateChanged(f, changes[0].1) else EndDateChanged(f, changes[0].1);
      DateChanges(next, changes[1..])
  }

  lemma {:induction false} DateChangesKeepDatesOrdered(f: EventForm, changes: seq<(bool, string)>)
    requires DatesOrdered(f)
    ensures DatesOrdered(DateChanges(f, changes))
    decreases |changes|
  {
    if changes != [] {
      if changes[0].0 {
        StartDateChangeOrdersDates(f, changes[0].1);
      } else {
        EndDateChangeKeepsDatesOrdered(f, changes[0].1);
      }
      var next := if changes[0].0 then StartDateChanged(f, changes[0].1) else EndDateChanged(f, changes[0].1);
      DateChangesKeepDatesOrdered(next, changes[1..]);
    }
  }

  lemma EmptyFormDatesOrdered()
    ensures DatesOrdered(EmptyForm)
  {
    assert Trim([]) == [];
  }

  // ------------------------------------------------- regions and cities

  /** `RegionCityMap`: the regions' keys in insertion order, with their cities. */
  type RegionMap = seq<(string, seq<string>)>

  /** `Object.keys(map).find(...)`: the first key equal to the region when
      both are lower-cased. */
  function MatchingKey(m: RegionMap, loweredRegion: string): (r: Option<nat>)
    ensures r.Some? ==> r.value < |m| && Lower(m[r.value].0) == loweredRegion
    ensures r.None? ==> forall i :: 0 <= i < |m| ==> Lower(m[i].0) != loweredRegion
  {
    FirstIndex(m, (e: (string, seq<string>)) => Lower(e.0) == loweredRegion)
  }

  /** `map[key] ?? []`. */
  function Lookup(m: RegionMap, key: string): (r: seq<string>)
    ensures (forall i :: 0 <= i < |m| ==> m[i].0 != key) ==> r == []
    ensures forall i :: 0 <= i < |m| && m[i].0 == key && (forall j :: 0 <= j < i ==> m[j].0 != key) ==> r == m[i].1
  {
    match FirstIndex(m, (e: (string, seq<string>)) => e.0 == key)
    case Some(i) => m[i].1
    case None => []
  }

  /** The key the region is looked up under: the matching key, or the
      region itself when none matches. */
  function RegionKey(m: RegionMap, region: string): string
  {
    match MatchingKey(m, Lower(region))
    case Some(i) => m[i].0
    case None => region
  }

  /** `baseCities`. */
  function BaseCities(m: RegionMap, region: string): seq<string>
  {
    Lookup(m, RegionKey(m, region))
  }

  /** The region is looked up ignoring case: its cities are those of the
      first key that matches it case-insensitively, and none when no key
      matches. */
  lemma BaseCitiesOfMatchingKey(m: RegionMap, region: string)
    ensures var k := MatchingKey(m, Lower(region));
      && (k.Some? ==> BaseCities(m, region) == m[k.value].1)
      && (k.None? ==> BaseCities(m, region) == [])
  {
    var k := MatchingKey(m, Lower(region));
    if k.Some? {
      var i := k.value;
      forall j | 0 <= j < i
        ensures m[j].0 != m[i].0
      {
        assert Lower(m[j].0) != Lower(region);
      }
    } else {
      forall i | 0 <= i < |m|
        ensures m[i].0 != region
      {
        assert Lower(m[i].0) != Lower(region);
      }
    }
  }

  /** Two spellings of a region that differ only in case have the same cities. */
  lemma BaseCitiesIgnoreCase(m: RegionMap, a: string, b: string)
    requires Lower(a) == Lower(b)
    ensures BaseCities(m, a) == BaseCities(m, b)
  {
    BaseCitiesOfMatchingKey(m, a);
    BaseCitiesOfMatchingKey(m, b);
  }

  /** `baseCities.map((city) => city.trim()).filter((city) => city.length > 0)`. */
  function TrimmedCities(base: seq<string>): (r: seq<string>)
  {
    Filter(TrimEach(base), (c: string) => c != [])
  }

  /** The cities offered for a region: the trimmed, non-blank cities of the
      region, and the current city when it is not blank. */
  ghost predicate IsCityChoice(c: string, m: RegionMap, region: string, currentCity: Option<string>)
  {
    || c in TrimmedCities(BaseCities(m, region))
    || (currentCity.Some? && Trim(currentCity.value) != [] && c == Trim(currentCity.value))
  }

  /** What `updateAvailableCities` stores: nothing for a blank region;
      otherwise exactly the city choices, each once, trimmed and non-blank,
      in the order `le`. */
  ghost predicate CityOptionsFor(cities: seq<string>, regionName: string, currentCity: Option<string>,
                                 m: RegionMap, le: (string, string) -> bool)
  {
    && (Trim(regionName) == [] ==> cities == [])
    && (Trim(regionName) != [] ==>
          && NoDuplicates(cities)
          && Sorted(cities, le)
          && (forall c :: c in cities <==> IsCityChoice(c, m, Trim(regionName), currentCity))
          && (forall i :: 0 <= i < |cities| ==> cities[i] != [] && IsTrimmed(cities[i])))
  }

  /** Every item of `TrimEach(xs)` is trimmed. */
  lemma TrimEachTrimmed(xs: seq<string>, c: string)
    requires c in TrimEach(xs)
    ensures IsTrimmed(c)
  {
    var i :| 0 <= i < |TrimEach(xs)| && TrimEach(xs)[i] == c;
    TrimEachItem(xs, i);
    TrimSpec(xs[i]);
  }

  /** The city list: a `Set` filled with the trimmed non-blank cities and
      the current city, then sorted with the comparator `le` (the source
      sorts with `localeCompare(..., "ru")`). */
  method CityOptions(regionName: string, currentCity: Option<string>, m: RegionMap,
                     le: (string, string) -> bool) returns (cities: seq<string>)
    requires TotalPreorder(le)
    ensures CityOptionsFor(cities, regionName, currentCity, m, le)
  {
    var trimmedRegion := Trim(regionName);
    if trimmedRegion == [] {
      return [];
    }
    var kept := TrimmedCities(BaseCities(m, trimmedRegion));
    var unique := SetOf(kept);
    if currentCity.Some? {
      var trimmedCity := Trim(currentCity.value);
      if trimmedCity != [] {
        unique := SetAdd(unique, trimmedCity);
      }
    }
    assert forall c :: c in unique <==> IsCityChoice(c, m, trimmedRegion, currentCity);
    cities := SortBy(unique, le);
    PermutationKeepsDistinct(unique, cities);
    forall c
      ensures c in cities <==> c in unique
    {
      assert c in cities <==> c in multiset(cities);
    }
    forall i | 0 <= i < |cities|
      ensures cities[i] != [] && IsTrimmed(cities[i])
    {
      CityChoiceIsTrimmed(cities[i], m, trimmedRegion, currentCity);
    }
  }

  /** Every city offered is trimmed and not blank. */
  lemma CityChoiceIsTrimmed(c: string, m: RegionMap, region: string, currentCity: Option<string>)
    requires IsCityChoice(c, m, region, currentCity)
    ensures c != [] && IsTrimmed(c)
  {
    if c in TrimmedCities(BaseCities(m, region)) {
      TrimEachTrimmed(BaseCities(m, region), c);
    } else {
      TrimSpec(currentCity.value);
    }
  }

  // ------------------------------------------------------------- submit

  /** The form's fields trimmed, a blank end date defaulting to the start,
      the time fixed at midnight, and blank URLs left out. */
  function Normalize(f: EventForm): (p: EventPayload)
    ensures p.title == Trim(f.title) && p.description == Trim(f.description)
    ensures p.eventDate == Trim(f.eventDate) && p.location == Trim(f.location)
    ensures p.format == Trim(f.format) && p.region == Trim(f.region) && p.sphere == Trim(f.sphere)
    ensures p.coverUrl == TrimOrUndefined(f.coverUrl)
    ensures p.registrationUrl == TrimOrUndefined(f.registrationUrl)
    ensures p.eventTime == "00:00"
    ensures p.eventEndDate == (if Trim(f.eventEndDate) == [] then Trim(f.eventDate) else Trim(f.eventEndDate))
    ensures p.coverUrl.None? <==> Trim(f.coverUrl) == []
    ensures p.registrationUrl.None? <==> Trim(f.registrationUrl) == []
  {
    var eventDate := Trim(f.eventDate);
    var eventEndDate := if Trim(f.eventEndDate) == [] then eventDate else Trim(f.eventEndDate);
    EventPayload(
      Trim(f.title), Trim(f.description), eventDate, eventEndDate, "00:00",
      Trim(f.location), Trim(f.format), Trim(f.region), Trim(f.sphere),
      TrimOrUndefined(f.coverUrl), TrimOrUndefined(f.registrationUrl))
  }

  /** Every string the payload holds is trimmed. */
  predicate PayloadTrimmed(p: EventPayload)
  {
    && Trim(p.title) == p.title && Trim(p.description) == p.description
    && Trim(p.eventDate) == p.eventDate && Trim(p.eventEndDate) == p.eventEndDate
    && Trim(p.location) == p.location && Trim(p.format) == p.format
    && Trim(p.region) == p.region && Trim(p.sphere) == p.sphere
    && (p.coverUrl.Some? ==> Trim(p.coverUrl.value) == p.coverUrl.value)
    && (p.registrationUrl.Some? ==> Trim(p.registrationUrl.value) == p.registrationUrl.value)
  }

  lemma NormalizeTrims(f: EventForm)
    ensures PayloadTrimmed(Normalize(f))
  {
    TrimIdempotent(f.title);
    TrimIdempotent(f.description);
    TrimIdempotent(f.eventDate);
    TrimIdempotent(f.eventEndDate);
    TrimIdempotent(f.location);
    TrimIdempotent(f.format);
    TrimIdempotent(f.region);
    TrimIdempotent(f.sphere);
    TrimIdempotent(f.coverUrl);
    TrimIdempotent(f.registrationUrl);
  }

  /** The form a payload would be edited in. */
  function FormOfPayload(p: EventPayload): EventForm
  {
    EventForm(p.title, p.description, p.eventDate, p.eventEndDate, p.eventTime,
              p.location, p.format, p.region, p.sphere, p.coverUrl.GetOr(""), p.registrationUrl.GetOr(""))
  }

  /** Normalising an already normalised record changes nothing. */
  lemma NormalizeIdempotent(f: EventForm)
    ensures Normalize(FormOfPayload(Normalize(f))) == Normalize(f)
  {
    NormalizeTrims(f);
    assert Trim([]) == [];
  }

  /** The fields that must not be empty. */
  datatype Field = Title | Description | EventDate | EventEndDate | Region | Location | Format | Sphere

  /** The order in which missing fields are reported. */
  const RequiredFields: seq<Field> :=
    [Title, Description, EventDate, EventEndDate, Region, Location, Format, Sphere]

  function FieldValue(p: EventPayload, field: Field): string
  {
    match field
    case Title => p.title
    case Description => p.description
    case EventDate => p.eventDate
    case EventEndDate => p.eventEndDate
    case Region => p.region
    case Location => p.location
    case Format => p.format
    case Sphere => p.sphere
  }

  /** `requiredFields.find(...)`: the first required field left empty. */
  function FirstMissing(p: EventPayload): (r: Option<Field>)
    ensures r.Some? ==> FieldValue(p, r.value) == []
    ensures r.Some? ==> exists k :: 0 <= k < |RequiredFields| && RequiredFields[k] == r.value
                          && forall j :: 0 <= j < k ==> FieldValue(p, RequiredFields[j]) != []
    ensures r.None? <==> forall k :: 0 <= k < |RequiredFields| ==> FieldValue(p, RequiredFields[k]) != []
  {
    match FirstIndex(RequiredFields, (field: Field) => FieldValue(p, field) == [])
    case Some(k) => Some(RequiredFields[k])
    case None => None
  }

  /** The end date defaults to the start, so it is never the field reported. */
  lemma EndDateNeverReportedMissing(f: EventForm)
    ensures FirstMissing(Normalize(f)) != Some(EventEndDate)
  {
    var p := Normalize(f);
    assert p.eventEndDate == [] ==> p.eventDate == [];
    EndDateReportedOnlyAfterStart(p);
  }

  /** The end date is reported only when the start date, checked before it,
      is filled. */
  lemma EndDateReportedOnlyAfterStart(p: EventPayload)
    requires p.eventEndDate == [] ==> p.eventDate == []
    ensures FirstMissing(p) != Some(EventEndDate)
  {
    forall k | 0 <= k < |RequiredFields| && RequiredFields[k] == EventEndDate
               && (forall j :: 0 <= j < k ==> FieldValue(p, RequiredFields[j]) != [])
      ensures p.eventEndDate != []
    {
      assert k == 3 && RequiredFields[2] == EventDate;
    }
  }

  /** The request `handleSubmit` sends. */
  datatype Request = Create(payload: EventPayload) | Update(id: string, payload: EventPayload)

  datatype SubmitOutcome =
    | UploadInProgress
    | MissingField(field: Field)
    | Sent(request: Request, succeeded: bool)

  // ------------------------------------------------------- the component

  class Component {
    /** The city comparator (`localeCompare(..., "ru")`). */
    const cityOrder: (string, string) -> bool
    var regionCityMap: RegionMap
    var availableCities: seq<string>
    var showDialog: bool
    var editingEvent: Option<Event>
    var formData: EventForm
    var isUploadingCover: bool

    constructor(cityOrder: (string, string) -> bool)
      ensures this.cityOrder == cityOrder
      ensures regionCityMap == [] && availableCities == [] && !showDialog
      ensures editingEvent == None && formData == EmptyForm && !isUploadingCover
    {
      this.cityOrder := cityOrder;
      regionCityMap := [];
      availableCities := [];
      showDialog := false;
      editingEvent := None;
      formData := EmptyForm;
      isUploadingCover := false;
    }

    /** `updateAvailableCities`; `sourceMap` defaults to the loaded map. */
    method UpdateAvailableCities(regionName: string, currentCity: Option<string>, sourceMap: Option<RegionMap>)
      requires TotalPreorder(cityOrder)
      modifies this
      ensures CityOptionsFor(availableCities, regionName, currentCity, sourceMap.GetOr(old(regionCityMap)), cityOrder)
      ensures regionCityMap == old(regionCityMap) && showDialog == old(showDialog)
      ensures editingEvent == old(editingEvent) && formData == old(formData)
      ensures isUploadingCover == old(isUploadingCover)
    {
      var m := sourceMap.GetOr(regionCityMap);
      availableCities := CityOptions(regionName, currentCity, m, cityOrder);
    }

    /** `handleRegionSelect`: the trimmed region is stored, the city cleared,
        and the cities of the new region offered. */
    method HandleRegionSelect(value: string)
      requires TotalPreorder(cityOrder)
      modifies this
      ensures formData == old(formData).(region := Trim(value), location := [])
      ensures CityOptionsFor(availableCities, Trim(value), None, regionCityMap, cityOrder)
      ensures regionCityMap == old(regionCityMap) && showDialog == old(showDialog)
      ensures editingEvent == old(editingEvent) && isUploadingCover == old(isUploadingCover)
    {
      var trimmed := Trim(value);
      formData := formData.(region := trimmed, location := []);
      UpdateAvailableCities(trimmed, None, None);
    }

    /** `handleCitySelect`. */
    method HandleCitySelect(value: string)
      modifies this
      ensures formData == old(formData).(location := Trim(value))
      ensures regionCityMap == old(regionCityMap) && availableCities == old(availableCities)
      ensures showDialog == old(showDialog) && editingEvent == old(editingEvent)
      ensures isUploadingCover == old(isUploadingCover)
    {
      formData := formData.(location := Trim(value));
    }

    /** `handleEventStartDateChange`. */
    method HandleStartDateChange(value: string)
      modifies this
      ensures formData == StartDateChanged(old(formData), value) && DatesOrdered(formData)
      ensures regionCityMap == old(regionCityMap) && availableCities == old(availableCities)
      ensures showDialog == old(showDialog) && editingEvent == old(editingEvent)
      ensures isUploadingCover == old(isUploadingCover)
    {
      StartDateChangeOrdersDates(formData, value);
      formData := StartDateChanged(formData, value);
    }

    /** `handleEventEndDateChange`. */
    method HandleEndDateChange(value: string)
      modifies this
      ensures formData == EndDateChanged(old(formData), value)
      ensures DatesOrdered(old(formData)) ==> DatesOrdered(formData)
      ensures regionCityMap == old(regionCityMap) && availableCities == old(availableCities)
      ensures showDialog == old(showDialog) && editingEvent == old(editingEvent)
      ensures isUploadingCover == old(isUploadingCover)
    {
      if DatesOrdered(formData) {
        EndDateChangeKeepsDatesOrdered(formData, value);
      }
      formData := EndDateChanged(formData, value);
    }

    /** `resetForm`. */
    method ResetForm()
      modifies this
      ensures formData == EmptyForm && editingEvent == None && availableCities == []
      ensures regionCityMap == old(regionCityMap) && showDialog == old(showDialog)
      ensures isUploadingCover == old(isUploadingCover)
    {
      formData := EmptyForm;
      editingEvent := None;
      availableCities := [];
    }

    /** `handleSubmit`. Nothing is sent while the cover uploads or while a
        required field is empty; otherwise the edited event is updated, or a
        new one created, and on success the dialog closes and the form is
        reset. */
    method HandleSubmit(saveSucceeds: bool) returns (outcome: SubmitOutcome)
      modifies this
      ensures old(isUploadingCover) ==> outcome == UploadInProgress
      ensures !old(isUploadingCover) ==> match FirstMissing(Normalize(old(formData)))
        case Some(field) => outcome == MissingField(field)
        case None => outcome == Sent(
          if old(editingEvent).Some? then Update(old(editingEvent).value.id, Normalize(old(formData)))
          else Create(Normalize(old(formData))),
          saveSucceeds)
      ensures outcome.Sent? && outcome.succeeded ==>
        !showDialog && formData == EmptyForm && editingEvent == None && availableCities == []
      ensures !(outcome.Sent? && outcome.succeeded) ==>
        showDialog == old(showDialog) && formData == old(formData) && editingEvent == old(editingEvent)
        && availableCities == old(availableCities)
      ensures regionCityMap == old(regionCityMap) && isUploadingCover == old(isUploadingCover)
    {
      if isUploadingCover {
        return UploadInProgress;
      }
      var normalized := Normalize(formData);
      var missing := FirstMissing(normalized);
      if missing.Some? {
        return MissingField(missing.value);
      }
      var request := if editingEvent.Some? then Update(editingEvent.value.id, normalized) else Create(normalized);
      outcome := Sent(request, saveSucceeds);
      if saveSucceeds {
        showDialog := false;
        ResetForm();
      }
    }

    /** `handleEdit`: the event is copied into the form (an empty time becomes
        midnight), its region's cities are offered, and the dialog opens. */
    method HandleEdit(event: Event)
      requires TotalPreorder(cityOrder)
      modifies this
      ensures editingEvent == Some(event) && showDialog
      ensures formData == EventForm(event.title, event.description, event.eventDate, event.eventEndDate,
        if event.eventTime == [] then "00:00" else event.eventTime,
        event.location, event.format, event.region, event.sphere, event.coverUrl, event.registrationUrl)
      ensures CityOptionsFor(availableCities, event.region, Some(event.location), regionCityMap, cityOrder)
      ensures regionCityMap == old(regionCityMap) && isUploadingCover == old(isUploadingCover)
    {
      editingEvent := Some(event);
      formData := EventForm(event.title, event.description, event.eventDate, event.eventEndDate,
        if event.eventTime == [] then "00:00" else event.eventTime,
        event.location, event.format, event.region, event.sphere, event.coverUrl, event.registrationUrl);
      UpdateAvailableCities(event.region, Some(event.location), None);
      showDialog := true;
    }
  }
}
