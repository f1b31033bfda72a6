/** AppValidator: field rules for apps and uniqueness of the pair
    (name, country_ext_id), checked against a snapshot of table `apps`. */
module AppValidator {
  import opened Wrappers
  import opened Text
  import opened Tables
  import opened FieldRules
  import opened AppSchema

  const MaxNameLength: nat := 255
  const MaxCountryExtIdLength: nat := 50

  function ValidateName(name: string): (r: Check)
    ensures r == Fail(Required(Name)) <==> Blank(name)
    ensures r == Fail(TooLong(Name, MaxNameLength)) <==> !Blank(name) && |name| > MaxNameLength
    ensures r == Pass <==> Acceptable(name, MaxNameLength)
  {
    RequiredString(name, Name, MaxNameLength)
  }

  function ValidateCountryExtId(countryExtId: string): (r: Check)
    ensures r == Fail(Required(CountryExtId)) <==> Blank(countryExtId)
    ensures r == Fail(TooLong(CountryExtId, MaxCountryExtIdLength))
            <==> !Blank(countryExtId) && |countryExtId| > MaxCountryExtIdLength
    ensures r == Pass <==> Acceptable(countryExtId, MaxCountryExtIdLength)
  {
    RequiredString(countryExtId, CountryExtId, MaxCountryExtIdLength)
  }

  /** Some row other than the excluded one already holds the pair. */
  ghost predicate PairTaken(t: seq<App>, name: string, countryExtId: string, excludeId: Option<int>) {
    exists i :: 0 <= i < |t| && t[i].name == name && t[i].countryExtId == countryExtId
                && !ExcludedBy(excludeId, t[i].id)
  }

  function ValidateUniqueNameCountry(t: seq<App>, name: string, countryExtId: string,
                                     excludeId: Option<int>): (r: Check)
    ensures r.Fail? <==> PairTaken(t, name, countryExtId, excludeId)
    ensures r.Fail? ==> r.error == DuplicateApp(name, countryExtId)
  {
    var hit := FirstWhere(t, (a: App) => a.name == name && a.countryExtId == countryExtId
                                         && !ExcludedBy(excludeId, a.id));
    if hit.Some? then Fail(DuplicateApp(name, countryExtId)) else Pass
  }

  /** `db.query(App).filter(App.id == app_id).first()` */
  function FindById(t: seq<App>, id: int): Option<App> {
    FirstWhere(t, (a: App) => a.id == id)
  }

  /** A create is allowed: both fields acceptable and the pair is free. */
  ghost predicate CreateAllowed(t: seq<App>, c: AppCreate) {
    && Acceptable(c.name, MaxNameLength)
    && Acceptable(c.countryExtId, MaxCountryExtIdLength)
    && !PairTaken(t, c.name, c.countryExtId, None)
  }

  /** Name, then country, then uniqueness; the first failing check raises. */
  function CreateValidate(t: seq<App>, c: AppCreate): (r: Check)
    ensures r == Pass <==> CreateAllowed(t, c)
    ensures Blank(c.name) ==> r == Fail(Required(Name))
    ensures !Blank(c.name) && |c.name| > MaxNameLength ==> r == Fail(TooLong(Name, MaxNameLength))
    ensures Acceptable(c.name, MaxNameLength) && Blank(c.countryExtId)
            ==> r == Fail(Required(CountryExtId))
    ensures Acceptable(c.name, MaxNameLength) && !Blank(c.countryExtId)
            && |c.countryExtId| > MaxCountryExtIdLength
            ==> r == Fail(TooLong(CountryExtId, MaxCountryExtIdLength))
    ensures Acceptable(c.name, MaxNameLength) && Acceptable(c.countryExtId, MaxCountryExtIdLength)
            && PairTaken(t, c.name, c.countryExtId, None)
            ==> r == Fail(DuplicateApp(c.name, c.countryExtId))
  {
    ValidateName(c.name)
      .Then(ValidateCountryExtId(c.countryExtId))
      .Then(ValidateUniqueNameCountry(t, c.name, c.countryExtId, None))
  }

  /** The checks on the fields an update carries; absent fields are skipped. */
  function UpdateFieldChecks(u: AppUpdate): Check {
    (if u.name.Some? then ValidateName(u.name.value) else Pass)
      .Then(if u.countryExtId.Some? then ValidateCountryExtId(u.countryExtId.value) else Pass)
  }

  /** Field checks on what is present, then the pair check: the new pair when
      both halves are given, otherwise the given half with the other taken
      from the stored row, skipped when no row has this id. */
  function UpdateValidate(t: seq<App>, u: AppUpdate, appId: int): (r: Check)
    ensures u.name.None? && u.countryExtId.None? ==> r == Pass
    ensures u.name.Some? && ValidateName(u.name.value).Fail? ==> r == ValidateName(u.name.value)
    ensures u.countryExtId.Some? && ValidateCountryExtId(u.countryExtId.value).Fail?
            && (u.name.None? || ValidateName(u.name.value) == Pass)
            ==> r == ValidateCountryExtId(u.countryExtId.value)
    ensures UpdateFieldChecks(u) == Pass && u.name.Some? && u.countryExtId.Some?
            ==> (r == Pass <==> !PairTaken(t, u.name.value, u.countryExtId.value, Some(appId)))
    ensures UpdateFieldChecks(u) == Pass && u.name.Some? && u.countryExtId.Some?
            && PairTaken(t, u.name.value, u.countryExtId.value, Some(appId))
            ==> r == Fail(DuplicateApp(u.name.value, u.countryExtId.value))
    ensures FindById(t, appId).None? && !(u.name.Some? && u.countryExtId.Some?)
            ==> r == UpdateFieldChecks(u)
    ensures r.Fail? && r.error.DuplicateApp? ==> UpdateFieldChecks(u) == Pass
  {
    var unique :=
      if u.name.Some? && u.countryExtId.Some? then
        ValidateUniqueNameCountry(t, u.name.value, u.countryExtId.value, Some(appId))
      else if u.name.Some? then
        match FindById(t, appId)
        case Some(current) => ValidateUniqueNameCountry(t, u.name.value, current.countryExtId, Some(appId))
        case None => Pass
      else if u.countryExtId.Some? then
        match FindById(t, appId)
        case Some(current) => ValidateUniqueNameCountry(t, current.name, u.countryExtId.value, Some(appId))
        case None => Pass
      else Pass;
    UpdateFieldChecks(u).Then(unique)
  }

  /** When the row exists, the pair an update is checked against is the pair
      of the row as it will be after the update. */
  lemma UpdateChecksMergedPair(t: seq<App>, u: AppUpdate, appId: int)
    requires FindById(t, appId).Some?
    requires u.name.Some? || u.countryExtId.Some?
    requires UpdateFieldChecks(u) == Pass
    ensures var m := Merge(FindById(t, appId).value, u);
            UpdateValidate(t, u, appId)
            == if PairTaken(t, m.name, m.countryExtId, Some(appId))
               then Fail(DuplicateApp(m.name, m.countryExtId)) else Pass
  {
  }

  /** The table invariants: ids are a primary key, pairs are unique. */
  ghost predicate UniqueIds(t: seq<App>) {
    forall i, j :: 0 <= i < j < |t| ==> t[i].id != t[j].id
  }

  ghost predicate UniquePairs(t: seq<App>) {
    forall i, j :: 0 <= i < j < |t| ==> t[i].name != t[j].name || t[i].countryExtId != t[j].countryExtId
  }

  /** The row the generic create inserts. */
  function Created(c: AppCreate, id: int): App {
    App(id, c.name, c.countryExtId, c.enable, None, None)
  }

  /** Inserting a row whose creation passed validation keeps pairs unique. */
  lemma CreatePreservesUniquePairs(t: seq<App>, c: AppCreate, id: int)
    requires UniquePairs(t)
    requires CreateValidate(t, c) == Pass
    ensures UniquePairs(t + [Created(c, id)])
  {
    var t' := t + [Created(c, id)];
    forall i, j | 0 <= i < j < |t'|
      ensures t'[i].name != t'[j].name || t'[i].countryExtId != t'[j].countryExtId
    {
      if j == |t| {
        assert t'[i] == t[i];
      }
    }
  }

  /** Applying an update that passed validation keeps pairs unique, provided
      the id is a primary key and is truthy (so it is excluded from the check). */
  lemma UpdatePreservesUniquePairs(t: seq<App>, u: AppUpdate, k: int)
    requires UniqueIds(t) && UniquePairs(t)
    requires 0 <= k < |t| && t[k].id != 0
    requires UpdateValidate(t, u, t[k].id) == Pass
    ensures UniquePairs(t[k := Merge(t[k], u)])
  {
    var id := t[k].id;
    assert FindById(t, id) == Some(t[k]);
    var m := Merge(t[k], u);
    var t' := t[k := m];
    if u.name.Some? || u.countryExtId.Some? {
      UpdateChecksMergedPair(t, u, id);
      assert !PairTaken(t, m.name, m.countryExtId, Some(id));
    }
    forall i, j | 0 <= i < j < |t'|
      ensures t'[i].name != t'[j].name || t'[i].countryExtId != t'[j].countryExtId
    {
      if i == k {
        assert t[j].id != id;
      } else if j == k {
        assert t[i].id != id;
      }
    }
  }
}
