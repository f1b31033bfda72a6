/** UserValidator: field rules for users and uniqueness of the pair
    (ext_key_clock_id, app_id), checked against a snapshot of table `users`. */
module UserValidator {
  import opened Wrappers
  import opened Text
  import opened Tables
  import opened FieldRules
  import opened ProfileTypes
  import opened UserSchema

  const MaxExtKeyClockIdLength: nat := 255

  function ValidateExtKeyClockId(extKeyClockId: string): (r: Check)
    ensures r == Fail(Required(ExtKeyClockId)) <==> Blank(extKeyClockId)
    ensures r == Fail(TooLong(ExtKeyClockId, MaxExtKeyClockIdLength))
            <==> !Blank(extKeyClockId) && |extKeyClockId| > MaxExtKeyClockIdLength
    ensures r == Pass <==> Acceptable(extKeyClockId, MaxExtKeyClockIdLength)
  {
    RequiredString(extKeyClockId, ExtKeyClockId, MaxExtKeyClockIdLength)
  }

  /** `profile not in ProfileType` is false for every member of the enum. */
  function ValidateProfile(profile: ProfileType): (r: Check)
    ensures r == Pass
  {
    match profile
    case Farmer => Pass
    case Technician => Pass
  }

  function ValidateAppId(appId: int): (r: Check)
    ensures r == Pass <==> appId > 0
    ensures r.Fail? ==> r.error == NotPositive(AppId)
  {
    PositiveId(appId, AppId)
  }

  /** Some row other than the excluded one already holds the pair. */
  ghost predicate PairTaken(t: seq<User>, extKeyClockId: string, appId: int, excludeId: Option<int>) {
    exists i :: 0 <= i < |t| && t[i].extKeyClockId == extKeyClockId && t[i].appId == appId
                && !ExcludedBy(excludeId, t[i].id)
  }

  function ValidateUniqueKeycloakApp(t: seq<User>, extKeyClockId: string, appId: int,
                                     excludeId: Option<int>): (r: Check)
    ensures r.Fail? <==> PairTaken(t, extKeyClockId, appId, excludeId)
    ensures r.Fail? ==> r.error == DuplicateUser(extKeyClockId, appId)
  {
    var hit := FirstWhere(t, (x: User) => x.extKeyClockId == extKeyClockId && x.appId == appId
                                          && !ExcludedBy(excludeId, x.id));
    if hit.Some? then Fail(DuplicateUser(extKeyClockId, appId)) else Pass
  }

  /** `db.query(User).filter(User.id == user_id).first()` */
  function FindById(t: seq<User>, id: int): Option<User> {
    FirstWhere(t, (x: User) => x.id == id)
  }

  ghost predicate CreateAllowed(t: seq<User>, c: UserCreate) {
    && Acceptable(c.extKeyClockId, MaxExtKeyClockIdLength)
    && c.appId > 0
    && !PairTaken(t, c.extKeyClockId, c.appId, None)
  }

  /** ext_key_clock_id, profile, app_id, then uniqueness; the first failing
      check raises. */
  function CreateValidate(t: seq<User>, c: UserCreate): (r: Check)
    ensures r == Pass <==> CreateAllowed(t, c)
    ensures Blank(c.extKeyClockId) ==> r == Fail(Required(ExtKeyClockId))
    ensures !Blank(c.extKeyClockId) && |c.extKeyClockId| > MaxExtKeyClockIdLength
            ==> r == Fail(TooLong(ExtKeyClockId, MaxExtKeyClockIdLength))
    ensures Acceptable(c.extKeyClockId, MaxExtKeyClockIdLength) && c.appId <= 0
            ==> r == Fail(NotPositive(AppId))
    ensures Acceptable(c.extKeyClockId, MaxExtKeyClockIdLength) && c.appId > 0
            && PairTaken(t, c.extKeyClockId, c.appId, None)
            ==> r == Fail(DuplicateUser(c.extKeyClockId, c.appId))
    ensures t == [] ==> (r == Pass <==> Acceptable(c.extKeyClockId, MaxExtKeyClockIdLength) && c.appId > 0)
  {
    ValidateExtKeyClockId(c.extKeyClockId)
      .Then(ValidateProfile(c.profile))
      .Then(ValidateAppId(c.appId))
      .Then(ValidateUniqueKeycloakApp(t, c.extKeyClockId, c.appId, None))
  }

  /** The checks on the fields an update carries; absent fields are skipped. */
  function UpdateFieldChecks(u: UserUpdate): Check {
    (if u.extKeyClockId.Some? then ValidateExtKeyClockId(u.extKeyClockId.value) else Pass)
      .Then(if u.profile.Some? then ValidateProfile(u.profile.value) else Pass)
      .Then(if u.appId.Some? then ValidateAppId(u.appId.value) else Pass)
  }

  /** Field checks on what is present, then the pair check: the new pair when
      both halves are given, otherwise the given half with the other taken
      from the stored row, skipped when no row has this id. */
  function UpdateValidate(t: seq<User>, u: UserUpdate, userId: int): (r: Check)
    ensures u.extKeyClockId.None? && u.appId.None? ==> r == Pass
    ensures u.extKeyClockId.Some? && ValidateExtKeyClockId(u.extKeyClockId.value).Fail?
            ==> r == ValidateExtKeyClockId(u.extKeyClockId.value)
    ensures u.appId.Some? && u.appId.value <= 0
            && (u.extKeyClockId.None? || ValidateExtKeyClockId(u.extKeyClockId.value) == Pass)
            ==> r == Fail(NotPositive(AppId))
    ensures UpdateFieldChecks(u) == Pass && u.extKeyClockId.Some? && u.appId.Some?
            ==> (r == Pass <==> !PairTaken(t, u.extKeyClockId.value, u.appId.value, Some(userId)))
    ensures UpdateFieldChecks(u) == Pass && u.extKeyClockId.Some? && u.appId.Some?
            && PairTaken(t, u.extKeyClockId.value, u.appId.value, Some(userId))
            ==> r == Fail(DuplicateUser(u.extKeyClockId.value, u.appId.value))
    ensures FindById(t, userId).None? && !(u.extKeyClockId.Some? && u.appId.Some?)
            ==> r == UpdateFieldChecks(u)
    ensures r.Fail? && r.error.DuplicateUser? ==> UpdateFieldChecks(u) == Pass
  {
    var unique :=
      if u.extKeyClockId.Some? && u.appId.Some? then
        ValidateUniqueKeycloakApp(t, u.extKeyClockId.value, u.appId.value, Some(userId))
      else if u.extKeyClockId.Some? then
        match FindById(t, userId)
        case Some(current) => ValidateUniqueKeycloakApp(t, u.extKeyClockId.value, current.appId, Some(userId))
        case None => Pass
      else if u.appId.Some? then
        match FindById(t, userId)
        case Some(current) => ValidateUniqueKeycloakApp(t, current.extKeyClockId, u.appId.value, Some(userId))
        case None => Pass
      else Pass;
    UpdateFieldChecks(u).Then(unique)
  }

  /** When the row exists, the pair an update is checked against is the pair
      of the row as it will be after the update. */
  lemma UpdateChecksMergedPair(t: seq<User>, u: UserUpdate, userId: int)
    requires FindById(t, userId).Some?
    requires u.extKeyClockId.Some? || u.appId.Some?
    requires UpdateFieldChecks(u) == Pass
    ensures var m := Merge(FindById(t, userId).value, u);
            UpdateValidate(t, u, userId)
            == if PairTaken(t, m.extKeyClockId, m.appId, Some(userId))
               then Fail(DuplicateUser(m.extKeyClockId, m.appId)) else Pass
  {
  }

  ghost predicate UniqueIds(t: seq<User>) {
    forall i, j :: 0 <= i < j < |t| ==> t[i].id != t[j].id
  }

  ghost predicate UniquePairs(t: seq<User>) {
    forall i, j :: 0 <= i < j < |t| ==> t[i].extKeyClockId != t[j].extKeyClockId || t[i].appId != t[j].appId
  }

  /** The row the generic create inserts. */
  function Created(c: UserCreate, id: int): User {
    User(id, c.extKeyClockId, c.appId, c.profile, c.enable, None, None)
  }

  lemma CreatePreservesUniquePairs(t: seq<User>, c: UserCreate, id: int)
    requires UniquePairs(t)
    requires CreateValidate(t, c) == Pass
    ensures UniquePairs(t + [Created(c, id)])
  {
    var t' := t + [Created(c, id)];
    forall i, j | 0 <= i < j < |t'|
      ensures t'[i].extKeyClockId != t'[j].extKeyClockId || t'[i].appId != t'[j].appId
    {
      if j == |t| {
        assert t'[i] == t[i];
      }
    }
  }

  lemma UpdatePreservesUniquePairs(t: seq<User>, u: UserUpdate, k: int)
    requires UniqueIds(t) && UniquePairs(t)
    requires 0 <= k < |t| && t[k].id != 0
    requires UpdateValidate(t, u, t[k].id) == Pass
    ensures UniquePairs(t[k := Merge(t[k], u)])
  {
    var id := t[k].id;
    assert FindById(t, id) == Some(t[k]);
    var m := Merge(t[k], u);
    var t' := t[k := m];
    if u.extKeyClockId.Some? || u.appId.Some? {
      UpdateChecksMergedPair(t, u, id);
      assert !PairTaken(t, m.extKeyClockId, m.appId, Some(id));
    }
    forall i, j | 0 <= i < j < |t'|
      ensures t'[i].extKeyClockId != t'[j].extKeyClockId || t'[i].appId != t'[j].appId
    {
      if i == k {
        assert t[j].id != id;
      } else if j == k {
        assert t[i].id != id;
      }
    }
  }
}
