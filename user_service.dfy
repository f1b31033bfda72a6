/** UserService: read-only lookups over table `users`, each a filter that
    includes `enable == enabled` (enabled users by default); profile lookups
    first convert the profile string to the enum, and the creation hook
    delegates to UserValidator. */
module UserService {
  import opened Wrappers
  import opened Tables
  import opened FieldRules
  import opened ProfileTypes
  import opened UserSchema
  import UserValidator

  type Reads = Result<seq<UserRead>, ValueError>

  /** An unknown profile token fails before the table is consulted; otherwise
      the users whose profile has that value. */
  function GetByProfile(t: seq<User>, profile: string, enabled: bool := true): (r: Reads)
    ensures r.Failure? <==> forall p :: Value(p) != profile
    ensures r.Failure? ==> r.error == InvalidProfileType(profile)
    ensures r.Success? ==> forall u :: multiset(r.value)[ToRead(u)]
                                       == if Value(u.profile) == profile && u.enable == enabled
                                          then multiset(t)[u] else 0
  {
    match Parse(profile)
    case None => Failure(InvalidProfileType(profile))
    case Some(p) => Success(Project(Where(t, (u: User) => u.profile == p && u.enable == enabled), ToRead))
  }

  function GetByApp(t: seq<User>, appId: int, enabled: bool := true): (r: seq<UserRead>)
    ensures forall u :: multiset(r)[ToRead(u)] == if u.appId == appId && u.enable == enabled then multiset(t)[u] else 0
    ensures forall x :: x in r ==> x.appId == appId && x.enable == enabled
  {
    Project(Where(t, (u: User) => u.appId == appId && u.enable == enabled), ToRead)
  }

  function GetByExtKeyClockId(t: seq<User>, extKeyClockId: string, enabled: bool := true): (r: seq<UserRead>)
    ensures forall u :: multiset(r)[ToRead(u)]
                        == if u.extKeyClockId == extKeyClockId && u.enable == enabled then multiset(t)[u] else 0
    ensures forall x :: x in r ==> x.extKeyClockId == extKeyClockId && x.enable == enabled
  {
    Project(Where(t, (u: User) => u.extKeyClockId == extKeyClockId && u.enable == enabled), ToRead)
  }

  function GetAll(t: seq<User>, enabled: bool := true): (r: seq<UserRead>)
    ensures forall u :: multiset(r)[ToRead(u)] == if u.enable == enabled then multiset(t)[u] else 0
    ensures forall x :: x in r ==> x.enable == enabled
  {
    Project(Where(t, (u: User) => u.enable == enabled), ToRead)
  }

  function GetByProfileAndApp(t: seq<User>, profile: string, appId: int, enabled: bool := true): (r: Reads)
    ensures r.Failure? <==> forall p :: Value(p) != profile
    ensures r.Failure? ==> r.error == InvalidProfileType(profile)
    ensures r.Success? ==> forall u :: multiset(r.value)[ToRead(u)]
                                       == if Value(u.profile) == profile && u.appId == appId && u.enable == enabled
                                          then multiset(t)[u] else 0
  {
    match Parse(profile)
    case None => Failure(InvalidProfileType(profile))
    case Some(p) =>
      Success(Project(Where(t, (u: User) => u.profile == p && u.appId == appId && u.enable == enabled), ToRead))
  }

  /** The creation hook is the validator's create check. */
  function ValidateCreate(t: seq<User>, c: UserCreate): (r: Check)
    ensures r == UserValidator.CreateValidate(t, c)
    ensures r == Pass <==> UserValidator.CreateAllowed(t, c)
  {
    UserValidator.CreateValidate(t, c)
  }

  /** The row a Read describes (a Read copies every column). */
  function RowOf(x: UserRead): (u: User)
    ensures ToRead(u) == x
  {
    User(x.id, x.extKeyClockId, x.appId, x.profile, x.enable, x.registeredAt, x.updatedAt)
  }

  /** The combined lookup is exactly the intersection of the profile lookup
      and the app lookup, and fails exactly when the profile lookup does. */
  lemma ProfileAndAppIsIntersection(t: seq<User>, profile: string, appId: int, enabled: bool)
    ensures GetByProfileAndApp(t, profile, appId, enabled).Failure? <==> GetByProfile(t, profile, enabled).Failure?
    ensures GetByProfileAndApp(t, profile, appId, enabled).Success? ==>
              multiset(GetByProfileAndApp(t, profile, appId, enabled).value)
              == multiset(GetByProfile(t, profile, enabled).value) * multiset(GetByApp(t, appId, enabled))
  {
    var both := GetByProfileAndApp(t, profile, appId, enabled);
    if both.Success? {
      var byProfile := multiset(GetByProfile(t, profile, enabled).value);
      var byApp := multiset(GetByApp(t, appId, enabled));
      forall x
        ensures multiset(both.value)[x] == (byProfile * byApp)[x]
      {
        var u := RowOf(x);
      }
    }
  }
}
