/** Rows of the three tables (the ORM models) and the Create, Update and
    Read shapes of each entity. Field-level limits of the schemas themselves
    (max_length, gt) are not enforced here; the validators state them. */

module AppSchema {
  import opened Wrappers
  import opened Tables

  /** A row of table `apps`. */
  datatype App = App(id: int, name: string, countryExtId: string, enable: bool,
                     register: Option<Timestamp>, updated: Option<Timestamp>)

  datatype AppCreate = AppCreate(name: string, countryExtId: string, enable: bool)

  /** None marks a field the update leaves alone. */
  datatype AppUpdate = AppUpdate(name: Option<string>, countryExtId: Option<string>, enable: Option<bool>)

  datatype AppRead = AppRead(id: int, name: string, countryExtId: string, enable: bool,
                             registeredAt: Option<Timestamp>, updatedAt: Option<Timestamp>)

  /** `AppRead.model_validate(obj)` */
  function ToRead(a: App): AppRead {
    AppRead(a.id, a.name, a.countryExtId, a.enable, a.register, a.updated)
  }

  /** The stored row after a partial update: present fields replace stored ones. */
  function Merge(a: App, u: AppUpdate): App {
    a.(name := u.name.GetOr(a.name),
       countryExtId := u.countryExtId.GetOr(a.countryExtId),
       enable := u.enable.GetOr(a.enable))
  }
}

module UserSchema {
  import opened Wrappers
  import opened Tables
  import opened ProfileTypes

  /** A row of table `users`. */
  datatype User = User(id: int, extKeyClockId: string, appId: int, profile: ProfileType, enable: bool,
                       register: Option<Timestamp>, updated: Option<Timestamp>)

  datatype UserCreate = UserCreate(extKeyClockId: string, appId: int, profile: ProfileType, enable: bool)

  datatype UserUpdate = UserUpdate(extKeyClockId: Option<string>, appId: Option<int>,
                                   profile: Option<ProfileType>, enable: Option<bool>)

  datatype UserRead = UserRead(id: int, extKeyClockId: string, appId: int, profile: ProfileType, enable: bool,
                               registeredAt: Option<Timestamp>, updatedAt: Option<Timestamp>)

  /** `UserRead.model_validate(obj)` */
  function ToRead(u: User): UserRead {
    UserRead(u.id, u.extKeyClockId, u.appId, u.profile, u.enable, u.register, u.updated)
  }

  function Merge(row: User, u: UserUpdate): User {
    row.(extKeyClockId := u.extKeyClockId.GetOr(row.extKeyClockId),
         appId := u.appId.GetOr(row.appId),
         profile := u.profile.GetOr(row.profile),
         enable := u.enable.GetOr(row.enable))
  }
}

module WsInterestedSchema {
  import opened Wrappers

  /** A JSON value, as a notification setting arrives from a caller. */
  datatype Json =
    | JNull
    | JBool(b: bool)
    | JNumber(n: int)
    | JString(s: string)
    | JArray(items: seq<Json>)
    | JObject(fields: map<string, Json>)

  /** A row of table `ws_interested`. */
  datatype WsInterested = WsInterested(id: int, userId: int, wsExtId: string, notification: Json)

  datatype WsInterestedCreate = WsInterestedCreate(userId: int, wsExtId: string, notification: Json)

  datatype WsInterestedUpdate = WsInterestedUpdate(userId: Option<int>, wsExtId: Option<string>,
                                                   notification: Option<Json>)

  datatype WsInterestedRead = WsInterestedRead(id: int, userId: int, wsExtId: string, notification: Json)

  /** `WsInterestedRead.model_validate(obj)` */
  function ToRead(w: WsInterested): WsInterestedRead {
    WsInterestedRead(w.id, w.userId, w.wsExtId, w.notification)
  }

  /** An update's notification is given unless it is absent or JSON null,
      both of which are Python's None. */
  predicate NotificationGiven(n: Option<Json>) {
    n.Some? && !n.value.JNull?
  }

  function Merge(row: WsInterested, u: WsInterestedUpdate): WsInterested {
    row.(userId := u.userId.GetOr(row.userId),
         wsExtId := u.wsExtId.GetOr(row.wsExtId),
         notification := if NotificationGiven(u.notification) then u.notification.value else row.notification)
  }
}
