/** WsInterestedValidator: field rules for weather-station interests and
    uniqueness of the pair (user_id, ws_ext_id), checked against a snapshot
    of table `ws_interested`. */
module WsInterestedValidator {
  import opened Wrappers
  import opened Text
  import opened Tables
  import opened FieldRules
  import opened WsInterestedSchema

  const MaxWsExtIdLength: nat := 50

  function ValidateUserId(userId: int): (r: Check)
    ensures r == Pass <==> userId > 0
    ensures r.Fail? ==> r.error == NotPositive(UserId)
  {
    PositiveId(userId, UserId)
  }

  function ValidateWsExtId(wsExtId: string): (r: Check)
    ensures r == Fail(Required(WsExtId)) <==> Blank(wsExtId)
    ensures r == Fail(TooLong(WsExtId, MaxWsExtIdLength)) <==> !Blank(wsExtId) && |wsExtId| > MaxWsExtIdLength
    ensures r == Pass <==> Acceptable(wsExtId, MaxWsExtIdLength)
  {
    RequiredString(wsExtId, WsExtId, MaxWsExtIdLength)
  }

  /** Not a JSON object fails first; an empty object fails next. */
  function ValidateNotification(notification: Json): (r: Check)
    ensures r == Fail(NotAnObject) <==> !notification.JObject?
    ensures r == Fail(EmptyNotification) <==> notification == JObject(map[])
    ensures r == Pass <==> notification.JObject? && |notification.fields| > 0
  {
    if !notification.JObject? then Fail(NotAnObject)
    else if |notification.fields| == 0 then Fail(EmptyNotification)
    else Pass
  }

  /** Some row other than the excluded one already holds the pair. */
  ghost predicate PairTaken(t: seq<WsInterested>, userId: int, wsExtId: string, excludeId: Option<int>) {
    exists i :: 0 <= i < |t| && t[i].userId == userId && t[i].wsExtId == wsExtId
                && !ExcludedBy(excludeId, t[i].id)
  }

  function ValidateUniqueUserWs(t: seq<WsInterested>, userId: int, wsExtId: string,
                                excludeId: Option<int>): (r: Check)
    ensures r.Fail? <==> PairTaken(t, userId, wsExtId, excludeId)
    ensures r.Fail? ==> r.error == DuplicateInterest(userId, wsExtId)
  {
    var hit := FirstWhere(t, (w: WsInterested) => w.userId == userId && w.wsExtId == wsExtId
                                                  && !ExcludedBy(excludeId, w.id));
    if hit.Some? then Fail(DuplicateInterest(userId, wsExtId)) else Pass
  }

  ghost predicate CreateAllowed(t: seq<WsInterested>, c: WsInterestedCreate) {
    && c.userId > 0
    && Acceptable(c.wsExtId, MaxWsExtIdLength)
    && c.notification.JObject? && |c.notification.fields| > 0
    && !PairTaken(t, c.userId, c.wsExtId, None)
  }

  /** user_id, ws_ext_id, notification, then uniqueness; the first failing
      check raises. */
  function CreateValidate(t: seq<WsInterested>, c: WsInterestedCreate): (r: Check)
    ensures r == Pass <==> CreateAllowed(t, c)
    ensures c.userId <= 0 ==> r == Fail(NotPositive(UserId))
    ensures c.userId > 0 && Blank(c.wsExtId) ==> r == Fail(Required(WsExtId))
    ensures c.userId > 0 && !Blank(c.wsExtId) && |c.wsExtId| > MaxWsExtIdLength
            ==> r == Fail(TooLong(WsExtId, MaxWsExtIdLength))
    ensures c.userId > 0 && Acceptable(c.wsExtId, MaxWsExtIdLength)
            ==> (&& (r == Fail(NotAnObject) <==> !c.notification.JObject?)
                 && (r == Fail(EmptyNotification) <==> c.notification == JObject(map[])))
    ensures c.userId > 0 && Acceptable(c.wsExtId, MaxWsExtIdLength) && ValidateNotification(c.notification) == Pass
            && PairTaken(t, c.userId, c.wsExtId, None)
            ==> r == Fail(DuplicateInterest(c.userId, c.wsExtId))
  {
    ValidateUserId(c.userId)
      .Then(ValidateWsExtId(c.wsExtId))
      .Then(ValidateNotification(c.notification))
      .Then(ValidateUniqueUserWs(t, c.userId, c.wsExtId, None))
  }

  /** The checks on the fields an update carries; absent fields are skipped. */
  function UpdateFieldChecks(u: WsInterestedUpdate): Check {
    (if u.userId.Some? then ValidateUserId(u.userId.value) else Pass)
      .Then(if u.wsExtId.Some? then ValidateWsExtId(u.wsExtId.value) else Pass)
      .Then(if NotificationGiven(u.notification) then ValidateNotification(u.notification.value) else Pass)
  }

  /** As written: field checks on what is present, and the pair check only
      when both halves are given. */
  function UpdateValidate(t: seq<WsInterested>, u: WsInterestedUpdate, wsInterestedId: int): (r: Check)
    ensures u.userId.None? && u.wsExtId.None? && (u.notification.None? || u.notification == Some(JNull))
            ==> r == Pass
    ensures !(u.userId.Some? && u.wsExtId.Some?) ==> r == UpdateFieldChecks(u)
    ensures r.Fail? && r.error.DuplicateInterest? ==> u.userId.Some? && u.wsExtId.Some?
    ensures UpdateFieldChecks(u) == Pass && u.userId.Some? && u.wsExtId.Some?
            ==> (r == Pass <==> !PairTaken(t, u.userId.value, u.wsExtId.value, Some(wsInterestedId)))
    ensures UpdateFieldChecks(u) == Pass && u.userId.Some? && u.wsExtId.Some?
            && PairTaken(t, u.userId.value, u.wsExtId.value, Some(wsInterestedId))
            ==> r == Fail(DuplicateInterest(u.userId.value, u.wsExtId.value))
    ensures UpdateFieldChecks(u).Fail? ==> r == UpdateFieldChecks(u)
  {
    var unique :=
      if u.userId.Some? && u.wsExtId.Some? then
        ValidateUniqueUserWs(t, u.userId.value, u.wsExtId.value, Some(wsInterestedId))
      else Pass;
    UpdateFieldChecks(u).Then(unique)
  }

  ghost predicate UniqueIds(t: seq<WsInterested>) {
    forall i, j :: 0 <= i < j < |t| ==> t[i].id != t[j].id
  }

  ghost predicate UniquePairs(t: seq<WsInterested>) {
    forall i, j :: 0 <= i < j < |t| ==> t[i].userId != t[j].userId || t[i].wsExtId != t[j].wsExtId
  }

  /** The row the generic create inserts. */
  function Created(c: WsInterestedCreate, id: int): WsInterested {
    WsInterested(id, c.userId, c.wsExtId, c.notification)
  }

  lemma CreatePreservesUniquePairs(t: seq<WsInterested>, c: WsInterestedCreate, id: int)
    requires UniquePairs(t)
    requires CreateValidate(t, c) == Pass
    ensures UniquePairs(t + [Created(c, id)])
  {
    var t' := t + [Created(c, id)];
    forall i, j | 0 <= i < j < |t'|
      ensures t'[i].userId != t'[j].userId || t'[i].wsExtId != t'[j].wsExtId
    {
      if j == |t| {
        assert t'[i] == t[i];
      }
    }
  }

  /** As written, an update that moves one interest onto a station its user
      already follows passes validation and leaves two rows with one pair. */
  lemma UpdateCanDuplicatePair()
    ensures var n := JObject(map["email" := JBool(true)]);
            var t := [WsInterested(1, 1, "WS_1", n), WsInterested(2, 1, "WS_2", n)];
            var u := WsInterestedUpdate(None, Some("WS_1"), None);
            && UniqueIds(t) && UniquePairs(t)
            && UpdateValidate(t, u, 2) == Pass
            && !UniquePairs(t[1 := Merge(t[1], u)])
  {
    var n := JObject(map["email" := JBool(true)]);
    var t := [WsInterested(1, 1, "WS_1", n), WsInterested(2, 1, "WS_2", n)];
    var u := WsInterestedUpdate(None, Some("WS_1"), None);
    assert Acceptable("WS_1", MaxWsExtIdLength) by {
      assert !IsWhitespace("WS_1"[0]);
    }
    var t' := t[1 := Merge(t[1], u)];
    assert t'[0].userId == t'[1].userId && t'[0].wsExtId == t'[1].wsExtId;
  }

  /** `db.query(WsInterested).filter(WsInterested.id == id).first()` */
  function FindById(t: seq<WsInterested>, id: int): Option<WsInterested> {
    FirstWhere(t, (w: WsInterested) => w.id == id)
  }

  /** Corrected: like the app and user validators, an update carrying one
      half of the pair is checked with the other half from the stored row. */
  function UpdateValidateRederived(t: seq<WsInterested>, u: WsInterestedUpdate, wsInterestedId: int): (r: Check)
    ensures u.userId.None? && u.wsExtId.None? ==> r == UpdateFieldChecks(u)
    ensures UpdateFieldChecks(u).Fail? ==> r == UpdateFieldChecks(u)
    ensures FindById(t, wsInterestedId).Some? && (u.userId.Some? || u.wsExtId.Some?)
            && UpdateFieldChecks(u) == Pass
            ==> var m := Merge(FindById(t, wsInterestedId).value, u);
                r == if PairTaken(t, m.userId, m.wsExtId, Some(wsInterestedId))
                     then Fail(DuplicateInterest(m.userId, m.wsExtId)) else Pass
  {
    var unique :=
      if u.userId.Some? && u.wsExtId.Some? then
        ValidateUniqueUserWs(t, u.userId.value, u.wsExtId.value, Some(wsInterestedId))
      else if u.userId.Some? then
        match FindById(t, wsInterestedId)
        case Some(current) => ValidateUniqueUserWs(t, u.userId.value, current.wsExtId, Some(wsInterestedId))
        case None => Pass
      else if u.wsExtId.Some? then
        match FindById(t, wsInterestedId)
        case Some(current) => ValidateUniqueUserWs(t, current.userId, u.wsExtId.value, Some(wsInterestedId))
        case None => Pass
      else Pass;
    UpdateFieldChecks(u).Then(unique)
  }

  lemma RederivedUpdatePreservesUniquePairs(t: seq<WsInterested>, u: WsInterestedUpdate, k: int)
    requires UniqueIds(t) && UniquePairs(t)
    requires 0 <= k < |t| && t[k].id != 0
    requires UpdateValidateRederived(t, u, t[k].id) == Pass
    ensures UniquePairs(t[k := Merge(t[k], u)])
  {
    var id := t[k].id;
    assert FindById(t, id) == Some(t[k]);
    var m := Merge(t[k], u);
    var t' := t[k := m];
    if u.userId.Some? || u.wsExtId.Some? {
      assert !PairTaken(t, m.userId, m.wsExtId, Some(id));
    }
    forall i, j | 0 <= i < j < |t'|
      ensures t'[i].userId != t'[j].userId || t'[i].wsExtId != t'[j].wsExtId
    {
      if i == k {
        assert t[j].id != id;
      } else if j == k {
        assert t[i].id != id;
      }
    }
  }
}
