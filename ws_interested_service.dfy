/** WsInterestedService: read-only lookups over table `ws_interested`. The
    entity has no enable flag, so no lookup filters on one; the creation hook
    delegates to WsInterestedValidator. */
module WsInterestedService {
  import opened Wrappers
  import opened Tables
  import opened FieldRules
  import opened WsInterestedSchema
  import WsInterestedValidator

  function GetByUser(t: seq<WsInterested>, userId: int): (r: seq<WsInterestedRead>)
    ensures forall w :: multiset(r)[ToRead(w)] == if w.userId == userId then multiset(t)[w] else 0
    ensures forall x :: x in r ==> x.userId == userId
  {
    Project(Where(t, (w: WsInterested) => w.userId == userId), ToRead)
  }

  function GetByWsExtId(t: seq<WsInterested>, wsExtId: string): (r: seq<WsInterestedRead>)
    ensures forall w :: multiset(r)[ToRead(w)] == if w.wsExtId == wsExtId then multiset(t)[w] else 0
    ensures forall x :: x in r ==> x.wsExtId == wsExtId
  {
    Project(Where(t, (w: WsInterested) => w.wsExtId == wsExtId), ToRead)
  }

  /** Every row, one Read each. */
  function GetAll(t: seq<WsInterested>): (r: seq<WsInterestedRead>)
    ensures |r| == |t|
    ensures forall w :: multiset(r)[ToRead(w)] == multiset(t)[w]
  {
    Project(t, ToRead)
  }

  /** The creation hook is the validator's create check. */
  function ValidateCreate(t: seq<WsInterested>, c: WsInterestedCreate): (r: Check)
    ensures r == WsInterestedValidator.CreateValidate(t, c)
    ensures r == Pass <==> WsInterestedValidator.CreateAllowed(t, c)
  {
    WsInterestedValidator.CreateValidate(t, c)
  }

  /** The row a Read describes (a Read copies every column). */
  function RowOf(x: WsInterestedRead): (w: WsInterested)
    ensures ToRead(w) == x
  {
    WsInterested(x.id, x.userId, x.wsExtId, x.notification)
  }

  /** Each key lookup returns part of what get_all returns: a lookup neither
      invents a row nor returns one more often than the table holds it. */
  lemma LookupsWithinAll(t: seq<WsInterested>, userId: int, wsExtId: string)
    ensures multiset(GetByUser(t, userId)) <= multiset(GetAll(t))
    ensures multiset(GetByWsExtId(t, wsExtId)) <= multiset(GetAll(t))
  {
    forall x
      ensures multiset(GetByUser(t, userId))[x] <= multiset(GetAll(t))[x]
      ensures multiset(GetByWsExtId(t, wsExtId))[x] <= multiset(GetAll(t))[x]
    {
      var w := RowOf(x);
    }
  }
}
