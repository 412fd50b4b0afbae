/**
 * The pending-validation token store of src/main.rs: `index` issues a token
 * for the visitor, `bot_reply` redeems it and clears the visitor's bot flag.
 *
 * The clock and the random token are parameters.  Timestamps are whole
 * nanoseconds, the resolution of `OffsetDateTime`.
 */
module PendingValidations {
  import Types
  import Persistence

  const NanosPerSecond: int := 1_000_000_000

  /** `VALIDATION_TIMEOUT`: ten seconds. */
  const ValidationTimeout: int := 10 * NanosPerSecond

  /** A token handed to a visitor, waiting to be redeemed. */
  datatype PendingValidation = PendingValidation(user: Types.uint32, uniqueId: string, timestamp: int)

  /** A character of `rand::distributions::Alphanumeric`. */
  predicate IsAlphanumeric(c: char)
  {
    ('a' <= c <= 'z') || ('A' <= c <= 'Z') || ('0' <= c <= '9')
  }

  /** The shape of the ids `PendingValidation::new` draws: 16 alphanumeric characters. */
  predicate IsValidationId(s: string)
  {
    |s| == 16 && forall i :: 0 <= i < |s| ==> IsAlphanumeric(s[i])
  }

  /** `is_expired`: strictly more than the timeout has passed since the token was issued. */
  predicate IsExpired(v: PendingValidation, now: int): (expired: bool)
    ensures expired ==> now > v.timestamp + ValidationTimeout
  {
    now - v.timestamp > ValidationTimeout
  }

  /** A token is still valid at exactly ten seconds and expired one nanosecond later. */
  lemma ExpiryBoundary(v: PendingValidation)
    ensures !IsExpired(v, v.timestamp + 10 * NanosPerSecond)
    ensures IsExpired(v, v.timestamp + 10 * NanosPerSecond + 1)
  {
  }

  /** Once expired, a token stays expired. */
  lemma ExpiryMonotone(v: PendingValidation, t1: int, t2: int)
    requires t1 <= t2 && IsExpired(v, t1)
    ensures IsExpired(v, t2)
  {
  }

  /**
   * `PendingValidation::new` with the random id and the clock reading passed in:
   * the token belongs to `user`, is stamped `now`, and is not expired at `now`.
   */
  function NewValidation(user: Types.uint32, uniqueId: string, now: int): (v: PendingValidation)
    requires IsValidationId(uniqueId)
    ensures v.user == user && v.uniqueId == uniqueId && v.timestamp == now
    ensures forall t :: now <= t <= now + ValidationTimeout ==> !IsExpired(v, t)
  {
    PendingValidation(user, uniqueId, now)
  }

  /** Every entry is stored under its own id, and every id has the generated shape. */
  predicate KeyedByOwnId(m: map<string, PendingValidation>)
  {
    forall id :: id in m ==> m[id].uniqueId == id && IsValidationId(id)
  }

  /** `retain(|_, v| !v.is_expired())`: the entries that have not expired at `now`. */
  function Sweep(m: map<string, PendingValidation>, now: int): (r: map<string, PendingValidation>)
    ensures forall id :: id in r <==> id in m && !IsExpired(m[id], now)
    ensures forall id :: id in r ==> r[id] == m[id]
  {
    map id | id in m && !IsExpired(m[id], now) :: m[id]
  }

  /** Sweeping keeps every entry under its own id. */
  lemma SweepKeyed(m: map<string, PendingValidation>, now: int)
    requires KeyedByOwnId(m)
    ensures KeyedByOwnId(Sweep(m, now))
  {
  }

  /** A later sweep subsumes an earlier one, so sweeping twice at the same instant is sweeping once. */
  lemma SweepLater(m: map<string, PendingValidation>, t1: int, t2: int)
    requires t1 <= t2
    ensures Sweep(Sweep(m, t1), t2) == Sweep(m, t2)
  {
    var once := Sweep(m, t1);
    forall id | id in m && !IsExpired(m[id], t2)
      ensures id in once
    {
      if IsExpired(m[id], t1) {
        ExpiryMonotone(m[id], t1, t2);
      }
    }
  }

  /** The HTTP status `bot_reply` answers with. */
  datatype Response = Ok | BadRequest | Unauthorized | InternalServerError

  /** `AppState::pending_validations`, the map from token id to pending token. */
  class ValidationStore {
    var pending: map<string, PendingValidation>

    ghost predicate Valid()
      reads this
    {
      KeyedByOwnId(pending)
    }

    /** The empty map the server starts with. */
    constructor ()
      ensures Valid() && pending == map[]
    {
      pending := map[];
    }

    /**
     * The token insert of `index`: a fresh token for `user` is stored under its
     * own id, replacing any token that already had that id.
     */
    method Issue(user: Types.uint32, uniqueId: string, now: int) returns (v: PendingValidation)
      requires Valid()
      requires IsValidationId(uniqueId)
      modifies this
      ensures Valid()
      ensures v.user == user && v.uniqueId == uniqueId && v.timestamp == now
      ensures pending == old(pending)[uniqueId := v]
    {
      v := NewValidation(user, uniqueId, now);
      pending := pending[v.uniqueId := v];
    }

    /**
     * The map and ledger logic of `bot_reply`: look the token up, remove it,
     * reject it if it has expired, otherwise clear the user's bot flag, sweep
     * the expired tokens and, if the ledger update failed, put the token back.
     */
    method Redeem(ledger: Persistence.Ledger, renderId: string, now: int, updateOk: bool) returns (resp: Response)
      requires Valid() && ledger.Valid()
      modifies this, ledger
      ensures Valid() && ledger.Valid()
      // An unknown token: nothing changes.
      ensures renderId !in old(pending) ==>
                resp == BadRequest && pending == old(pending) && unchanged(ledger)
      // An expired token: it is removed, there is no sweep, and the ledger is untouched.
      ensures renderId in old(pending) && IsExpired(old(pending)[renderId], now) ==>
                resp == Unauthorized && pending == old(pending) - {renderId} && unchanged(ledger)
      // A live token and a successful update: the user is no longer a bot and the token is spent.
      ensures renderId in old(pending) && !IsExpired(old(pending)[renderId], now) && updateOk ==>
                && resp == Ok
                && pending == Sweep(old(pending) - {renderId}, now)
                && ledger.rows == Persistence.ClearBot(old(ledger.rows), old(pending)[renderId].user)
                && ledger.nextId == old(ledger.nextId)
      // A live token and a failed update: the original token is back after the sweep.
      ensures renderId in old(pending) && !IsExpired(old(pending)[renderId], now) && !updateOk ==>
                && resp == InternalServerError
                && pending == Sweep(old(pending) - {renderId}, now)[renderId := old(pending)[renderId]]
                && unchanged(ledger)
      // Only a failed update leaves the token redeemable.
      ensures renderId in pending <==> resp == InternalServerError
      // After a sweep no expired token is left, and every live token other than the redeemed one is kept.
      ensures resp == Ok || resp == InternalServerError ==>
                && (forall id :: id in pending ==> !IsExpired(pending[id], now))
                && (forall id :: id in old(pending) && id != renderId && !IsExpired(old(pending)[id], now) ==>
                      id in pending && pending[id] == old(pending)[id])
      ensures resp == Ok ==>
                forall i :: 0 <= i < |ledger.rows| && ledger.rows[i].user == old(pending)[renderId].user ==> !ledger.rows[i].isBot
    {
      if renderId !in pending {
        return BadRequest;
      }
      // The source's second BadRequest, for a `remove` that finds nothing, cannot
      // be reached after the membership test above and has no counterpart here.
      var v := pending[renderId];
      pending := pending - {renderId};
      if IsExpired(v, now) {
        return Unauthorized;
      }
      var updated := ledger.SetUserNotBot(v.user, updateOk);
      SweepKeyed(pending, now);
      pending := Sweep(pending, now);
      if updated {
        return Ok;
      }
      pending := pending[v.uniqueId := v];
      return InternalServerError;
    }
  }

  /** A token is spent by the first redemption that does not fail in the ledger. */
  method RedeemTwice(store: ValidationStore, ledger: Persistence.Ledger, renderId: string,
                     now1: int, now2: int, updateOk1: bool, updateOk2: bool)
    returns (first: Response, second: Response)
    requires store.Valid() && ledger.Valid()
    modifies store, ledger
    ensures store.Valid() && ledger.Valid()
    ensures first != InternalServerError ==> second == BadRequest
    // Only a successful first redemption touches the ledger; the second one, after it, leaves it as it was.
    ensures first == Ok ==> renderId in old(store.pending) && ledger.rows == Persistence.ClearBot(old(ledger.rows), old(store.pending)[renderId].user)
    ensures first != Ok ==> ledger.rows == old(ledger.rows) || second == Ok
  {
    first := store.Redeem(ledger, renderId, now1, updateOk1);
    second := store.Redeem(ledger, renderId, now2, updateOk2);
  }

  /**
   * Issue followed by a redemption within the timeout, with the ledger update
   * succeeding: the visitor is verified and the token is gone.
   */
  method IssueThenRedeem(store: ValidationStore, ledger: Persistence.Ledger, user: Types.uint32,
                         uniqueId: string, issuedAt: int, redeemedAt: int)
    returns (resp: Response)
    requires store.Valid() && ledger.Valid()
    requires IsValidationId(uniqueId)
    requires issuedAt <= redeemedAt <= issuedAt + ValidationTimeout
    modifies store, ledger
    ensures store.Valid() && ledger.Valid()
    ensures resp == Ok
    ensures uniqueId !in store.pending
    ensures forall i :: 0 <= i < |ledger.rows| && ledger.rows[i].user == user ==> !ledger.rows[i].isBot
  {
    var v := store.Issue(user, uniqueId, issuedAt);
    resp := store.Redeem(ledger, uniqueId, redeemedAt, true);
  }
}
