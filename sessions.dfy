/**
 * The session guard of quiz/views.py: `start_user_session`,
 * `end_user_session` and `check_user_session` over the per-client session
 * dictionary, where a stored `None` is `Some`'s absence and a missing key is
 * a key outside the map.
 */
module Sessions {
  import opened Wrappers
  import opened Models

  /** The values the guard stores: the `True` flag, the user's id, and text. */
  datatype SessionValue = Flag(flag: bool) | Number(number: int) | Text(text: string)

  /** The session dictionary: a key maps to `None` or to a value. */
  type Store = map<string, Option<SessionValue>>

  const LoggedKey: string := "logged"
  const IdKey: string := "id"
  const UsernameKey: string := "username"
  const EmailKey: string := "email"

  /** The four keys the guard writes. */
  function GuardKeys(): set<string> {
    {LoggedKey, IdKey, UsernameKey, EmailKey}
  }

  /** `session['logged'] is not None`, for a session where the key is present. */
  predicate IsAuthenticated(store: Store) {
    LoggedKey in store && store[LoggedKey] != None
  }

  /** The session after `end_user_session`: the four keys hold `None`, the rest is kept. */
  function Ended(store: Store): (r: Store)
    ensures r.Keys == store.Keys + GuardKeys()
    ensures forall k :: k in GuardKeys() ==> r[k] == None
    ensures forall k :: k in store && k !in GuardKeys() ==> r[k] == store[k]
    ensures !IsAuthenticated(r)
  {
    store[LoggedKey := None][IdKey := None][UsernameKey := None][EmailKey := None]
  }

  /** The session after `start_user_session(user)`: logged in as `user`, the rest kept. */
  function Started(store: Store, user: User): (r: Store)
    ensures r.Keys == store.Keys + GuardKeys()
    ensures r[LoggedKey] == Some(Flag(true)) && IsAuthenticated(r)
    ensures r[IdKey] == Some(Number(user.id))
    ensures r[UsernameKey] == Some(Text(user.username)) && r[EmailKey] == Some(Text(user.email))
    ensures forall k :: k in store && k !in GuardKeys() ==> r[k] == store[k]
  {
    store[LoggedKey := Some(Flag(true))][IdKey := Some(Number(user.id))]
         [UsernameKey := Some(Text(user.username))][EmailKey := Some(Text(user.email))]
  }

  /** The id the views read back with `session['id']`, when one is stored. */
  function SessionUserId(store: Store): (r: Option<int>)
    ensures r.Some? ==> IdKey in store && store[IdKey] == Some(Number(r.value))
    ensures IdKey in store && store[IdKey].Some? && store[IdKey].value.Number? ==> r == Some(store[IdKey].value.number)
  {
    if IdKey in store && store[IdKey].Some? && store[IdKey].value.Number? then Some(store[IdKey].value.number)
    else None
  }

  /** A session as the views see it through `request.session`. */
  class Session {
    var store: Store

    constructor (initial: Store)
      ensures store == initial
    {
      store := initial;
    }

    /** `start_user_session(request, user)`. */
    method StartUserSession(user: User)
      modifies this
      ensures store == Started(old(store), user)
    {
      store := store[LoggedKey := Some(Flag(true))];
      store := store[IdKey := Some(Number(user.id))];
      store := store[UsernameKey := Some(Text(user.username))];
      store := store[EmailKey := Some(Text(user.email))];
    }

    /** `end_user_session(request)`. */
    method EndUserSession()
      modifies this
      ensures store == Ended(old(store))
    {
      store := store[LoggedKey := None];
      store := store[IdKey := None];
      store := store[UsernameKey := None];
      store := store[EmailKey := None];
    }

    /**
     * `check_user_session(request)`: a session without the `logged` key is
     * first ended; the answer is whether `logged` holds something other than `None`.
     */
    method CheckUserSession() returns (logged: bool)
      modifies this
      ensures store == if LoggedKey in old(store) then old(store) else Ended(old(store))
      ensures logged == IsAuthenticated(old(store)) == IsAuthenticated(store)
      ensures LoggedKey in store
    {
      if LoggedKey !in store {
        EndUserSession();
      }
      logged := store[LoggedKey] != None;
    }
  }

  // ---------------------------------------------------------------- laws

  /** Ending a session twice is ending it once. */
  lemma EndIdempotent(store: Store)
    ensures Ended(Ended(store)) == Ended(store)
  {
  }

  /** Logging out after logging in leaves what logging out alone leaves. */
  lemma EndAfterStart(store: Store, user: User)
    ensures Ended(Started(store, user)) == Ended(store)
  {
  }

  /** A login overwrites whatever an earlier logout left. */
  lemma StartAfterEnd(store: Store, user: User)
    ensures Started(Ended(store), user) == Started(store, user)
  {
  }

  /** After a login the views read back the user's id. */
  lemma StartedUserId(store: Store, user: User)
    ensures SessionUserId(Started(store, user)) == Some(user.id)
  {
  }

  /** A never-initialised session is not authenticated, and healing it gives the ended empty session. */
  lemma EmptySessionAnonymous()
    ensures !IsAuthenticated(map[])
    ensures Ended(map[]) == map[LoggedKey := None, IdKey := None, UsernameKey := None, EmailKey := None]
  {
  }

  /** The guard only ever reports what `logged` already said: healing never logs anyone in. */
  lemma HealingKeepsVerdict(store: Store)
    ensures IsAuthenticated(if LoggedKey in store then store else Ended(store)) == IsAuthenticated(store)
  {
  }

  /** Login, check, logout, check: the guard answers true, then false. */
  method LoginLogoutScenario(initial: Store, user: User) returns (before: bool, after: bool)
    ensures before && !after
  {
    var session := new Session(initial);
    session.StartUserSession(user);
    before := session.CheckUserSession();
    session.EndUserSession();
    after := session.CheckUserSession();
  }
}
