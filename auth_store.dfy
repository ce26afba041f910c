/** The session store of `src/stores/auth.js`. Its two persisted refs,
    `token` and `user`, are the `access_token` and `user` entries of the
    browser storage: writing `null` to such a ref removes the entry, and
    writing anything else stores its text. The store is therefore a view of
    a `Storage` object, and every operation says what it does to that map. */
module AuthStore {
  import opened Wrappers
  import opened Json
  import opened WebStorage
  import Router

  /** `data?.[key] ?? default`: a missing member or a `null` one gives the
      default; `None` stands for `undefined` data. */
  function Field(data: Option<Value>, key: string, default: Value): (r: Value)
    ensures r == default || (data.Some? && Member(data.value, key) == Some(r))
    ensures data.None? ==> r == default
    ensures data.Some? && (Member(data.value, key).None? || Member(data.value, key) == Some(Null)) ==> r == default
    ensures data.Some? && Member(data.value, key).Some? && Member(data.value, key) != Some(Null) ==>
              Member(data.value, key) == Some(r)
  {
    if data.None? then default
    else
      match Member(data.value, key)
      case None => default
      case Some(Null) => default
      case Some(v) => v
  }

  /** The object `setUserData(data)` serialises: the names and the e-mail
      (`null` when missing) and the roles (`[]` when missing), in this order. */
  function NormalisedUser(data: Option<Value>): Value {
    Obj([("first_name", Field(data, "first_name", Null)),
         ("last_name", Field(data, "last_name", Null)),
         ("email", Field(data, "email", Null)),
         ("roles", Field(data, "roles", Arr([])))])
  }

  /** `JSON.parse(user.value)` with a `null` result where it throws; a
      missing entry reads as `JSON.parse(null)`, which is `null`. */
  function ReadUser(user: Option<string>): (r: Value)
    ensures Parse(user.GetOr("null")).None? ==> r == Null
    ensures Parse(user.GetOr("null")).Some? ==> r == Parse(user.GetOr("null")).value
    ensures user.None? ==> r == Null
  {
    RoundTrip(Null);
    assert Stringify(Null) == "null";
    match Parse(user.GetOr("null"))
    case None => Null
    case Some(v) => v
  }

  /** The normalised user has exactly the four members, each as `data` gives
      it or as its default. */
  lemma NormalisedUserMembers(data: Option<Value>)
    ensures var u := NormalisedUser(data);
            Member(u, "first_name") == Some(Field(data, "first_name", Null)) &&
            Member(u, "last_name") == Some(Field(data, "last_name", Null)) &&
            Member(u, "email") == Some(Field(data, "email", Null)) &&
            Member(u, "roles") == Some(Field(data, "roles", Arr([])))
  {
    var ms := NormalisedUser(data).members;
    LookupAt(ms, "first_name", 0);
    LookupAt(ms, "last_name", 1);
    LookupAt(ms, "email", 2);
    LookupAt(ms, "roles", 3);
  }

  /** No other member is present. */
  lemma NormalisedUserHasNoOtherMembers(data: Option<Value>, key: string)
    requires key != "first_name" && key != "last_name" && key != "email" && key != "roles"
    ensures Member(NormalisedUser(data), key).None?
  {
    var ms := NormalisedUser(data).members;
    assert forall i :: 0 <= i < |ms| ==> ms[i].0 != key;
  }

  /** Reading back what `setUserData(data)` wrote yields the normalised user. */
  lemma UserRoundTrip(data: Option<Value>)
    ensures ReadUser(Some(Stringify(NormalisedUser(data)))) == NormalisedUser(data)
  {
    RoundTrip(NormalisedUser(data));
  }

  /** Normalising is idempotent: the stored user normalises to itself. */
  lemma NormaliseIsIdempotent(data: Option<Value>)
    ensures NormalisedUser(Some(NormalisedUser(data))) == NormalisedUser(data)
  {
    NormalisedUserMembers(data);
  }

  /** The router reads back the roles the store wrote (`[]` when `data` gave none). */
  lemma RouterSeesStoredRoles(data: Option<Value>)
    ensures Router.UserRoles(Some(Stringify(NormalisedUser(data)))) == Field(data, "roles", Arr([]))
  {
    RoundTrip(NormalisedUser(data));
    NormalisedUserMembers(data);
  }

  class Store {
    const storage: Storage

    /** `useAuthStore()` over the given storage. */
    constructor (storage: Storage)
      ensures this.storage == storage
    {
      this.storage := storage;
    }

    /** The `accessToken` getter. */
    function AccessToken(): (r: Option<string>)
      reads storage
      ensures r.Some? <==> AccessTokenKey in storage.items
      ensures r.Some? ==> r.value == storage.items[AccessTokenKey]
    {
      storage.GetItem(AccessTokenKey)
    }

    /** The `userData` getter. */
    function UserData(): (r: Value)
      reads storage
      ensures UserKey !in storage.items ==> r == Null
      ensures UserKey in storage.items && Parse(storage.items[UserKey]).Some? ==>
                r == Parse(storage.items[UserKey]).value
      ensures UserKey in storage.items && Parse(storage.items[UserKey]).None? ==> r == Null
    {
      ReadUser(storage.GetItem(UserKey))
    }

    /** `setAccessToken(jwe)`, with `None` for `null` and `undefined`. */
    method SetAccessToken(jwe: Option<string>)
      modifies storage
      ensures storage.items == if jwe.None? then old(storage.items) - {AccessTokenKey}
                               else old(storage.items)[AccessTokenKey := jwe.value]
      ensures AccessToken() == jwe
      ensures storage.GetItem(UserKey) == old(storage.GetItem(UserKey))
    {
      if jwe.None? {
        storage.RemoveItem(AccessTokenKey);
      } else {
        storage.SetItem(AccessTokenKey, jwe.value);
      }
    }

    /** `setUserData(data)`. */
    method SetUserData(data: Option<Value>)
      modifies storage
      ensures storage.items == old(storage.items)[UserKey := Stringify(NormalisedUser(data))]
      ensures UserData() == NormalisedUser(data)
      ensures AccessToken() == old(AccessToken())
    {
      storage.SetItem(UserKey, Stringify(NormalisedUser(data)));
      UserRoundTrip(data);
    }

    /** `clean()`: only the token is dropped. */
    method Clean()
      modifies storage
      ensures storage.items == old(storage.items) - {AccessTokenKey}
      ensures AccessToken() == None
      ensures storage.GetItem(UserKey) == old(storage.GetItem(UserKey))
    {
      storage.RemoveItem(AccessTokenKey);
    }
  }

  /** `clean()` called twice leaves the storage as one call does. */
  method CleanTwice(store: Store)
    modifies store.storage
    ensures store.storage.items == old(store.storage.items) - {AccessTokenKey}
  {
    store.Clean();
    store.Clean();
  }
}
