/** The browser's `window.localStorage`: a mutable map from keys to string
    values, shared by the router, the session store and the HTTP
    interceptors. Only the three calls the front-end makes are modelled. */
module WebStorage {
  import opened Wrappers

  /** The keys a forced logout or a startup cleanup deletes. */
  const AccessTokenKey := "access_token"
  const UserKey := "user"
  const CsrfKey := "csrf"

  class Storage {
    var items: map<string, string>

    constructor (initial: map<string, string>)
      ensures items == initial
    {
      items := initial;
    }

    /** `getItem(key)`: the stored text, or `None` where JavaScript gives `null`. */
    function GetItem(key: string): (r: Option<string>)
      reads this
      ensures r.Some? <==> key in items
      ensures r.Some? ==> r.value == items[key]
    {
      if key in items then Some(items[key]) else None
    }

    /** `setItem(key, value)`: stores `value` under `key`, keeping every other key. */
    method SetItem(key: string, value: string)
      modifies this
      ensures items == old(items)[key := value]
      ensures GetItem(key) == Some(value)
      ensures forall k :: k != key ==> GetItem(k) == old(GetItem(k))
    {
      items := items[key := value];
    }

    /** `removeItem(key)`: deletes `key`, keeping every other key. */
    method RemoveItem(key: string)
      modifies this
      ensures items == old(items) - {key}
      ensures GetItem(key) == None
      ensures forall k :: k != key ==> GetItem(k) == old(GetItem(k))
    {
      items := items - {key};
    }
  }
}
