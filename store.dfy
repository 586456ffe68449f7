/** stores/auth.ts: the `accessToken` writable store and the `isLoggedIn`
    store derived from it. A store is one mutable cell; subscriptions are not
    modelled. session.ts creates a second, separate cell of the same kind. */
module Store {
  import opened Js

  class TokenCell {
    var value: JsValue

    /** `writable<string | null>(null)`. */
    constructor ()
      ensures value == Null
      ensures !IsLoggedIn()
    {
      value := Null;
    }

    /** `accessToken.set(v)`: no validation of v. */
    method Set(v: JsValue)
      modifies this
      ensures value == v
      ensures IsLoggedIn() == Truthy(v)
    {
      value := v;
    }

    /** `derived(accessToken, (t) => !!t)`: its value is a function of the
        cell's current value and of nothing else. */
    function IsLoggedIn(): (b: bool)
      reads this
      ensures b <==> value != Null && value != Undefined && value != Str("")
    {
      Truthy(value)
    }
  }
}
