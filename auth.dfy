/** The access rules of `src/modules/auth.js`: the check that an access
    token is a JWE whose protected header names the expected key agreement
    (section 4.1 of RFC 7516; `epk` from section 4.6.1.1 of RFC 7518, the
    algorithms `ECDH-ES+A256KW` and `A256GCM` from sections 4.6 and 5.3 of
    RFC 7518), and the two role rules for permissions and routes.

    A JavaScript value that may be `null`/`undefined` is an `Option`; an
    argument that may be something other than an array is an
    `Option<seq<string>>` whose `None` stands for "not an array". */
module Auth {
  import opened Wrappers
  import opened JsString

  /** The ephemeral public key member `epk` of a protected header. Only
      `kty` and `crv` are looked at; the coordinates are carried along. A
      member that is missing or is not a string is `None`. */
  datatype EphemeralKey = EphemeralKey(kty: Option<string>, crv: Option<string>,
                                       x: Option<string>, y: Option<string>)

  /** A decoded JWE protected header: the members the check reads, and every
      other member by name. */
  datatype ProtectedHeader = ProtectedHeader(
    typ: Option<string>,
    alg: Option<string>,
    enc: Option<string>,
    epk: Option<EphemeralKey>,
    others: map<string, string>)

  /** What the header decoder does with its argument: it throws on input that
      is not a compact serialisation, or returns the header. */
  datatype Decoded = DecodeThrows | Header(header: ProtectedHeader)

  /** How a call of `validateAccessToken` ends. */
  datatype Outcome = Threw | Returned(valid: bool)

  /** The five header members and the values the front-end accepts. */
  predicate IsExpectedHeader(h: ProtectedHeader) {
    h.typ == Some("JWE") &&
    h.alg == Some("ECDH-ES+A256KW") &&
    h.enc == Some("A256GCM") &&
    h.epk.Some? && h.epk.value.kty == Some("EC") && h.epk.value.crv == Some("P-256")
  }

  /** `token?.toString()?.trim()`: a missing token stays missing. */
  function TrimToken(token: Option<string>): (r: Option<string>)
    ensures r.Some? <==> token.Some?
    ensures r.Some? ==> r.value == Trim(token.value)
  {
    match token
    case None => None
    case Some(t) => Some(Trim(t))
  }

  /** `validateAccessToken(token)`, with `decode` standing for
      `decodeProtectedHeader`. A token that is blank after trimming is
      refused before the decoder runs. A missing token is NOT refused there
      (`undefined < 1` is false), so it reaches the decoder. */
  function ValidateAccessToken(token: Option<string>, decode: Option<string> -> Decoded): (r: Outcome)
    ensures token.Some? && AllWhiteSpace(token.value) ==> r == Returned(false)
    ensures !(token.Some? && AllWhiteSpace(token.value)) ==>
              (r == Threw <==> decode(TrimToken(token)) == DecodeThrows)
    ensures r == Returned(true) <==>
              !(token.Some? && AllWhiteSpace(token.value)) &&
              decode(TrimToken(token)).Header? &&
              var h := decode(TrimToken(token)).header;
              h.typ == Some("JWE") && h.alg == Some("ECDH-ES+A256KW") && h.enc == Some("A256GCM") &&
              h.epk.Some? && h.epk.value.kty == Some("EC") && h.epk.value.crv == Some("P-256")
  {
    var t := TrimToken(token);
    assert t.Some? && |t.value| < 1 <==> token.Some? && AllWhiteSpace(token.value) by {
      if token.Some? { TrimEmptyIff(token.value); }
    }
    if t.Some? && |t.value| < 1 then Returned(false)
    else
      match decode(t)
      case DecodeThrows => Threw
      case Header(h) => Returned(IsExpectedHeader(h))
  }

  /** A blank token is refused whatever the decoder would have said. */
  lemma BlankTokenIgnoresDecoder(token: string, d1: Option<string> -> Decoded, d2: Option<string> -> Decoded)
    requires AllWhiteSpace(token)
    ensures ValidateAccessToken(Some(token), d1) == ValidateAccessToken(Some(token), d2) == Returned(false)
  {
  }

  /** The accepted header is the one whose five checked members hold the
      expected values; anything else in the header does not matter. */
  lemma ExpectedHeaderOnlyChecksFive(h: ProtectedHeader, h': ProtectedHeader)
    requires h.typ == h'.typ && h.alg == h'.alg && h.enc == h'.enc
    requires h.epk.Some? <==> h'.epk.Some?
    requires h.epk.Some? ==> h.epk.value.kty == h'.epk.value.kty && h.epk.value.crv == h'.epk.value.crv
    ensures IsExpectedHeader(h) == IsExpectedHeader(h')
  {
  }

  /** Starting from an accepted header, changing any one checked member to
      another value, or dropping `epk`, makes the header rejected. */
  lemma ChangingOneFieldRejects(h: ProtectedHeader, v: Option<string>)
    requires IsExpectedHeader(h)
    ensures v != Some("JWE") ==> !IsExpectedHeader(h.(typ := v))
    ensures v != Some("ECDH-ES+A256KW") ==> !IsExpectedHeader(h.(alg := v))
    ensures v != Some("A256GCM") ==> !IsExpectedHeader(h.(enc := v))
    ensures v != Some("EC") ==> !IsExpectedHeader(h.(epk := Some(h.epk.value.(kty := v))))
    ensures v != Some("P-256") ==> !IsExpectedHeader(h.(epk := Some(h.epk.value.(crv := v))))
    ensures !IsExpectedHeader(h.(epk := None))
  {
  }

  // ---------------------------------------------------------------------------
  // Role rules

  /** Some element of `xs` occurs in `ys` (`xs.some((r) => ys.includes(r))`). */
  function AnyIn(xs: seq<string>, ys: seq<string>): (r: bool)
    ensures r <==> exists i :: 0 <= i < |xs| && xs[i] in ys
  {
    if |xs| == 0 then false
    else if xs[0] in ys then true
    else
      var r := AnyIn(xs[1..], ys);
      assert forall i :: 1 <= i < |xs| ==> xs[i] == xs[1..][i - 1];
      r
  }

  /** `hasPermission(allowed, roles)`: both arguments must be non-empty
      arrays, and some allowed role must be among the user's roles. */
  function HasPermission(allowed: Option<seq<string>>, roles: Option<seq<string>>): (r: bool)
    ensures r <==> allowed.Some? && roles.Some? &&
                   exists i :: 0 <= i < |allowed.value| && allowed.value[i] in roles.value
  {
    if allowed.None? || |allowed.value| < 1 || roles.None? || |roles.value| < 1 then false
    else AnyIn(allowed.value, roles.value)
  }

  /** `hasPermission` refuses as soon as either list is empty or not a list. */
  lemma PermissionNeedsBothLists(allowed: Option<seq<string>>, roles: Option<seq<string>>)
    requires allowed == None || allowed == Some([]) || roles == None || roles == Some([])
    ensures !HasPermission(allowed, roles)
  {
  }

  /** Only a shared element matters, so the arguments can be swapped. */
  lemma {:induction false} PermissionIsSymmetric(allowed: Option<seq<string>>, roles: Option<seq<string>>)
    ensures HasPermission(allowed, roles) == HasPermission(roles, allowed)
  {
    if HasPermission(allowed, roles) {
      var i :| 0 <= i < |allowed.value| && allowed.value[i] in roles.value;
      var j :| 0 <= j < |roles.value| && roles.value[j] == allowed.value[i];
      assert roles.value[j] in allowed.value;
    }
    if HasPermission(roles, allowed) {
      var i :| 0 <= i < |roles.value| && roles.value[i] in allowed.value;
      var j :| 0 <= j < |allowed.value| && allowed.value[j] == roles.value[i];
      assert allowed.value[j] in roles.value;
    }
  }

  /** `hasRouteAccess(allowed, roles)`: a user without roles never gets in;
      a route that lists no roles is open to every user with some role;
      otherwise some listed role must be held. */
  function HasRouteAccess(allowed: Option<seq<string>>, roles: Option<seq<string>>): (r: bool)
    ensures r <==> allowed.Some? && roles.Some? && |roles.value| > 0 &&
                   (|allowed.value| == 0 ||
                    exists i :: 0 <= i < |allowed.value| && allowed.value[i] in roles.value)
  {
    if allowed.None? || roles.None? then false
    else if |allowed.value| < 1 && |roles.value| > 0 then true
    else if |allowed.value| > 0 && |roles.value| > 0 then AnyIn(allowed.value, roles.value)
    else false
  }

  /** Without roles there is no route access, whatever the route lists. */
  lemma RouteAccessNeedsRoles(allowed: Option<seq<string>>)
    ensures !HasRouteAccess(allowed, Some([]))
    ensures !HasRouteAccess(allowed, None)
  {
  }

  /** A route that lists no roles admits every user who has at least one. */
  lemma UnrestrictedRoute(roles: seq<string>)
    requires |roles| > 0
    ensures HasRouteAccess(Some([]), Some(roles))
  {
  }

  /** On a route that lists roles, route access and permission agree
      (the empty-list asymmetry is the only difference between them). */
  lemma RouteAccessIsPermission(allowed: seq<string>, roles: Option<seq<string>>)
    requires |allowed| > 0
    ensures HasRouteAccess(Some(allowed), roles) == HasPermission(Some(allowed), roles)
  {
  }
}
