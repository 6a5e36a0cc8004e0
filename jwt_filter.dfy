/**
 * The per-request authentication filter: it reads a bearer token from the
 * `Authorization` header and, when the token is valid and names a known
 * user, attaches that user's identity to the request. Whatever happens,
 * the request is passed on down the chain exactly once.
 */
module JwtFilter {
  import opened Common
  import opened Text
  import opened Entities

  const BearerPrefix: string := "Bearer "

  /** `getJwtFromRequest`: what follows the `Bearer ` prefix of a header
      that has text; nothing for any other header. */
  function GetJwtFromRequest(header: Option<string>): (jwt: Option<string>)
    ensures jwt.Some? <==> HasText(header) && StartsWith(header.value, BearerPrefix)
    ensures jwt.Some? ==> header.value == BearerPrefix + jwt.value
  {
    if HasText(header) && StartsWith(header.value, BearerPrefix) then
      assert header.value == header.value[..7] + header.value[7..];
      Some(header.value[7..])
    else None
  }

  /** Any token sent as `Bearer <token>` is read back unchanged. */
  lemma BearerRoundTrip(token: string)
    ensures GetJwtFromRequest(Some(BearerPrefix + token)) == Some(token)
  {
    var header := BearerPrefix + token;
    assert !IsWhitespace(header[0]);
    assert header[..7] == BearerPrefix;
  }

  /** The identity the filter attaches for a header: present only when
      the token has text, validates, yields a subject, and the subject is
      a stored user. Every other path (including the exceptions the filter
      swallows) attaches nothing. */
  function ResolveIdentity(header: Option<string>, tokens: TokenProvider, users: seq<User>)
    : (r: Option<Authentication>)
    ensures r.Some? <==>
      && GetJwtFromRequest(header).Some? && HasText(GetJwtFromRequest(header))
      && tokens.validate(GetJwtFromRequest(header).value)
      && tokens.usernameOf(GetJwtFromRequest(header).value).Some?
      && FindUserByUsername(users, tokens.usernameOf(GetJwtFromRequest(header).value).value).Some?
    ensures r.Some? ==>
      exists u :: u in users && r.value == Authenticated(u.username, u.role)
        && Some(u.username) == tokens.usernameOf(GetJwtFromRequest(header).value)
  {
    var jwt := GetJwtFromRequest(header);
    if HasText(jwt) && tokens.validate(jwt.value) then
      var username := tokens.usernameOf(jwt.value);
      if username.None? then None
      else
        var user := FindUserByUsername(users, username.value);
        if user.None? then None
        else Some(Authenticated(user.value.username, user.value.role))
    else None
  }

  /** A valid token sent as `Bearer <token>` authenticates its subject,
      whether or not the account is enabled: the filter never looks at
      the flag. */
  lemma ValidTokenAuthenticates(token: string, tokens: TokenProvider, users: seq<User>, user: User)
    requires HasText(Some(token)) && tokens.validate(token)
    requires tokens.usernameOf(token) == Some(user.username)
    requires FindUserByUsername(users, user.username) == Some(user)
    ensures ResolveIdentity(Some(BearerPrefix + token), tokens, users) == Some(Authenticated(user.username, user.role))
  {
    BearerRoundTrip(token);
  }

  /** The request's security context. */
  class SecurityContext {
    var authentication: Authentication

    constructor ()
      ensures authentication == Anonymous
    {
      authentication := Anonymous;
    }
  }

  /** The rest of the filter chain, reduced to how often the request was
      handed to it. */
  class FilterChain {
    var passes: nat

    constructor ()
      ensures passes == 0
    {
      passes := 0;
    }

    method DoFilter()
      modifies this
      ensures passes == old(passes) + 1
    {
      passes := passes + 1;
    }
  }

  /** `doFilterInternal`: the identity is attached when the token resolves
      to a user, the context is left alone otherwise, and the request goes
      on down the chain exactly once in every case. */
  method DoFilterInternal(header: Option<string>, tokens: TokenProvider, users: seq<User>,
                          context: SecurityContext, chain: FilterChain)
    modifies context, chain
    ensures chain.passes == old(chain.passes) + 1
    ensures context.authentication ==
      if ResolveIdentity(header, tokens, users).Some? then ResolveIdentity(header, tokens, users).value
      else old(context.authentication)
  {
    var jwt := GetJwtFromRequest(header);
    if HasText(jwt) && tokens.validate(jwt.value) {
      var username := tokens.usernameOf(jwt.value);
      // Reading the subject or finding no such user throws; the filter logs
      // the exception and carries on without an identity.
      if username.Some? {
        var user := FindUserByUsername(users, username.value);
        if user.Some? {
          context.authentication := Authenticated(user.value.username, user.value.role);
        }
      }
    }
    chain.DoFilter();
  }
}
