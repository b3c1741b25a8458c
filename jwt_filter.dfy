/**
 * The once-per-request filter that turns an "Authorization: Bearer <token>" header into an
 * authenticated customer (JwtAuthenticationFilter.java).
 */
module JwtFilter {
  import opened Wrappers
  import opened Text
  import opened Entities
  import opened Repository
  import opened Security
  import opened Jwt

  /** The rest of the filter chain; the model only counts how often it is entered. */
  class FilterChain {
    var invocations: nat

    constructor ()
      ensures invocations == 0
    {
      invocations := 0;
    }

    method DoFilter()
      modifies this
      ensures invocations == old(invocations) + 1
    {
      invocations := invocations + 1;
    }
  }

  const BearerPrefix: string := "Bearer "

  /** The token carried by an Authorization header, when the header is present and a bearer header. */
  function BearerToken(header: Option<string>): (t: Option<string>)
    ensures t.Some? <==> header.Some? && StartsWith(header.value, BearerPrefix)
    ensures t.Some? ==> header.value == BearerPrefix + t.value
  {
    if header.Some? && StartsWith(header.value, BearerPrefix) then
      Some(header.value[|BearerPrefix|..])
    else
      None
  }

  lemma BearerTokenOfBearerHeader(token: string)
    ensures BearerToken(Some(BearerPrefix + token)) == Some(token)
  {
    assert (BearerPrefix + token)[..|BearerPrefix|] == BearerPrefix;
    assert (BearerPrefix + token)[|BearerPrefix|..] == token;
  }

  /** A token identifies customer `c`: it names c's email, c is the stored row for that email, and it validates for c. */
  predicate TokenIdentifies(jwt: JwtService, customers: seq<CustomerEntity>, token: string, c: CustomerEntity, now: Time) {
    jwt.extractUsername(token, now) == Subject(c.email) &&
    FindByEmail(customers, c.email) == Some(c) &&
    jwt.validateToken(token, c, now)
  }

  /**
   * The request's authentication once the filter has run, given the Authorization header and the
   * authentication the context held before.
   */
  function AuthenticationAfterFilter(jwt: JwtService, customers: seq<CustomerEntity>, header: Option<string>,
                                     current: Option<Authentication>, now: Time): (r: Option<Authentication>)
    ensures current.Some? ==> r == current
    ensures BearerToken(header).None? ==> r == current
    ensures BearerToken(header).Some? && !jwt.extractUsername(BearerToken(header).value, now).Subject? ==> r == current
    ensures r != current ==>
      current.None? && r.Some? && r.value.principal.CustomerPrincipal? &&
      r.value == BearerAuthentication(r.value.principal.customer) &&
      TokenIdentifies(jwt, customers, BearerToken(header).value, r.value.principal.customer, now)
    ensures forall c ::
      (current.None? && BearerToken(header).Some? && TokenIdentifies(jwt, customers, BearerToken(header).value, c, now))
      ==> r == Some(BearerAuthentication(c))
  {
    var token := BearerToken(header);
    if token.None? || current.Some? then
      current
    else
      match jwt.extractUsername(token.value, now)
      case Subject(email) =>
        var found := FindByEmail(customers, email);
        if found.Some? && jwt.validateToken(token.value, found.value, now) then
          Some(BearerAuthentication(found.value))
        else
          current
      case NoSubject => current
      case Malformed => current
  }

  class JwtAuthenticationFilter {
    const jwtService: JwtService
    const customerRepository: Store

    constructor (jwtService: JwtService, customerRepository: Store)
      ensures this.jwtService == jwtService && this.customerRepository == customerRepository
    {
      this.jwtService := jwtService;
      this.customerRepository := customerRepository;
    }

    /**
     * Filters one request: attaches the identity the bearer token proves, if any and if none is
     * attached yet, and always passes the request on exactly once. A malformed token is logged
     * and ignored.
     */
    method DoFilterInternal(authHeader: Option<string>, context: SecurityContext, chain: FilterChain, now: Time)
      modifies context, chain
      ensures chain.invocations == old(chain.invocations) + 1
      ensures context.authentication ==
        AuthenticationAfterFilter(jwtService, customerRepository.customers, authHeader, old(context.authentication), now)
    {
      if authHeader.None? || !StartsWith(authHeader.value, BearerPrefix) {
        chain.DoFilter();
        return;
      }
      var jwt := authHeader.value[7..];
      var userEmail := jwtService.extractUsername(jwt, now);
      if userEmail.Subject? && context.authentication.None? {
        var customer := FindByEmail(customerRepository.customers, userEmail.email);
        if customer.Some? && jwtService.validateToken(jwt, customer.value, now) {
          context.authentication := Some(BearerAuthentication(customer.value));
        }
      }
      chain.DoFilter();
    }
  }

  /** A token issued for a stored customer, sent as a bearer header, authenticates exactly that customer. */
  lemma IssuedTokenAuthenticates(jwt: JwtService, customers: seq<CustomerEntity>, k: nat, now: Time)
    requires Sound(jwt) && CustomerKeysDistinct(customers) && k < |customers|
    ensures var header := Some(BearerPrefix + jwt.generateToken(customers[k], now));
      AuthenticatedCustomer(AuthenticationAfterFilter(jwt, customers, header, None, now)) == Some(customers[k])
  {
    var c := customers[k];
    var token := jwt.generateToken(c, now);
    BearerTokenOfBearerHeader(token);
    IssuedTokenNamesCustomer(jwt, c, now);
    FindByEmailIsTheCustomer(customers, k);
    assert TokenIdentifies(jwt, customers, token, c, now);
  }

  /** Under a sound token service, whoever the filter attaches is a stored customer the token names, and the token has not expired. */
  lemma AttachedIdentityIsStored(jwt: JwtService, customers: seq<CustomerEntity>, header: Option<string>, now: Time)
    requires Sound(jwt)
    ensures var r := AuthenticationAfterFilter(jwt, customers, header, None, now);
      r.Some? ==>
        r.value.principal.CustomerPrincipal? &&
        r.value.principal.customer in customers &&
        !jwt.isTokenExpired(BearerToken(header).value, now)
  {
  }
}
