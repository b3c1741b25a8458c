/**
 * The request's identity: Spring Security's Authentication, held in an explicit security context
 * instead of the thread-local SecurityContextHolder.
 */
module Security {
  import opened Wrappers
  import opened Entities

  /** The principal of an authentication: a customer record, or something else (an anonymous user). */
  datatype Principal = CustomerPrincipal(customer: CustomerEntity) | OtherPrincipal(name: string)

  datatype Authentication = Authentication(
    principal: Principal,
    credentials: Option<string>,
    authorities: seq<string>,
    authenticated: bool)

  /**
   * The customer a service may act for: there is an authentication, it is authenticated, and its
   * principal is a customer record.
   */
  function AuthenticatedCustomer(a: Option<Authentication>): (r: Option<CustomerEntity>)
    ensures r.Some? <==> a.Some? && a.value.authenticated && a.value.principal.CustomerPrincipal?
    ensures r.Some? ==> r.value == a.value.principal.customer
  {
    if a.Some? && a.value.authenticated && a.value.principal.CustomerPrincipal? then
      Some(a.value.principal.customer)
    else
      None
  }

  /** The three-argument UsernamePasswordAuthenticationToken the filter builds: no credentials, no authorities. */
  function BearerAuthentication(c: CustomerEntity): (a: Authentication)
    ensures a.credentials.None? && a.authorities == []
    ensures AuthenticatedCustomer(Some(a)) == Some(c)
  {
    Authentication(CustomerPrincipal(c), None, [], true)
  }

  /** The per-request security context. */
  class SecurityContext {
    var authentication: Option<Authentication>

    constructor (a: Option<Authentication>)
      ensures authentication == a
    {
      authentication := a;
    }
  }
}
