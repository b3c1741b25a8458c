/**
 * Registration and login (AuthenticationServiceImpl.java): both answer with a bearer token for
 * the customer and the customer's public view.
 */
module AccountServices {
  import opened Wrappers
  import opened Entities
  import opened Exceptions
  import opened Mappers
  import opened Repository
  import opened Security
  import opened Jwt
  import opened Passwords
  import opened JwtFilter

  datatype RegisterRequest = RegisterRequest(
    email: string, username: string, password: string,
    firstName: Option<string>, lastName: Option<string>)

  datatype LoginRequest = LoginRequest(email: string, password: string)

  datatype AuthResponse = AuthResponse(token: string, tokenType: string, expiresIn: int, customer: CustomerDto)

  const TokenType: string := "Bearer"
  const ExpiresIn: int := 3600     // seconds
  const EmailExistsMessage: string := "Email already exists"
  const UsernameExistsMessage: string := "Username already exists"
  const InvalidCredentialsMessage: string := "Invalid credentials"
  const NotImplementedMessage: string := "Not implemented - need to extract customer from JWT"

  class AuthenticationService {
    const customerRepository: Store
    const passwordEncoder: PasswordEncoder
    const jwtService: JwtService

    constructor (customerRepository: Store, passwordEncoder: PasswordEncoder, jwtService: JwtService)
      ensures this.customerRepository == customerRepository
      ensures this.passwordEncoder == passwordEncoder && this.jwtService == jwtService
    {
      this.customerRepository := customerRepository;
      this.passwordEncoder := passwordEncoder;
      this.jwtService := jwtService;
    }

    /** The response for a stored customer: a fresh token, the "Bearer" type, one hour, the public view. */
    function Issue(c: CustomerEntity, now: Time): (r: AuthResponse)
      ensures r.token == jwtService.generateToken(c, now) && r.tokenType == TokenType && r.expiresIn == ExpiresIn
      ensures r.customer == CustomerToDto(c)
    {
      AuthResponse(jwtService.generateToken(c, now), TokenType, ExpiresIn, CustomerToDto(c))
    }

    /**
     * Registers a new customer. Refuses a taken email, then a taken username; stores the password
     * only in encoded form; a row the database refuses (a column too long) is reported as is.
     */
    method Register(request: RegisterRequest, now: Time) returns (r: Result<AuthResponse, Error>)
      requires customerRepository.Valid() && customerRepository.clock <= now
      modifies customerRepository
      ensures customerRepository.Valid() && customerRepository.clock <= now
      ensures r.Err? ==> unchanged(customerRepository)
      ensures ExistsByEmail(old(customerRepository.customers), request.email) ==>
        r == Err(RuntimeError(EmailExistsMessage))
      ensures !ExistsByEmail(old(customerRepository.customers), request.email) &&
        ExistsByUsername(old(customerRepository.customers), request.username)
        ==> r == Err(RuntimeError(UsernameExistsMessage))
      ensures r.Ok? <==>
        !ExistsByEmail(old(customerRepository.customers), request.email) &&
        !ExistsByUsername(old(customerRepository.customers), request.username) &&
        |request.email| <= EmailLength && |request.username| <= UsernameLength &&
        Fits(request.firstName, NameLength) && Fits(request.lastName, NameLength)
      ensures r.Err? && !ExistsByEmail(old(customerRepository.customers), request.email) &&
        !ExistsByUsername(old(customerRepository.customers), request.username)
        ==> r.error.DataIntegrityViolation?
      ensures r.Ok? ==>
        var customers := customerRepository.customers;
        |customers| == |old(customerRepository.customers)| + 1 &&
        customers[..|customers| - 1] == old(customerRepository.customers) &&
        var c := customers[|customers| - 1];
        c.id == Some(old(customerRepository.lastCustomerId) + 1) &&
        c.email == request.email && c.username == request.username &&
        c.password == passwordEncoder.encode(request.password) &&
        c.firstName == request.firstName && c.lastName == request.lastName &&
        c.createdAt == Some(now) && c.updatedAt == Some(now) &&
        r.value == Issue(c, now)
      ensures r.Ok? ==>
        customerRepository.images == old(customerRepository.images) &&
        customerRepository.nextImageId == old(customerRepository.nextImageId)
    {
      if ExistsByEmail(customerRepository.customers, request.email) {
        return Err(RuntimeError(EmailExistsMessage));
      }
      if ExistsByUsername(customerRepository.customers, request.username) {
        return Err(RuntimeError(UsernameExistsMessage));
      }
      var customer := CustomerEntity(None, request.email, request.username, passwordEncoder.encode(request.password),
                                     request.firstName, request.lastName, None, None);
      var saved := customerRepository.SaveCustomer(customer, now);
      if saved.Err? {
        return Err(saved.error);
      }
      return Ok(Issue(saved.value, now));
    }

    /**
     * Logs a customer in: the email must be stored and the password must match its encoding.
     * An unknown email and a wrong password fail alike.
     */
    function Login(request: LoginRequest, now: Time): (r: Result<AuthResponse, Error>)
      requires customerRepository.Valid()
      reads customerRepository
      ensures r.Err? ==> r.error == RuntimeError(InvalidCredentialsMessage)
      ensures !ExistsByEmail(customerRepository.customers, request.email) ==> r.Err?
      ensures forall k ::
        (0 <= k < |customerRepository.customers| && customerRepository.customers[k].email == request.email) ==>
        (r.Ok? <==> passwordEncoder.matches(request.password, customerRepository.customers[k].password)) &&
        (r.Ok? ==> r.value == Issue(customerRepository.customers[k], now))
    {
      var customers := customerRepository.customers;
      assert forall k :: 0 <= k < |customers| && customers[k].email == request.email ==>
        FindByEmail(customers, request.email) == Some(customers[k]) by {
        forall k | 0 <= k < |customers| && customers[k].email == request.email {
          FindByEmailIsTheCustomer(customers, k);
        }
      }
      match FindByEmail(customers, request.email)
      case None => Err(RuntimeError(InvalidCredentialsMessage))
      case Some(customer) =>
        if !passwordEncoder.matches(request.password, customer.password) then
          Err(RuntimeError(InvalidCredentialsMessage))
        else
          Ok(Issue(customer, now))
    }

    /** Not implemented yet: always fails. */
    function GetCurrentCustomer(): (r: Result<CustomerDto, Error>)
      ensures r.Err? && r.error == RuntimeError(NotImplementedMessage)
    {
      Err(RuntimeError(NotImplementedMessage))
    }

    /** Tokens are stateless and not revoked: logging out changes nothing. */
    method Logout()
    {
    }
  }

  /**
   * A stored customer whose password was stored encoded logs in with that password, and the token
   * the login answers with authenticates that customer at the filter.
   */
  lemma RegisteredPasswordLogsIn(service: AuthenticationService, k: nat, password: string, now: Time)
    requires service.customerRepository.Valid() && Passwords.Sound(service.passwordEncoder) && Jwt.Sound(service.jwtService)
    requires k < |service.customerRepository.customers|
    requires service.customerRepository.customers[k].password == service.passwordEncoder.encode(password)
    ensures var c := service.customerRepository.customers[k];
      var r := service.Login(LoginRequest(c.email, password), now);
      r.Ok? && r.value.customer == CustomerToDto(c) &&
      AuthenticatedCustomer(AuthenticationAfterFilter(service.jwtService, service.customerRepository.customers,
                                                      Some(BearerPrefix + r.value.token), None, now)) == Some(c)
  {
    var customers := service.customerRepository.customers;
    var c := customers[k];
    assert service.passwordEncoder.matches(password, service.passwordEncoder.encode(password));
    IssuedTokenAuthenticates(service.jwtService, customers, k, now);
  }

  /** A login with a password other than a stored customer's fails whenever the encoder rejects it. */
  lemma WrongPasswordFails(service: AuthenticationService, k: nat, password: string, now: Time)
    requires service.customerRepository.Valid() && k < |service.customerRepository.customers|
    requires !service.passwordEncoder.matches(password, service.customerRepository.customers[k].password)
    ensures service.Login(LoginRequest(service.customerRepository.customers[k].email, password), now) ==
      Err(RuntimeError(InvalidCredentialsMessage))
  {
  }
}
