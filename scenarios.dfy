/**
 * Whole-backend scenarios, in the shape of the repository's integration tests: the contracts of
 * the services chained together.
 */
module Scenarios {
  import opened Wrappers
  import opened JavaInt
  import opened Entities
  import opened Exceptions
  import opened Mappers
  import opened Repository
  import opened Security
  import opened Jwt
  import opened Passwords
  import opened JwtFilter
  import opened ImageServices
  import opened AccountServices
  import opened ExceptionHandling

  /**
   * Five stored images listed two at a time: offsets 0, 2 and 4 give two, two and one image, an
   * offset of 3 snaps down to the page of offset 2, and a limit of zero divides by zero.
   */
  lemma FiveImagesTwoPerPage(service: ImageService)
    requires service.imageRepository.Valid() && |service.imageRepository.images| == 5
    ensures var p0, p2, p4 := service.GetLatestImages(2, 0), service.GetLatestImages(2, 2), service.GetLatestImages(2, 4);
      p0.Ok? && p2.Ok? && p4.Ok? &&
      |p0.value.images| == 2 && |p2.value.images| == 2 && |p4.value.images| == 1 &&
      p0.value.total == 5 && p2.value.total == 5 && p4.value.total == 5
    ensures service.GetLatestImages(2, 3).Ok? &&
      service.GetLatestImages(2, 3).value.images == service.GetLatestImages(2, 2).value.images
    ensures service.GetLatestImages(0, 0) == Err(RuntimeError(DivisionByZeroMessage))
  {
    assert Div(2, 2) == 1 && Div(3, 2) == 1 && Div(4, 2) == 2 && Div(0, 2) == 0;
    var p2, p3 := service.GetLatestImages(2, 2), service.GetLatestImages(2, 3);
    assert p3.value.images == p2.value.images by {
      assert |p3.value.images| == |p2.value.images|;
      forall i | 0 <= i < |p3.value.images| ensures p3.value.images[i] == p2.value.images[i] {
      }
    }
  }

  /** The failures of the services, as the exception handler reports them. */
  lemma ServiceFailureStatuses(uri: string, now: Time, id: ImageId)
    ensures Handle(CustomerNotFound(NotAuthenticatedMessage), uri, now).statusCode == 404
    ensures Handle(ImageNotFound(id), uri, now).statusCode == 404
    ensures Handle(EmptyFile, uri, now).statusCode == 400
    ensures Handle(InvalidFileType(Some("text/plain")), uri, now).statusCode == 400
    ensures Handle(RuntimeError(NotOwnerMessage), uri, now).statusCode == 500
    ensures Handle(RuntimeError(EmailExistsMessage), uri, now).statusCode == 500
    ensures Handle(RuntimeError(InvalidCredentialsMessage), uri, now).body.message ==
      UnexpectedPrefix + InvalidCredentialsMessage
    ensures !IsImageType(Some("text/plain")) && IsImageType(Some("image/jpeg"))
  {
    assert "text/plain"[0] == 't';
  }

  /**
   * Registers a customer and runs the request filter on the token the registration answered
   * with: the request is then authenticated as the newly stored customer.
   */
  method RegisterAndSignIn(accounts: AuthenticationService, filter: JwtAuthenticationFilter,
                           request: RegisterRequest, now: Time)
    returns (customer: CustomerEntity, authentication: Option<Authentication>)
    requires Jwt.Sound(accounts.jwtService) && filter.jwtService == accounts.jwtService
    requires filter.customerRepository == accounts.customerRepository
    requires accounts.customerRepository.Valid() && accounts.customerRepository.clock <= now
    requires !ExistsByEmail(accounts.customerRepository.customers, request.email)
    requires !ExistsByUsername(accounts.customerRepository.customers, request.username)
    requires |request.email| <= EmailLength && |request.username| <= UsernameLength
    requires request.firstName == None && request.lastName == None
    modifies accounts.customerRepository
    ensures accounts.customerRepository.Valid() && accounts.customerRepository.clock <= now
    ensures accounts.customerRepository.images == old(accounts.customerRepository.images)
    ensures accounts.customerRepository.nextImageId == old(accounts.customerRepository.nextImageId)
    ensures accounts.customerRepository.customers == old(accounts.customerRepository.customers) + [customer]
    ensures customer.email == request.email && customer.username == request.username
    ensures customer.id == Some(old(accounts.customerRepository.lastCustomerId) + 1)
    ensures AuthenticatedCustomer(authentication) == Some(customer)
  {
    var store := accounts.customerRepository;
    var registered := accounts.Register(request, now);
    assert registered.Ok?;
    customer := store.customers[|store.customers| - 1];
    assert store.customers == old(store.customers) + [customer];
    var context := new SecurityContext(None);
    var chain := new FilterChain();
    filter.DoFilterInternal(Some(BearerPrefix + registered.value.token), context, chain, now);
    IssuedTokenAuthenticates(accounts.jwtService, store.customers, |store.customers| - 1, now);
    authentication := context.authentication;
  }

  /** Uploads a small JPEG with the given title; it is stored as the newest row. */
  method UploadTitled(imageService: ImageService, authentication: Option<Authentication>, title: string, now: Time)
    requires imageService.imageRepository.Valid() && imageService.imageRepository.clock <= now
    requires AuthenticatedCustomer(authentication).Some?
    requires AuthenticatedCustomer(authentication).value.id in CustomerIds(imageService.imageRepository.customers)
    requires |title| <= TitleLength
    modifies imageService.imageRepository
    ensures imageService.imageRepository.Valid() && imageService.imageRepository.clock <= now
    ensures imageService.imageRepository.customers == old(imageService.imageRepository.customers)
    ensures imageService.imageRepository.nextImageId == old(imageService.imageRepository.nextImageId) + 1
    ensures var images := imageService.imageRepository.images;
      |images| == |old(imageService.imageRepository.images)| + 1 &&
      images[..|images| - 1] == old(imageService.imageRepository.images) &&
      images[|images| - 1].title == Some(title) && images[|images| - 1].imageData == [1, 2, 3] &&
      images[|images| - 1].owner == AuthenticatedCustomer(authentication).value &&
      images[|images| - 1].id == Some(old(imageService.imageRepository.nextImageId))
  {
    var file := MultipartFile("photo.jpg", Some("image/jpeg"), [1, 2, 3]);
    assert IsImageType(file.contentType) by {
      assert file.contentType.value[..6] == "image/";
    }
    var uploaded := imageService.UploadImage(authentication, file, Some(title), None, now);
    assert uploaded.Ok?;
  }

  /** A fresh backend where one customer has registered, signed in and uploaded three images, one after another. */
  method ThreeUploads(jwt: JwtService, encoder: PasswordEncoder)
    returns (accounts: AuthenticationService, imageService: ImageService, filter: JwtAuthenticationFilter,
             alice: CustomerEntity, aliceAuth: Option<Authentication>)
    requires Jwt.Sound(jwt)
    ensures fresh(imageService.imageRepository)
    ensures accounts.customerRepository == imageService.imageRepository == filter.customerRepository
    ensures accounts.jwtService == jwt == filter.jwtService
    ensures var store := imageService.imageRepository;
      store.Valid() && store.clock <= 4 && store.customers == [alice] &&
      alice.id == Some(1) && alice.email == "alice@example.com" && alice.username == "alice" &&
      |store.images| == 3 &&
      store.images[0].title == Some("Test Image 1") && store.images[1].title == Some("Test Image 2") &&
      store.images[2].title == Some("Test Image 3") &&
      store.images[0].id == Some(0) && store.images[1].id == Some(1) && store.images[2].id == Some(2) &&
      store.images[0].owner == alice &&
      store.images[0].imageData == [1, 2, 3]
    ensures AuthenticatedCustomer(aliceAuth) == Some(alice)
  {
    var store := new Store();
    accounts := new AuthenticationService(store, encoder, jwt);
    imageService := new ImageService(store);
    filter := new JwtAuthenticationFilter(jwt, store);
    alice, aliceAuth := RegisterAndSignIn(accounts, filter, RegisterRequest("alice@example.com", "alice", "secret", None, None), 1);
    assert alice.id in CustomerIds(store.customers) by {
      assert store.customers[0] == alice;
    }
    UploadTitled(imageService, aliceAuth, "Test Image 1", 2);
    UploadTitled(imageService, aliceAuth, "Test Image 2", 3);
    UploadTitled(imageService, aliceAuth, "Test Image 3", 4);
  }

  /** Three uploads listed with limit 10 and offset 0 come back newest first. */
  method NewestFirstScenario(jwt: JwtService, encoder: PasswordEncoder) returns (titles: seq<Option<string>>)
    requires Jwt.Sound(jwt)
    ensures titles == [Some("Test Image 3"), Some("Test Image 2"), Some("Test Image 1")]
  {
    var accounts, imageService, filter, alice, aliceAuth := ThreeUploads(jwt, encoder);
    FirstPageIsMostRecent(imageService, 10, 0);
    var page := imageService.GetLatestImages(10, 0);
    titles := [page.value.images[0].title, page.value.images[1].title, page.value.images[2].title];
  }

  /**
   * The uploaded bytes come back exactly. A second customer, authenticated the same way, may not
   * delete the first customer's image; its owner may, and the image is gone afterwards.
   */
  method DeleteScenario(jwt: JwtService, encoder: PasswordEncoder)
    returns (bytes: Result<seq<byte>, Error>, strangerDelete: Result<(), Error>,
             ownerDelete: Result<(), Error>, lookup: Result<ImageDto, Error>)
    requires Jwt.Sound(jwt)
    ensures bytes == Ok([1, 2, 3])
    ensures strangerDelete == Err(RuntimeError(NotOwnerMessage))
    ensures ownerDelete.Ok?
    ensures lookup == Err(ImageNotFound(0))
  {
    var accounts, imageService, filter, alice, aliceAuth := ThreeUploads(jwt, encoder);
    var store := imageService.imageRepository;
    var images := store.images;
    bytes := imageService.GetImageFileBytes(0);
    assert !ExistsByEmail(store.customers, "bob@example.com") && !ExistsByUsername(store.customers, "bob");
    var bob, bobAuth := RegisterAndSignIn(accounts, filter, RegisterRequest("bob@example.com", "bob", "hunter2", None, None), 5);
    assert FindImageById(images, 0) == Some(images[0]) by {
      FindImageByIdIsTheRecord(images, 0);
    }
    strangerDelete := imageService.DeleteImage(bobAuth, 0);
    ownerDelete := imageService.DeleteImage(aliceAuth, 0);
    assert store.images == images[1..];
    lookup := imageService.GetImageById(0);
  }
}
