# Muralia backend: a Dafny model of the service layer

Muralia is an image-sharing backend. Customers register and log in with email and password and
receive a bearer JSON Web Token. A once-per-request filter turns that token back into an
authenticated customer. Authenticated customers upload images. Anyone may list the images
newest first, look one up, fetch its bytes and fetch its MIME type. Only an image's owner may
delete it. A global exception handler maps the service exceptions to HTTP error responses. A
static-resource resolver serves the single-page frontend and falls back to `index.html` for
client-side routes.

The project models that service layer.

- **State.** One `Repository.Store` object holds both tables: customers and images, in
  insertion order. It also holds the identity counters and the clock of the last write.
  - Its `Valid()` invariant states the database's guarantees:
    - every row is persisted and stamped no later than the clock;
    - the column lengths hold;
    - ids, emails and usernames are unique;
    - every image's owner exists;
    - images are in upload order.
  - `save`, `findById`, `delete` and the derived queries of the JPA repositories are
    functions over the tables, or methods of `Store`.
  - `save` follows JPA: persist with the `@PrePersist` hook, or merge with `@PreUpdate`. On a
    merge the non-updatable timestamp columns keep their stored values.
  - Deleting a customer cascades to its images.
- **Services.** `ImageServices.ImageService`, `AccountServices.AuthenticationService` and
  `JwtFilter.JwtAuthenticationFilter` are classes whose constant fields are the beans they are
  given. Read-only operations are functions. Operations that write are methods that name the
  store in `modifies`.
  - The thread-local security context becomes an explicit `Security.SecurityContext` object.
  - The services take the current authentication as a parameter.
- **What the code does, exactly:**
  - Java's 32-bit `int` arithmetic (`JavaInt`): truncating division, including `MIN_VALUE / -1`,
    and the narrowing `(int)` cast of the total;
  - the error messages of `ArithmeticException` and of Spring Data's `PageRequest.of`;
  - Java's `"null"` in string concatenation;
  - every exception message and every check order.
- **Collaborators as laws.** The token service and the password encoder are records of total
  functions.
  - The laws the services rely on are ghost predicates, `Jwt.Sound` and `Passwords.Sound`.
  - `JwtReference.ReferenceIsSound` and `Passwords.VerbatimIsSound` show that each set of laws
    can hold.
- **Time.** The clock is a `nat` parameter `now`. Writes require it not to run backwards.

Where the behaviour described for the system and the code differ, the model follows the code:

- The listing's `offset` is turned into a page number by integer division. A non-multiple
  offset therefore snaps down to a page boundary; it is not an absolute skip count.
- A non-owner's delete fails with a plain `RuntimeException`. The handler reports it as 500,
  not as a distinct "forbidden" outcome.
- A missing authentication raises `CustomerNotFoundException`, which is reported as 404.

## Model

| member | source | states |
|---|---|---|
| `JavaInt.Div` | muralia-backend/src/main/java/com/muralia/service/impl/ImageServiceImpl.java:116 | Java `offset / limit` on int: the quotient of the magnitudes rounded toward zero, negated when the signs differ; `MIN_VALUE / -1` wraps to `MIN_VALUE`; for a positive divisor the quotient is non-negative exactly when the dividend exceeds minus the divisor |
| `JavaInt.QuotientRange` | muralia-backend/src/main/java/com/muralia/service/impl/ImageServiceImpl.java:116 | apart from `MIN_VALUE / -1`, the magnitude of an int quotient fits in an int, and for a positive divisor it is zero exactly when the dividend lies strictly between minus the divisor and the divisor |
| `JavaInt.ToInt32` | muralia-backend/src/main/java/com/muralia/service/impl/ImageServiceImpl.java:125 | the `(int)` cast of the page total: identity below 2^31, and always congruent to the count modulo 2^32 |
| `Entities.CustomerOnCreate` | muralia-backend/src/main/java/com/muralia/entity/CustomerEntity.java:55-59 | the persist hook sets both createdAt and updatedAt to the current time and changes no other column |
| `Entities.CustomerOnUpdate` | muralia-backend/src/main/java/com/muralia/entity/CustomerEntity.java:61-64 | the update hook refreshes updatedAt and changes no other column |
| `Entities.ImageOnCreate` | muralia-backend/src/main/java/com/muralia/entity/ImageEntity.java:66-69 | the persist hook sets uploadedAt to the current time and changes no other column |
| `Text.ParseNatToString` | muralia-backend/src/main/java/com/muralia/exception/ImageNotFoundException.java:13 | the decimal text of an id reads back to the id, so a message that embeds it loses nothing |
| `Text.NatToStringInjective` | muralia-backend/src/main/java/com/muralia/exception/ImageNotFoundException.java:13 | distinct ids have distinct decimal texts |
| `Text.PrefixedIdInjective` | muralia-backend/src/main/java/com/muralia/exception/ImageNotFoundException.java:13 | a fixed prefix followed by an id's text determines the id |
| `Exceptions.ImageNotFoundMessageNamesId` | muralia-backend/src/main/java/com/muralia/exception/ImageNotFoundException.java:13-19 | the not-found message is the fixed prefix followed by the digits of exactly the requested id |
| `Exceptions.ImageNotFoundMessageInjective` | muralia-backend/src/main/java/com/muralia/exception/ImageNotFoundException.java:13 | two not-found messages are equal only for the same id |
| `Exceptions.InvalidFileTypeMessageNamesType` | muralia-backend/src/main/java/com/muralia/exception/InvalidFileTypeException.java:11-17 | the invalid-type message is the fixed prefix followed by the declared content type, or "null" when none was declared |
| `Mappers.CustomerToDto` | muralia-backend/src/main/java/com/muralia/service/mapper/CustomerMapper.java:10-20 | id, email, username, both names and both timestamps are copied unchanged |
| `Mappers.CustomerDtoIgnoresPassword` | muralia-backend/src/main/java/com/muralia/service/mapper/CustomerMapper.java:12-18 | the public view does not depend on the password hash |
| `Mappers.ImageToDto` | muralia-backend/src/main/java/com/muralia/service/mapper/ImageMapper.java:12-30 | id, url, thumbnail url (absent stays absent), title, description, file name and size, MIME type, dimensions and upload time are copied; customerId and customerUsername are the owner's |
| `Mappers.ImageDtoIgnoresBytes` | muralia-backend/src/main/java/com/muralia/service/mapper/ImageMapper.java:12-30 | the image view does not depend on the stored image or thumbnail bytes |
| `Mappers.ImageDtoSeesOwnerIdAndUsernameOnly` | muralia-backend/src/main/java/com/muralia/service/mapper/ImageMapper.java:26-27 | of the owner, the view depends only on its id and username |
| `Mappers.ImageDtoDeterminesRest` | muralia-backend/src/main/java/com/muralia/service/mapper/ImageMapper.java:14-28 | the view together with the bytes and the owner determines the whole record: nothing else is dropped |
| `Repository.FindByEmail` | muralia-backend/src/main/java/com/muralia/service/impl/AuthenticationServiceImpl.java:82 | findByEmail finds a stored customer with that email exactly when one exists |
| `Repository.FindByEmailIsTheCustomer` | muralia-backend/src/main/java/com/muralia/entity/CustomerEntity.java:15-18 | under the unique-email constraint, findByEmail returns the one customer with that email |
| `Repository.FindImageById` | muralia-backend/src/main/java/com/muralia/service/impl/ImageServiceImpl.java:135 | findById finds a stored image with that id exactly when one exists |
| `Repository.FindImageByIdIsTheRecord` | muralia-backend/src/main/java/com/muralia/entity/ImageEntity.java:22-24 | under unique ids, findById returns the one record with that id |
| `Repository.OwnershipQueryAgrees` | muralia-backend/src/main/java/com/muralia/repository/ImageRepository.java:18 | existsByIdAndCustomerId holds exactly when the image exists and its owner has that customer id |
| `Repository.WithoutImage` | muralia-backend/src/main/java/com/muralia/service/impl/ImageServiceImpl.java:159 | delete keeps exactly the records whose id differs from the deleted one |
| `Repository.DeleteRemovesOnlyThatRecord` | muralia-backend/src/main/java/com/muralia/service/impl/ImageServiceImpl.java:155-159 | deleting a stored image removes that one record and leaves every other record, in order |
| `Repository.InsertByStamp` | muralia-backend/src/main/java/com/muralia/repository/ImageRepository.java:15 | inserting into a newest-first list keeps it newest first and adds exactly that record |
| `Repository.LatestOrder` | muralia-backend/src/main/java/com/muralia/repository/ImageRepository.java:15-16 | ORDER BY uploadedAt DESC: a newest-first permutation of the table |
| `Repository.LatestOrderOfChronological` | muralia-backend/src/main/java/com/muralia/repository/ImageRepository.java:15-16 | for a table in upload order, the newest-first order is the table reversed |
| `Repository.FindLatestImages` | muralia-backend/src/main/java/com/muralia/repository/ImageRepository.java:15-16 | a page is the slice from page times size of the newest-first order, at most size long, newest first, and its total is the whole table's size |
| `Repository.ImageRowViolation` | muralia-backend/src/main/java/com/muralia/entity/ImageEntity.java:32-61 | the database refuses an image row exactly when title, description or MIME type is too long or the owner does not exist |
| `Repository.CustomerRowViolation` | muralia-backend/src/main/java/com/muralia/entity/CustomerEntity.java:15-43 | the database refuses a customer row exactly when a column is too long or another customer holds its email or username |
| `Repository.Store.SaveImage` | muralia-backend/src/main/java/com/muralia/service/impl/ImageServiceImpl.java:95-104 | save refuses a violating row and changes nothing; otherwise it inserts a new record with the next id and the upload time, or overwrites the stored one in place and keeps its upload time; the invariant is kept |
| `Repository.Store.DeleteImage` | muralia-backend/src/main/java/com/muralia/service/impl/ImageServiceImpl.java:159 | delete removes the records with that id and nothing else; the invariant is kept |
| `Repository.Store.SaveCustomer` | muralia-backend/src/main/java/com/muralia/service/impl/AuthenticationServiceImpl.java:60 | save refuses a violating row and changes nothing; otherwise it inserts with the next identity value and both timestamps, or overwrites in place with createdAt kept and updatedAt refreshed |
| `Repository.Store.DeleteCustomer` | muralia-backend/src/main/java/com/muralia/entity/CustomerEntity.java:51-53 | removing a customer removes its images with it, and nothing else |
| `Repository.PersistImageKeepsTablesValid` | muralia-backend/src/main/java/com/muralia/entity/ImageEntity.java:22-69 | inserting an accepted new image with the next id and the current time keeps ids unique, every owner present and the table in upload order |
| `Repository.MergeImageKeepsTablesValid` | muralia-backend/src/main/java/com/muralia/entity/ImageEntity.java:22-69 | overwriting a stored image while keeping its upload time keeps ids unique, every owner present and the table in upload order |
| `Repository.PersistCustomerKeepsTablesValid` | muralia-backend/src/main/java/com/muralia/entity/CustomerEntity.java:15-59 | inserting an accepted new customer keeps ids, emails and usernames unique and every image's owner present |
| `Repository.MergeCustomerKeepsTablesValid` | muralia-backend/src/main/java/com/muralia/entity/CustomerEntity.java:45-64 | overwriting a stored customer keeps the uniqueness constraints, keeps createdAt and keeps every image's owner present |
| `Security.AuthenticatedCustomer` | muralia-backend/src/main/java/com/muralia/service/impl/ImageServiceImpl.java:50 | a service acts for a customer exactly when the authentication is present, authenticated and has a customer principal |
| `Security.BearerAuthentication` | muralia-backend/src/main/java/com/muralia/config/JwtAuthenticationFilter.java:63-67 | the filter's authentication has no credentials and no authorities and names the customer |
| `Jwt.IssuedTokenNamesCustomer` | muralia-backend/src/main/java/com/muralia/service/JwtService.java:7-19 | under the token laws, the subject of a freshly issued token is its customer's email, and the token is not expired |
| `Jwt.TokenValidatesForOneEmail` | muralia-backend/src/main/java/com/muralia/service/JwtService.java:21-27 | under the token laws, a token validates only for customers with the email it names |
| `JwtReference.ReadGenerated` | muralia-backend/src/integrationTest/java/com/muralia/AuthenticationIntegrationTest.java:165-175 | the reference service reads back the subject and the expiry from every token it issues |
| `JwtReference.GeneratedIsCompact` | muralia-backend/src/integrationTest/java/com/muralia/AuthenticationIntegrationTest.java:172-175 | every reference token is three non-empty URL-safe segments separated by dots and starts with "eyJ" |
| `JwtReference.ReferenceIsSound` | muralia-backend/src/main/java/com/muralia/service/JwtService.java:7-35 | the token laws the rest of the model assumes can all hold at once |
| `JwtFilter.BearerToken` | muralia-backend/src/main/java/com/muralia/config/JwtAuthenticationFilter.java:42-49 | a token is taken exactly from a present header that starts with "Bearer ", and it is the header without those seven characters |
| `JwtFilter.BearerTokenOfBearerHeader` | muralia-backend/src/main/java/com/muralia/config/JwtAuthenticationFilter.java:49 | "Bearer " followed by a token yields that token |
| `JwtFilter.AuthenticationAfterFilter` | muralia-backend/src/main/java/com/muralia/config/JwtAuthenticationFilter.java:42-80 | an existing identity is never replaced; without a bearer header, or with a malformed or subject-less token, nothing changes; an attached identity is the stored customer the token names and validates for, with no credentials or authorities; and such a token always attaches that customer |
| `JwtFilter.JwtAuthenticationFilter.DoFilterInternal` | muralia-backend/src/main/java/com/muralia/config/JwtAuthenticationFilter.java:32-81 | the request is passed on exactly once on every path, and the context afterwards holds the authentication described above |
| `JwtFilter.IssuedTokenAuthenticates` | muralia-backend/src/main/java/com/muralia/config/JwtAuthenticationFilter.java:55-72 | a token issued for a stored customer, sent as a bearer header, authenticates exactly that customer |
| `JwtFilter.AttachedIdentityIsStored` | muralia-backend/src/main/java/com/muralia/config/JwtAuthenticationFilter.java:55-72 | under the token laws, an attached identity is a stored customer, and the token was not expired |
| `ImageServices.FileUrlInjective` | muralia-backend/src/main/java/com/muralia/service/impl/ImageServiceImpl.java:98-99 | distinct images get distinct file URLs |
| `ImageServices.ToDtos` | muralia-backend/src/main/java/com/muralia/service/impl/ImageServiceImpl.java:119-121 | the listing maps every record of the page to its view, in order |
| `ImageServices.PageStartCoversOffset` | muralia-backend/src/main/java/com/muralia/service/impl/ImageServiceImpl.java:116 | for a non-negative offset, the page starts at the largest multiple of the limit not above the offset, and exactly at the offset when it is a multiple |
| `ImageServices.ImageService.UploadImage` | muralia-backend/src/main/java/com/muralia/service/impl/ImageServiceImpl.java:46-111 | checks the authentication, then an empty file, then the content type; a row the database refuses (too long a title, description or MIME type, or an owner not stored) fails as "Failed to upload image: " followed by the refusal's message; every failure leaves the store unchanged; success appends exactly one record with the next id, the file URL, no thumbnail, the upload time, owner, bytes, size, type and texts as given, and returns its view |
| `ImageServices.ImageService.GetLatestImages` | muralia-backend/src/main/java/com/muralia/service/impl/ImageServiceImpl.java:115-130 | a limit of zero divides by zero, a negative page or a size below one fails with Spring's messages, and the call succeeds exactly for limit at least 1 and offset above minus the limit; the page is the newest-first slice from (offset / limit) times limit, at most limit long, total is the count of all images, and limit and offset are echoed |
| `ImageServices.ImageService.GetImageById` | muralia-backend/src/main/java/com/muralia/service/impl/ImageServiceImpl.java:134-139 | the view of the record with that id, or ImageNotFound carrying the id |
| `ImageServices.ImageService.GetImageFileBytes` | muralia-backend/src/main/java/com/muralia/service/impl/ImageServiceImpl.java:164-169 | exactly the stored bytes of the record with that id, or ImageNotFound carrying the id |
| `ImageServices.ImageService.GetImageMimeType` | muralia-backend/src/main/java/com/muralia/service/impl/ImageServiceImpl.java:171-176 | exactly the stored MIME type of the record with that id, or ImageNotFound carrying the id |
| `ImageServices.ImageService.DeleteImage` | muralia-backend/src/main/java/com/muralia/service/impl/ImageServiceImpl.java:143-160 | fails unauthenticated, then not found, then "Not authorized to delete this image", each leaving the store unchanged; succeeds exactly for the owner, and then removes that one record only |
| `ImageServices.FirstPageIsMostRecent` | muralia-backend/src/integrationTest/java/com/muralia/ImageIntegrationTest.java:271-292 | the first page lists the most recent uploads, the latest first |
| `AccountServices.AuthenticationService.Issue` | muralia-backend/src/main/java/com/muralia/service/impl/AuthenticationServiceImpl.java:64-73 | a response carries a token generated for the customer, type "Bearer", 3600 seconds and the customer's view |
| `AccountServices.AuthenticationService.Register` | muralia-backend/src/main/java/com/muralia/service/impl/AuthenticationServiceImpl.java:36-74 | a taken email fails first, then a taken username, with nothing stored; success appends exactly one customer holding the request's data and the encoded password, stamped now, and answers with its token and view |
| `AccountServices.AuthenticationService.Login` | muralia-backend/src/main/java/com/muralia/service/impl/AuthenticationServiceImpl.java:76-106 | every failure is "Invalid credentials"; an unknown email fails; for the stored customer with that email, login succeeds exactly when the password matches its hash, and answers with its token and view |
| `AccountServices.AuthenticationService.GetCurrentCustomer` | muralia-backend/src/main/java/com/muralia/service/impl/AuthenticationServiceImpl.java:108-114 | always fails with the not-implemented message |
| `AccountServices.RegisteredPasswordLogsIn` | muralia-backend/src/main/java/com/muralia/service/impl/AuthenticationServiceImpl.java:88-95 | a customer logs in with the password whose encoding is stored, and the login token authenticates that customer at the filter |
| `AccountServices.WrongPasswordFails` | muralia-backend/src/main/java/com/muralia/service/impl/AuthenticationServiceImpl.java:88-92 | a password the encoder rejects fails with "Invalid credentials" |
| `ExceptionHandling.Handle` | muralia-backend/src/main/java/com/muralia/config/GlobalExceptionHandler.java:23-96 | not-found image or customer is 404, empty or non-image file is 400, anything else is 500 with "An unexpected error occurred: " before the message; the body repeats the status code, the reason phrase of that status, the time and the request path |
| `ExceptionHandling.NotFoundResponseNamesImage` | muralia-backend/src/main/java/com/muralia/config/GlobalExceptionHandler.java:23-36 | a 404 for a missing image names exactly the requested id |
| `ExceptionHandling.UnexpectedResponseKeepsMessage` | muralia-backend/src/main/java/com/muralia/config/GlobalExceptionHandler.java:83-96 | the catch-all keeps the original message after its prefix |
| `Spa.GetResource` | muralia-backend/src/main/java/com/muralia/config/SpaConfiguration.java:27-42 | an existing readable file is served as itself, even under api/; any other path falls back to index.html unless it starts with "api/" or "actuator/", in which case there is no resource |
| `Spa.MissingApiPathNotFound` | muralia-backend/src/main/java/com/muralia/config/SpaConfiguration.java:34-41 | a missing API path is never answered with the application page |
| `Spa.ServedFilesExist` | muralia-backend/src/main/java/com/muralia/config/SpaConfiguration.java:28-33 | the resolver serves a file only when it exists and is readable, and then serves exactly the requested path |
| `Scenarios.FiveImagesTwoPerPage` | muralia-backend/src/integrationTest/java/com/muralia/ImageIntegrationTest.java:295-327 | five images two per page: offsets 0, 2 and 4 give 2, 2 and 1 images with total 5; offset 3 gives the page of offset 2; limit 0 divides by zero |
| `Scenarios.ServiceFailureStatuses` | muralia-backend/src/main/java/com/muralia/config/GlobalExceptionHandler.java:23-96 | unauthenticated and not found are 404, empty and text/plain uploads are 400, non-owner delete, duplicate email and bad credentials are 500 |
| `Scenarios.RegisterAndSignIn` | muralia-backend/src/integrationTest/java/com/muralia/ImageIntegrationTest.java:57-62 | a fresh registration's token authenticates the newly stored customer |
| `Scenarios.UploadTitled` | muralia-backend/src/integrationTest/java/com/muralia/ImageIntegrationTest.java:68-82 | an authenticated customer's image upload is stored as the newest row with its title and owner |
| `Scenarios.ThreeUploads` | muralia-backend/src/integrationTest/java/com/muralia/ImageIntegrationTest.java:272-276 | three uploads by one customer are stored in order with ids 0, 1, 2 |
| `Scenarios.NewestFirstScenario` | muralia-backend/src/integrationTest/java/com/muralia/ImageIntegrationTest.java:271-292 | three uploads listed with limit 10 and offset 0 come back "Test Image 3", "2", "1" |
| `Scenarios.DeleteScenario` | muralia-backend/src/main/java/com/muralia/service/impl/ImageServiceImpl.java:143-176 | the bytes come back exactly; another customer's delete fails as not authorized; the owner's delete succeeds; the image is then not found |

## Left out

- Image and customer ids are naturals from counters. Ids appear in URLs and messages as
  decimal digits. The text form of a UUID is not modelled.
- Entity aliasing is not modelled. An image holds a copy of its owner's record. A later change
  to the customer row is not seen through the image. Only the owner's id and username are ever
  read from it.
- `DataIntegrityViolation`'s message is a stand-in naming the violated constraint. The driver's
  exact text is not modelled.
- A refused image row is reported at the save call, inside the upload's try block. An insert
  that the ORM defers to commit time, and then fails outside that block, is not modelled.
- Only the explicit `length =` column limits are checked. The default length of the other text
  columns is not modelled.
- Database and I/O failures are not modelled: connection errors, `file.getBytes()` and
  `URI.create`. Transactions and concurrent requests are not modelled either: each operation
  runs alone, and a failed upload leaves the store as it was.
- BCrypt and the JWT signing are foreign code. They are modelled by laws: `Jwt.Sound`,
  `Passwords.Sound`. `JwtReference` is a witness that the laws can hold; it is not the backend's
  token format.
- Both timestamps of a new customer come from one clock reading. The source calls the clock
  twice.
- `Repository.Store.SaveImage`: requires that a record with an id is already stored. Merging an
  unknown id is not modelled, because no caller does it.
- `Repository.Store.SaveCustomer`: requires that a record with an id is already stored. Merging
  an unknown id is not modelled; the only caller, registration, saves a customer without id.
- The `WebAuthenticationDetails` the filter attaches are not modelled.
- A failing lookup or a throwing `validateToken` in the filter is modelled as "no new identity".
  This is what the catch block yields.
- An upload's original file name is taken to be non-null.
- `AccountServices.AuthenticationService.Logout` does nothing, and is modelled by an empty
  method without contract.
- The model treats `limit` and `offset` as present 32-bit integers. A missing (null) value, and
  the controller's defaults, are not modelled.
- SecurityConfig, the controllers, the frontend and the test harness are not part of this model.
  They are route rules, HTTP glue and UI.
- Several images with the same upload time list the later-inserted one first. The query leaves
  this order unspecified.
- `Scenarios.DeleteScenario`: states only that the owner's delete succeeds. It does not state
  the empty return value.
