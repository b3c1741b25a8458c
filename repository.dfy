/**
 * The two tables behind CustomerRepository and ImageRepository (ImageRepository.java and the
 * JpaRepository methods the services call: save, findById, delete, existsByEmail, ...).
 *
 * The queries are functions over a table; the `Store` class holds both tables and changes them
 * in place, as the database does on save and delete.
 */
module Repository {
  import opened Wrappers
  import opened Entities
  import opened Exceptions

  // ---------------------------------------------------------------- generic filtering

  /** The elements of `s` that `keep` accepts, in their original order. */
  function Keep<T>(s: seq<T>, keep: T -> bool): (r: seq<T>)
    ensures |r| <= |s|
  {
    if s == [] then []
    else (if keep(s[0]) then [s[0]] else []) + Keep(s[1..], keep)
  }

  /** An element survives the filter exactly when it was there and is accepted. */
  lemma {:induction false} KeepMembers<T>(s: seq<T>, keep: T -> bool, x: T)
    ensures x in Keep(s, keep) <==> x in s && keep(x)
  {
    if s != [] {
      KeepMembers(s[1..], keep, x);
      assert x in s <==> x == s[0] || x in s[1..];
    }
  }

  lemma {:induction false} KeepEverything<T>(s: seq<T>, keep: T -> bool)
    requires forall i :: 0 <= i < |s| ==> keep(s[i])
    ensures Keep(s, keep) == s
  {
    if s != [] {
      KeepEverything(s[1..], keep);
    }
  }

  /** Dropping the one element that `keep` refuses removes exactly that position. */
  lemma {:induction false} KeepAllButOne<T>(s: seq<T>, keep: T -> bool, k: nat)
    requires k < |s| && !keep(s[k])
    requires forall i :: 0 <= i < |s| && i != k ==> keep(s[i])
    ensures Keep(s, keep) == s[..k] + s[k + 1..]
  {
    var tail := s[1..];
    if k == 0 {
      KeepEverything(tail, keep);
      assert Keep(s, keep) == Keep(tail, keep);
    } else {
      KeepAllButOne(tail, keep, k - 1);
      assert Keep(s, keep) == [s[0]] + Keep(tail, keep);
      assert tail[..k - 1] == s[1..k];
      assert tail[k..] == s[k + 1..];
      assert [s[0]] + s[1..k] == s[..k];
    }
  }

  // ---------------------------------------------------------------- customers

  /** CustomerRepository.findByEmail. */
  function FindByEmail(customers: seq<CustomerEntity>, email: string): (r: Option<CustomerEntity>)
    ensures r.Some? <==> exists c :: c in customers && c.email == email
    ensures r.Some? ==> r.value in customers && r.value.email == email
  {
    if customers == [] then None
    else if customers[0].email == email then Some(customers[0])
    else FindByEmail(customers[1..], email)
  }

  /** CustomerRepository.existsByEmail. */
  predicate ExistsByEmail(customers: seq<CustomerEntity>, email: string) {
    exists c :: c in customers && c.email == email
  }

  /** CustomerRepository.existsByUsername. */
  predicate ExistsByUsername(customers: seq<CustomerEntity>, username: string) {
    exists c :: c in customers && c.username == username
  }

  function CustomerIds(customers: seq<CustomerEntity>): set<Option<CustomerId>> {
    set c | c in customers :: c.id
  }

  /** The unique keys of the customers table: id, uk_customer_email and uk_customer_username. */
  predicate CustomerKeysDistinct(customers: seq<CustomerEntity>) {
    forall i, j :: 0 <= i < j < |customers| ==>
      customers[i].id != customers[j].id &&
      customers[i].email != customers[j].email &&
      customers[i].username != customers[j].username
  }

  /** Under unique emails, findByEmail finds the one customer with that email. */
  lemma {:induction false} FindByEmailIsTheCustomer(customers: seq<CustomerEntity>, k: nat)
    requires CustomerKeysDistinct(customers) && k < |customers|
    ensures FindByEmail(customers, customers[k].email) == Some(customers[k])
  {
    if k > 0 {
      assert customers[0].email != customers[k].email;
      assert CustomerKeysDistinct(customers[1..]) by {
        forall i, j | 0 <= i < j < |customers[1..]|
          ensures customers[1..][i].email != customers[1..][j].email
        {
          assert customers[1..][i] == customers[i + 1] && customers[1..][j] == customers[j + 1];
        }
      }
      FindByEmailIsTheCustomer(customers[1..], k - 1);
    }
  }

  /** The first position of the customer with the given id. */
  function CustomerIndex(customers: seq<CustomerEntity>, id: CustomerId): (k: nat)
    requires Some(id) in CustomerIds(customers)
    ensures k < |customers| && customers[k].id == Some(id)
  {
    if customers[0].id == Some(id) then 0
    else
      assert Some(id) in CustomerIds(customers[1..]) by {
        var c :| c in customers && c.id == Some(id);
        assert c != customers[0];
      }
      1 + CustomerIndex(customers[1..], id)
  }

  /** Another customer than `c` already holds `c`'s email. */
  predicate EmailTakenByOther(customers: seq<CustomerEntity>, c: CustomerEntity) {
    exists x :: x in customers && x.email == c.email && x.id != c.id
  }

  /** Another customer than `c` already holds `c`'s username. */
  predicate UsernameTakenByOther(customers: seq<CustomerEntity>, c: CustomerEntity) {
    exists x :: x in customers && x.username == c.username && x.id != c.id
  }

  // ---------------------------------------------------------------- images

  /** JpaRepository.findById on the images table. */
  function FindImageById(images: seq<ImageEntity>, id: ImageId): (r: Option<ImageEntity>)
    ensures r.Some? <==> exists e :: e in images && e.id == Some(id)
    ensures r.Some? ==> r.value in images && r.value.id == Some(id)
  {
    if images == [] then None
    else if images[0].id == Some(id) then Some(images[0])
    else FindImageById(images[1..], id)
  }

  predicate ImageIdsDistinct(images: seq<ImageEntity>) {
    forall i, j :: 0 <= i < j < |images| ==> images[i].id != images[j].id
  }

  /** Under distinct ids, findById finds the one record with that id. */
  lemma {:induction false} FindImageByIdIsTheRecord(images: seq<ImageEntity>, k: nat)
    requires ImageIdsDistinct(images) && k < |images| && images[k].id.Some?
    ensures FindImageById(images, images[k].id.value) == Some(images[k])
  {
    if k > 0 {
      assert images[0].id != images[k].id;
      assert ImageIdsDistinct(images[1..]) by {
        forall i, j | 0 <= i < j < |images[1..]|
          ensures images[1..][i].id != images[1..][j].id
        {
          assert images[1..][i] == images[i + 1] && images[1..][j] == images[j + 1];
        }
      }
      FindImageByIdIsTheRecord(images[1..], k - 1);
    }
  }

  /** The position of the record with the given id. */
  function ImageIndex(images: seq<ImageEntity>, id: ImageId): (k: nat)
    requires FindImageById(images, id).Some?
    ensures k < |images| && images[k].id == Some(id)
  {
    if images[0].id == Some(id) then 0 else 1 + ImageIndex(images[1..], id)
  }

  /** ImageRepository.existsByIdAndCustomerId, the query derived from its name. */
  predicate ExistsByIdAndCustomerId(images: seq<ImageEntity>, imageId: ImageId, customerId: CustomerId) {
    exists e :: e in images && e.id == Some(imageId) && e.owner.id == Some(customerId)
  }

  /** The ownership query agrees with loading the record and comparing its owner's id. */
  lemma OwnershipQueryAgrees(images: seq<ImageEntity>, imageId: ImageId, customerId: CustomerId)
    requires ImageIdsDistinct(images)
    ensures ExistsByIdAndCustomerId(images, imageId, customerId) <==>
            FindImageById(images, imageId).Some? && FindImageById(images, imageId).value.owner.id == Some(customerId)
  {
    if ExistsByIdAndCustomerId(images, imageId, customerId) {
      var e :| e in images && e.id == Some(imageId) && e.owner.id == Some(customerId);
      var k :| 0 <= k < |images| && images[k] == e;
      FindImageByIdIsTheRecord(images, k);
    }
  }

  /** The table without the record of the given id (JpaRepository.delete). */
  function WithoutImage(images: seq<ImageEntity>, id: ImageId): (r: seq<ImageEntity>)
    ensures forall e :: e in r <==> e in images && e.id != Some(id)
  {
    var keep := (e: ImageEntity) => e.id != Some(id);
    assert forall e :: e in Keep(images, keep) <==> e in images && keep(e) by {
      forall e { KeepMembers(images, keep, e); }
    }
    Keep(images, keep)
  }

  /** Deleting a record removes exactly that record and leaves the others, in order. */
  lemma DeleteRemovesOnlyThatRecord(images: seq<ImageEntity>, k: nat)
    requires ImageIdsDistinct(images) && k < |images| && images[k].id.Some?
    ensures WithoutImage(images, images[k].id.value) == images[..k] + images[k + 1..]
  {
    var id := images[k].id.value;
    KeepAllButOne(images, (e: ImageEntity) => e.id != Some(id), k);
  }

  // ---------------------------------------------------------------- ORDER BY uploadedAt DESC

  /** Most recent first. */
  predicate NewestFirst(s: seq<ImageEntity>) {
    forall i, j :: 0 <= i < j < |s| ==> Stamp(s[i]) >= Stamp(s[j])
  }

  /** Oldest first: the order in which records were inserted. */
  predicate Chronological(s: seq<ImageEntity>) {
    forall i, j :: 0 <= i < j < |s| ==> Stamp(s[i]) <= Stamp(s[j])
  }

  /** Inserts a record into a newest-first sequence, before every record that is not newer. */
  function InsertByStamp(e: ImageEntity, s: seq<ImageEntity>): (r: seq<ImageEntity>)
    requires NewestFirst(s)
    ensures |r| == |s| + 1
    ensures NewestFirst(r)
    ensures multiset(r) == multiset(s) + multiset{e}
  {
    if s == [] || Stamp(s[0]) <= Stamp(e) then
      assert forall i :: 0 <= i < |s| ==> Stamp(s[i]) <= Stamp(e) by {
        forall i | 0 <= i < |s| ensures Stamp(s[i]) <= Stamp(e) {
          if i > 0 { assert Stamp(s[i]) <= Stamp(s[0]); }
        }
      }
      NewestFirstCons(e, s);
      [e] + s
    else
      var rest := InsertByStamp(e, s[1..]);
      NoNewerThanHead(e, s, rest);
      NewestFirstCons(s[0], rest);
      assert s == [s[0]] + s[1..];
      [s[0]] + rest
  }

  /** A record no older than everything in a newest-first sequence can go in front of it. */
  lemma NewestFirstCons(x: ImageEntity, s: seq<ImageEntity>)
    requires NewestFirst(s)
    requires forall i :: 0 <= i < |s| ==> Stamp(s[i]) <= Stamp(x)
    ensures NewestFirst([x] + s)
  {
    forall i, j | 0 <= i < j < |[x] + s| ensures Stamp(([x] + s)[i]) >= Stamp(([x] + s)[j]) {
      assert ([x] + s)[j] == s[j - 1];
      if i > 0 { assert ([x] + s)[i] == s[i - 1]; }
    }
  }

  /** Everything inserted behind the head of a newest-first sequence is no newer than that head. */
  lemma NoNewerThanHead(e: ImageEntity, s: seq<ImageEntity>, rest: seq<ImageEntity>)
    requires NewestFirst(s) && s != [] && Stamp(e) < Stamp(s[0])
    requires multiset(rest) == multiset(s[1..]) + multiset{e}
    ensures forall i :: 0 <= i < |rest| ==> Stamp(rest[i]) <= Stamp(s[0])
  {
    forall i | 0 <= i < |rest| ensures Stamp(rest[i]) <= Stamp(s[0]) {
      var x := rest[i];
      assert x in multiset(rest);
      if x != e {
        assert x in multiset(s[1..]);
        var j :| 0 <= j < |s[1..]| && s[1..][j] == x;
        assert s[j + 1] == x;
      }
    }
  }

  /** The rows of the table in the query's order: newest upload first; among equal times, the later insert first. */
  function LatestOrder(rows: seq<ImageEntity>): (r: seq<ImageEntity>)
    ensures |r| == |rows|
    ensures NewestFirst(r)
    ensures multiset(r) == multiset(rows)
  {
    if rows == [] then []
    else
      assert rows == rows[..|rows| - 1] + [rows[|rows| - 1]];
      InsertByStamp(rows[|rows| - 1], LatestOrder(rows[..|rows| - 1]))
  }

  function Reverse<T>(s: seq<T>): (r: seq<T>)
    ensures |r| == |s|
    ensures forall i :: 0 <= i < |s| ==> r[i] == s[|s| - 1 - i]
  {
    if s == [] then [] else [s[|s| - 1]] + Reverse(s[..|s| - 1])
  }

  /** When records were inserted in time order, the newest-first order is the reverse insertion order. */
  lemma {:induction false} LatestOrderOfChronological(rows: seq<ImageEntity>)
    requires Chronological(rows)
    ensures LatestOrder(rows) == Reverse(rows)
  {
    if rows != [] {
      var init := rows[..|rows| - 1];
      assert Chronological(init);
      LatestOrderOfChronological(init);
      if init != [] {
        assert Reverse(init)[0] == rows[|rows| - 2];
      }
    }
  }

  /** A page of the query's result, and the number of all rows. */
  datatype Page = Page(content: seq<ImageEntity>, totalElements: nat)

  function Min(a: int, b: int): int {
    if a <= b then a else b
  }

  /** The `size` elements of `s` that follow the first `start`, or fewer at the end. */
  function Slice(s: seq<ImageEntity>, start: nat, size: nat): (r: seq<ImageEntity>)
    ensures |r| == if start >= |s| then 0 else Min(size, |s| - start)
    ensures forall i :: 0 <= i < |r| ==> r[i] == s[start + i]
  {
    var lo := Min(start, |s|);
    var hi := Min(start + size, |s|);
    s[lo..hi]
  }

  /** ImageRepository.findLatestImages(PageRequest.of(pageNumber, pageSize)). */
  function FindLatestImages(rows: seq<ImageEntity>, pageNumber: nat, pageSize: nat): (p: Page)
    requires pageSize >= 1
    ensures p.totalElements == |rows|
    ensures var start := pageNumber * pageSize;
            && |p.content| == (if start >= |rows| then 0 else Min(pageSize, |rows| - start))
            && forall i :: 0 <= i < |p.content| ==> p.content[i] == LatestOrder(rows)[start + i]
    ensures NewestFirst(p.content)
  {
    var ordered := LatestOrder(rows);
    var content := Slice(ordered, pageNumber * pageSize, pageSize);
    assert NewestFirst(content) by {
      forall i, j | 0 <= i < j < |content| ensures Stamp(content[i]) >= Stamp(content[j]) {
        assert content[i] == ordered[pageNumber * pageSize + i];
        assert content[j] == ordered[pageNumber * pageSize + j];
      }
    }
    Page(content, |rows|)
  }

  // ---------------------------------------------------------------- the store

  /** A stored customer: persisted (id and both timestamps set), within the clock and the column lengths. */
  predicate CustomerRowValid(c: CustomerEntity, lastCustomerId: nat, clock: Time) {
    c.id.Some? && 1 <= c.id.value <= lastCustomerId &&
    c.createdAt.Some? && c.updatedAt.Some? && c.createdAt.value <= c.updatedAt.value <= clock &&
    CustomerColumnsFit(c)
  }

  /** A stored image: persisted, within the clock and the column lengths, owned by an existing customer. */
  predicate ImageRowValid(e: ImageEntity, customers: seq<CustomerEntity>, nextImageId: nat, clock: Time) {
    e.id.Some? && e.id.value < nextImageId &&
    e.uploadedAt.Some? && e.uploadedAt.value <= clock &&
    ImageColumnsFit(e) &&
    e.owner.id in CustomerIds(customers)
  }

  predicate TablesValid(customers: seq<CustomerEntity>, images: seq<ImageEntity>,
                        lastCustomerId: nat, nextImageId: nat, clock: Time) {
    (forall c :: c in customers ==> CustomerRowValid(c, lastCustomerId, clock)) &&
    CustomerKeysDistinct(customers) &&
    (forall e :: e in images ==> ImageRowValid(e, customers, nextImageId, clock)) &&
    ImageIdsDistinct(images) &&
    Chronological(images)
  }

  /** The reason the database refuses an image row, if it does. */
  function ImageRowViolation(e: ImageEntity, customers: seq<CustomerEntity>): (r: Option<string>)
    ensures r.None? <==> ImageColumnsFit(e) && e.owner.id in CustomerIds(customers)
  {
    if !Fits(e.title, TitleLength) then Some("title")
    else if !Fits(e.description, DescriptionLength) then Some("description")
    else if |e.mimeType| > MimeTypeLength then Some("mime_type")
    else if e.owner.id !in CustomerIds(customers) then Some("fk_image_customer")
    else None
  }

  /** The reason the database refuses a customer row, if it does. */
  function CustomerRowViolation(c: CustomerEntity, customers: seq<CustomerEntity>): (r: Option<string>)
    ensures r.None? <==> CustomerColumnsFit(c) && !EmailTakenByOther(customers, c) && !UsernameTakenByOther(customers, c)
  {
    if |c.email| > EmailLength then Some("email")
    else if |c.username| > UsernameLength then Some("username")
    else if !Fits(c.firstName, NameLength) then Some("first_name")
    else if !Fits(c.lastName, NameLength) then Some("last_name")
    else if EmailTakenByOther(customers, c) then Some("uk_customer_email")
    else if UsernameTakenByOther(customers, c) then Some("uk_customer_username")
    else None
  }

  class Store {
    var customers: seq<CustomerEntity>
    var images: seq<ImageEntity>       // in insertion order
    var lastCustomerId: nat            // the identity column's last value
    var nextImageId: nat               // the id the next new image receives
    var clock: Time                    // the latest time a row was written

    predicate Valid()
      reads this
    {
      TablesValid(customers, images, lastCustomerId, nextImageId, clock)
    }

    constructor ()
      ensures Valid()
      ensures customers == [] && images == [] && lastCustomerId == 0 && nextImageId == 0 && clock == 0
    {
      customers, images := [], [];
      lastCustomerId, nextImageId, clock := 0, 0, 0;
    }

    /**
     * JpaRepository.save on the images table. A record without id is inserted with a fresh id and
     * its @PrePersist hook; a record with id overwrites the stored one, whose upload time is kept
     * because that column is not updatable.
     */
    method SaveImage(e: ImageEntity, now: Time) returns (r: Result<ImageEntity, Error>)
      requires Valid() && clock <= now
      requires e.id.Some? ==> FindImageById(images, e.id.value).Some?
      modifies this
      ensures Valid()
      ensures customers == old(customers) && lastCustomerId == old(lastCustomerId)
      ensures r.Err? <==> ImageRowViolation(e, customers).Some?
      ensures r.Err? ==> r.error == DataIntegrityViolation(ImageRowViolation(e, customers).value) && unchanged(this)
      ensures r.Ok? && e.id.None? ==>
        r.value == ImageOnCreate(e.(id := Some(old(nextImageId))), now) &&
        images == old(images) + [r.value] &&
        nextImageId == old(nextImageId) + 1 && clock == now
      ensures r.Ok? && e.id.Some? ==>
        var k := ImageIndex(old(images), e.id.value);
        r.value == e.(uploadedAt := old(images)[k].uploadedAt) &&
        images == old(images)[k := r.value] &&
        nextImageId == old(nextImageId) && clock == old(clock)
    {
      var violation := ImageRowViolation(e, customers);
      if violation.Some? {
        return Err(DataIntegrityViolation(violation.value));
      }
      if e.id.None? {
        var row := ImageOnCreate(e.(id := Some(nextImageId)), now);
        PersistImageKeepsTablesValid(customers, images, lastCustomerId, nextImageId, clock, e, now);
        images := images + [row];
        nextImageId := nextImageId + 1;
        clock := now;
        r := Ok(row);
      } else {
        var k := ImageIndex(images, e.id.value);
        var row := e.(uploadedAt := images[k].uploadedAt);
        MergeImageKeepsTablesValid(customers, images, lastCustomerId, nextImageId, clock, k, e);
        images := images[k := row];
        r := Ok(row);
      }
    }

    /** JpaRepository.delete on the images table: removes the record with that id, if there is one. */
    method DeleteImage(id: ImageId)
      requires Valid()
      modifies this
      ensures Valid()
      ensures images == WithoutImage(old(images), id)
      ensures customers == old(customers) && lastCustomerId == old(lastCustomerId)
      ensures nextImageId == old(nextImageId) && clock == old(clock)
    {
      ChronologicalKeep(images, (e: ImageEntity) => e.id != Some(id));
      DistinctIdsKeep(images, (e: ImageEntity) => e.id != Some(id));
      images := WithoutImage(images, id);
    }

    /**
     * JpaRepository.save on the customers table. A customer without id is inserted with the next
     * identity value and its @PrePersist hook; one with id overwrites the stored row through its
     * @PreUpdate hook, and createdAt keeps its stored value because that column is not updatable.
     */
    method SaveCustomer(c: CustomerEntity, now: Time) returns (r: Result<CustomerEntity, Error>)
      requires Valid() && clock <= now
      requires c.id.Some? ==> c.id in CustomerIds(customers)
      modifies this
      ensures Valid()
      ensures images == old(images) && nextImageId == old(nextImageId)
      ensures r.Err? <==> CustomerRowViolation(c, old(customers)).Some?
      ensures r.Err? ==> r.error == DataIntegrityViolation(CustomerRowViolation(c, old(customers)).value) && unchanged(this)
      ensures r.Ok? && c.id.None? ==>
        r.value == CustomerOnCreate(c.(id := Some(old(lastCustomerId) + 1)), now) &&
        customers == old(customers) + [r.value] &&
        lastCustomerId == old(lastCustomerId) + 1 && clock == now
      ensures r.Ok? && c.id.Some? ==>
        var k := CustomerIndex(old(customers), c.id.value);
        r.value == CustomerOnUpdate(c, now).(createdAt := old(customers)[k].createdAt) &&
        customers == old(customers)[k := r.value] &&
        lastCustomerId == old(lastCustomerId) && clock == now
    {
      var violation := CustomerRowViolation(c, customers);
      if violation.Some? {
        return Err(DataIntegrityViolation(violation.value));
      }
      if c.id.None? {
        var row := CustomerOnCreate(c.(id := Some(lastCustomerId + 1)), now);
        PersistCustomerKeepsTablesValid(customers, images, lastCustomerId, nextImageId, clock, c, now);
        customers := customers + [row];
        lastCustomerId := lastCustomerId + 1;
        clock := now;
        r := Ok(row);
      } else {
        var k := CustomerIndex(customers, c.id.value);
        var row := CustomerOnUpdate(c, now).(createdAt := customers[k].createdAt);
        MergeCustomerKeepsTablesValid(customers, images, lastCustomerId, nextImageId, clock, k, c, now);
        customers := customers[k := row];
        clock := now;
        r := Ok(row);
      }
    }

    /**
     * JpaRepository.delete on the customers table. The images association cascades with
     * orphan removal, so the customer's images go with it.
     */
    method DeleteCustomer(id: CustomerId)
      requires Valid()
      modifies this
      ensures Valid()
      ensures customers == Keep(old(customers), (c: CustomerEntity) => c.id != Some(id))
      ensures images == Keep(old(images), (e: ImageEntity) => e.owner.id != Some(id))
      ensures lastCustomerId == old(lastCustomerId) && nextImageId == old(nextImageId) && clock == old(clock)
    {
      var keepCustomer := (c: CustomerEntity) => c.id != Some(id);
      var keepImage := (e: ImageEntity) => e.owner.id != Some(id);
      ChronologicalKeep(images, keepImage);
      DistinctIdsKeep(images, keepImage);
      DistinctKeysKeep(customers, keepCustomer);
      ghost var before := customers;
      ghost var imagesBefore := images;
      customers := Keep(customers, keepCustomer);
      images := Keep(images, keepImage);
      forall c | c in customers ensures CustomerRowValid(c, lastCustomerId, clock) {
        KeepMembers(before, keepCustomer, c);
      }
      forall e | e in images ensures ImageRowValid(e, customers, nextImageId, clock) {
        KeepMembers(imagesBefore, keepImage, e);
        var c :| c in before && c.id == e.owner.id;
        KeepMembers(before, keepCustomer, c);
      }
    }
  }

  // ---------------------------------------------------------------- filtering keeps the invariants

  lemma {:induction false} ChronologicalKeep(s: seq<ImageEntity>, keep: ImageEntity -> bool)
    requires Chronological(s)
    ensures Chronological(Keep(s, keep))
  {
    if s != [] {
      ChronologicalKeep(s[1..], keep);
      var rest := Keep(s[1..], keep);
      forall x | x in rest ensures Stamp(s[0]) <= Stamp(x) {
        KeepMembers(s[1..], keep, x);
        var i :| 0 <= i < |s[1..]| && s[1..][i] == x;
        assert s[i + 1] == x;
      }
    }
  }

  lemma {:induction false} DistinctIdsKeep(s: seq<ImageEntity>, keep: ImageEntity -> bool)
    requires ImageIdsDistinct(s)
    ensures ImageIdsDistinct(Keep(s, keep))
  {
    if s != [] {
      assert ImageIdsDistinct(s[1..]) by {
        forall i, j | 0 <= i < j < |s[1..]| ensures s[1..][i].id != s[1..][j].id {
          assert s[1..][i] == s[i + 1] && s[1..][j] == s[j + 1];
        }
      }
      DistinctIdsKeep(s[1..], keep);
      var rest := Keep(s[1..], keep);
      forall x | x in rest ensures s[0].id != x.id {
        KeepMembers(s[1..], keep, x);
        var i :| 0 <= i < |s[1..]| && s[1..][i] == x;
        assert s[i + 1] == x;
      }
    }
  }

  lemma {:induction false} DistinctKeysKeep(s: seq<CustomerEntity>, keep: CustomerEntity -> bool)
    requires CustomerKeysDistinct(s)
    ensures CustomerKeysDistinct(Keep(s, keep))
  {
    if s != [] {
      assert CustomerKeysDistinct(s[1..]) by {
        forall i, j | 0 <= i < j < |s[1..]|
          ensures s[1..][i].id != s[1..][j].id && s[1..][i].email != s[1..][j].email &&
                  s[1..][i].username != s[1..][j].username
        {
          assert s[1..][i] == s[i + 1] && s[1..][j] == s[j + 1];
        }
      }
      DistinctKeysKeep(s[1..], keep);
      var rest := Keep(s[1..], keep);
      forall x | x in rest
        ensures s[0].id != x.id && s[0].email != x.email && s[0].username != x.username
      {
        KeepMembers(s[1..], keep, x);
        var i :| 0 <= i < |s[1..]| && s[1..][i] == x;
        assert s[i + 1] == x;
      }
    }
  }

  // ---------------------------------------------------------------- saving a customer keeps the invariants

  /** Rows that were valid under an earlier clock and fewer customers stay valid. */
  lemma ImagesStayValid(images: seq<ImageEntity>, before: seq<CustomerEntity>, after: seq<CustomerEntity>,
                        nextImageId: nat, clock: Time, now: Time)
    requires forall e :: e in images ==> ImageRowValid(e, before, nextImageId, clock)
    requires CustomerIds(before) <= CustomerIds(after) && clock <= now
    ensures forall e :: e in images ==> ImageRowValid(e, after, nextImageId, now)
  {
  }

  lemma PersistCustomerKeepsTablesValid(customers: seq<CustomerEntity>, images: seq<ImageEntity>,
                                        lastCustomerId: nat, nextImageId: nat, clock: Time,
                                        c: CustomerEntity, now: Time)
    requires TablesValid(customers, images, lastCustomerId, nextImageId, clock) && clock <= now
    requires c.id.None? && CustomerRowViolation(c, customers).None?
    ensures var row := CustomerOnCreate(c.(id := Some(lastCustomerId + 1)), now);
            TablesValid(customers + [row], images, lastCustomerId + 1, nextImageId, now)
  {
    var row := CustomerOnCreate(c.(id := Some(lastCustomerId + 1)), now);
    var after := customers + [row];
    assert CustomerIds(after) == CustomerIds(customers) + {row.id};
    assert CustomerKeysDistinct(after) by {
      forall i, j | 0 <= i < j < |after|
        ensures after[i].id != after[j].id && after[i].email != after[j].email &&
                after[i].username != after[j].username
      {
        if j == |after| - 1 {
          assert after[i] in customers;
        }
      }
    }
    ImagesStayValid(images, customers, after, nextImageId, clock, now);
  }

  lemma MergeCustomerKeepsTablesValid(customers: seq<CustomerEntity>, images: seq<ImageEntity>,
                                      lastCustomerId: nat, nextImageId: nat, clock: Time,
                                      k: nat, c: CustomerEntity, now: Time)
    requires TablesValid(customers, images, lastCustomerId, nextImageId, clock) && clock <= now
    requires k < |customers| && c.id.Some? && customers[k].id == c.id
    requires CustomerRowViolation(c, customers).None?
    ensures var row := CustomerOnUpdate(c, now).(createdAt := customers[k].createdAt);
            TablesValid(customers[k := row], images, lastCustomerId, nextImageId, now)
  {
    var row := CustomerOnUpdate(c, now).(createdAt := customers[k].createdAt);
    var after := customers[k := row];
    assert customers[k] in customers;
    assert CustomerRowValid(customers[k], lastCustomerId, clock);
    assert row.id == c.id && row.email == c.email && row.username == c.username;
    assert row.firstName == c.firstName && row.lastName == c.lastName;
    assert row.createdAt == customers[k].createdAt && row.updatedAt == Some(now);
    assert CustomerRowValid(row, lastCustomerId, now);
    assert CustomerIds(after) == CustomerIds(customers) by {
      forall x | x in CustomerIds(customers) ensures x in CustomerIds(after) {
        var y :| y in customers && y.id == x;
        var i :| 0 <= i < |customers| && customers[i] == y;
        assert after[i] in after;
      }
    }
    assert CustomerKeysDistinct(after) by {
      forall i, j | 0 <= i < j < |after|
        ensures after[i].id != after[j].id && after[i].email != after[j].email &&
                after[i].username != after[j].username
      {
        assert customers[i] in customers && customers[j] in customers;
      }
    }
    forall x | x in after ensures CustomerRowValid(x, lastCustomerId, now) {
      var i :| 0 <= i < |after| && after[i] == x;
      if i != k {
        assert customers[i] == x && customers[i] in customers;
        assert CustomerRowValid(customers[i], lastCustomerId, clock);
      } else {
        assert x == row;
      }
    }
    ImagesStayValid(images, customers, after, nextImageId, clock, now);
  }

  lemma PersistImageKeepsTablesValid(customers: seq<CustomerEntity>, images: seq<ImageEntity>,
                                     lastCustomerId: nat, nextImageId: nat, clock: Time,
                                     e: ImageEntity, now: Time)
    requires TablesValid(customers, images, lastCustomerId, nextImageId, clock) && clock <= now
    requires e.id.None? && ImageRowViolation(e, customers).None?
    ensures var row := ImageOnCreate(e.(id := Some(nextImageId)), now);
            TablesValid(customers, images + [row], lastCustomerId, nextImageId + 1, now)
  {
    var row := ImageOnCreate(e.(id := Some(nextImageId)), now);
    var after := images + [row];
    assert ImageRowValid(row, customers, nextImageId + 1, now);
    forall x | x in images ensures ImageRowValid(x, customers, nextImageId + 1, now) {
      assert ImageRowValid(x, customers, nextImageId, clock);
    }
    assert forall x :: x in after ==> x in images || x == row;
    assert ImageIdsDistinct(after) by {
      forall i, j | 0 <= i < j < |after| ensures after[i].id != after[j].id {
        assert after[i] in images && ImageRowValid(after[i], customers, nextImageId, clock);
        if j < |images| {
          assert after[i] == images[i] && after[j] == images[j];
        }
      }
    }
    assert Chronological(after) by {
      forall i, j | 0 <= i < j < |after| ensures Stamp(after[i]) <= Stamp(after[j]) {
        assert after[i] in images && ImageRowValid(after[i], customers, nextImageId, clock);
        if j < |images| {
          assert after[i] == images[i] && after[j] == images[j];
        }
      }
    }
    forall c | c in customers ensures CustomerRowValid(c, lastCustomerId, now) {
      assert CustomerRowValid(c, lastCustomerId, clock);
    }
  }

  lemma MergeImageKeepsTablesValid(customers: seq<CustomerEntity>, images: seq<ImageEntity>,
                                   lastCustomerId: nat, nextImageId: nat, clock: Time,
                                   k: nat, e: ImageEntity)
    requires TablesValid(customers, images, lastCustomerId, nextImageId, clock)
    requires k < |images| && e.id.Some? && images[k].id == e.id
    requires ImageRowViolation(e, customers).None?
    ensures var row := e.(uploadedAt := images[k].uploadedAt);
            TablesValid(customers, images[k := row], lastCustomerId, nextImageId, clock)
  {
    var row := e.(uploadedAt := images[k].uploadedAt);
    var after := images[k := row];
    assert images[k] in images && ImageRowValid(images[k], customers, nextImageId, clock);
    assert ImageRowValid(row, customers, nextImageId, clock);
    forall x | x in after ensures ImageRowValid(x, customers, nextImageId, clock) {
      var i :| 0 <= i < |after| && after[i] == x;
      if i != k {
        assert images[i] == x && images[i] in images;
      }
    }
    assert ImageIdsDistinct(after) by {
      forall i, j | 0 <= i < j < |after| ensures after[i].id != after[j].id {
        assert images[i].id == after[i].id && images[j].id == after[j].id;
      }
    }
    assert Chronological(after) by {
      forall i, j | 0 <= i < j < |after| ensures Stamp(after[i]) <= Stamp(after[j]) {
        assert Stamp(images[i]) == Stamp(after[i]) && Stamp(images[j]) == Stamp(after[j]);
      }
    }
  }
}
