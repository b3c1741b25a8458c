/**
 * The two persistent records, customers and images, with their column constraints
 * and their lifecycle hooks (CustomerEntity.java, ImageEntity.java).
 * Java fields that may hold null are `Option`s.
 */
module Entities {
  import opened Wrappers

  /** A point in time, from a clock that never runs backwards. */
  type Time = nat
  /** A customer's id: the database's identity column. */
  type CustomerId = nat
  /** An image's id: generated by the store when the record is first saved. */
  type ImageId = nat

  newtype byte = x: int | 0 <= x < 256

  datatype CustomerEntity = CustomerEntity(
    id: Option<CustomerId>,
    email: string,
    username: string,
    password: string,          // the encoded password, never the plaintext
    firstName: Option<string>,
    lastName: Option<string>,
    createdAt: Option<Time>,
    updatedAt: Option<Time>)

  datatype ImageEntity = ImageEntity(
    id: Option<ImageId>,
    url: string,
    thumbnailUrl: Option<string>,
    title: Option<string>,
    description: Option<string>,
    fileName: string,
    fileSize: nat,
    mimeType: string,
    width: Option<int>,
    height: Option<int>,
    imageData: seq<byte>,
    thumbnailData: Option<seq<byte>>,
    owner: CustomerEntity,     // the owning customer; the column is non-null
    uploadedAt: Option<Time>)

  // Column lengths declared on the entities.
  const EmailLength: nat := 255
  const UsernameLength: nat := 50
  const NameLength: nat := 100
  const TitleLength: nat := 255
  const DescriptionLength: nat := 1000
  const MimeTypeLength: nat := 100

  /** A nullable column of the given length accepts the value. */
  predicate Fits(s: Option<string>, length: nat) {
    s.None? || |s.value| <= length
  }

  /** The customers table accepts the row's column values. */
  predicate CustomerColumnsFit(c: CustomerEntity) {
    |c.email| <= EmailLength && |c.username| <= UsernameLength &&
    Fits(c.firstName, NameLength) && Fits(c.lastName, NameLength)
  }

  /** The images table accepts the row's column values. */
  predicate ImageColumnsFit(e: ImageEntity) {
    Fits(e.title, TitleLength) && Fits(e.description, DescriptionLength) &&
    |e.mimeType| <= MimeTypeLength
  }

  /** The @PrePersist hook of a customer: both timestamps are set from the clock. */
  function CustomerOnCreate(c: CustomerEntity, now: Time): (r: CustomerEntity)
    ensures r.createdAt == Some(now) && r.updatedAt == Some(now)
    ensures r.(createdAt := c.createdAt, updatedAt := c.updatedAt) == c
  {
    c.(createdAt := Some(now), updatedAt := Some(now))
  }

  /** The @PreUpdate hook of a customer: only updatedAt is refreshed. */
  function CustomerOnUpdate(c: CustomerEntity, now: Time): (r: CustomerEntity)
    ensures r.updatedAt == Some(now)
    ensures r.(updatedAt := c.updatedAt) == c
  {
    c.(updatedAt := Some(now))
  }

  /** The @PrePersist hook of an image: uploadedAt is set from the clock. */
  function ImageOnCreate(e: ImageEntity, now: Time): (r: ImageEntity)
    ensures r.uploadedAt == Some(now)
    ensures r.(uploadedAt := e.uploadedAt) == e
  {
    e.(uploadedAt := Some(now))
  }

  /** The time an image was uploaded; 0 stands for a record that was never persisted. */
  function Stamp(e: ImageEntity): Time {
    if e.uploadedAt.Some? then e.uploadedAt.value else 0
  }
}
