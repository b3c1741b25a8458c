/** The DTO projections of the two records (ImageMapper.java, CustomerMapper.java). */
module Mappers {
  import opened Wrappers
  import opened Entities

  /** The API's view of a customer: everything but the password. */
  datatype CustomerDto = CustomerDto(
    id: Option<CustomerId>,
    email: string,
    username: string,
    firstName: Option<string>,
    lastName: Option<string>,
    createdAt: Option<Time>,
    updatedAt: Option<Time>)

  /** The API's view of an image: its metadata and its owner, never its bytes. */
  datatype ImageDto = ImageDto(
    id: Option<ImageId>,
    url: string,
    thumbnailUrl: Option<string>,
    title: Option<string>,
    description: Option<string>,
    fileName: string,
    fileSize: nat,
    mimeType: string,
    width: Option<int>,
    height: Option<int>,
    customerId: Option<CustomerId>,
    customerUsername: string,
    uploadedAt: Option<Time>)

  function CustomerToDto(c: CustomerEntity): (d: CustomerDto)
    ensures d.id == c.id && d.email == c.email && d.username == c.username
    ensures d.firstName == c.firstName && d.lastName == c.lastName
    ensures d.createdAt == c.createdAt && d.updatedAt == c.updatedAt
  {
    CustomerDto(c.id, c.email, c.username, c.firstName, c.lastName, c.createdAt, c.updatedAt)
  }

  function ImageToDto(e: ImageEntity): (d: ImageDto)
    ensures d.id == e.id && d.url == e.url
    ensures d.thumbnailUrl == e.thumbnailUrl
    ensures d.title == e.title && d.description == e.description && d.fileName == e.fileName
    ensures d.fileSize == e.fileSize && d.mimeType == e.mimeType
    ensures d.width == e.width && d.height == e.height && d.uploadedAt == e.uploadedAt
    ensures d.customerId == e.owner.id && d.customerUsername == e.owner.username
  {
    ImageDto(e.id, e.url,
             if e.thumbnailUrl.Some? then Some(e.thumbnailUrl.value) else None,
             e.title, e.description, e.fileName, e.fileSize, e.mimeType,
             e.width, e.height, e.owner.id, e.owner.username, e.uploadedAt)
  }

  /** The password hash has no influence on the customer's view: it never leaves the server. */
  lemma CustomerDtoIgnoresPassword(c: CustomerEntity, otherHash: string)
    ensures CustomerToDto(c.(password := otherHash)) == CustomerToDto(c)
  {
  }

  /** Neither the image bytes nor the thumbnail bytes have any influence on the image's view. */
  lemma ImageDtoIgnoresBytes(e: ImageEntity, data: seq<byte>, thumbnail: Option<seq<byte>>)
    ensures ImageToDto(e.(imageData := data, thumbnailData := thumbnail)) == ImageToDto(e)
  {
  }

  /** Of the owner, only its id and username reach the image's view. */
  lemma ImageDtoSeesOwnerIdAndUsernameOnly(e: ImageEntity, o: CustomerEntity)
    requires o.id == e.owner.id && o.username == e.owner.username
    ensures ImageToDto(e.(owner := o)) == ImageToDto(e)
  {
  }

  /** The projection forgets exactly the bytes and the owner's other fields: the view and those determine the record. */
  lemma ImageDtoDeterminesRest(a: ImageEntity, b: ImageEntity)
    requires ImageToDto(a) == ImageToDto(b)
    requires a.imageData == b.imageData && a.thumbnailData == b.thumbnailData && a.owner == b.owner
    ensures a == b
  {
  }
}
