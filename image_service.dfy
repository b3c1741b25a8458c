/**
 * The image operations of the backend (ImageServiceImpl.java): upload, newest-first listing with
 * limit/offset paging, lookup, file bytes, MIME type and owner-only deletion.
 */
module ImageServices {
  import opened Wrappers
  import opened Text
  import opened JavaInt
  import opened Entities
  import opened Exceptions
  import opened Mappers
  import opened Repository
  import opened Security

  /** An uploaded multipart file: its original name, its declared content type (absent when the client sent none) and its bytes. */
  datatype MultipartFile = MultipartFile(originalFilename: string, contentType: Option<string>, bytes: seq<byte>)

  /** The response of the listing endpoint. */
  datatype ImageListResponse = ImageListResponse(images: seq<ImageDto>, total: Int32, limit: Int32, offset: Int32)

  const BaseUrl: string := "http://localhost:8080"
  const ImagesPath: string := "/api/images/"
  const NotAuthenticatedMessage: string := "User not authenticated"
  const UploadFailedPrefix: string := "Failed to upload image: "
  const NotOwnerMessage: string := "Not authorized to delete this image"
  // the messages of java.lang.ArithmeticException and of Spring Data's PageRequest.of
  const DivisionByZeroMessage: string := "/ by zero"
  const NegativePageMessage: string := "Page index must not be less than zero"
  const PageSizeMessage: string := "Page size must not be less than one"

  /** The address the stored image is served from. */
  function FileUrl(id: ImageId): string {
    BaseUrl + ImagesPath + NatToString(id) + "/file"
  }

  function ThumbnailUrl(id: ImageId): string {
    BaseUrl + ImagesPath + NatToString(id) + "/thumbnail"
  }

  /** Distinct images are served from distinct addresses. */
  lemma FileUrlInjective(a: ImageId, b: ImageId)
    ensures FileUrl(a) == FileUrl(b) ==> a == b
  {
    if FileUrl(a) == FileUrl(b) {
      var p := BaseUrl + ImagesPath;
      var sa, sb := NatToString(a), NatToString(b);
      assert FileUrl(a) == p + sa + "/file" && FileUrl(b) == p + sb + "/file";
      assert |sa| == |sb|;
      assert sa == FileUrl(a)[|p|..|p| + |sa|];
      assert sb == FileUrl(b)[|p|..|p| + |sb|];
      NatToStringInjective(a, b);
    }
  }

  /** A content type the upload accepts. */
  predicate IsImageType(contentType: Option<string>) {
    contentType.Some? && StartsWith(contentType.value, "image/")
  }

  /** The record an upload first saves: no id yet, an empty url placeholder and no upload time. */
  function PendingRow(file: MultipartFile, title: Option<string>, description: Option<string>,
                      owner: CustomerEntity): ImageEntity
    requires file.contentType.Some?
  {
    ImageEntity(None, "", None, title, description, file.originalFilename, |file.bytes|,
                file.contentType.value, None, None, file.bytes, None, owner, None)
  }

  function ToDtos(rows: seq<ImageEntity>): (r: seq<ImageDto>)
    ensures |r| == |rows| && forall i :: 0 <= i < |rows| ==> r[i] == ImageToDto(rows[i])
  {
    seq(|rows|, i requires 0 <= i < |rows| => ImageToDto(rows[i]))
  }

  /** Where the page of a limit/offset request starts: the offset rounded down to a multiple of the limit. */
  lemma {:induction false} PageStartCoversOffset(limit: Int32, offset: Int32)
    requires limit >= 1 && offset >= 0
    ensures var start := Div(offset, limit) * limit;
      0 <= start <= offset < start + limit &&
      (offset % limit == 0 ==> start == offset)
  {
    assert Div(offset, limit) == offset / limit;
    DivBounds(offset, limit);
  }

  class ImageService {
    const imageRepository: Store

    constructor (imageRepository: Store)
      ensures this.imageRepository == imageRepository
    {
      this.imageRepository := imageRepository;
    }

    /**
     * Stores an uploaded image for the authenticated customer. Checks, in this order: an
     * authenticated customer, a non-empty file, an image content type. A row the database refuses
     * is reported wrapped in a RuntimeException; no failure leaves anything stored.
     */
    method UploadImage(authentication: Option<Authentication>, file: MultipartFile,
                       title: Option<string>, description: Option<string>, now: Time)
      returns (r: Result<ImageDto, Error>)
      requires imageRepository.Valid() && imageRepository.clock <= now
      modifies imageRepository
      ensures imageRepository.Valid() && imageRepository.clock <= now
      ensures r.Err? ==> unchanged(imageRepository)
      ensures AuthenticatedCustomer(authentication).None? ==> r == Err(CustomerNotFound(NotAuthenticatedMessage))
      ensures AuthenticatedCustomer(authentication).Some? && |file.bytes| == 0 ==> r == Err(EmptyFile)
      ensures AuthenticatedCustomer(authentication).Some? && |file.bytes| > 0 && !IsImageType(file.contentType) ==>
        r == Err(InvalidFileType(file.contentType))
      ensures AuthenticatedCustomer(authentication).Some? && |file.bytes| > 0 && IsImageType(file.contentType) ==>
        var customer := AuthenticatedCustomer(authentication).value;
        !Fits(title, TitleLength) ==> r == Err(RuntimeError(UploadFailedPrefix + Message(DataIntegrityViolation("title"))))
      ensures AuthenticatedCustomer(authentication).Some? && |file.bytes| > 0 && IsImageType(file.contentType) ==>
        var refusal := ImageRowViolation(PendingRow(file, title, description, AuthenticatedCustomer(authentication).value),
                                         old(imageRepository.customers));
        refusal.Some? ==> r == Err(RuntimeError(UploadFailedPrefix + Message(DataIntegrityViolation(refusal.value))))
      ensures r.Ok? <==>
        AuthenticatedCustomer(authentication).Some? && |file.bytes| > 0 && IsImageType(file.contentType) &&
        Fits(title, TitleLength) && Fits(description, DescriptionLength) && |file.contentType.value| <= MimeTypeLength &&
        AuthenticatedCustomer(authentication).value.id in CustomerIds(old(imageRepository.customers))
      ensures r.Ok? ==>
        var id := old(imageRepository.nextImageId);
        var images := imageRepository.images;
        |images| == |old(imageRepository.images)| + 1 && images[..|images| - 1] == old(imageRepository.images) &&
        var row := images[|images| - 1];
        row.id == Some(id) && row.url == FileUrl(id) && row.thumbnailUrl.None? &&
        row.title == title && row.description == description &&
        row.fileName == file.originalFilename && row.fileSize == |file.bytes| &&
        row.mimeType == file.contentType.value && row.width.None? && row.height.None? &&
        row.imageData == file.bytes && row.thumbnailData.None? &&
        row.owner == AuthenticatedCustomer(authentication).value && row.uploadedAt == Some(now) &&
        r.value == ImageToDto(row)
      ensures r.Ok? ==>
        imageRepository.customers == old(imageRepository.customers) &&
        imageRepository.nextImageId == old(imageRepository.nextImageId) + 1
    {
      var customer := AuthenticatedCustomer(authentication);
      if customer.None? {
        return Err(CustomerNotFound(NotAuthenticatedMessage));
      }
      if |file.bytes| == 0 {
        return Err(EmptyFile);
      }
      var contentType := file.contentType;
      if contentType.None? || !StartsWith(contentType.value, "image/") {
        return Err(InvalidFileType(contentType));
      }
      var imageEntity := PendingRow(file, title, description, customer.value);
      var saved := imageRepository.SaveImage(imageEntity, now);
      if saved.Err? {
        return Err(RuntimeError(UploadFailedPrefix + Message(saved.error)));
      }
      ghost var inserted := imageRepository.images;
      var id := saved.value.id.value;
      var withUrl := saved.value.(url := FileUrl(id));
      if withUrl.thumbnailData.Some? {
        withUrl := withUrl.(thumbnailUrl := Some(ThumbnailUrl(id)));
      }
      assert inserted[|inserted| - 1].id == Some(id);
      assert inserted[|inserted| - 1] in inserted;
      var resaved := imageRepository.SaveImage(withUrl, now);
      assert resaved.Ok?;
      var k := ImageIndex(inserted, id);
      assert k == |inserted| - 1;
      assert imageRepository.images == inserted[k := withUrl];
      return Ok(ImageToDto(resaved.value));
    }

    /**
     * One page of images, newest first: page number offset / limit (Java integer division) of
     * size limit, with the total number of images and the request's limit and offset echoed.
     */
    function GetLatestImages(limit: Int32, offset: Int32): (r: Result<ImageListResponse, Error>)
      reads imageRepository
      ensures limit == 0 ==> r == Err(RuntimeError(DivisionByZeroMessage))
      ensures limit != 0 && Div(offset, limit) < 0 ==> r == Err(RuntimeError(NegativePageMessage))
      ensures limit < 0 && Div(offset, limit) >= 0 ==> r == Err(RuntimeError(PageSizeMessage))
      ensures r.Ok? <==> limit >= 1 && offset > -limit
      ensures r.Ok? ==>
        r.value.limit == limit && r.value.offset == offset &&
        r.value.total == ToInt32(|imageRepository.images|) &&
        |r.value.images| <= limit
      ensures r.Ok? ==>
        var start := Div(offset, limit) * limit;
        var latest := LatestOrder(imageRepository.images);
        |r.value.images| == (if start >= |latest| then 0 else Min(limit, |latest| - start)) &&
        forall i :: 0 <= i < |r.value.images| ==> r.value.images[i] == ImageToDto(latest[start + i])
    {
      if limit == 0 then
        Err(RuntimeError(DivisionByZeroMessage))
      else
        var pageNumber := Div(offset, limit);
        if pageNumber < 0 then
          Err(RuntimeError(NegativePageMessage))
        else if limit < 1 then
          Err(RuntimeError(PageSizeMessage))
        else
          var page := FindLatestImages(imageRepository.images, pageNumber, limit);
          Ok(ImageListResponse(ToDtos(page.content), ToInt32(page.totalElements), limit, offset))
    }

    /** The image with that id, or ImageNotFound. */
    function GetImageById(imageId: ImageId): (r: Result<ImageDto, Error>)
      requires imageRepository.Valid()
      reads imageRepository
      ensures forall k :: 0 <= k < |imageRepository.images| && imageRepository.images[k].id == Some(imageId) ==>
        r == Ok(ImageToDto(imageRepository.images[k]))
      ensures (forall e :: e in imageRepository.images ==> e.id != Some(imageId)) ==> r == Err(ImageNotFound(imageId))
    {
      var images := imageRepository.images;
      assert forall k :: 0 <= k < |images| && images[k].id == Some(imageId) ==> FindImageById(images, imageId) == Some(images[k]) by {
        forall k | 0 <= k < |images| && images[k].id == Some(imageId) {
          FindImageByIdIsTheRecord(images, k);
        }
      }
      match FindImageById(images, imageId)
      case None => Err(ImageNotFound(imageId))
      case Some(e) => Ok(ImageToDto(e))
    }

    /** The stored bytes of the image with that id, or ImageNotFound. */
    function GetImageFileBytes(imageId: ImageId): (r: Result<seq<byte>, Error>)
      requires imageRepository.Valid()
      reads imageRepository
      ensures forall k :: 0 <= k < |imageRepository.images| && imageRepository.images[k].id == Some(imageId) ==>
        r == Ok(imageRepository.images[k].imageData)
      ensures (forall e :: e in imageRepository.images ==> e.id != Some(imageId)) ==> r == Err(ImageNotFound(imageId))
    {
      var images := imageRepository.images;
      assert forall k :: 0 <= k < |images| && images[k].id == Some(imageId) ==> FindImageById(images, imageId) == Some(images[k]) by {
        forall k | 0 <= k < |images| && images[k].id == Some(imageId) {
          FindImageByIdIsTheRecord(images, k);
        }
      }
      match FindImageById(images, imageId)
      case None => Err(ImageNotFound(imageId))
      case Some(e) => Ok(e.imageData)
    }

    /** The stored MIME type of the image with that id, or ImageNotFound. */
    function GetImageMimeType(imageId: ImageId): (r: Result<string, Error>)
      requires imageRepository.Valid()
      reads imageRepository
      ensures forall k :: 0 <= k < |imageRepository.images| && imageRepository.images[k].id == Some(imageId) ==>
        r == Ok(imageRepository.images[k].mimeType)
      ensures (forall e :: e in imageRepository.images ==> e.id != Some(imageId)) ==> r == Err(ImageNotFound(imageId))
    {
      var images := imageRepository.images;
      assert forall k :: 0 <= k < |images| && images[k].id == Some(imageId) ==> FindImageById(images, imageId) == Some(images[k]) by {
        forall k | 0 <= k < |images| && images[k].id == Some(imageId) {
          FindImageByIdIsTheRecord(images, k);
        }
      }
      match FindImageById(images, imageId)
      case None => Err(ImageNotFound(imageId))
      case Some(e) => Ok(e.mimeType)
    }

    /**
     * Deletes an image on behalf of its owner. Checks, in this order: an authenticated customer,
     * an existing image, ownership. Only the deleted image's row changes.
     */
    method DeleteImage(authentication: Option<Authentication>, imageId: ImageId) returns (r: Result<(), Error>)
      requires imageRepository.Valid()
      modifies imageRepository
      ensures imageRepository.Valid()
      ensures r.Err? ==> unchanged(imageRepository)
      ensures AuthenticatedCustomer(authentication).None? ==> r == Err(CustomerNotFound(NotAuthenticatedMessage))
      ensures AuthenticatedCustomer(authentication).Some? && FindImageById(old(imageRepository.images), imageId).None? ==>
        r == Err(ImageNotFound(imageId))
      ensures AuthenticatedCustomer(authentication).Some? && FindImageById(old(imageRepository.images), imageId).Some? &&
        FindImageById(old(imageRepository.images), imageId).value.owner.id != AuthenticatedCustomer(authentication).value.id
        ==> r == Err(RuntimeError(NotOwnerMessage))
      ensures r.Ok? <==>
        AuthenticatedCustomer(authentication).Some? && FindImageById(old(imageRepository.images), imageId).Some? &&
        FindImageById(old(imageRepository.images), imageId).value.owner.id == AuthenticatedCustomer(authentication).value.id
      ensures r.Ok? ==>
        var k := ImageIndex(old(imageRepository.images), imageId);
        imageRepository.images == old(imageRepository.images)[..k] + old(imageRepository.images)[k + 1..] &&
        imageRepository.customers == old(imageRepository.customers)
      ensures imageRepository.clock == old(imageRepository.clock)
    {
      var currentCustomer := AuthenticatedCustomer(authentication);
      if currentCustomer.None? {
        return Err(CustomerNotFound(NotAuthenticatedMessage));
      }
      var imageEntity := FindImageById(imageRepository.images, imageId);
      if imageEntity.None? {
        return Err(ImageNotFound(imageId));
      }
      if imageEntity.value.owner.id != currentCustomer.value.id {
        return Err(RuntimeError(NotOwnerMessage));
      }
      var k := ImageIndex(imageRepository.images, imageId);
      DeleteRemovesOnlyThatRecord(imageRepository.images, k);
      imageRepository.DeleteImage(imageId);
      return Ok(());
    }
  }

  /** The first page is the most recent uploads, latest first: the store's rows in reverse. */
  lemma FirstPageIsMostRecent(service: ImageService, limit: Int32, offset: Int32)
    requires service.imageRepository.Valid() && limit >= 1 && 0 <= offset < limit
    ensures var r := service.GetLatestImages(limit, offset);
      var images := service.imageRepository.images;
      r.Ok? && |r.value.images| == Min(limit, |images|) &&
      forall i :: 0 <= i < |r.value.images| ==> r.value.images[i] == ImageToDto(images[|images| - 1 - i])
  {
    var images := service.imageRepository.images;
    LatestOrderOfChronological(images);
    DivNoLarger(offset, limit);
    assert Div(offset, limit) * limit == 0;
  }
}
