/** Values shared by every part of the model: results, catalog pages, file paths and errors. */
module Common {

  newtype byte = b: int | 0 <= b < 256

  /** File contents, as Go's []byte. */
  type Bytes = seq<byte>

  datatype Option<+T> = None | Some(value: T)

  datatype Result<+T, +E> = Success(value: T) | Failure(error: E)

  /** The result of an operation that returns only a Go `error`. */
  datatype Outcome = Pass | Fail(error: Error)

  /** An error returned by a Marketplace Catalog API call: whether it is a
      ValidationException, and the text its Error() method gives. */
  datatype ApiError = ApiError(isValidation: bool, message: string)

  /** One entry of a ListEntities response. */
  datatype EntitySummary = EntitySummary(name: string, entityId: string)

  /** One ListEntities response: a page of summaries and the continuation token. */
  datatype Page = Page(entities: seq<EntitySummary>, nextToken: Option<string>)

  /** The local YAML files: `data/<product>/description.yaml` and
      `data/<product>/versions/<title>.yaml`. */
  datatype Path =
    | DescriptionFile(product: string)
    | VersionFile(product: string, title: string)

  datatype Error =
      // a catalog call's error, returned unchanged
    | Api(cause: ApiError)
      // ListEntities answered with no summaries at all
    | NoEntities(productName: string, productType: string)
      // no summary carries the product's name
    | EntityNotFound(productName: string, productType: string)
      // the container-product lookup's two errors, which do not name the type
    | NoContainerEntities(productName: string)
    | ContainerEntityNotFound
      // every product type failed; carries the last type's error
    | NotInAnySupportedType(productName: string, last: Error)
    | InvalidProductType(requested: string)
    | ListFailed(productType: string, cause: ApiError)
    | PaginationFailed(productType: string, cause: ApiError)
      // os.ReadFile on a missing file
    | NotExist(path: Path)
      // os.ReadFile on a file that exists but cannot be read
    | ReadFailed(path: Path)
    | WriteFailed(path: Path)
    | SourceReadFailed(reason: Error)
    | DestinationReadFailed(reason: Error)
    | DestinationWriteFailed(reason: Error)
      // an error of a codec or an SDK call that the model does not look into
    | External(message: string)
}
