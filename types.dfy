/** Values shared by the image store and the HTTP router of the pictures-site backend. */
module Types {

  datatype Option<+T> = None | Some(value: T)

  newtype byte = x: int | 0 <= x < 256

  /** Largest value of Rust's `u64`. */
  const U64_MAX: int := 0xFFFF_FFFF_FFFF_FFFF

  /** `ImageId` is a `u64`. */
  type U64 = n: nat | n <= U64_MAX

  /** A stored image (`ImageData`). */
  datatype ImageData = ImageData(id: U64, name: string, contentType: string, data: seq<byte>)

  /** The summary returned by the listing (`ImageInfo`): the record without its bytes. */
  datatype ImageInfo = ImageInfo(id: U64, name: string, contentType: string)

  /** A request header (`HeaderField`). */
  datatype Header = Header(name: string, value: string)

  /** The HTTP request handed to the query endpoint. */
  datatype Request = Request(httpMethod: string, url: string, headers: seq<Header>, body: seq<byte>)

  /** The HTTP response built by the router, before the platform adds its own headers. */
  datatype Response = Response(status: nat, headers: seq<(string, string)>, body: seq<byte>)

  /** `HashMap::get(..).cloned()` on the image map. */
  function Lookup(images: map<U64, ImageData>, id: U64): Option<ImageData>
  {
    if id in images then Some(images[id]) else None
  }

  /** The projection `list_images` applies to one map entry: key, name and content type. */
  function Summary(id: U64, image: ImageData): ImageInfo
  {
    ImageInfo(id, image.name, image.contentType)
  }
}
