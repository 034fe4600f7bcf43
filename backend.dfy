/**
 * The backend's state and entry points: the id counter and the image map, which the
 * source keeps in two thread-local cells, become the two fields of one `Store` object.
 */
module Backend {
  import opened Types
  import opened Decimal
  import opened Router

  /** `infos` holds one summary per stored image, in some order, and nothing else. */
  ghost predicate IsListingOf(infos: seq<ImageInfo>, images: map<U64, ImageData>)
  {
    && |infos| == |images|
    && (forall i :: 0 <= i < |infos| ==> infos[i].id in images && infos[i] == Summary(infos[i].id, images[infos[i].id]))
    && (forall id :: id in images ==> exists i :: 0 <= i < |infos| && infos[i].id == id)
    && (forall i, j :: 0 <= i < j < |infos| ==> infos[i].id != infos[j].id)
  }

  /**
   * `infos` lists, once each and in some order, the summaries of every stored image
   * except those whose ids are still in `rest`.
   */
  ghost predicate ListsAllBut(infos: seq<ImageInfo>, images: map<U64, ImageData>, rest: set<U64>)
  {
    && |infos| + |rest| == |images|
    && (forall i :: 0 <= i < |infos| ==>
          infos[i].id in images && infos[i].id !in rest && infos[i] == Summary(infos[i].id, images[infos[i].id]))
    && (forall id :: id in images && id !in rest ==> exists i :: 0 <= i < |infos| && infos[i].id == id)
    && (forall i, j :: 0 <= i < j < |infos| ==> infos[i].id != infos[j].id)
  }

  /** Listing one more unlisted id keeps the partial listing exact. */
  lemma ListOneMore(infos: seq<ImageInfo>, images: map<U64, ImageData>, rest: set<U64>, id: U64)
    requires rest <= images.Keys && ListsAllBut(infos, images, rest) && id in rest
    ensures ListsAllBut(infos + [Summary(id, images[id])], images, rest - {id})
  {
    var more := infos + [Summary(id, images[id])];
    forall k | k in images && k !in rest - {id}
      ensures exists i :: 0 <= i < |more| && more[i].id == k
    {
      if k == id {
        assert more[|infos|].id == k;
      } else {
        var i :| 0 <= i < |infos| && infos[i].id == k;
        assert more[i].id == k;
      }
    }
  }

  /** Two listings of the same map hold the same summaries, whatever their order. */
  lemma ListingsAgree(a: seq<ImageInfo>, b: seq<ImageInfo>, images: map<U64, ImageData>)
    requires IsListingOf(a, images) && IsListingOf(b, images)
    ensures |a| == |b|
    ensures forall info :: info in a <==> info in b
  {
    forall info | info in a ensures info in b {
      var i :| 0 <= i < |a| && a[i] == info;
      var j :| 0 <= j < |b| && b[j].id == info.id;
    }
    forall info | info in b ensures info in a {
      var j :| 0 <= j < |b| && b[j] == info;
      var i :| 0 <= i < |a| && a[i].id == info.id;
    }
  }

  /**
   * The body of `http_request` over a borrowed image map: resolves the URL to an id
   * (`Router.ResolveId`: trim the slashes, take the text under `image/` before the first
   * dot, parse it) and looks it up, then scans the headers in order and returns 304 at
   * the first one that revalidates the ETag, or else 200 with the image.
   */
  method Serve(req: Request, images: map<U64, ImageData>) returns (resp: Response)
    ensures resp == Respond(req, images)
  {
    var imageId := ResolveId(req.url);
    if imageId.None? {
      return NotFound();
    }
    var image := Lookup(images, imageId.value);
    if image.None? {
      return NotFound();
    }
    var etag := ETag(imageId.value);
    for i := 0 to |req.headers|
      invariant forall j :: 0 <= j < i ==> !IsConditionalMatch(req.headers[j], etag)
    {
      var header := req.headers[i];
      if ToLowerAscii(header.name) == IF_NONE_MATCH && header.value == etag {
        assert IsConditionalMatch(req.headers[i], etag);
        return NotModified(etag);
      }
    }
    return Found(image.value, etag);
  }

  class Store {
    /** `NEXT_ID`: the id the next upload receives. */
    var nextId: U64
    /** `IMAGES`: the stored images by id. */
    var images: map<U64, ImageData>

    /** Every stored id was issued (it lies in 1 .. nextId - 1) and is its record's own id. */
    ghost predicate Valid()
      reads this
    {
      && 1 <= nextId
      && forall id :: id in images ==> 1 <= id < nextId && images[id].id == id
    }

    /** The state at start: no images and a counter at 1. */
    constructor ()
      ensures Valid()
      ensures nextId == 1 && images == map[]
    {
      nextId := 1;
      images := map[];
    }

    /**
     * `upload_image`: hands out the counter's value as the new id, advances the counter,
     * and stores the record under that id. The new id is above every id stored so far,
     * so nothing is overwritten.
     */
    method UploadImage(name: string, contentType: string, data: seq<byte>) returns (id: U64)
      requires Valid()
      requires nextId < U64_MAX
      modifies this
      ensures Valid()
      ensures id == old(nextId) && nextId == old(nextId) + 1
      ensures forall k :: k in old(images) ==> k < id
      ensures images == old(images)[id := ImageData(id, name, contentType, data)]
      ensures |images| == |old(images)| + 1
      ensures GetImage(id) == Some(ImageData(id, name, contentType, data))
      ensures forall k :: k != id ==> GetImage(k) == old(GetImage(k))
    {
      id := nextId;
      nextId := nextId + 1;
      images := images[id := ImageData(id, name, contentType, data)];
    }

    /** `get_image`: the stored record under `id`, or nothing when the id is not stored. */
    function GetImage(id: U64): (r: Option<ImageData>)
      reads this
      ensures r.Some? <==> id in images
      ensures r.Some? ==> r.value == images[id]
      ensures Valid() && r.Some? ==> r.value.id == id && 1 <= id < nextId
    {
      Lookup(images, id)
    }

    /**
     * `list_images`: one summary per stored image. The source walks a hash map, whose
     * order is unspecified; here each step takes any key not yet listed.
     */
    method ListImages() returns (infos: seq<ImageInfo>)
      ensures IsListingOf(infos, images)
    {
      infos := [];
      var rest := images.Keys;
      while rest != {}
        invariant rest <= images.Keys && ListsAllBut(infos, images, rest)
        decreases |rest|
      {
        var id :| id in rest;
        ListOneMore(infos, images, rest, id);
        infos := infos + [Summary(id, images[id])];
        rest := rest - {id};
      }
    }

    /** `http_request` against the current map: the map is borrowed, never changed. */
    method HttpRequest(req: Request) returns (resp: Response)
      ensures resp == Respond(req, images)
    {
      resp := Serve(req, images);
    }
  }

  /**
   * Uploading an image and then requesting the URL of its id (any leading slashes, any
   * extension) serves exactly the uploaded bytes and content type, or 304 when the
   * request carries the image's ETag in an If-None-Match header.
   */
  method UploadThenFetch(store: Store, name: string, contentType: string, data: seq<byte>, k: nat, ext: string, headers: seq<Header>)
    returns (id: U64, resp: Response)
    requires store.Valid() && store.nextId < U64_MAX
    requires ext == [] || ext[0] == '.'
    modifies store
    ensures store.Valid()
    ensures resp == (if HasMatch(headers, ETag(id)) then NotModified(ETag(id))
                     else Found(ImageData(id, name, contentType, data), ETag(id)))
  {
    id := store.UploadImage(name, contentType, data);
    var req := Request("GET", Slashes(k) + IMAGE_PREFIX + Format(id) + ext, headers, []);
    resp := store.HttpRequest(req);
    FetchByIdUrl(k, id, ext, req, store.images);
  }
}
