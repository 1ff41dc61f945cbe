/** pages/upload.tsx: the photo album page. What it computes from the listed URLs and
    the likes document (the item list, pages, lightbox navigation) and how its state
    (`images`, `lightboxIndex`, `currentPage`) changes; rendering is not modelled. */
module UploadPage {
  import opened Wrappers
  import opened Http
  import opened Paths
  import opened Json
  import ListUploadsApi

  const ItemsPerPage: nat := 12

  /** `ImageItem`. `likes` is `None` when the page stored JavaScript's `undefined`
      there, which `handleLike` does when the like request did not return a count. */
  datatype ImageItem = ImageItem(url: string, filename: string, likes: Option<nat>)

  /** `likeData ? JSON.parse(likeData) : {}` (line 25); `None` when parsing throws. */
  function ReadLikes(likeData: string, codec: Codec): (r: Option<Likes>)
    ensures likeData == "" ==> r == Some(map[])
    ensures likeData != "" ==> r == codec.parse(likeData)
  {
    if likeData == "" then Some(map[]) else codec.parse(likeData)
  }

  /** The items built in `load` (lines 22, 27-31): one per URL, in order. */
  function JoinItems(urls: seq<string>, likes: Likes): (items: seq<ImageItem>)
    ensures |items| == |urls|
  {
    seq(|urls|, i requires 0 <= i < |urls| =>
      ImageItem(urls[i], Basename(urls[i]), Some(Count(likes, Basename(urls[i])))))
  }

  /** `load` as a whole: the items, or `None` when the likes text does not parse
      (the promise rejects and `setImages` is never reached). */
  function LoadItems(urls: seq<string>, likeData: string, codec: Codec): (r: Option<seq<ImageItem>>)
    ensures r.Some? <==> ReadLikes(likeData, codec).Some?
    ensures r.Some? ==> r.value == JoinItems(urls, ReadLikes(likeData, codec).value)
  {
    match ReadLikes(likeData, codec)
    case None => None
    case Some(likes) => Some(JoinItems(urls, likes))
  }

  /** Each item keeps its URL, is named by the URL's last "/"-segment and carries the
      count stored under that name, zero when there is none. */
  lemma JoinItemsSpec(urls: seq<string>, likes: Likes, i: nat)
    requires i < |urls|
    ensures var item := JoinItems(urls, likes)[i];
      item.url == urls[i] &&
      IsLastSegment(urls[i], item.filename) &&
      (item.filename in likes ==> item.likes == Some(likes[item.filename])) &&
      (item.filename !in likes ==> item.likes == Some(0))
  {
  }

  /** Loading the URLs of the gallery listing names every item after its object key's
      basename: non-empty, "/"-free and different for every two items, so each
      filename sent to the like counter is a basename and picks out one image. */
  lemma ListedItemsHaveDistinctNames(bucket: string, region: string,
                                     objs: seq<ListUploadsApi.S3Object>, likes: Likes)
    ensures var keys := ListUploadsApi.KeptKeys(objs);
      var items := JoinItems(ListUploadsApi.Urls(bucket, region, keys), likes);
      |items| == |keys| &&
      (forall i :: 0 <= i < |items| ==>
         items[i].filename == Basename(keys[i]) && items[i].filename != "" &&
         Slash !in items[i].filename) &&
      (forall i, j :: 0 <= i < j < |items| ==> items[i].filename != items[j].filename)
  {
    var keys := ListUploadsApi.KeptKeys(objs);
    var urls := ListUploadsApi.Urls(bucket, region, keys);
    var items := JoinItems(urls, likes);
    forall i | 0 <= i < |items|
      ensures items[i].filename == Basename(keys[i]) && Slash !in items[i].filename
    {
    }
  }

  /** `images.slice(page * 12, page * 12 + 12)` (lines 55-58); `slice` clamps both
      ends to the length. The page holds, in order, exactly the items whose index lies
      in [page * 12, page * 12 + 12): at most twelve of them. */
  function PageSlice(items: seq<ImageItem>, page: nat): (r: seq<ImageItem>)
    ensures |r| <= ItemsPerPage
    ensures forall j :: 0 <= j < |r| ==>
      page * ItemsPerPage + j < |items| && r[j] == items[page * ItemsPerPage + j]
    ensures |r| == (if |items| <= page * ItemsPerPage then 0
                    else if |items| - page * ItemsPerPage < ItemsPerPage then |items| - page * ItemsPerPage
                    else ItemsPerPage)
  {
    var lo := if page * ItemsPerPage < |items| then page * ItemsPerPage else |items|;
    var hi := if page * ItemsPerPage + ItemsPerPage < |items| then page * ItemsPerPage + ItemsPerPage else |items|;
    items[lo..hi]
  }

  /** `Math.ceil(n / 12)` (line 60). */
  function TotalPages(n: nat): (pages: nat)
    ensures pages * ItemsPerPage >= n
    ensures pages == 0 || (pages - 1) * ItemsPerPage < n
  {
    (n + ItemsPerPage - 1) / ItemsPerPage
  }

  /** Every index lies on exactly one page, that page exists, and the item is found on
      it at the index's offset within the page. */
  lemma {:induction false} IndexOnExactlyOnePage(items: seq<ImageItem>, i: nat)
    requires i < |items|
    ensures i / ItemsPerPage < TotalPages(|items|)
    ensures forall p: nat :: p * ItemsPerPage <= i < p * ItemsPerPage + ItemsPerPage <==> p == i / ItemsPerPage
    ensures i % ItemsPerPage < |PageSlice(items, i / ItemsPerPage)|
    ensures PageSlice(items, i / ItemsPerPage)[i % ItemsPerPage] == items[i]
  {
    var p := i / ItemsPerPage;
    assert p * ItemsPerPage + i % ItemsPerPage == i;
    forall q: nat ensures q * ItemsPerPage <= i < q * ItemsPerPage + ItemsPerPage <==> q == p {
      if q < p {
        assert q * ItemsPerPage + ItemsPerPage <= p * ItemsPerPage;
      } else if q > p {
        assert q * ItemsPerPage >= p * ItemsPerPage + ItemsPerPage;
      }
    }
  }

  /** `(lightboxIndex + 1) % images.length` (line 70). */
  function NextIndex(i: nat, n: nat): (r: nat)
    requires i < n
    ensures r < n
    ensures r == if i == n - 1 then 0 else i + 1
  {
    (i + 1) % n
  }

  /** `(lightboxIndex - 1 + images.length) % images.length` (line 64). */
  function PrevIndex(i: nat, n: nat): (r: nat)
    requires i < n
    ensures r < n
    ensures r == if i == 0 then n - 1 else i - 1
  {
    (i - 1 + n) % n
  }

  /** Previous and next undo each other, so the lightbox cycles through every image. */
  lemma NextPrevInverse(i: nat, n: nat)
    requires i < n
    ensures NextIndex(PrevIndex(i, n), n) == i
    ensures PrevIndex(NextIndex(i, n), n) == i
  {
  }

  /** `disabled={currentPage === 0}` (line 135). */
  predicate PrevPageDisabled(page: nat)
  {
    page == 0
  }

  /** `disabled={currentPage >= totalPages - 1}` (line 143). */
  predicate NextPageDisabled(page: nat, pages: nat)
  {
    page >= pages - 1
  }

  /** The page after a click on "previous" (line 136): one back unless disabled. */
  function PrevPage(page: nat): (r: nat)
    ensures PrevPageDisabled(page) ==> r == page
    ensures !PrevPageDisabled(page) ==> r == page - 1
  {
    if PrevPageDisabled(page) then page else page - 1
  }

  /** The page after a click on "next" (line 144): one forward unless disabled. */
  function NextPage(page: nat, pages: nat): (r: nat)
    ensures NextPageDisabled(page, pages) ==> r == page
    ensures !NextPageDisabled(page, pages) ==> r == page + 1
  {
    if NextPageDisabled(page, pages) then page else page + 1
  }

  /** A page that is the first one or an existing one stays so after either click. */
  lemma PageButtonsKeepPageInRange(page: nat, pages: nat)
    requires page == 0 || page < pages
    ensures PrevPage(page) == 0 || PrevPage(page) < pages
    ensures NextPage(page, pages) == 0 || NextPage(page, pages) < pages
  {
  }

  /** What `updated[globalIndex].likes = data.count` stores: the count of a successful
      like, `undefined` (here `None`) when the reply was an error. */
  function LikesFromReply(reply: Response<nat>): (r: Option<nat>)
    ensures reply.Success? ==> r == Some(reply.value)
    ensures reply.Failure? ==> r == None
  {
    match reply
    case Success(count) => Some(count)
    case Failure(_, _) => None
  }

  /** The page's state. */
  class Gallery {
    var images: seq<ImageItem>
    var lightboxIndex: Option<nat>
    var currentPage: nat

    /** The lightbox shows an existing image and the current page is the first one or
        an existing one. */
    ghost predicate Valid()
      reads this
    {
      (lightboxIndex.Some? ==> lightboxIndex.value < |images|) &&
      (currentPage == 0 || currentPage < TotalPages(|images|))
    }

    /** The initial state (lines 12-14). */
    constructor ()
      ensures Valid()
      ensures images == [] && lightboxIndex == None && currentPage == 0
    {
      images, lightboxIndex, currentPage := [], None, 0;
    }

    /** `paginatedImages`. */
    function PaginatedImages(): (page: seq<ImageItem>)
      reads this
      ensures |page| <= ItemsPerPage
      ensures forall j :: 0 <= j < |page| ==>
        currentPage * ItemsPerPage + j < |images| && page[j] == images[currentPage * ItemsPerPage + j]
    {
      PageSlice(images, currentPage)
    }

    /** The `load` effect (lines 18-33), run once on mount with the listed URLs and the
        text of `/likes.txt`. */
    method Load(urls: seq<string>, likeData: string, codec: Codec)
      requires Valid() && images == []
      modifies this
      ensures Valid()
      ensures images == LoadItems(urls, likeData, codec).GetOr(old(images))
      ensures lightboxIndex == old(lightboxIndex) && currentPage == old(currentPage)
    {
      var items := LoadItems(urls, likeData, codec);
      if items.Some? {
        images := items.value;
      }
    }

    /** Clicking the `indexInPage`-th picture of the page (line 105). */
    method OpenLightbox(indexInPage: nat)
      requires Valid() && indexInPage < |PaginatedImages()|
      modifies this
      ensures Valid()
      ensures lightboxIndex == Some(old(currentPage) * ItemsPerPage + indexInPage)
      ensures images == old(images) && currentPage == old(currentPage)
    {
      lightboxIndex := Some(currentPage * ItemsPerPage + indexInPage);
    }

    /** The close button (line 168). */
    method CloseLightbox()
      requires Valid()
      modifies this
      ensures Valid()
      ensures lightboxIndex == None && images == old(images) && currentPage == old(currentPage)
    {
      lightboxIndex := None;
    }

    /** `prevImage` (lines 62-66). */
    method PrevImage()
      requires Valid()
      modifies this
      ensures Valid()
      ensures images == old(images) && currentPage == old(currentPage)
      ensures old(lightboxIndex).None? ==> lightboxIndex == None
      ensures old(lightboxIndex).Some? ==>
        lightboxIndex == Some(PrevIndex(old(lightboxIndex).value, |images|))
    {
      if lightboxIndex.Some? {
        lightboxIndex := Some((lightboxIndex.value - 1 + |images|) % |images|);
      }
    }

    /** `nextImage` (lines 68-72). */
    method NextImage()
      requires Valid()
      modifies this
      ensures Valid()
      ensures images == old(images) && currentPage == old(currentPage)
      ensures old(lightboxIndex).None? ==> lightboxIndex == None
      ensures old(lightboxIndex).Some? ==>
        lightboxIndex == Some(NextIndex(old(lightboxIndex).value, |images|))
    {
      if lightboxIndex.Some? {
        lightboxIndex := Some((lightboxIndex.value + 1) % |images|);
      }
    }

    /** The "previous page" button (lines 134-136). */
    method ClickPrevPage()
      requires Valid()
      modifies this
      ensures Valid()
      ensures currentPage == PrevPage(old(currentPage))
      ensures images == old(images) && lightboxIndex == old(lightboxIndex)
    {
      if currentPage != 0 {
        currentPage := currentPage - 1;
      }
    }

    /** The "next page" button (lines 142-144). */
    method ClickNextPage()
      requires Valid()
      modifies this
      ensures Valid()
      ensures currentPage == NextPage(old(currentPage), TotalPages(|images|))
      ensures images == old(images) && lightboxIndex == old(lightboxIndex)
    {
      if !(currentPage >= TotalPages(|images|) - 1) {
        currentPage := currentPage + 1;
      }
    }

    /** The filename `handleLike` sends (line 41): that of the image at global index
        `currentPage * 12 + indexInPage`. */
    function LikeTarget(indexInPage: nat): (filename: string)
      reads this
      requires indexInPage < |PaginatedImages()|
      ensures currentPage * ItemsPerPage + indexInPage < |images|
      ensures filename == images[currentPage * ItemsPerPage + indexInPage].filename
    {
      PaginatedImages()[indexInPage].filename
    }

    /** The rest of `handleLike` (lines 49-52), given the like route's reply: only the
        image at the global index changes, and only its `likes`. */
    method HandleLike(indexInPage: nat, reply: Response<nat>)
      requires Valid() && indexInPage < |PaginatedImages()|
      modifies this
      ensures Valid()
      ensures var g := old(currentPage) * ItemsPerPage + indexInPage;
        g < |old(images)| &&
        images == old(images)[g := old(images)[g].(likes := LikesFromReply(reply))]
      ensures lightboxIndex == old(lightboxIndex) && currentPage == old(currentPage)
    {
      var globalIndex := currentPage * ItemsPerPage + indexInPage;
      var updated := images;
      updated := updated[globalIndex := updated[globalIndex].(likes := LikesFromReply(reply))];
      images := updated;
    }
  }
}
