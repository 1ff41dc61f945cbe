# Photo album: like counter, gallery listing, upload URLs and gallery page

A Dafny model of the four pieces of logic in a small Next.js photo album:

- **Like counter** (`pages/api/like.ts`). One request reads the whole counter file `public/likes.txt`. It increments the entry for the posted `filename`, or creates it at 1, writes the whole document back and returns the new count. The file is a class field (`LikeApi.CounterFile.file`, absent or its text), and the handler is one method. `LikeApi.HandleLike` states the same request as a value, so that lemmas can chain requests.
- **Gallery listing** (`pages/api/list-uploads.ts`). A loop walks the bucket listing. It skips objects whose key has no basename (the text after the last `/`) or whose basename was already seen. Every other object becomes the URL `https://<bucket>.s3.<region>.amazonaws.com/<full key>`. The method is proved against `KeptIndices`, which picks exactly the first occurrence of every basename, in listing order.
- **Upload URL issuance** (`pages/api/generate-presigned-url.ts`). A pure decision tree answers 405, then 400, then 200 or 500. The checks run in that order: the method must be POST, then `fileName` and `fileType` must be present. The PutObject command uses the configured bucket, Key = `fileName` and ContentType = `fileType`, and expires after 300 s. The signer `getSignedUrl` is a function parameter that returns a URL or fails.
- **Gallery page** (`pages/upload.tsx`). The page's pure logic:
  - the join of listed URLs with like counts;
  - the 12-item page slice and the page count;
  - the lightbox's wrap-around previous/next.

  A `Gallery` class holds the page's state (`images`, `lightboxIndex`, `currentPage`). Its methods are the state setters: load, open and close the lightbox, previous and next image, the two page buttons, and `handleLike`.

Status codes follow RFC 9110: 200 (section 15.3.1), 400 (section 15.5.1), 405 (section 15.5.6) and 500 (section 15.6.1).

How the outside world is represented:

- JSON text is a `Json.Codec`: a `parse` that may fail and a `render`. The lemmas assume only `Json.FaithfulJson`:
  - `JSON.parse('{}')` is `{}`;
  - `JSON.stringify` never yields empty text;
  - parsing rendered text gives the map back.
- Filesystem outcomes (`readOk`, `writeOk`), the bucket listing (`Listing`), the signer and the environment variables (bucket and region) are parameters.
- The page's fetch results are inputs to `Gallery.Load` and `Gallery.HandleLike`.

### Behaviour of the code worth knowing

- The counter stores the posted `filename` verbatim and does not strip a path prefix (`pages/api/like.ts:27`). Liking `folder/a.jpg` against `{"a.jpg": 3}` creates `"folder/a.jpg": 1` (`LikeApi.NoPrefixStripping`). The prefix is stripped earlier, on the page (`pages/upload.tsx:22`). `UploadPage.ListedItemsHaveDistinctNames` proves that every filename the page can post is a non-empty, `/`-free basename, distinct per image.
- Only empty counter-file content is read as `{}` (`pages/api/like.ts:23`). Content that does not parse makes `JSON.parse` throw, so the request answers 500 and writes nothing (`LikeApi.MalformedFileIsKept`).
- The listing route returns only URLs. The join with like counts happens on the page (`UploadPage.JoinItems`, `pages/upload.tsx:27-31`).

## Model

| member | source | states |
|---|---|---|
| `Paths.Split` | pages/api/list-uploads.ts:24 | `split('/')` yields at least one part, no part contains the separator, joining the parts with it gives the input back, and there is a single part exactly when the input has no separator |
| `Paths.Basename` | pages/api/list-uploads.ts:24 | `split('/').pop()` is a `/`-free suffix of the key that is either the whole key or directly preceded by `/` |
| `Json.Count` | pages/api/like.ts:27 | the stored count `likes[name]` for a liked name, defaulting to 0 for a name never liked |
| `Http.Truthy` | pages/api/like.ts:14 | JavaScript truthiness of a string request field: missing or empty is falsy; its uses are stated by `LikeApi.HandleLike` and `PresignedUrlApi.GeneratePresignedUrl` |
| `Paths.LastSegmentUnique` | pages/api/list-uploads.ts:24 | any `/`-free suffix reaching back to a `/` or to the start is the basename, so the basename is determined by that description |
| `Paths.BasenameOfPlainName` | pages/api/list-uploads.ts:24 | a key without `/` is its own basename |
| `Paths.BasenameIdempotent` | pages/upload.tsx:22 | taking the basename twice equals taking it once |
| `Paths.BasenameOfFolderKey` | pages/api/list-uploads.ts:24-25 | a key ending in `/` has the empty basename |
| `Paths.BasenameAfterSlash` | pages/upload.tsx:22 | anything before a `/` does not affect the basename of what follows |
| `LikeApi.LoadLikes` | pages/api/like.ts:20-24 | an absent file gives `{}`; a present file is parsed, with empty content read as `'{}'`; a parse failure gives no document |
| `LikeApi.Bump` | pages/api/like.ts:27 | the posted key's count becomes its old count plus one (one if absent), its key set gains exactly that key, and every other entry is unchanged |
| `LikeApi.HandleLike` | pages/api/like.ts:7-36 | non-POST gives 405 and leaves the file alone; a missing or empty filename gives 400 and leaves it alone; success happens exactly when the file, if present, is read and parsed and the write succeeds; then the file holds the rendered bumped document and the reply is the bumped count; every other failure is 500 with the file unchanged |
| `LikeApi.CounterFile.constructor` | pages/api/like.ts:5 | the counter file starts absent or with the given text |
| `LikeApi.CounterFile.Like` | pages/api/like.ts:7-36 | the imperative handler's new file and reply are exactly those of `HandleLike` on the old file |
| `LikeApi.EmptyFileIsEmptyDocument` | pages/api/like.ts:20-24 | with faithful JSON, an empty file and an absent file both load as `{}` |
| `LikeApi.ReplyMatchesStoredCount` | pages/api/like.ts:27-32 | after a successful like, reading the written file back gives the returned count for the filename, equal to the old count plus one, with the key set grown by that key only and every other count unchanged |
| `LikeApi.SequentialLikesCount` | pages/api/like.ts:20-32 | N sequential successful likes of one filename from an absent file leave `{filename: N}` persisted, and the N-th reply is N |
| `LikeApi.NoPrefixStripping` | pages/api/like.ts:27 | liking `folder/a.jpg` against `{"a.jpg": 3}` replies 1 and writes `{"a.jpg": 3, "folder/a.jpg": 1}` |
| `LikeApi.MalformedFileIsKept` | pages/api/like.ts:18-35 | a file that does not parse yields 500 and is left exactly as it was, whatever the write would have done |
| `ListUploadsApi.Objects` | pages/api/list-uploads.ts:23 | `response.Contents`, defaulting to no objects when `Contents` is missing |
| `ListUploadsApi.Named` | pages/api/list-uploads.ts:24-25 | the `!name` test fails: the key exists and its basename is not empty; its use is stated by `UnnamedObjectsSkipped` and `FolderKeyUnnamed` |
| `ListUploadsApi.NameOf` | pages/api/list-uploads.ts:24 | the name of a named object is non-empty and `/`-free |
| `ListUploadsApi.SeenNames` | pages/api/list-uploads.ts:20-26 | the `seen` set after a prefix of the listing holds exactly the names carried by objects of that prefix |
| `ListUploadsApi.KeptIndices` | pages/api/list-uploads.ts:20-29 | the kept positions are strictly increasing, within the listing, each the first object carrying its basename, and they include every such first occurrence |
| `ListUploadsApi.KeptKeys` | pages/api/list-uploads.ts:20-29 | the kept keys are the full keys at the kept positions (so they form a subsequence of the listing); they are no more than the listed objects; each has a non-empty basename; no two share a basename |
| `ListUploadsApi.Urls` | pages/api/list-uploads.ts:28 | one URL per kept key, in order, each the public URL of that full key |
| `ListUploadsApi.ListUploads` | pages/api/list-uploads.ts:12-36 | a listing failure gives 500 with the error message; otherwise 200 with exactly the URLs of the kept keys of `Contents` (missing `Contents` read as empty), proved from the loop's invariants over `seen` and `urls` |
| `ListUploadsApi.FirstOccurrenceExists` | pages/api/list-uploads.ts:23-29 | every named object has a first occurrence of its basename at or before it |
| `ListUploadsApi.EveryNameKeptOnce` | pages/api/list-uploads.ts:23-29 | every basename carried by a listed object is the basename of exactly one output key |
| `ListUploadsApi.KeptAreFirstOccurrences` | pages/api/list-uploads.ts:23-29 | each output key comes from an object no earlier object shares its basename with |
| `ListUploadsApi.UnnamedObjectsSkipped` | pages/api/list-uploads.ts:24-25 | an object with a missing key or an empty basename contributes no URL |
| `ListUploadsApi.FolderKeyUnnamed` | pages/api/list-uploads.ts:24-25 | a key ending in `/` has no name, so it is skipped |
| `ListUploadsApi.PublicUrl` | pages/api/list-uploads.ts:28 | the URL is the bucket host, `/`, then the full key (not its basename), so it ends with the full key and its basename is the key's basename |
| `ListUploadsApi.NoContentsNoUrls` | pages/api/list-uploads.ts:23 | a response without `Contents` gives an empty URL list |
| `PresignedUrlApi.SignRequestFor` | pages/api/generate-presigned-url.ts:24-33 | the signer is asked for a PUT on the configured bucket with Key = `fileName` and ContentType = `fileType` unchanged, expiring after 300 seconds |
| `PresignedUrlApi.GeneratePresignedUrl` | pages/api/generate-presigned-url.ts:13-40 | non-POST gives 405; a missing or empty `fileName` or `fileType` gives 400; success exactly when the request is accepted and the signer returns a URL, which is then the reply; an accepted request the signer fails on gives 500 with no URL |
| `PresignedUrlApi.RejectedRequestIgnoresSigner` | pages/api/generate-presigned-url.ts:14-22 | a rejected request fails with the same reply for every signer, so the signer is not consulted |
| `PresignedUrlApi.AcceptedRequestSignsOwnFile` | pages/api/generate-presigned-url.ts:24-35 | an accepted request's reply depends on the signer only at the request for its own file |
| `UploadPage.ReadLikes` | pages/upload.tsx:23-25 | empty likes text is the empty map, other text is parsed |
| `UploadPage.JoinItems` | pages/upload.tsx:27-31 | one item per listed URL |
| `UploadPage.LoadItems` | pages/upload.tsx:18-33 | items are produced exactly when the likes text reads, and are then the join of the URLs with that document |
| `UploadPage.JoinItemsSpec` | pages/upload.tsx:22-31 | item i keeps URL i, is named by the URL's last `/`-segment, and carries the stored count for that name, or 0 |
| `UploadPage.ListedItemsHaveDistinctNames` | pages/upload.tsx:22-31 | for URLs from the listing, item names are the keys' basenames: non-empty, `/`-free and pairwise distinct |
| `UploadPage.PageSlice` | pages/upload.tsx:55-58 | the page holds, in order, the items with indices from page·12 that exist, at most 12 of them, with the exact clamped length |
| `UploadPage.TotalPages` | pages/upload.tsx:60 | the page count is the ceiling of n/12: its pages cover n items, and one page fewer would not |
| `UploadPage.IndexOnExactlyOnePage` | pages/upload.tsx:55-60 | every index below n lies on exactly one page, which is below the page count, and is found on that page at its offset |
| `UploadPage.NextIndex` | pages/upload.tsx:68-72 | the next lightbox index stays in range and wraps from the last image to the first |
| `UploadPage.PrevIndex` | pages/upload.tsx:62-66 | the previous lightbox index stays in range and wraps from the first image to the last |
| `UploadPage.NextPrevInverse` | pages/upload.tsx:62-72 | next undoes previous and previous undoes next |
| `UploadPage.PrevPageDisabled` | pages/upload.tsx:135 | `currentPage === 0`; its effect is stated by `PrevPage` |
| `UploadPage.NextPageDisabled` | pages/upload.tsx:143 | `currentPage >= totalPages - 1`; its effect is stated by `NextPage` |
| `UploadPage.PrevPage` | pages/upload.tsx:134-136 | the previous button does nothing at page 0 and goes back one otherwise |
| `UploadPage.NextPage` | pages/upload.tsx:142-144 | the next button does nothing at page totalPages-1 or later and goes forward one otherwise |
| `UploadPage.PageButtonsKeepPageInRange` | pages/upload.tsx:134-147 | a current page that is 0 or below the page count stays so after either button |
| `UploadPage.LikesFromReply` | pages/upload.tsx:49-51 | a successful like stores its count; an error reply stores `undefined` |
| `UploadPage.Gallery.constructor` | pages/upload.tsx:12-14 | no images, no lightbox, page 0 |
| `UploadPage.Gallery.PaginatedImages` | pages/upload.tsx:55-58 | the current page's items: at most 12, item j being the image at global index page·12+j |
| `UploadPage.Gallery.Load` | pages/upload.tsx:17-37 | images become the loaded items, or stay as they were when the likes text does not parse; the lightbox and page are unchanged and the state invariant holds |
| `UploadPage.Gallery.OpenLightbox` | pages/upload.tsx:105 | clicking picture i of the page opens the lightbox at global index page·12+i, which is a valid image |
| `UploadPage.Gallery.CloseLightbox` | pages/upload.tsx:168 | the lightbox closes; nothing else changes |
| `UploadPage.Gallery.PrevImage` | pages/upload.tsx:62-66 | an open lightbox moves to `PrevIndex`; a closed one stays closed; images and page unchanged |
| `UploadPage.Gallery.NextImage` | pages/upload.tsx:68-72 | an open lightbox moves to `NextIndex`; a closed one stays closed; images and page unchanged |
| `UploadPage.Gallery.ClickPrevPage` | pages/upload.tsx:134-136 | the page becomes `PrevPage` of the old page, staying in range |
| `UploadPage.Gallery.ClickNextPage` | pages/upload.tsx:142-144 | the page becomes `NextPage` of the old page and page count, staying in range |
| `UploadPage.Gallery.LikeTarget` | pages/upload.tsx:39-41 | the filename sent for picture i of the page is that of the image at global index page·12+i, which exists |
| `UploadPage.Gallery.HandleLike` | pages/upload.tsx:39-53 | only the image at global index page·12+i changes, and only its `likes` field, set from the like reply; lightbox and page unchanged |

## Left out

- Concurrency: each request is one atomic step. Overlapping like requests can lose updates (two read-modify-writes of the same file), and those interleavings are not modelled. `handleLike` reads `currentPage` and `images` before awaiting the reply, and that stale-closure effect is not modelled either.
- The AWS SDK (`S3Client`, `ListObjectsV2Command`, `PutObjectCommand`, `getSignedUrl`) is represented by its outcomes: a `Listing` value and a `Signer` function. Expiry is enforced by S3, not by this code. Listing pagination beyond the first response is not handled by the code and not modelled.
- Filesystem I/O: `readFileSync` and `writeFileSync` become the `readOk` and `writeOk` outcomes.
- `LikeApi.HandleLike`: a failed `writeFileSync` is modelled as leaving the file unchanged. A partially written file is not modelled.
- The JSON text format is not defined. `parse` and `render` are parameters, and only `FaithfulJson` is assumed about them.
- Likes text whose top-level JSON value is not an object is not modelled. `parse` either yields a map or fails. For an array such as `[]`, `pages/api/like.ts:27` adds a property that `JSON.stringify` at line 30 drops, so the route answers 200 with count 1 and writes `[]` back. For a number, string or boolean, the assignment at line 27 throws, so the route answers 500, while `pages/upload.tsx:30` reads every count as 0.
- Counts that are not natural numbers are not modelled, because `Likes` maps names to `nat`. For example, `-1` or `1.5` would make the route answer 0 or 2.5. Non-numeric values (where `+ 1` concatenates text) are not modelled either.
- Non-string `filename`, `fileName` or `fileType` request values, and plain-object prototype keys such as `__proto__`, are not modelled.
- Environment variables are parameters (`bucket`, `region`). The case where an unset variable is rendered as the text `undefined` is not modelled.
- The page's fetch calls are not modelled; their results are inputs to `Gallery.Load` and `Gallery.HandleLike`.
- `UploadPage.Gallery.Load`: takes the URL list. A failed listing (no `urls` field, so `data.urls.map` throws) leaves the images unchanged, the same as a likes text that does not parse, and is not a separate case. In the model, `load` runs once on mount, when there are no images yet.
- `UploadPage.Gallery.HandleLike`: takes the like route's reply. A fetch that rejects outright (no reply at all) leaves the images unchanged in the source and is not modelled.
- Rendering: JSX, styles, and the `useEffect`/`useState` lifecycle.
- The batch upload workflow (timestamped keys and the PUT to the signed URL) is not part of these files, so it is not part of this model.
