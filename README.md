# shortener in Dafny

A model of the core of the `shortener` URL-shortening service, with proofs.

The service maps long URLs to short ones. Every stored URL gets a numeric
link id, which is its index in the repository's list of links. The short
URL is the service's base URL followed by the z-base-32 text of the id's
four little-endian bytes, so it is always seven characters long. Users are
numbered from 0. A link can be owned by several users. Saving a URL that is
already stored returns its existing id with `ErrLinkAlreadyExists`, and
makes the caller one more owner of it.

The modules follow the repository's packages:

| module | file | what it models |
|---|---|---|
| `Model` | `model.dfy` | user ids, link ids (`uint32`), links and the error values of the `model` package |
| `ZBase32` | `zbase32.dfy` | the z-base-32 encoding the codecs call: bytes to bits to 5-bit quintets to alphabet characters, and back |
| `ShortCode` | `short_code.dfy` | the shared codec: a `uint32` as four little-endian bytes in z-base-32 |
| `LinkIdEncoder`, `UrlEncoder`, `Str2Int` | `link_id_encoder.dfy`, `url_encoder.dfy`, `str2int.dfy` | the three encoder files, which differ only in the error for a wrong length |
| `InMemoryRepo` | `in_memory_repo.dfy` | `inMemoryRepo`: spec functions on a value `State`, lemmas about them, and the class `Repo` whose methods update its fields and are proved against those functions |
| `FileRepo` | `file_repo.dfy` | `fileRepo`: the cache plus a file system (`Disk`) that it rewrites after every change the cache accepts; system-call outcomes are parameters |
| `InMemoryStorage` | `in_memory_storage.dfy` | the older bidirectional store: two inverse maps and a `uint32` counter that wraps |
| `Service` | `shortener.dfy` | `shortenerImpl` over the in-memory repository: URL normalisation, user registration on the fly, short URLs and lookups |

Where the code does something the design text does not say, the model
follows the code:

- Nothing is ever removed from a repository.
- `fileRepo` rewrites its file only when the cache returns no error. After
  a duplicate save (`ErrLinkAlreadyExists`), the cache has a new owner but
  the file does not. A reopen loses that ownership. See
  `FileRepo.DuplicateLeavesSnapshotBehind` and
  `FileRepo.DuplicateLostOnReopen`.
- `SaveOriginalURLs` with an empty batch succeeds even for an unknown user.
  `CreateLinks` with an empty batch still registers a new user when the
  caller has none (`Service.CreateAllEmpty`).
- The decoder's error for a character outside the alphabet comes before
  any length check. So `"nreoxsdsd2"`, which the tests list among the
  length errors, fails with the corrupt-input error (`'2'` is not a
  z-base-32 character). The tests only ask for some error, and both are
  errors.
- `GetLinkByShortURL` decodes its whole argument, so it must be given the
  seven-character code alone. The full short URL that `CreateLink` returns
  is always refused (`Service.FullShortURLRefused`).
- `InMemoryStorage` has no `Close` method, so the model has none.
- `InMemoryStorage`'s counter wraps from 0xFFFFFFFF to 0. After the wrap,
  ids are handed out again (`InMemoryStorage.IdsReusedAfterWrap`).

## Model

| member | source | states |
|---|---|---|
| Model.ToLinkId | internal/app/repo/in_memory_repo.go:126 | the conversion of an item index to a `LinkID` keeps every index below 2^32 |
| ZBase32.RoundTrip | internal/app/service/zbase32_link_id_encoder.go:22-26 | decoding the z-base-32 text of any byte string gives those bytes back |
| ZBase32.EncodeShape | internal/app/service/zbase32_link_id_encoder.go:22 | n bytes encode to (8n+4)/5 characters, all from the alphabet |
| ZBase32.DecodeStringShape | internal/app/service/zbase32_link_id_encoder.go:26-29 | decoding fails with the corrupt-input error exactly when a character is outside the alphabet; otherwise L characters give 5L/8 bytes |
| ZBase32.SymbolValueDefined | internal/app/service/zbase32_link_id_encoder.go:26 | the decoding table knows exactly the 32 alphabet characters |
| ZBase32.SymbolValueOfAlphabet | internal/app/service/zbase32_link_id_encoder.go:26 | the decoding table maps alphabet character k back to k |
| ShortCode.Uint32OfPutUint32 | internal/app/service/zbase32_link_id_encoder.go:21-35 | reading back the four little-endian bytes of a value gives the value |
| ShortCode.PutUint32 | internal/app/service/zbase32_link_id_encoder.go:21 | four bytes, the low byte first; Uint32OfPutUint32 and PutUint32OfUint32 make it the inverse of Uint32 |
| ShortCode.Encode | internal/app/service/zbase32_link_id_encoder.go:19-23 | defines a code as the z-base-32 text of the four little-endian bytes; its properties are EncodeShape, RoundTrip and EncodeInjective |
| ShortCode.Decode | internal/app/service/zbase32_link_id_encoder.go:25-36 | defines decoding: the decoder's error first, then the caller's length error unless exactly four bytes came out, then the little-endian value; its properties are DecodeCases and RoundTrip |
| ShortCode.PutUint32OfUint32 | internal/app/service/zbase32_link_id_encoder.go:21-35 | writing the value read from four bytes gives the same bytes |
| ShortCode.EncodeShape | internal/app/service/zbase32_link_id_encoder.go:19-23 | a code is seven alphabet characters |
| ShortCode.RoundTrip | internal/app/service/zbase32_link_id_encoder.go:19-36 | decoding the code of a value gives the value, whatever error a wrong length would get |
| ShortCode.EncodeInjective | internal/app/service/zbase32_link_id_encoder.go:19-23 | different values have different codes |
| ShortCode.DecodeCases | internal/app/service/zbase32_link_id_encoder.go:25-36 | decoding succeeds exactly on seven alphabet characters; otherwise a character outside the alphabet gives the corrupt-input error and a wrong length gives the caller's length error |
| ShortCode.EncodeZero | internal/app/service/zbase32_link_id_encoder_test.go:62-85 | 0 encodes to "yyyyyyy" |
| ShortCode.EncodeMax | internal/app/service/zbase32_link_id_encoder_test.go:62-85 | 0xFFFFFFFF encodes to "999999a" |
| ShortCode.DecodeExamples | internal/app/service/zbase32_link_id_encoder_test.go:10-60 | "yyyyyyy" and "999999a" decode to 0 and 0xFFFFFFFF |
| ShortCode.TooShortExample | internal/app/service/zbase32_link_id_encoder_test.go:10-60 | "nre" gets the length error |
| ShortCode.TooLongExample | internal/app/service/zbase32_link_id_encoder.go:31-33 | nine alphabet characters ("nreoxsdsd") decode to five bytes and get the length error |
| ShortCode.InvalidLastCharacterExample | internal/app/service/zbase32_link_id_encoder_test.go:10-60 | "nreoxsdsd2" gets the corrupt-input error, because of its last character |
| ShortCode.CorruptExample | internal/app/service/zbase32_link_id_encoder_test.go:10-60 | "[][]" gets the corrupt-input error |
| LinkIdEncoder.EncodeToString | internal/app/service/zbase32_link_id_encoder.go:19-23 | never fails; gives seven alphabet characters that DecodeFromString turns back into the id |
| LinkIdEncoder.DecodeFromString | internal/app/service/zbase32_link_id_encoder.go:25-36 | succeeds exactly on seven alphabet characters; a character outside the alphabet is a corrupt-input error; any other length is ErrDecodingShortURL |
| LinkIdEncoder.TestVectors | internal/app/service/zbase32_link_id_encoder_test.go:10-85 | the encode and decode cases of the tests, each with the exact answer |
| UrlEncoder.Shorten | internal/app/urlencoder/zbase32_encoder.go:19-23 | never fails; gives seven alphabet characters that Expand turns back into the value |
| UrlEncoder.Expand | internal/app/urlencoder/zbase32_encoder.go:25-36 | succeeds exactly on seven alphabet characters; corrupt-input error or ErrInvalidStringLength otherwise |
| UrlEncoder.ShortenInjective | internal/app/urlencoder/zbase32_encoder.go:19-23 | different values are shortened to different strings |
| Str2Int.EncodeToString | internal/app/str2int/zbase32_encoder.go:19-23 | never fails; gives seven alphabet characters that DecodeString turns back into the value |
| Str2Int.DecodeString | internal/app/str2int/zbase32_encoder.go:25-36 | succeeds exactly on seven alphabet characters; corrupt-input error or ErrInvalidStringLength otherwise |
| Str2Int.TestVectors | internal/app/str2int/zbase32_encoder_test.go:19-87 | the encode and decode cases of the tests, each with the exact answer |
| InMemoryRepo.IndexOf | internal/app/repo/in_memory_repo.go:113-119 | the first index holding the URL, or -1 exactly when no item holds it |
| InMemoryRepo.Save | internal/app/repo/in_memory_repo.go:107-127 | the user counter is untouched; the error is none, ErrUserNotFound or ErrLinkAlreadyExists; ErrUserNotFound exactly for an unregistered user |
| InMemoryRepo.NewUser | internal/app/repo/in_memory_repo.go:44-51 | defines AddUser on the state: the id is the counter, which moves on by one; its properties are AddUserFacts |
| InMemoryRepo.SaveAll | internal/app/repo/in_memory_repo.go:60-73 | an error is ErrUserNotFound and comes with no ids; success gives one id per URL |
| InMemoryRepo.URLOf | internal/app/repo/in_memory_repo.go:75-84 | defines GetOriginalURLByID on the state: the URL at the index, or ErrLinkNotFound past the end; SaveThenRead and SaveFacts use it |
| InMemoryRepo.Owned | internal/app/repo/in_memory_repo.go:94-99 | defines the map the loop builds, item by item; its properties are OwnedKeys and OwnedValue |
| InMemoryRepo.OwnedLinks | internal/app/repo/in_memory_repo.go:86-101 | defines GetOriginalURLsByUserID on the state: ErrUserNotFound for an unregistered user, otherwise Owned |
| InMemoryRepo.EmptyInv | internal/app/repo/in_memory_repo.go:26-28 | a new repository satisfies the invariant, knows no user and no link id |
| InMemoryRepo.AddUserFacts | internal/app/repo/in_memory_repo.go:44-51 | a new user gets the next number, which is now valid; the items are untouched and the invariant kept |
| InMemoryRepo.SaveInvalidUser | internal/app/repo/in_memory_repo.go:107-110 | an unregistered user changes nothing and gets ErrUserNotFound |
| InMemoryRepo.SaveNew | internal/app/repo/in_memory_repo.go:113-126 | a new URL is appended with the user as its only owner, and its id is its index |
| InMemoryRepo.SaveExisting | internal/app/repo/in_memory_repo.go:113-124 | a stored URL keeps its id, gets the user as an owner once, and the answer is ErrLinkAlreadyExists |
| InMemoryRepo.SaveFacts | internal/app/repo/in_memory_repo.go:107-127 | a registered user's save keeps the invariant, keeps every earlier item's URL and owners, and the id leads back to the URL |
| InMemoryRepo.SaveTwice | internal/app/repo/repo_test.go:22-28 | saving the same URL twice gives the same id, the second time with ErrLinkAlreadyExists |
| InMemoryRepo.SaveDistinctIds | internal/app/repo/repo_test.go:30-33 | two different URLs get different ids |
| InMemoryRepo.SaveAllSticky | internal/app/repo/in_memory_repo.go:65-69 | once a batch has failed, further URLs change nothing |
| InMemoryRepo.SaveAllStep | internal/app/repo/in_memory_repo.go:65-71 | helper for the loop proof: it unfolds one step of SaveAll, so a batch one URL longer is the shorter batch followed by one more save |
| InMemoryRepo.SaveAllInvalidUser | internal/app/repo/in_memory_repo.go:60-73 | an unregistered user's non-empty batch fails with ErrUserNotFound and no change |
| InMemoryRepo.SaveAllKeeps | internal/app/repo/in_memory_repo.go:60-73 | a batch keeps the invariant and every earlier item's URL and owners |
| InMemoryRepo.SaveAllValid | internal/app/repo/in_memory_repo.go:60-73 | any batch, from any user, keeps the invariant and only adds |
| InMemoryRepo.SaveAllIds | internal/app/repo/in_memory_repo.go:60-73 | id i of a batch names URL i, now owned by the user |
| InMemoryRepo.SaveAllValidUser | internal/app/repo/in_memory_repo.go:60-73 | a registered user's batch succeeds with one id per URL, each naming its URL |
| InMemoryRepo.OwnedKeys | internal/app/repo/in_memory_repo.go:86-101 | a URL is in a user's map exactly when some item with that URL lists the user |
| InMemoryRepo.OwnedValue | internal/app/repo/in_memory_repo.go:86-101 | the id the map gives an owned URL is that item's index |
| InMemoryRepo.SaveThenRead | internal/app/repo/repo_test.go:43-51 | after a save, GetOriginalURLByID of the returned id gives the URL |
| InMemoryRepo.SharedURL | internal/app/repo/repo_test.go:58-75 | two users saving the same URL both own it, under the same id |
| InMemoryRepo.Repo.constructor | internal/app/repo/in_memory_repo.go:26-28 | a new repository is empty and valid |
| InMemoryRepo.Repo.Deserialize | internal/app/repo/in_memory_repo.go:39-42 | the repository takes on the decoded snapshot |
| InMemoryRepo.Repo.AddUser | internal/app/repo/in_memory_repo.go:44-51 | the new state and id are those of NewUser, with no error, and validity is kept |
| InMemoryRepo.Repo.IsValidUserID | internal/app/repo/in_memory_repo.go:103-105 | true exactly for 0 <= id < next user number |
| InMemoryRepo.Repo.SaveOriginalURL | internal/app/repo/in_memory_repo.go:53-58 | state, id and error are those of Save; validity is kept and the repository only grows |
| InMemoryRepo.Repo.SaveOriginalURLs | internal/app/repo/in_memory_repo.go:60-73 | state, ids and error are those of SaveAll; validity is kept and the repository only grows |
| InMemoryRepo.Repo.GetOriginalURLByID | internal/app/repo/in_memory_repo.go:75-84 | the URL at the id, or ErrLinkNotFound beyond the last item |
| InMemoryRepo.Repo.GetOriginalURLsByUserID | internal/app/repo/in_memory_repo.go:86-101 | ErrUserNotFound for an unregistered user, otherwise the map from each owned URL to its index |
| InMemoryRepo.Repo.Ping | internal/app/repo/in_memory_repo.go:129-131 | never fails and changes nothing |
| InMemoryRepo.Repo.Close | internal/app/repo/in_memory_repo.go:133-135 | never fails and changes nothing |
| FileRepo.LoadedNothing | internal/app/repo/file_repo.go:86-96 | a missing file and an empty file both open as an empty repository |
| FileRepo.Loaded | internal/app/repo/file_repo.go:86-104 | defines load: stat error, then missing or empty file (empty repository), then open error, then decode error or the snapshot; its properties are LoadedNothing and LoadedErrors |
| FileRepo.Flushed | internal/app/repo/file_repo.go:69-84 | defines the file system after save for each outcome of open, write and close; its properties are ReopenAfterFlush |
| FileRepo.FlushError | internal/app/repo/file_repo.go:69-84 | defines the error save returns: none after a clean close, otherwise the failing call's |
| FileRepo.LoadedErrors | internal/app/repo/file_repo.go:86-104 | opening fails exactly on a failing stat, a failing open of a non-empty file, or content that does not decode; a snapshot opens as its state |
| FileRepo.ReopenAfterFlush | internal/app/repo/file_repo.go:69-84 | a written snapshot opens as the saved state, even if close fails; a write that fails midway leaves a file that does not open; one that fails before any byte lands keeps the older snapshot (a newly created file opens empty); a failed open leaves the files as they were; other files are untouched |
| FileRepo.DuplicateLeavesSnapshotBehind | internal/app/repo/file_repo.go:37-43 | a duplicate save by a new owner fails with ErrLinkAlreadyExists, yet changes the cache |
| FileRepo.FileRepo.constructor | internal/app/repo/file_repo.go:18-21 | the repository fronts an empty cache and the given file |
| FileRepo.FileRepo.NewFileRepo | internal/app/repo/file_repo.go:17-27 | a repository whose cache holds what the file loads, or no repository and the load error |
| FileRepo.FileRepo.Load | internal/app/repo/file_repo.go:86-104 | the cache takes on the loaded state, or the load error is returned |
| FileRepo.FileRepo.Save | internal/app/repo/file_repo.go:69-84 | the file system becomes Flushed of the cache's content for the given outcome of open, write and close, and the error is that outcome's |
| FileRepo.FileRepo.AddUser | internal/app/repo/file_repo.go:29-35 | the cache registers a new user and the file is rewritten |
| FileRepo.FileRepo.SaveOriginalURL | internal/app/repo/file_repo.go:37-43 | the cache saves as InMemoryRepo.Save; the file is rewritten only when that gives no error, and otherwise the cache's error is returned with the files unchanged |
| FileRepo.FileRepo.SaveOriginalURLs | internal/app/repo/file_repo.go:45-51 | the cache saves the batch as InMemoryRepo.SaveAll; the file is rewritten only when that gives no error |
| FileRepo.FileRepo.GetOriginalURLByID | internal/app/repo/file_repo.go:53-55 | the cache's answer |
| FileRepo.FileRepo.GetOriginalURLsByUserID | internal/app/repo/file_repo.go:57-59 | the cache's answer |
| FileRepo.FileRepo.Ping | internal/app/repo/file_repo.go:61-63 | never fails |
| FileRepo.FileRepo.Close | internal/app/repo/file_repo.go:65-67 | never fails |
| FileRepo.SaveShared | internal/app/repo/file_repo_test.go:41-45 | two new users saving one URL: both own it in the cache, but the file holds only the first owner |
| FileRepo.ReadWriteAfterReopen | internal/app/repo/file_repo_test.go:28-57 | after writes that all succeed, a reopened repository gives each user the same links as before |
| FileRepo.DuplicateLostOnReopen | internal/app/repo/file_repo.go:37-43 | a second owner added by a duplicate save is lost when the file is reopened |
| InMemoryStorage.InitialInv | internal/app/storage/in_memory_storage.go:15-21 | a new store satisfies the invariant and knows no id |
| InMemoryStorage.Inserted | internal/app/storage/in_memory_storage.go:34-49 | defines Insert on the store: a stored value keeps its id, a new one takes the counter, which moves on modulo 2^32; its properties are InsertExisting, InsertNew and IdsReusedAfterWrap |
| InMemoryStorage.Selected | internal/app/storage/in_memory_storage.go:23-32 | defines Select on the store: the value, or ErrIdNotFound with the id |
| InMemoryStorage.InsertExisting | internal/app/storage/in_memory_storage.go:38-41 | inserting a stored value returns its id and changes nothing |
| InMemoryStorage.InsertNew | internal/app/storage/in_memory_storage.go:43-48 | a new value gets the counter as id in both maps, earlier entries stay, and the counter moves on by one, or wraps to 0 after 0xFFFFFFFF |
| InMemoryStorage.DistinctIds | internal/app/storage/in_memory_storage.go:34-49 | different stored values have different ids |
| InMemoryStorage.SelectAfterInsert | internal/app/storage/in_memory_storage.go:23-49 | what is inserted is selected by the returned id, while the counter has not run out |
| InMemoryStorage.IdsReusedAfterWrap | internal/app/storage/in_memory_storage.go:43-47 | after the wrap, id 1 is handed out again and Select(1) answers the newcomer |
| InMemoryStorage.TestVectors | internal/app/storage/in_memory_storage_test.go:10-85 | the insert and select cases of the tests |
| InMemoryStorage.Storage.constructor | internal/app/storage/in_memory_storage.go:15-21 | a new store is empty with counter 1 |
| InMemoryStorage.Storage.Select | internal/app/storage/in_memory_storage.go:23-32 | the stored value, or ErrIdNotFound with the id |
| InMemoryStorage.Storage.Insert | internal/app/storage/in_memory_storage.go:34-49 | the new maps, counter and id are those of Inserted, with no error |
| Service.ShortURLPrefix | internal/app/service/shortener_impl.go:17-21 | ends in '/', starts with the base URL and adds at most one character |
| Service.PrefixIdempotent | internal/app/service/shortener_impl.go:18-21 | the '/' is added exactly when missing, so a prefix is its own prefix |
| Service.ShortURLFor | internal/app/service/shortener_impl.go:143-149 | the prefix and seven more characters, which decode to the link id |
| Service.ShortURLInjective | internal/app/service/shortener_impl.go:143-149 | different ids get different short URLs |
| Service.LinkFor | internal/app/service/shortener_impl.go:138-141 | defines createLink: the normalized URL with the short URL of its id |
| Service.EnsureUser | internal/app/service/shortener_impl.go:122-136 | defines addUser on the state for a caller with an id: a valid id is kept, otherwise a new user is registered |
| Service.CreateOne | internal/app/service/shortener_impl.go:30-50 | defines CreateLink on the state: normalize, then addUser, then save, passing ErrLinkAlreadyExists on with the link; its properties are CreateOneInvalidURL, CreateOneUnknownUser and CreateOneFacts |
| Service.CreateAll | internal/app/service/shortener_impl.go:52-77 | defines CreateLinks on the state: normalize all, then addUser, then the batch; its properties are CreateAllInvalidURL, CreateAllUnknownUser, CreateAllEmpty and CreateAllFacts |
| Service.LinksFor | internal/app/service/shortener_impl.go:67-74 | one link per id, in order; LinksForAt gives link i |
| Service.LinkByShortURL | internal/app/service/shortener_impl.go:79-91 | defines GetLinkByShortURL on the state: decode, then look up, then the link; its properties are LinkByBadCode, FullShortURLRefused and the round trip in CreateOneFacts |
| Service.UserLinks | internal/app/service/shortener_impl.go:93-116 | defines the set GetLinksByUserID answers: nothing for an unregistered user, otherwise the links of Owned; its property is UserLinksExact |
| Service.Normalize | internal/app/model/link.go:14-23 | succeeds exactly on a non-empty URL that parses, with the parser's text; otherwise ErrInvalidURL |
| Service.NormalizeAll | internal/app/model/link.go:25-40 | succeeds exactly when every URL normalizes, element by element; otherwise ErrInvalidURL |
| Service.UserLinksMember | internal/app/service/shortener_impl.go:106-113 | helper for the loop proof: it unfolds membership in UserLinks into a link of an owned URL under its id |
| Service.LinksForAt | internal/app/service/shortener_impl.go:67-74 | link i of a batch is the link of id i and URL i |
| Service.CreateOneInvalidURL | internal/app/service/shortener_impl.go:30-34 | a URL that does not normalize gives ErrInvalidURL before any user is registered |
| Service.CreateOneFacts | internal/app/service/shortener_impl.go:30-50 | a valid user is kept and an invalid one registered; the error is none or ErrLinkAlreadyExists; the link holds the normalized URL, its short URL leads back to it, and the user owns it |
| Service.CreateAllFacts | internal/app/service/shortener_impl.go:52-77 | a batch of good URLs succeeds with one link per URL, in order; each holds its normalized URL and its short URL leads back to it |
| Service.CreateAllInvalidURL | internal/app/service/shortener_impl.go:53-56 | a batch with a bad URL gives ErrInvalidURL and no links, before any user is registered |
| Service.CreateAllEmpty | internal/app/service/shortener_impl.go:52-77 | an empty batch registers a caller without a valid id and succeeds with no links |
| Service.CreateOneUnknownUser | internal/app/service/shortener_impl.go:36-43 | a non-negative id that was never registered is refused by the repository: no link, ErrUserNotFound, nothing changed |
| Service.CreateAllUnknownUser | internal/app/service/shortener_impl.go:58-65 | the same for a non-empty batch: no links, ErrUserNotFound, nothing changed |
| Service.LinkByBadCode | internal/app/service/shortener_impl.go:79-86 | a code that does not decode gives the decoder's error, whatever the repository holds |
| Service.FullShortURLRefused | internal/app/service/shortener_impl.go:79-83 | a whole short URL as made by CreateLink is refused with the corrupt-input error, since its prefix ends in '/', which is not a z-base-32 character |
| Service.UserLinksExact | internal/app/service/shortener_impl.go:93-116 | a user's links are exactly the links of the items the user owns, each under its own index |
| Service.Shortener.constructor | internal/app/service/shortener_impl.go:17-28 | the service keeps the repository and the base URL with one trailing '/' |
| Service.Shortener.AddUser | internal/app/service/shortener_impl.go:122-136 | a nil user reference is ErrInvalidUserID; a valid id is kept; otherwise a new user is registered and written back |
| Service.Shortener.CreateLink | internal/app/service/shortener_impl.go:30-50 | repository, user and answer are those of CreateOne; a nil user reference gives ErrInvalidURL or ErrInvalidUserID with nothing changed |
| Service.Shortener.CreateLinks | internal/app/service/shortener_impl.go:52-77 | repository, user and answer are those of CreateAll; a nil user reference changes nothing |
| Service.Shortener.MakeLinks | internal/app/service/shortener_impl.go:67-74 | the links of the ids and URLs, in order |
| Service.Shortener.GetLinkByShortURL | internal/app/service/shortener_impl.go:79-91 | the link of the decoded id, or the decoder's or the repository's error |
| Service.Shortener.GetLinksByUserID | internal/app/service/shortener_impl.go:93-116 | no error for a registered user, and the links are exactly that user's links, one per owned URL |
| Service.Shortener.LinksOf | internal/app/service/shortener_impl.go:106-113 | one link per entry of the map, and no other |
| Service.Shortener.Ping | internal/app/service/shortener_impl.go:118-120 | the repository's answer, which is no error |

## Left out

- Locking (`sync.RWMutex`, `sync.Mutex`): the model is sequential, one call at a time.
- Serialize's JSON bytes: a file holds the snapshot itself (`Snapshot`), or `Garbage` for content that does not decode. Partly written JSON and a half-decoded state are not modelled.
- The missing `O_TRUNC` in save: a longer old file could keep trailing bytes. The model treats a completed write as replacing the file.
- load does not close its file handle; the model has no handles.
- The z-base-32 decoder's `CorruptInputError` carries the offset of the bad character. `ErrCorruptInput` drops that offset.
- `url.ParseRequestURI` and `URL.String()` are not part of this model. Normalize takes the parser as a function parameter, and the base URL is taken as its printed text.
- The z-base-32 library's own code is not part of this model. `ZBase32` is written from the encoding's definition: 5-bit groups, most significant bit first, no padding, trailing bits dropped on decode. The model makes no claim about encoding a decoded string.
- `UserID` is Go's `int`. The model uses unbounded integers, so the user counter never wraps.
- InMemoryRepo.OwnedValue: states the map value only below 2^32 items. Beyond that, Go's `LinkID(idx)` conversion wraps (`Model.ToLinkId` writes the wrap out).
- The service is modelled over the in-memory repository. Over the file repository, its contracts would add the file effects proved in `FileRepo`.
- The database repository and storage, the HTTP handlers, cookies, configuration and the superseded `shortener`, `urlshortener` and `storage` front-ends are outside the modelled core.
- Items are held in the repository by reference. The model holds them by value, and nothing outside the repository shares them.
- Service.Shortener.GetLinksByUserID: Go returns the links in map order, which is random. The model states the set of links and leaves the order open.
