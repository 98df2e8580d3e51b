# Phone catalogue ingestion, modelled in Dafny

The `parse-and-store` endpoint takes a brand name, an optional folder name and
the URL of a product page from a phone retailer. It does four things:

- extracts the page's metadata (phone name, release date, price) and its
  specification tables, as a map from category to a map from label to value;
- sorts the page's images into a numbered gallery and a list of other
  images, each URL taken at most once over both lists;
- rejects a page without any specification;
- otherwise reconciles the store in five steps:
  - gets or creates the brand by name;
  - gets or creates the phone of that brand under its folder name, falling
    back to the page's phone name;
  - deletes the phone's detail rows and inserts one detail row with the
    extraction;
  - deletes the phone's image rows and inserts one row per gallery image;
  - reports the phone id, its name and the two counts.

The model has eight modules:

- `optional.dfy` (`Optional`): `Option`, for `null`/`undefined`.
- `sequences.dfy` (`Sequences`): generic facts about concatenation and slicing of sequences, used in the proofs.
- `text.dfy` (`Text`): the JavaScript string operations the extractor uses, as functions. These are `trim`, `cleanText`, first-occurrence `replace`, `includes`, `split`/`join` on one character and ASCII title case.
- `page.dfy` (`Page`): the parts of a parsed page that the extractors read. These are the title, the release calendar attribute, the price block, every `tbody` with its id, section header and rows, and the elements matched by the two image selectors (the first one can match elements other than `img`).
- `specs.dfy` (`SpecExtractor`): `extractSpecsFromHTML` (see below).
- `images.dfy` (`ImageExtractor`): `extractImages` (see below).
- `reconcile.dfy` (`Reconcile`): the store's four tables as maps from row id to row, with one id counter. The reconciliation steps are functions. It holds a store invariant `Valid` and lemmas on what each step and a whole ingestion do.
- `store.dfy` (`Store`): a `Store` class whose map fields the steps reassign. Each query or insert is proved against its step in `Reconcile`. `Ingest` is the handler from the parsed page on.

The two extractors are modelled like this:

- `extractSpecsFromHTML` has three loops. They are written as methods with
  loops and proved equal to a reference definition: `SpecsOf(ts)` is
  `Build(Entries(ts))`, which records every kept row in document order.
  The lemmas about the reference definition say which categories and
  labels come out.
- `extractImages` has two loops. Each is proved equal to a recursive pass
  function, and the lemmas about those functions give the shape of the
  result and the source of every image.

The main properties:

- `cleanText` yields the words of its input, its maximal runs of
  non-whitespace characters, joined by single spaces. It is idempotent on
  its non-empty results.
- A category appears in the specification map exactly when a specification
  table of that name records a row, so no category is empty.
- A label appears exactly when such a row has it as its cleaned heading.
  The row recorded last wins, and later tables merge into earlier ones of
  the same name.
- Gallery images are numbered 1, 2, 3, … in discovery order, the other
  images keep discovery order too, and no URL occurs twice in either list or
  in both.
- Each `.single()` lookup selects at most one row under the invariant.
- An ingestion keeps the invariant. The phone ends with exactly one detail
  row and with exactly its gallery as image rows, `image_index` 0, 1, ….
  Every other phone keeps its row, detail rows and image rows, ids
  included, so no phone ever gets a second detail row.
- Ingesting the same page twice under a non-null key changes nothing
  beyond the ids of the replaced rows.

Some details of the code differ from what a quick reading suggests, and the
model follows the code:

- The display name drops the *first* `Phones` anywhere in the brand name,
  not a trailing suffix.
- In a table id, the first `&amp;` becomes `&`, not a space.
- The lookup key is `folderName || metadata['Phone Name']`, so an empty
  folder name falls back too.
- `cleanText` also maps the empty string to `null`.

## Model

| member | source | states |
|---|---|---|
| Text.CleanText | api/parse-and-store.js:10-13 | the result is `null` exactly when the argument is absent or empty |
| Text.CleanTextNormalized | api/parse-and-store.js:10-13 | a non-null result has no whitespace at either end, and each whitespace character in it is one plain space followed by a non-space |
| Text.CleanTextKeepsContent | api/parse-and-store.js:10-13 | a non-null result holds exactly the non-whitespace characters of the input, in order |
| Text.CleanTextWords | api/parse-and-store.js:10-13 | a non-null result is the input's words, its maximal runs of non-whitespace characters in order, joined by single spaces |
| Text.CleanTextFixpoint | api/parse-and-store.js:10-13 | the non-empty strings `cleanText` maps to themselves are exactly the normalized ones |
| Text.CleanTextIdempotent | api/parse-and-store.js:10-13 | cleaning a cleaned text again changes nothing, except that `""` (from a whitespace-only input) becomes `null` |
| Text.IndexOf | api/parse-and-store.js:42-43 | the index found is the first occurrence of the pattern; `None` means the pattern does not occur |
| Text.Split | api/parse-and-store.js:45 | `split(' ')` gives at least one piece and no piece holds the separator |
| Text.JoinSplit | api/parse-and-store.js:45-47 | joining the pieces of a split with its separator gives back the string |
| Text.TitleCaseAt | api/parse-and-store.js:45-47 | split, capitalize each word and join upper-cases exactly the first character and each character after a space, and changes nothing else |
| SpecExtractor.MetadataOf | api/parse-and-store.js:22-35 | each of `Phone Name`, `Release Date`, `Price` is present exactly when its raw text is truthy, holds that text cleaned, and no other key is present |
| SpecExtractor.FallbackNameAt | api/parse-and-store.js:41-47 | the name derived from an id keeps the stripped id's length, turns each `-` into a space and upper-cases the first character and each character after a `-` or a space |
| SpecExtractor.CategoryNameFromHeader | api/parse-and-store.js:49-55 | a truthy section header, cleaned, names the category whatever the id; a whitespace-only header names it `""` |
| SpecExtractor.RowKeptIff | api/parse-and-store.js:61-68 | a row is recorded exactly when its label and its value each hold a non-whitespace character, under the table's category with both texts cleaned |
| SpecExtractor.SkippedRowIrrelevant | api/parse-and-store.js:61-68 | inserting a row that is not recorded anywhere in a table changes nothing in the specification map |
| SpecExtractor.EntriesMember | api/parse-and-store.js:37-70 | the recorded entries of a page are exactly the kept rows of its specification tables |
| SpecExtractor.BuildKeys | api/parse-and-store.js:57-68 | the built map's categories are exactly the entries' categories, each holds exactly the labels recorded under it, and none is empty |
| SpecExtractor.BuildLastWins | api/parse-and-store.js:67 | for a category and label, the map holds the value recorded last |
| SpecExtractor.BuildAppend | api/parse-and-store.js:57-67 | recording two runs of entries in turn merges what each records, category-wise, the later labels winning |
| SpecExtractor.SpecsOfAppend | api/parse-and-store.js:37-70 | the tables of a longer page merge into those of its prefix, tables of one name sharing a category |
| SpecExtractor.SpecsOfCategories | api/parse-and-store.js:57-76 | a category is in the result exactly when some specification table of that name records a row, and it is then not empty |
| SpecExtractor.SpecsOfLabels | api/parse-and-store.js:61-69 | a label is in a category exactly when some kept row of a table of that name has it as its cleaned heading |
| SpecExtractor.PruneEmpty | api/parse-and-store.js:72-76 | the pruning loop removes exactly the empty categories and keeps the others' labels |
| SpecExtractor.RecordRows | api/parse-and-store.js:61-69 | the row loop records the table's kept rows under its category, on top of what came before |
| SpecExtractor.RecordBlocks | api/parse-and-store.js:37-70 | the table loop gives every category of the reference map its labels, and any other category it makes is empty |
| SpecExtractor.ExtractSpecs | api/parse-and-store.js:15-83 | the extractor's result is the reference extraction and has no empty category |
| ImageExtractor.SourceUrl | api/parse-and-store.js:96 | the URL is `src` when truthy, else `data-src`, and is truthy exactly when one of them is |
| ImageExtractor.ImagesOfShaped | api/parse-and-store.js:92-129 | the gallery is numbered 1, 2, 3, … with distinct non-empty URLs that pass the gallery filter; the other list has distinct URLs that pass its filter; no URL is in both |
| ImageExtractor.GalleryPassComplete | api/parse-and-store.js:94-109 | every candidate whose URL is truthy and passes the gallery filter has its URL in the gallery |
| ImageExtractor.OtherPassComplete | api/parse-and-store.js:111-129 | every image whose URL is truthy and passes the second filter has its URL in the gallery or in the other list |
| ImageExtractor.GalleryPassSource | api/parse-and-store.js:94-109 | each gallery image comes from the first candidate with its URL and carries that candidate's cleaned `alt` |
| ImageExtractor.OtherPassSource | api/parse-and-store.js:111-129 | each other image comes from the first image with its URL and carries that image's cleaned `alt` |
| ImageExtractor.GalleryPassOrder | api/parse-and-store.js:94-109 | of two gallery images, the earlier one comes from the earlier first candidate carrying its URL, so the gallery is in discovery order |
| ImageExtractor.OtherPassOrder | api/parse-and-store.js:111-129 | of two other images, the earlier one comes from the earlier first image carrying its URL, so the list is in discovery order |
| ImageExtractor.ExtractImages | api/parse-and-store.js:85-136 | the extractor's two loops with one shared set of seen URLs give the reference lists, shaped as above |
| Reconcile.PhoneKey | api/parse-and-store.js:209 | the key is absent exactly when the folder name is not truthy and the page has no phone name; it is truthy exactly when the folder name or the phone name is; a present key is the folder name or the phone name |
| Reconcile.NewPhone | api/parse-and-store.js:217-229 | a new phone has the brand and key; its name is the phone name or `Unknown`; price and release date are the truthy metadata or null; its first image is the first gallery URL or null |
| Reconcile.BrandsNamedAtMostOne | api/parse-and-store.js:182-186 | under the invariant a brand name selects at most one brand |
| Reconcile.AddBrandSpec | api/parse-and-store.js:190-199 | inserting a brand under an unused name keeps the invariant, and the name then selects the new brand only |
| Reconcile.GetOrCreateBrandSpec | api/parse-and-store.js:181-202 | an existing brand is reused with nothing changed; otherwise one brand with the derived display name is added under a fresh id; the name then selects that brand |
| Reconcile.PhonesKeyedAtMostOne | api/parse-and-store.js:205-210 | under the invariant a non-null key selects at most one phone of a brand |
| Reconcile.AddPhoneSpec | api/parse-and-store.js:217-229 | inserting a phone under a key no phone of the brand has keeps the invariant, and a non-null key then selects the new phone only |
| Reconcile.GetOrCreatePhoneSpec | api/parse-and-store.js:204-230 | an existing phone is reused, its fields untouched; otherwise one new phone is added under a fresh id; either way a non-null key then selects that phone, and no other row changes |
| Reconcile.PlacePhoneSpec | api/parse-and-store.js:181-230 | after both lookups the invariant holds, the brand name selects the phone's brand, a non-null key selects the phone, and the detail and image tables are unchanged |
| Reconcile.PlaceBrandChoice | api/parse-and-store.js:181-202 | the brand used is the existing one with that name, with the brands kept; otherwise a new one is added |
| Reconcile.PlacePhoneChoice | api/parse-and-store.js:204-230 | the phone used is the existing phone of the brand under the key, with the phones kept; otherwise a new row built from the page; a null key always creates one |
| Reconcile.ReplaceDetailRows | api/parse-and-store.js:232-240 | after the replacement the phone has one detail row under a fresh id, holding the specs, the metadata and `["91mobiles"]`; other phones' detail rows and the other tables are unchanged |
| Reconcile.ReplaceDetailOne | api/parse-and-store.js:232-240 | after the replacement the phone's detail rows are exactly the one new row |
| Reconcile.ReplaceDetailValid | api/parse-and-store.js:232-240 | the detail replacement keeps the invariant |
| Reconcile.ReplaceDetailOthers | api/parse-and-store.js:233-240 | the detail replacement leaves every other phone's detail rows, ids included |
| Reconcile.InsertImageRowsSpec | api/parse-and-store.js:245-253 | the insert loop's first `n` iterations add rows `0..n-1` under ids `next..next+n-1` and keep every earlier row |
| Reconcile.ReplaceImagesRows | api/parse-and-store.js:242-253 | afterwards the phone's image ids are exactly the fresh ids, and row `i` holds the `i`-th gallery URL, its alt falling back to the phone name, type `gallery` and index `i` |
| Reconcile.ReplaceImagesKeeps | api/parse-and-store.js:243-253 | the image replacement keeps every other phone's image row under its id, adds no other row, and leaves the other tables unchanged |
| Reconcile.ReplaceImagesValid | api/parse-and-store.js:242-253 | the image replacement keeps the invariant |
| Reconcile.ReplaceImagesRowSet | api/parse-and-store.js:242-253 | the phone's image rows are exactly the rows made from its gallery |
| Reconcile.ReplaceImagesOthers | api/parse-and-store.js:243-253 | the image replacement leaves every other phone's image rows, ids included |
| Reconcile.ReplaceBothSpec | api/parse-and-store.js:232-253 | after both replacements the invariant holds, brands and phones are unchanged, and the phone has exactly one detail row and exactly its gallery's image rows, one row per gallery entry |
| Reconcile.ReplaceBothOthers | api/parse-and-store.js:232-253 | both replacements leave every other phone's detail and image rows |
| Reconcile.IngestSpec | api/parse-and-store.js:177-264 | without specs, nothing changes and the outcome is the rejection; otherwise the invariant holds, the outcome reports the phone id, the phone name and the two counts, the brand name selects the phone's brand, and the phone has one detail row with the extraction and exactly its gallery as image rows, as many rows as gallery entries |
| Reconcile.IngestPhoneSpec | api/parse-and-store.js:181-230 | the brand and phone an ingestion stores under are the existing ones when the lookups find them, else new rows built from the page |
| Reconcile.IngestKeepsOthers | api/parse-and-store.js:177-253 | an ingestion leaves every other phone's row, its detail rows and its image rows, detail and image ids included |
| Reconcile.IngestKeepsOneDetail | api/parse-and-store.js:232-240 | when every phone has at most one detail row before an ingestion, every phone has at most one after it |
| Reconcile.IngestFindsAgain | api/parse-and-store.js:182-210 | under a non-null key the lookups of a later ingestion find the brand and phone the first one stored under |
| Reconcile.IngestTwice | api/parse-and-store.js:177-264 | under a non-null key a second ingestion of the same page reports the same outcome, keeps brands and phones, and leaves each phone's detail and image rows as they were |
| Reconcile.IngestTwiceImageCount | api/parse-and-store.js:232-253 | under a non-null key a second ingestion of the same page leaves every phone with as many image rows as the first |
| Store.Store.constructor | api/parse-and-store.js:5-8 | a fresh store is empty and satisfies the invariant |
| Store.Store.FindBrand | api/parse-and-store.js:182-186 | `.single()` on the brands of that name gives the id exactly when one brand has the name |
| Store.Store.FindPhone | api/parse-and-store.js:205-210 | `.single()` on the phones of the brand under the key gives the id exactly when one phone matches; a null key matches none |
| Store.Store.GetOrCreateBrand | api/parse-and-store.js:181-202 | the method's new state and brand id are those of the get-or-create step |
| Store.Store.GetOrCreatePhone | api/parse-and-store.js:204-230 | the method's new state and phone id are those of the get-or-create step |
| Store.Store.ReplaceDetail | api/parse-and-store.js:232-240 | the delete then insert gives the state of the detail replacement step |
| Store.Store.ReplaceImages | api/parse-and-store.js:242-253 | the delete, then one insert per loop iteration, gives the state of the image replacement step |
| Store.Ingest | api/parse-and-store.js:174-264 | the handler's new store and outcome are those of the ingestion of the page's extraction, and it keeps the invariant |

## Left out

- HTTP handling is left out: CORS headers, the `OPTIONS`/`POST` checks, the 400 for a missing `brandName` or `url`, the fetch, and the JSON response bodies. The model starts at a parsed page and ends at an `Outcome`.
- HTML parsing and selector matching are left out. The page arrives as a `Document` already holding what each selector would give, including the first `h1`, the closest enclosing `section` and the two image lists.
- Database errors, failed inserts and the resulting 500 responses are left out, as are the extractors' `try`/`catch`. Every step in the model succeeds.
- A `.single()` that finds several rows is modelled as finding none, as the code treats it. Under the invariant this never happens.
- Concurrency is left out. Each database call in the source is a separate request, and the model runs the steps one after another with no interleaving.
- Row ids come from one counter for all four tables in the model. The database numbers each table on its own. The properties depend only on ids being fresh.
- A null lookup key (no truthy folder name and no phone name) is modelled as matching no phone. What the database does with `.eq('folder_name', undefined)` is not part of this model. So under a null key every ingestion adds a phone, and `IngestTwice` requires a non-null key.
- The order of keys in JavaScript objects is left out. The specification maps are unordered maps.
- SpecExtractor.Put: category and label keys that name properties of `Object.prototype` are not modelled. The code stores categories and labels in plain objects (api/parse-and-store.js:18, 57-58, 67). So a header such as `constructor`, `toString` or `hasOwnProperty` finds an inherited value at line 57 and never becomes an own key, and a `__proto__` category or label goes through the prototype setter instead of being stored. The model treats such keys like any other string, as a `Map` or `Object.create(null)` would.
- `ToUpper` is ASCII only. `toUpperCase` of other letters is not modelled.
- Strings are sequences of Unicode scalar values, not UTF-16 code units.
- The constant `type` fields of the image objects are left out.
- The read endpoints `api/brands.js`, `api/phones.js` and `api/phone-detail.js` are not part of this model.
