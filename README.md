# Product catalog of the equipment distributor site

This project models the product catalog of a small distributor web site:

- **The catalog document.** It is one JSON document `{ products: [...] }`, stored as blob `data/products.json` in a remote object store.
- **The two admin endpoints that keep it.** They are the Next.js route `src/pages/api/admin/products/route.ts` and the edge handler `api/admin/products.ts`. Each lists the catalog (GET), adds a product whose image is uploaded in the same multipart form (POST), and deletes a product by id (DELETE).
- **Two pieces of page logic.** These are the public catalog filter in `src/pages/Products.tsx` and the admin dashboard helpers in `src/pages/admin/dashboard/page.tsx`.

The edge handler differs from the route in several ways:

- A throwing `list`, `fetch` or document `put` falls back to a document kept in a process-global slot (`getMem`). A throwing image `put` falls back to a data URL (below), and a rejected `res.json()` escapes to 500 "Server error".
- An image that cannot be published is embedded as a `data:` URL (RFC 2397), with the bytes in base64 per section 4 of RFC 4648.
- Its document `put` does not pass `allowOverwrite: true`, which the route's does (see "## Left out").
- It answers other methods itself with 405, and its failures with "Server error".

Both handlers ignore a throwing `del` of the old image on delete and go on to remove the product.

Modules:

- `Wrappers` (`wrappers.dfy`): `Option`.
- `Text` (`text.dfy`): the JavaScript `\s` class, `replace(/\s+/g, '-')`, `includes`, ASCII `toLowerCase`, and the rendering of `Date.now()` as decimal text.
- `Seqs` (`seqs.dfy`): `filter`, and de-duplication through `Array.from(new Set(...))`.
- `Base64` (`base64.dfy`): the RFC 4648 encoding with its decoder and round trip, `btoa` over a binary string, and `String.fromCharCode` on bytes.
- `Catalog` (`catalog.dfy`):
  - the product record, the decoded form, the document and the responses;
  - the required-field check;
  - the id, file name and data URL builders;
  - `findIndex` and `splice`;
  - the durable-host test.
- `BlobStore` (`blobstore.dfy`): the object store as a value (`Store`) and as a mutable client (`Gateway`), and the parsed document object (`ProductsData`). Every store call takes its outcome from a per-request environment `Env`. The environment also holds the clock.
- `NextRoute` (`route.dfy`): the route. Each handler is a method over `Gateway` and `ProductsData`, proved equal to a function on store values. The lemmas state the properties of those functions.
- `EdgeApi` (`edge.dfy`): the edge handler, in the same two layers. `Runtime` holds the global slot.
  - Aliasing is modelled: a read that falls back returns the slot's own object, so the `push` or `splice` that follows changes the memory document, whether or not the later write reaches the store.
  - `toDataUrl` is a chunked loop proved equal to `Catalog.DataUrl`.
- `ProductsPage` (`products_page.dfy`): the built-in lists, the section choice, the manufacturer and subcategory choices, and the filter.
- `Dashboard` (`dashboard.dfy`): the category table, `getCategoryLink`, the per-tab list, and the form `handleSubmit` sends. The form is tied to the endpoints' field check.

Behaviour of the code that the model keeps as written:

- **A body that cannot be decoded as multipart** is answered 500, not 4xx: "Server error" at the edge and "Failed to add product" on the route. This is because `request.formData()` throws inside the handler's outer `try`.
- **Reads at the edge** do not always degrade silently. `readProducts` returns `res.json()` without `await`, so a JSON rejection escapes its `catch`. GET then answers 500 "Server error", and POST and DELETE fail the same way.
- **On the route, a read or upload failure during POST or DELETE** is a 500. Only GET degrades, to `{ products: [] }`.
- **Only the first `image` part** is used (`formData.get('image')`). There is no multi-image form and no `images` field.

## Model

| member | source | states |
|---|---|---|
| Text.IsSpace | api/admin/products.ts:67 | the characters JavaScript's `\s` matches: the ASCII whitespace controls, space, no-break space, the Unicode space separators, the line and paragraph separators and the byte-order mark; Text.CollapseHasNoSpace and Text.CollapseIsDashed state what the replacement does with them |
| Text.CollapseHasNoSpace | api/admin/products.ts:67 | after every whitespace run becomes `-`, no whitespace character remains |
| Text.CollapseKeepsClean | src/pages/api/admin/products/route.ts:60 | a name without whitespace is left unchanged |
| Text.CollapseIdempotent | api/admin/products.ts:67 | collapsing twice gives the same as collapsing once |
| Text.CollapseKeepsVisible | api/admin/products.ts:67 | the characters other than whitespace and `-` survive, in order |
| Text.CollapseSpaces | api/admin/products.ts:67 | `replace(/\s+/g, '-')`, run by run; pinned down by Text.CollapseIsDashed and the lemmas above |
| Text.CollapseIsDashed | api/admin/products.ts:67 | the replacement equals a character-wise reading: a whitespace character becomes `-` exactly when it starts a run, disappears inside a run, and every other character stays in place |
| Text.CollapseExample | src/pages/api/admin/products/route.ts:60 | the run of a space and a tab in "a \tb" becomes one dash: "a-b" |
| Text.ContainsAt | api/admin/products.ts:134 | `includes` holds exactly when the needle occurs at some index |
| Text.Contains | api/admin/products.ts:134 | `includes`; characterised by Text.ContainsAt |
| Text.Lower | src/pages/Products.tsx:96-97 | lower-casing keeps the length |
| Text.LowerIdempotent | src/pages/Products.tsx:96-97 | lower-casing a lower-cased string changes nothing |
| Text.Decimal | api/admin/products.ts:95 | the rendered clock reading is a non-empty digit string without a leading zero, except for 0 itself |
| Text.ParseDecimalOfDecimal | api/admin/products.ts:95 | reading the rendered clock back gives the clock reading |
| Text.DecimalInjective | api/admin/products.ts:95 | different clock readings render differently |
| Seqs.Filter | src/pages/Products.tsx:95-101 | the result is no longer than the input and holds only kept values |
| Seqs.FilterIsSubsequence | src/pages/Products.tsx:95-101 | `filter` keeps elements in their original order |
| Seqs.FilterCounts | src/pages/admin/dashboard/page.tsx:152 | a kept value appears as often as in the input; a dropped one does not appear |
| Seqs.FilterMembership | src/pages/Products.tsx:95-101 | a value is in the result exactly when it is in the input and kept |
| Seqs.FilterKeepsAll | src/pages/Products.tsx:95-101 | a filter that keeps every element returns the input |
| Seqs.FirstIndex | src/pages/Products.tsx:92-93 | the index of the first occurrence |
| Seqs.Distinct | src/pages/Products.tsx:92-93 | every input value is in the result, nothing else is, and nothing repeats |
| Seqs.DistinctInFirstOccurrenceOrder | src/pages/Products.tsx:92-93 | the values come out in order of first occurrence, as a `Set` iterates |
| Base64.Encode | api/admin/products.ts:77 | the output has 4 characters per started group of 3 bytes |
| Base64.DecodeEncode | api/admin/products.ts:77 | decoding the base64 text gives back exactly the bytes |
| Base64.EncodeAlphabet | api/admin/products.ts:77 | the output uses only the 64 alphabet symbols and `=` |
| Base64.Latin1 | api/admin/products.ts:75 | one character per byte, all below 256 |
| Base64.Latin1Append | api/admin/products.ts:74-76 | converting two chunks one after the other is the same as converting their concatenation |
| Base64.Btoa | api/admin/products.ts:77 | `btoa` succeeds exactly on strings whose characters are all below 256 |
| Base64.BtoaLatin1 | api/admin/products.ts:77 | `btoa` of the bytes' binary string is the base64 of the bytes |
| Catalog.Filled | api/admin/products.ts:59 | `!formData.get(key)` is false: the key is present with a non-empty value; Catalog.Validate and Dashboard.SubmissionAcceptedIff state what it accepts |
| Catalog.Validate | api/admin/products.ts:59-64 | an add is accepted exactly when category, name, description and link are non-empty and an image is present; the accepted values are the form's |
| Catalog.FindIndex | api/admin/products.ts:124 | -1 exactly when no product has the id; otherwise the first product with it |
| Catalog.ProductId | api/admin/products.ts:95 | the id `category-clock`; its properties are Catalog.IdForFixedClock and Catalog.IdDeterminesInputs |
| Catalog.AssetFilename | api/admin/products.ts:67 | `clock-name` with whitespace runs made `-`; its shape is Catalog.AssetFilenameShape |
| Catalog.AssetPath | api/admin/products.ts:83 | `products/` followed by the file name; NextRoute.PostAppends and EdgeApi.PostAppends state that the image is stored under it, Catalog.AssetFilenameShape states the name's shape |
| Catalog.DataUrl | api/admin/products.ts:78 | `data:<type>;base64,<bytes>`; Catalog.DataUrlCarriesBytes shows it carries the bytes |
| Catalog.NewProduct | api/admin/products.ts:94-102 | the `newProduct` record; NextRoute.PostAppends and EdgeApi.PostAppends state its id `category-clock`, its form fields, its image and its ISO time, and Catalog.IdDeterminesInputs that the id fixes category and clock |
| Catalog.RemoveAt | api/admin/products.ts:141 | `splice(k, 1)`; Catalog.RemoveFirstMatch states what it removes and keeps |
| Catalog.IsDurable | api/admin/products.ts:134 | the image names `vercel-storage.com`; Catalog.EmbeddedIsNotDurable is its partner |
| Catalog.IdForFixedClock | api/admin/products.ts:95 | category "automation" at clock 1700000000000 gives id "automation-1700000000000" |
| Catalog.IdDeterminesInputs | api/admin/products.ts:95 | equal ids come from equal categories and equal clock readings |
| Catalog.AssetFilenameShape | api/admin/products.ts:67 | the file name starts with the clock reading and `-`, and has no whitespace |
| Catalog.DataUrlCarriesBytes | api/admin/products.ts:78 | the data URL is `data:<type>;base64,` followed by text that decodes to the uploaded bytes |
| Catalog.EmbeddedIsNotDurable | api/admin/products.ts:134 | an embedded image whose MIME type has no dot is never taken for a durable asset on delete |
| Catalog.AppendKeepsUnique | api/admin/products.ts:104 | appending a product with a new id keeps ids unique |
| Catalog.RemoveFirstMatch | api/admin/products.ts:141 | `splice` at the found index: one fewer entry, the removed entry is the first match, the multiset loses exactly it, the rest keep their order |
| Catalog.RemoveLeavesNoMatch | api/admin/products.ts:141 | with unique ids, no product with the id remains and ids stay unique |
| BlobStore.Fetch | src/pages/api/admin/products/route.ts:7-17 | the document is parsed exactly when a blob exists and every step succeeds; "no blob" means none exists and `list` did not throw |
| BlobStore.PutDocument | src/pages/api/admin/products/route.ts:20-28 | a successful document `put`: the catalog becomes the document and the assets are unchanged |
| BlobStore.PutAsset | src/pages/api/admin/products/route.ts:61-64 | a successful image `put`: the asset is stored under its URL, every other asset keeps its value, nothing else is added, and the catalog is unchanged |
| BlobStore.DeleteAsset | src/pages/api/admin/products/route.ts:121-127 | a successful `del`: the URL is gone, every other asset keeps its value, nothing is added, and the catalog is unchanged |
| BlobStore.Gateway.Read | src/pages/api/admin/products/route.ts:8-16 | the client's read yields what `Fetch` says for its catalog |
| BlobStore.Gateway.Write | src/pages/api/admin/products/route.ts:20-28 | on success the catalog becomes the new document; on failure nothing changes |
| BlobStore.Gateway.Publish | src/pages/api/admin/products/route.ts:61-64 | on success the asset is stored under the returned URL with its path, type and bytes; on failure nothing changes |
| BlobStore.Gateway.Delete | src/pages/api/admin/products/route.ts:121-127 | on success the asset is gone; on failure nothing changes |
| NextRoute.ReadSpec | src/pages/api/admin/products/route.ts:7-17 | `readProducts` on store values; NextRoute.ReadProducts is proved against it |
| NextRoute.GetSpec | src/pages/api/admin/products/route.ts:31-39 | `GET` on store values; its properties are the NextRoute.Get* lemmas |
| NextRoute.PostSpec | src/pages/api/admin/products/route.ts:42-93 | `POST` on store values; its properties are the NextRoute.Post* lemmas and NextRoute.AddThenList |
| NextRoute.DeleteSpec | src/pages/api/admin/products/route.ts:96-144 | `DELETE` on store values; its properties are the NextRoute.Delete* lemmas |
| NextRoute.ReadProducts | src/pages/api/admin/products/route.ts:7-17 | a fresh products object with the stored products, or `[]` for no blob or a non-OK fetch; `ForeignJson` for a stored document without a products array; an exception when `list`, `fetch` or the JSON parse throws |
| NextRoute.Get | src/pages/api/admin/products/route.ts:31-39 | the response is `GetSpec` of the store |
| NextRoute.Post | src/pages/api/admin/products/route.ts:42-93 | the new store and the response are `PostSpec` of the old store |
| NextRoute.Delete | src/pages/api/admin/products/route.ts:96-144 | the new store and the response are `DeleteSpec` of the old store |
| NextRoute.GetReturnsStored | src/pages/api/admin/products/route.ts:31-34 | a successful read lists the stored document |
| NextRoute.GetDegradesToEmpty | src/pages/api/admin/products/route.ts:32-38 | no blob, a failed fetch or any exception yields 200 with `{ products: [] }` |
| NextRoute.PostRejectsIncomplete | src/pages/api/admin/products/route.ts:51-56 | a missing or empty field or a missing image gives 400 "All fields are required" with the store unchanged |
| NextRoute.PostUploadFailureTouchesNothing | src/pages/api/admin/products/route.ts:59-64 | a failing upload gives 500 "Failed to add product" with the store unchanged |
| NextRoute.PostAppends | src/pages/api/admin/products/route.ts:66-85 | a successful add appends exactly one product at the end, with fields from the form, the id `category-clock`, the published URL and the clock's ISO time; the image is stored under `products/<clock>-<name>` |
| NextRoute.PostWriteFailureOrphansAsset | src/pages/api/admin/products/route.ts:78-91 | a failed write gives 500, the document is unchanged and the uploaded asset stays |
| NextRoute.DeleteRequiresId | src/pages/api/admin/products/route.ts:101-106 | no id or an empty id gives 400 "Product ID is required" with the store unchanged |
| NextRoute.DeleteUnknownIs404 | src/pages/api/admin/products/route.ts:108-116 | an id no product has gives 404 "Product not found" with the store unchanged |
| NextRoute.DeleteRemovesFirstMatch | src/pages/api/admin/products/route.ts:108-136 | the first product with the id is removed and the others keep their order; the image is deleted only when it names `vercel-storage.com` and the deletion succeeds; the removal does not depend on that |
| NextRoute.DeleteWriteFailureKeepsDocument | src/pages/api/admin/products/route.ts:129-142 | a failed write gives 500 and the document keeps the product |
| NextRoute.AddThenList | src/pages/api/admin/products/route.ts:31-85 | after a successful add, listing returns the earlier products followed by the new one |
| NextRoute.DeleteThenDeleteAgain | src/pages/api/admin/products/route.ts:96-136 | with unique ids, after a delete the id is gone and deleting it again gives 404 |
| EdgeApi.SourceOf | api/admin/products.ts:16-27 | where `readProducts` takes its document from; EdgeApi.ReadProducts is proved against it |
| EdgeApi.WriteSpec | api/admin/products.ts:29-42 | `writeProducts` on values; EdgeApi.WriteProducts is proved against it |
| EdgeApi.GetSpec | api/admin/products.ts:46-49 | GET on values; its properties are EdgeApi.GetEmptyWithoutDocument and EdgeApi.GetFallsBackToMemory |
| EdgeApi.PostSpec | api/admin/products.ts:51-111 | POST on values; its properties are the EdgeApi.Post* lemmas and the offline and failure lemmas |
| EdgeApi.PublishSpec | api/admin/products.ts:81-91 | the put-or-embed step; EdgeApi.PostAppends states the stored asset and URL when the put succeeds, EdgeApi.PostEmbedsUnpublishedImage the data URL and the untouched assets when it throws |
| EdgeApi.DeleteSpec | api/admin/products.ts:113-147 | DELETE on values; its properties are the EdgeApi.Delete* lemmas and EdgeApi.OfflineDeleteThenDeleteAgain |
| EdgeApi.RemoveSpec | api/admin/products.ts:124-146 | `findIndex`, the best-effort `del`, the `splice` and the write; EdgeApi.DeleteUnknownIs404 and EdgeApi.DeleteRemovesFirstMatch state its two outcomes |
| EdgeApi.HandleSpec | api/admin/products.ts:44-160 | the dispatch on the method; EdgeApi.OtherMethodsRefused is its 405 case |
| EdgeApi.GetMem | api/admin/products.ts:10-14 | the slot is created empty on first access and the same object is returned afterwards |
| EdgeApi.ToDataUrl | api/admin/products.ts:69-79 | converting in 0x8000-byte chunks gives `data:<type>;base64,` plus the base64 of all the bytes |
| EdgeApi.ReadProducts | api/admin/products.ts:16-27 | a fresh object for the stored document or `[]`; the memory object itself when `list` or `fetch` throws; a rejection when JSON parsing rejects |
| EdgeApi.WriteProducts | api/admin/products.ts:29-42 | on success the store holds the document; on failure the memory document holds a copy of its products |
| EdgeApi.Get | api/admin/products.ts:46-49 | the new world and the response are `GetSpec` of the old; a slot created during the call is a fresh object |
| EdgeApi.Post | api/admin/products.ts:51-111 | the new world and the response are `PostSpec` of the old, with the aliasing of the memory document; a slot created during the call is a fresh object |
| EdgeApi.Delete | api/admin/products.ts:113-147 | the new world and the response are `DeleteSpec` of the old, with the aliasing of the memory document; a slot created during the call is a fresh object |
| EdgeApi.Handle | api/admin/products.ts:44-160 | the new world and the response are `HandleSpec` of the old; a slot created during the call is a fresh object |
| EdgeApi.OtherMethodsRefused | api/admin/products.ts:149-152 | any method other than GET, POST and DELETE gives 405 and changes nothing |
| EdgeApi.GetEmptyWithoutDocument | api/admin/products.ts:18-21 | no blob, or a non-OK fetch, lists an empty catalog |
| EdgeApi.GetFallsBackToMemory | api/admin/products.ts:23-26 | a throwing `list` lists the memory document and creates it on first use |
| EdgeApi.PostRejectsIncomplete | api/admin/products.ts:59-64 | a missing or empty field or a missing image gives 400 and changes nothing |
| EdgeApi.PostAppends | api/admin/products.ts:81-105 | a successful add appends one product built from the form, to the store or, when the write fails, to the memory document; the image is the published URL or the embedded data URL; a published image is stored under `products/<clock>-<name>` with its type and bytes, and otherwise the assets are unchanged; a failed write leaves the stored catalog alone, and a successful write after a read from the store leaves the memory slot alone |
| EdgeApi.PostEmbedsUnpublishedImage | api/admin/products.ts:88-91 | when publishing throws, no asset is stored and the product's image is the data URL |
| EdgeApi.DeleteRequiresId | api/admin/products.ts:116-121 | no id or an empty id gives 400 and changes nothing |
| EdgeApi.DeleteUnknownIs404 | api/admin/products.ts:123-130 | an unknown id gives 404; the store and the memory document keep their contents |
| EdgeApi.DeleteRemovesFirstMatch | api/admin/products.ts:123-142 | the first match is removed and the others keep their order, in the store or the memory document; only a durable image is deleted, and a failing deletion is ignored; a failed write leaves the stored catalog alone, and a successful write after a read from the store leaves the memory slot alone |
| EdgeApi.PostAgreesOnline | api/admin/products.ts:51-111 | while every store call succeeds, POST changes the store as the route's does and leaves the slot alone; the status is the route's; the answer is 500 exactly for an undecodable body or, once the form is complete, a stored document without a `products` array, and then it reads "Server error" where the route's reads "Failed to add product"; every other answer is the route's |
| EdgeApi.DeleteAgreesOnline | api/admin/products.ts:113-147 | while every store call succeeds, DELETE changes the store as the route's does and leaves the slot alone; the answer is 500 exactly for a non-empty id and a stored document without a `products` array, reading "Server error" where the route's reads "Failed to delete product"; every other answer is the route's |
| EdgeApi.AgreesWithRouteOnline | api/admin/products.ts:44-147 | while every store call succeeds (publish, read, write and delete), for any body, id and stored document: GET answers as the route's, and POST and DELETE change the store as the route's and leave the slot alone, with the route's answer except for the 500s of an undecodable body or a stored document without a `products` array, which are worded differently |
| EdgeApi.OfflineAddThenList | api/admin/products.ts:81-105 | with every store call failing, an add embeds the image, never touches the store, and the next listing ends with the new product |
| EdgeApi.OfflineDeleteThenDeleteAgain | api/admin/products.ts:123-142 | with every store call failing and unique ids, a delete removes the id from memory and a second delete gives 404 |
| EdgeApi.FailedWriteHidesAdd | api/admin/products.ts:29-42 | an add whose read reaches the store but whose write fails is acknowledged, lands only in memory, and is not listed by a later successful read |
| EdgeApi.FailedReadOverwritesStore | api/admin/products.ts:16-42 | an add whose read falls back but whose write succeeds overwrites the stored catalog with the memory document plus the product |
| ProductsPage.SectionFor | src/pages/Products.tsx:89-90 | the list and title for the route category; stated by ProductsPage.SectionChoice |
| ProductsPage.Manufacturers | src/pages/Products.tsx:92 | the manufacturer choices; stated by ProductsPage.ManufacturerChoices |
| ProductsPage.Subcategories | src/pages/Products.tsx:93 | the subcategory choices; stated by ProductsPage.SubcategoryChoices |
| ProductsPage.FilteredProducts | src/pages/Products.tsx:95-101 | the filtered list; stated by the ProductsPage.Filtered* lemmas and ProductsPage.ClearedFiltersShowAll |
| ProductsPage.MatchesSearch | src/pages/Products.tsx:96-97 | the lower-cased term occurs in the lower-cased name or part number; ProductsPage.SearchIgnoresCase and ProductsPage.EmptySearchMatches state its properties |
| ProductsPage.Matches | src/pages/Products.tsx:95-100 | the filter callback: search, manufacturer and subcategory; ProductsPage.SelectionsAreExact, ProductsPage.ClearedSelectionImposesNothing and ProductsPage.FilteredMembership state its properties |
| ProductsPage.SectionChoice | src/pages/Products.tsx:89-90 | only route category "electronics" selects the electronics list and the title "Electronics & Switch Gears"; every other value, and none, selects the automation list and "Marine & Industrial Automation" |
| ProductsPage.ManufacturerChoices | src/pages/Products.tsx:92 | each manufacturer of the list appears exactly once, nothing else does, in order of first appearance |
| ProductsPage.SubcategoryChoices | src/pages/Products.tsx:93 | each item category appears exactly once, nothing else does, in order of first appearance |
| ProductsPage.AutomationManufacturers | src/pages/Products.tsx:12-46 | the automation list offers Siemens, ABB and Schneider Electric, in that order |
| ProductsPage.FilteredIsSubsequence | src/pages/Products.tsx:95-101 | the filtered list is a subsequence of the list, in the original order |
| ProductsPage.FilteredMembership | src/pages/Products.tsx:95-101 | an item is shown exactly when it is in the list and passes search, manufacturer and subcategory |
| ProductsPage.SearchIgnoresCase | src/pages/Products.tsx:96-97 | the search ignores the case of the term |
| ProductsPage.EmptySearchMatches | src/pages/Products.tsx:96-97 | an empty term matches every item |
| ProductsPage.SelectionsAreExact | src/pages/Products.tsx:98-99 | a non-empty manufacturer or subcategory selection admits only exact matches |
| ProductsPage.ClearedSelectionImposesNothing | src/pages/Products.tsx:98-99 | an empty manufacturer or subcategory selection admits every item, leaving the search and the other selection to decide |
| ProductsPage.ClearedFiltersShowAll | src/pages/Products.tsx:95-101 | with all three filters empty the whole list is shown |
| Dashboard.CategoryLink | src/pages/admin/dashboard/page.tsx:148-150 | `getCategoryLink`; stated by Dashboard.CategoryLinkOfEntry and Dashboard.CategoryLinkEmptyIffUnknown |
| Dashboard.TabProducts | src/pages/admin/dashboard/page.tsx:152 | the per-tab list; stated by Dashboard.TabListsItsCategory |
| Dashboard.SubmittedForm | src/pages/admin/dashboard/page.tsx:88-95 | the form `handleSubmit` sends; stated by Dashboard.SubmittedFormShape and Dashboard.SubmissionAcceptedIff |
| Dashboard.FindOption | src/pages/admin/dashboard/page.tsx:149 | `find` returns nothing exactly when no entry has the value; otherwise the first entry that has it |
| Dashboard.CategoryTable | src/pages/admin/dashboard/page.tsx:139-145 | five entries with pairwise distinct, non-empty values and non-empty links |
| Dashboard.CategoryLinkOfEntry | src/pages/admin/dashboard/page.tsx:148-150 | the link of an entry's value is that entry's link |
| Dashboard.CategoryLinkEmptyIffUnknown | src/pages/admin/dashboard/page.tsx:148-150 | the link is `""` exactly when no entry has the category |
| Dashboard.InitialCategoryLink | src/pages/admin/dashboard/page.tsx:30-34 | the form's initial category "hydraulics" links to "/products/hydraulics" |
| Dashboard.TabListsItsCategory | src/pages/admin/dashboard/page.tsx:152 | the tab holds exactly the products of its category, each as often as stored, in stored order |
| Dashboard.SubmittedFormShape | src/pages/admin/dashboard/page.tsx:88-95 | the form always carries category, name, description and the looked-up link, and carries an image only when a file was chosen |
| Dashboard.SubmissionAcceptedIff | src/pages/admin/dashboard/page.tsx:88-95 | the endpoints accept the form exactly when name and description are filled, a file was chosen and the category is in the table; the accepted values are the inputs |

## Left out

- Multipart parsing: `request.formData()` is a platform call with no source here. The handlers start from a decoded `Form` of text fields and the first `image` file, or from `Undecodable`.
- JSON: serialisation and parsing of the document are not modelled as text. `readProducts` yields a `Document`, and `NoProductsArray` stands for any JSON value without a `products` array. A product is a record of strings, so a product whose `image` is not a string (the `typeof` test on delete) is not represented.
- `File` values: an `image` field that arrives as a text value instead of a file is not represented.
- The object store: `@vercel/blob` `list`, `put`, `del` and `fetch` are foreign calls. They are modelled as a store value whose calls succeed or fail as the request's `Env` says. `list`'s prefix match is modelled as an exact lookup of the single key. The URL `put` returns is an input.
- Overwriting the document at the edge: the edge's document `put` (api/admin/products.ts:32-36) omits the `allowOverwrite: true` that the route passes (src/pages/api/admin/products/route.ts:26). A blob client that refuses to overwrite an existing pathname without that option would make every edge write after the first throw. The model gives both handlers the same free `writeThrows` and does not tie a write failure to an existing blob. EdgeApi.AgreesWithRouteOnline therefore assumes a write that succeeds, which such a client would not allow once the catalog blob exists; the failing-write path is EdgeApi.FailedWriteHidesAdd.
- Clock: `Date.now()` and `new Date().toISOString()` are inputs (`Env.now`, `Env.isoNow`). Ids are not claimed to be unique across requests.
- Concurrency: handlers are modelled one request at a time. The lost update between two read-modify-write requests is not modelled.
- Text.Lower: lowers ASCII letters only, not the full Unicode `toLowerCase`.
- Responses: headers and JSON bodies beyond status, error message, listing and added product are not modelled (for example `success` and the `message` texts).
- The route's 405 for other methods comes from Next.js routing, not from the route file, and is not modelled.
- UI: rendering, `useState`/`useEffect`, the `localStorage` token check, `confirm`, `FileReader` previews, navigation and the dashboard's client-side `fetch` calls and messages.
- Static pages (`Home.tsx`, `About.tsx`, `Footer.tsx`, `Navbar.tsx`, `Contact.tsx`) and `ProductDetail.tsx`, whose one-entry table makes every id resolve to one record.
- Contact email route and the login handlers: email I/O and a credential check with random or clock-based tokens.
