# ProductController of the Allup admin area, in Dafny

The model covers the `ProductController` in the `Manage` area of the Allup shop.
An admin uses it to create products, to edit them, and to delete single
gallery images. Three of its actions change state:

- **POST `Create(Product)`** checks the request in a fixed order. The first
  failing check decides the response. It saves the main image, the hover image
  and every gallery file to the image folders as each one passes its checks.
  It then derives the product's `Seria` and `Code`, bumping the code of the
  newest product of the same seria, and adds the product.
- **POST `Update(int?, Product)`** checks the request the same way and finds the
  stored product. It checks that the new gallery files fit the remaining room
  (`5 - existing`). It replaces the main and hover images that are supplied,
  deleting the old file first. It appends the new gallery images and saves the
  tracked row.
- **`DeleteImage(int?)`** removes one gallery row and its file, and returns the
  owner's remaining gallery.

The project has six modules:

- `Wrappers`: `Option`.
- `Strings`: the parts of .NET's `string` the controller uses: `Trim`,
  `ToLower`, `Substring`, and `int` formatting.
- `Models`: the entities, the uploaded files, the bound form, and C#'s 32-bit
  `int` for the product code.
- `Catalog`: the LINQ queries, as pure functions over the tables.
- `Validation`: both validation pipelines, written two ways.
  - As an ordered list of `Step`s (a condition and the result returned when it
    fails first). `CreateSteps` and `UpdateSteps` list the steps in source
    order.
  - As direct, phase-by-phase functions: `CreateProgress` and `UpdateProgress`.
    These say what the action returns and how many of its files it has saved
    by the time it stops.
  - Lemmas prove the two forms agree, and state conditions under which a
    request gets through every check.
- `Manage`: the seria and code derivation, and the class `ProductController`.
  - Its fields are the product table, the two image folders
    (`assets/images/product` and `assets/images/product-quick`, as maps from
    file name to upload), and the counters that hand out database identities
    and fresh file names.
  - Each action is a method, split into helper methods the way the action's
    code falls into phases.
  - The invariant `Valid()` is `FilesValid()` and `TableValid()`. Every stored
    file has a name already handed out. Every stored row uses identities and
    names already handed out, and every gallery holds at most five images.
    Product keys increase in storage order, and no two gallery rows share a
    key. The actions and their helpers keep `Valid()`. `Insert`, `Store` and
    `Commit` touch only the table and keep `TableValid()`, and `DeleteFile`
    touches only the folders and keeps `FilesValid()`. Every `ensures` states
    the complete new state as a function of the old one and of the phase
    functions in `Validation`.

Entity Framework writes tracked rows back only at `SaveChangesAsync`. The
methods therefore edit a local copy of a row, and store it only where the
action calls `SaveChangesAsync`. An early `return View()` drops the row edits,
but files already written or deleted stay that way.

### Where the code does something a reader might not expect

The model follows the code in every one of these cases.

- **Code (ProductController.cs:153).** `Code` is not "the largest code of the
  seria plus one". The action takes the product of that seria with the highest
  `Id` and increments *that product's* `Code` (`+= 1` on a tracked entity, which
  `SaveChangesAsync` stores). The new product gets the same value, so afterwards
  two products share the code (`Manage.CodeSharedWithLatest`). The new product
  is then the newest of its seria, so the next Create of that seria bumps it in
  turn (`Manage.CreateThenNextCode`). Consecutive Creates of a new seria
  therefore get the codes 1, 2, 3, ... (`Manage.CodesCountUp`). The other
  successful actions leave the next code of a seria as it was, each step on its
  own: a Create of another seria (`Manage.OtherCreateKeepsCode`), an Update
  (`Manage.UpdateKeepsCode`) and a `DeleteImage`
  (`Manage.DeleteImageKeepsCode`). A request that fails changes no row. The
  increment is unchecked 32-bit arithmetic and wraps at `int.MaxValue`
  (`Models.Inc32`).
- **Files before checks (:92, :114, :142).** Create stores the main image before
  it checks the hover image, and stores gallery files one by one. A later
  failing check returns the form but leaves the earlier files stored
  (`Validation.CreateKeepsMainOnHoverFailure`, `Manage.ProductController.Create`).
- **Update and its old files.** Update deletes the old main or hover file and
  stores the new one before the later checks run. If a later check fails, the
  row is not saved and still names the deleted file
  (`Manage.ProductController.Update`, its files clause).
- **Name trim in Update (:287).** `product.Name = product.Name.Trim()` assigns to
  the bound form, not to `dbProduct`. Update therefore never changes a stored
  product's name, brand, category, seria or code
  (`Manage.EditedTouchesOnlyImages`).
- **Hover error key (:104, :243).** The hover image's content-type error is
  added under the key `"MainFHoveFileile"`. The model keeps that key.
- **Seria exception (:151).** `Substring(0, 2)` throws when the brand name or the
  trimmed product name is shorter than two characters. Create then fails with an
  unhandled exception after its files are saved. The model returns
  `ServerError` and leaves the rows unchanged (`Manage.ProductController.Insert`).

## Model

All source paths are in `P129Allup/P129Allup/Areas/Manage/Controllers/`; the
cells below give the path in full.

| member | source | states |
|---|---|---|
| Strings.IsWhiteSpace | P129Allup/P129Allup/Areas/Manage/Controllers/ProductController.cs:151 | `char.IsWhiteSpace`, which `Trim` strips: the Unicode space, line and paragraph separators and the controls U+0009 to U+000D and U+0085 |
| Strings.TrimStart | P129Allup/P129Allup/Areas/Manage/Controllers/ProductController.cs:151 | the result is a suffix of the input that is empty or starts with a non-white-space character |
| Strings.TrimStartDropsWhiteSpace | P129Allup/P129Allup/Areas/Manage/Controllers/ProductController.cs:151 | everything TrimStart removes is white space |
| Strings.TrimEnd | P129Allup/P129Allup/Areas/Manage/Controllers/ProductController.cs:151 | the result is a prefix of the input that is empty or ends with a non-white-space character |
| Strings.TrimEndDropsWhiteSpace | P129Allup/P129Allup/Areas/Manage/Controllers/ProductController.cs:151 | everything TrimEnd removes is white space |
| Strings.Trim | P129Allup/P129Allup/Areas/Manage/Controllers/ProductController.cs:151 | the trimmed name is no longer than the name and has no white space at either end |
| Strings.TrimStartSkipsPadding | P129Allup/P129Allup/Areas/Manage/Controllers/ProductController.cs:151 | leading white space makes no difference to TrimStart |
| Strings.TrimEndSkipsPadding | P129Allup/P129Allup/Areas/Manage/Controllers/ProductController.cs:151 | trailing white space makes no difference to TrimEnd |
| Strings.TrimStartOfPadded | P129Allup/P129Allup/Areas/Manage/Controllers/ProductController.cs:151 | trailing white space passes through TrimStart unless nothing else is left |
| Strings.TrimIgnoresTrailing | P129Allup/P129Allup/Areas/Manage/Controllers/ProductController.cs:151 | white space added after a name does not change its trim |
| Strings.TrimIgnoresPadding | P129Allup/P129Allup/Areas/Manage/Controllers/ProductController.cs:151 | white space added on either side of a name does not change its trim |
| Strings.TrimOfTrimmed | P129Allup/P129Allup/Areas/Manage/Controllers/ProductController.cs:157 | a name with no white space at either end is its own trim |
| Strings.TrimIdempotent | P129Allup/P129Allup/Areas/Manage/Controllers/ProductController.cs:157 | trimming twice is trimming once |
| Strings.LowerChar | P129Allup/P129Allup/Areas/Manage/Controllers/ProductController.cs:151 | the lowered character is not a capital, and is white space exactly when the original is |
| Strings.ToLower | P129Allup/P129Allup/Areas/Manage/Controllers/ProductController.cs:151 | same length; no capital is left; each capital becomes its small letter; every other character is kept |
| Strings.ToLowerIdempotent | P129Allup/P129Allup/Areas/Manage/Controllers/ProductController.cs:151 | lowering twice is lowering once |
| Strings.ToLowerConcat | P129Allup/P129Allup/Areas/Manage/Controllers/ProductController.cs:151 | lowering a concatenation lowers each part |
| Strings.Substring | P129Allup/P129Allup/Areas/Manage/Controllers/ProductController.cs:151 | defined exactly when the range lies inside the string (otherwise .NET throws); then it has the requested length and the characters at that range |
| Strings.NatToString | P129Allup/P129Allup/Areas/Manage/Controllers/ProductController.cs:216 | a non-empty string of decimal digits, with a leading `0` only for zero |
| Strings.NatToStringValue | P129Allup/P129Allup/Areas/Manage/Controllers/ProductController.cs:216 | the digits, read back as a decimal number, give the number that was formatted |
| Strings.IntToString | P129Allup/P129Allup/Areas/Manage/Controllers/ProductController.cs:216 | non-empty; a minus sign first exactly when the number is negative, then digits without a leading zero; all digits otherwise |
| Strings.IntToStringValue | P129Allup/P129Allup/Areas/Manage/Controllers/ProductController.cs:216 | the digits, read back, give the number, or for a negative number its magnitude after the sign |
| Models.Inc32 | P129Allup/P129Allup/Areas/Manage/Controllers/ProductController.cs:153 | `Code += 1` on a C# `int`: adds one modulo 2^32 in two's complement |
| Models.AcceptableUpload | P129Allup/P129Allup/Areas/Manage/Controllers/ProductController.cs:80-90 | a file passes both upload checks: `CheckContentType("image/jpeg")` holds and `CheckFileLength(50)` does not |
| Catalog.HasActiveBrand | P129Allup/P129Allup/Areas/Manage/Controllers/ProductController.cs:54 | `Brands.AnyAsync(b => !b.IsDeleted && b.Id == BrandId)`, Create's brand check, made again by Update at :194: some brand row has the id and is not deleted |
| Catalog.HasSelectableCategory | P129Allup/P129Allup/Areas/Manage/Controllers/ProductController.cs:66 | `Categories.AnyAsync(c => !c.IsDeleted && !c.IsMain && c.Id == CategoryId)`, made again by Update at :206: some category row has the id, is not deleted and is not a main category |
| Catalog.IndexOf | P129Allup/P129Allup/Areas/Manage/Controllers/ProductController.cs:190 | the search behind every `FirstOrDefault` on a key: the first position holding the key; none exactly when no position holds it |
| Catalog.BrandIds | P129Allup/P129Allup/Areas/Manage/Controllers/ProductController.cs:151 | the Id column of the brand table, in storage order |
| Catalog.ProductIds | P129Allup/P129Allup/Areas/Manage/Controllers/ProductController.cs:190 | the Id column of the product table, in storage order |
| Catalog.ImageIds | P129Allup/P129Allup/Areas/Manage/Controllers/ProductController.cs:299 | the Id column of one gallery, in storage order |
| Catalog.FirstBrand | P129Allup/P129Allup/Areas/Manage/Controllers/ProductController.cs:151 | the first brand with the id, deleted or not; none exactly when no brand has the id |
| Catalog.ActiveBrandIsFound | P129Allup/P129Allup/Areas/Manage/Controllers/ProductController.cs:54-58 | once the brand check at :54 has passed, the brand lookup at :151 finds a row |
| Catalog.FindProduct | P129Allup/P129Allup/Areas/Manage/Controllers/ProductController.cs:190-192 | the first product with the id; none exactly when no product has it |
| Catalog.LatestWithSeria | P129Allup/P129Allup/Areas/Manage/Controllers/ProductController.cs:153 | a product of the seria whose id no product of the seria exceeds; the earliest such when ids repeat; none exactly when no product has the seria |
| Catalog.NewestIsLatest | P129Allup/P129Allup/Areas/Manage/Controllers/ProductController.cs:153 | a row appended with a key above every stored key is the row the seria query picks for its seria |
| Catalog.SameKeys | P129Allup/P129Allup/Areas/Manage/Controllers/ProductController.cs:153 | two tables agree row by row on the keys, on which rows have the seria, and on those rows' codes |
| Catalog.LatestSame | P129Allup/P129Allup/Areas/Manage/Controllers/ProductController.cs:153 | tables that agree so give the same answer to the seria query |
| Catalog.OtherSeriaIgnored | P129Allup/P129Allup/Areas/Manage/Controllers/ProductController.cs:153 | a row of another seria appended to the table does not change the row the seria query picks |
| Catalog.FindImage | P129Allup/P129Allup/Areas/Manage/Controllers/ProductController.cs:299-301 | the first gallery row with the id, as (product, position); none exactly when no gallery holds it |
| Catalog.FindInGallery | P129Allup/P129Allup/Areas/Manage/Controllers/ProductController.cs:299 | the first position in one gallery with the id; none exactly when it holds none |
| Catalog.RemoveAt | P129Allup/P129Allup/Areas/Manage/Controllers/ProductController.cs:305 | removing one image keeps the others in order and removes exactly that element from the multiset |
| Validation.Invalid | P129Allup/P129Allup/Areas/Manage/Controllers/ProductController.cs:56-57 | `ModelState.AddModelError(key, message)` followed by `return View()`: the form again, with that one error; the error constants beside it carry the source's keys and messages, the misspelt hover key included |
| Validation.FirstFailure | P129Allup/P129Allup/Areas/Manage/Controllers/ProductController.cs:52-146 | the index where a chain of early returns stops: every step before it passed and the step at it failed |
| Validation.StopsAt | P129Allup/P129Allup/Areas/Manage/Controllers/ProductController.cs:52-146 | a position with all earlier steps passing and this one failing is the stopping point |
| Validation.FirstFailureConcat | P129Allup/P129Allup/Areas/Manage/Controllers/ProductController.cs:52-146 | the second part of a chain is reached only when the whole first part passes |
| Validation.Rejection | P129Allup/P129Allup/Areas/Manage/Controllers/ProductController.cs:52-146 | none exactly when every step passes; otherwise the result of a failing step |
| Validation.RejectionConcat | P129Allup/P129Allup/Areas/Manage/Controllers/ProductController.cs:52-146 | the result of a chain of two parts is that of the first part, if it rejects, and otherwise that of the second |
| Validation.ReferenceSteps | P129Allup/P129Allup/Areas/Manage/Controllers/ProductController.cs:54-70 | the brand check, then "category missing", then "category invalid", each with its error |
| Validation.ImageChecks | P129Allup/P129Allup/Areas/Manage/Controllers/ProductController.cs:220-232 | an image's content-type check and then its size check, passing when no file is supplied |
| Validation.RequiredImageSteps | P129Allup/P129Allup/Areas/Manage/Controllers/ProductController.cs:78-98 | a required image: "missing" first, then the two image checks |
| Validation.CreateMainSteps | P129Allup/P129Allup/Areas/Manage/Controllers/ProductController.cs:78-98 | Create's main-image steps: missing, then not a JPEG, then too large, with the `MainFile` errors |
| Validation.CreateHoverSteps | P129Allup/P129Allup/Areas/Manage/Controllers/ProductController.cs:100-120 | Create's hover-image steps: missing, then not a JPEG under the key `MainFHoveFileile`, then too large under `HoveFile` |
| Validation.GallerySteps | P129Allup/P129Allup/Areas/Manage/Controllers/ProductController.cs:126-138 | two checks per gallery file, content type then size, in upload order |
| Validation.GalleryStopsAt | P129Allup/P129Allup/Areas/Manage/Controllers/ProductController.cs:126-146 | the gallery checks stop at the first failing file, with its content-type error if it is not a JPEG and its size error otherwise |
| Validation.GalleryPassed | P129Allup/P129Allup/Areas/Manage/Controllers/ProductController.cs:126-146 | the number of files the loop saves: all before it pass both checks, and the next one fails |
| Validation.GalleryCheck | P129Allup/P129Allup/Areas/Manage/Controllers/ProductController.cs:126-138 | the gallery loop rejects nothing exactly when every file passes |
| Validation.GalleryAgrees | P129Allup/P129Allup/Areas/Manage/Controllers/ProductController.cs:126-146 | the file-by-file loop and the list of gallery steps give the same result and the same number of files saved |
| Validation.CreateChecks | P129Allup/P129Allup/Areas/Manage/Controllers/ProductController.cs:52-76 | Create's five checks before any file, in source order |
| Validation.CreateHead | P129Allup/P129Allup/Areas/Manage/Controllers/ProductController.cs:52-120 | the eleven steps before the gallery |
| Validation.CreateSteps | P129Allup/P129Allup/Areas/Manage/Controllers/ProductController.cs:52-146 | Create's whole pipeline, with two steps per gallery file |
| Validation.UpdateTarget | P129Allup/P129Allup/Areas/Manage/Controllers/ProductController.cs:188-192 | the row Update edits; none exactly when the id is null or no product has it |
| Validation.Capacity | P129Allup/P129Allup/Areas/Manage/Controllers/ProductController.cs:212 | `5 - dbProduct.ProductImages.Count()` for the target row |
| Validation.OverCapacity | P129Allup/P129Allup/Areas/Manage/Controllers/ProductController.cs:216 | the capacity error under the key `Files`, with the message `Can Select <n> items` |
| Validation.UpdateChecks | P129Allup/P129Allup/Areas/Manage/Controllers/ProductController.cs:186-218 | Update's seven checks before any file, in source order |
| Validation.UpdateHead | P129Allup/P129Allup/Areas/Manage/Controllers/ProductController.cs:186-251 | the eleven steps before the gallery |
| Validation.UpdateSteps | P129Allup/P129Allup/Areas/Manage/Controllers/ProductController.cs:186-283 | Update's whole pipeline |
| Validation.GallerySaved | P129Allup/P129Allup/Areas/Manage/Controllers/ProductController.cs:126-146 | no gallery file is saved before the gallery steps; all are saved when every step passes |
| Validation.GalleryProgress | P129Allup/P129Allup/Areas/Manage/Controllers/ProductController.cs:122-149 | the loop never saves more files than were uploaded |
| Validation.CreateRequestCheck | P129Allup/P129Allup/Areas/Manage/Controllers/ProductController.cs:52-76 | none exactly when the model is valid, the brand is active, the category is given and selectable, and there are at most five files |
| Validation.RequiredImageCheck | P129Allup/P129Allup/Areas/Manage/Controllers/ProductController.cs:78-120 | a required image passes exactly when it is present, a JPEG and not too large |
| Validation.ImageCheck | P129Allup/P129Allup/Areas/Manage/Controllers/ProductController.cs:220-251 | an optional image passes exactly when it is absent or acceptable |
| Validation.UpdateRequestCheck | P129Allup/P129Allup/Areas/Manage/Controllers/ProductController.cs:186-218 | none exactly when the model is valid, the product exists, brand and category pass, and the files fit the capacity |
| Validation.UpdateRequestPassed | P129Allup/P129Allup/Areas/Manage/Controllers/ProductController.cs:186-218 | once every request check has passed, the id is given, the target exists, its gallery and the new files fit in five, and Update goes on as EditProgress says |
| Validation.CreateProgress | P129Allup/P129Allup/Areas/Manage/Controllers/ProductController.cs:52-146 | the hover image is saved only after the main image, and only files that were supplied are saved |
| Validation.AddProgress | P129Allup/P129Allup/Areas/Manage/Controllers/ProductController.cs:78-146 | the same, once the request checks have passed |
| Validation.UpdateProgress | P129Allup/P129Allup/Areas/Manage/Controllers/ProductController.cs:186-283 | a named image counts as saved only if it was supplied |
| Validation.EditProgress | P129Allup/P129Allup/Areas/Manage/Controllers/ProductController.cs:220-283 | the same, once the request checks have passed |
| Validation.ImageChecksOutcome | P129Allup/P129Allup/Areas/Manage/Controllers/ProductController.cs:220-232 | the two image checks stop at the content type, then at the size, and agree with ImageCheck |
| Validation.RequiredImageOutcome | P129Allup/P129Allup/Areas/Manage/Controllers/ProductController.cs:78-98 | a required image stops at "missing", or else where its two checks stop, and agrees with RequiredImageCheck |
| Validation.ReferenceOutcome | P129Allup/P129Allup/Areas/Manage/Controllers/ProductController.cs:54-70 | brand, then category missing, then category invalid: the stopping point and the error |
| Validation.CreateChecksOutcome | P129Allup/P129Allup/Areas/Manage/Controllers/ProductController.cs:52-76 | the list of Create's first checks and CreateRequestCheck agree |
| Validation.CreateSegments | P129Allup/P129Allup/Areas/Manage/Controllers/ProductController.cs:52-146 | Create stops in the first segment that rejects, with that segment's result |
| Validation.UpdateChecksOutcome | P129Allup/P129Allup/Areas/Manage/Controllers/ProductController.cs:186-218 | the list of Update's first checks and UpdateRequestCheck agree |
| Validation.UpdateSegments | P129Allup/P129Allup/Areas/Manage/Controllers/ProductController.cs:186-283 | Update stops in the first segment that rejects, with that segment's result |
| Validation.AllPass | P129Allup/P129Allup/Areas/Manage/Controllers/ProductController.cs:52-146 | a pipeline runs to its end exactly when every step passes |
| Validation.GalleryStepsPass | P129Allup/P129Allup/Areas/Manage/Controllers/ProductController.cs:126-138 | every gallery step passes exactly when every file is a JPEG and not too large |
| Validation.GalleryAcceptable | P129Allup/P129Allup/Areas/Manage/Controllers/ProductController.cs:126-138 | every gallery file passes both upload checks |
| Validation.OptionalAcceptable | P129Allup/P129Allup/Areas/Manage/Controllers/ProductController.cs:220-251 | an optional image is absent or passes both upload checks |
| Validation.CreateAccepts | P129Allup/P129Allup/Areas/Manage/Controllers/ProductController.cs:52-146 | all that Create demands at once: a valid model, an active brand, a selectable category, at most five files, a main and a hover image that pass, every gallery file passing |
| Validation.UpdateAccepts | P129Allup/P129Allup/Areas/Manage/Controllers/ProductController.cs:186-283 | all that Update demands at once: a valid model, an existing target, an active brand, a selectable category, the files fitting beside the gallery, supplied images and every gallery file passing |
| Validation.CreateAcceptsIff | P129Allup/P129Allup/Areas/Manage/Controllers/ProductController.cs:52-146 | Create's pipeline runs to its end exactly when the request meets every condition of CreateAccepts |
| Validation.UpdateAcceptsIff | P129Allup/P129Allup/Areas/Manage/Controllers/ProductController.cs:186-283 | Update's pipeline runs to its end exactly when the request meets every condition of UpdateAccepts |
| Validation.CreateFollowsPipeline | P129Allup/P129Allup/Areas/Manage/Controllers/ProductController.cs:52-146 | the phase-by-phase Create and its list of steps agree on the result, and on when the main image, the hover image and each gallery file are saved |
| Validation.UpdateFollowsPipeline | P129Allup/P129Allup/Areas/Manage/Controllers/ProductController.cs:186-283 | the same agreement for Update, where a named image is saved only if it was supplied |
| Validation.CreateProgressAccepts | P129Allup/P129Allup/Areas/Manage/Controllers/ProductController.cs:52-146 | Create gets past every check exactly when CreateAccepts holds |
| Validation.UpdateProgressAccepts | P129Allup/P129Allup/Areas/Manage/Controllers/ProductController.cs:186-283 | Update gets past every check exactly when UpdateAccepts holds |
| Validation.CreateCountsBeforeSaving | P129Allup/P129Allup/Areas/Manage/Controllers/ProductController.cs:72-76 | more than five files is rejected before any file is saved |
| Validation.CreateKeepsMainOnHoverFailure | P129Allup/P129Allup/Areas/Manage/Controllers/ProductController.cs:92-120 | when the hover image fails, Create returns the form with the main image already saved and no gallery file saved |
| Validation.UpdateGuardOrder | P129Allup/P129Allup/Areas/Manage/Controllers/ProductController.cs:186-192 | an invalid model wins over a null id, and a null id over an unknown one; they give View, BadRequest and NotFound |
| Validation.UpdateCapacityRule | P129Allup/P129Allup/Areas/Manage/Controllers/ProductController.cs:212-218 | past the reference checks, the files are accepted exactly when they fit beside the existing images; otherwise the error names `5 - existing` |
| Manage.Seria | P129Allup/P129Allup/Areas/Manage/Controllers/ProductController.cs:151 | defined exactly when the brand name and the trimmed name both have two characters; then it is those four characters, lowered |
| Manage.SeriaFor | P129Allup/P129Allup/Areas/Manage/Controllers/ProductController.cs:151 | the seria of the form's product: the first brand row with the id supplies the prefix; none when there is no such row (a null dereference) or Seria is undefined |
| Manage.SeriaExample | P129Allup/P129Allup/Areas/Manage/Controllers/ProductController.cs:151 | brand "Nike" and product "Air Max" give the seria "niai" |
| Manage.SeriaIgnoresPadding | P129Allup/P129Allup/Areas/Manage/Controllers/ProductController.cs:151 | white space around the product name does not change the seria |
| Manage.SeriaIgnoresBrandCase | P129Allup/P129Allup/Areas/Manage/Controllers/ProductController.cs:151 | lowering the brand name first does not change the seria |
| Manage.BumpCode | P129Allup/P129Allup/Areas/Manage/Controllers/ProductController.cs:153 | the table keeps its length; with no product of the seria, no row changes and the code is 1 |
| Manage.BumpChangesOnlyCodes | P129Allup/P129Allup/Areas/Manage/Controllers/ProductController.cs:153 | bumping changes the `Code` field of rows and no other field |
| Manage.CodeSharedWithLatest | P129Allup/P129Allup/Areas/Manage/Controllers/ProductController.cs:153 | when the seria is taken, the newest product of the seria is bumped to the new code, one more than its old code with wrap-around, and no other row changes |
| Manage.Saved | P129Allup/P129Allup/Areas/Manage/Controllers/ProductController.cs:142 | a folder after `CreateAsync` saved the uploads one after another under consecutive fresh names |
| Manage.SavedContents | P129Allup/P129Allup/Areas/Manage/Controllers/ProductController.cs:142 | saving files under consecutive fresh names stores each under its own name and leaves every other file as it was |
| Manage.SavedSnoc | P129Allup/P129Allup/Areas/Manage/Controllers/ProductController.cs:126-146 | saving one more file extends the folder by that file under the next name |
| Manage.NewGallery | P129Allup/P129Allup/Areas/Manage/Controllers/ProductController.cs:124-148 | one gallery row per saved file, in upload order, with consecutive identities and file names |
| Manage.NamedSaved | P129Allup/P129Allup/Areas/Manage/Controllers/ProductController.cs:92-114 | the main and hover uploads Create has stored by the time it stops, in that order |
| Manage.Replaced | P129Allup/P129Allup/Areas/Manage/Controllers/ProductController.cs:234-236 | one supplied image replaced: the old file deleted, then the new file saved under the fresh name; no change when no file is supplied |
| Manage.NewProduct | P129Allup/P129Allup/Areas/Manage/Controllers/ProductController.cs:155-159 | the row Create adds: the trimmed name, the seria and code, the main and hover images, and one gallery row per file |
| Manage.NewProductFits | P129Allup/P129Allup/Areas/Manage/Controllers/ProductController.cs:155-160 | the row Create adds has the next identity, gallery rows with the next image identities, and is well formed once its files have names |
| Manage.Edited | P129Allup/P129Allup/Areas/Manage/Controllers/ProductController.cs:220-289 | the row Update stores: a new main or hover image only where a file was supplied, and the new gallery rows after the old ones |
| Manage.EditedImages | P129Allup/P129Allup/Areas/Manage/Controllers/ProductController.cs:220-289 | Edited is the row with its two images set and the new gallery rows named after the images saved before them |
| Manage.EditedTouchesOnlyImages | P129Allup/P129Allup/Areas/Manage/Controllers/ProductController.cs:220-289 | Update changes a row's images only where files were supplied, keeps every other field, and keeps the old gallery in front of the new images |
| Manage.Count | P129Allup/P129Allup/Areas/Manage/Controllers/ProductController.cs:236-255 | how many file names an optional upload takes: one when it is supplied, none otherwise |
| Manage.ImageKeysDistinct | P129Allup/P129Allup/Areas/Manage/Controllers/ProductController.cs:284 | no two gallery rows of the table share a key |
| Manage.WellFormed | P129Allup/P129Allup/Areas/Manage/Controllers/ProductController.cs:159-160 | a stored row refers only to identities and file names already handed out, and its gallery holds at most five images (the limit of :72 and :212) |
| Manage.RowsValid | P129Allup/P129Allup/Areas/Manage/Controllers/ProductController.cs:159-160 | the database invariant: every row well formed, product keys strictly increasing in insertion order as identity keys are issued, and gallery keys distinct as the ProductImages primary key demands |
| Manage.KeysFrom | P129Allup/P129Allup/Areas/Manage/Controllers/ProductController.cs:284-289 | gallery rows that take consecutive identities from the next one on, as SaveChangesAsync issues them |
| Manage.FilesBelow | P129Allup/P129Allup/Areas/Manage/Controllers/ProductController.cs:92 | every file of a folder has a name already handed out by CreateAsync |
| Manage.RowsValidLater | P129Allup/P129Allup/Areas/Manage/Controllers/ProductController.cs:159-160 | handing out more identities and names keeps the table valid |
| Manage.BumpKeepsRowsValid | P129Allup/P129Allup/Areas/Manage/Controllers/ProductController.cs:153 | bumping a code keeps the table valid |
| Manage.AppendKeepsRowsValid | P129Allup/P129Allup/Areas/Manage/Controllers/ProductController.cs:159-160 | adding a row with the next identity, whose gallery rows take the next image identities, keeps the table valid, gallery keys included |
| Manage.ReplaceKeepsRowsValid | P129Allup/P129Allup/Areas/Manage/Controllers/ProductController.cs:289 | writing back an edited row, with the same identity and its old gallery followed by rows with the next image identities, keeps the table valid |
| Manage.WithoutImage | P129Allup/P129Allup/Areas/Manage/Controllers/ProductController.cs:305-306 | `ProductImages.Remove` and `SaveChangesAsync`: the owner's gallery loses that one image and every other row stays |
| Manage.RemoveKeepsRowsValid | P129Allup/P129Allup/Areas/Manage/Controllers/ProductController.cs:305 | removing one gallery row keeps the table valid |
| Manage.RemoveFoundImage | P129Allup/P129Allup/Areas/Manage/Controllers/ProductController.cs:299-305 | with distinct gallery keys the row found is the only one with the id, so once it is removed no gallery row has the id |
| Manage.NextCodeFollows | P129Allup/P129Allup/Areas/Manage/Controllers/ProductController.cs:153 | a row stored with a key above every other is the row the next Create of its seria bumps; that Create derives the row's code plus one |
| Manage.RunStep | P129Allup/P129Allup/Areas/Manage/Controllers/ProductController.cs:151-160 | one successful Create of the seria: the code bump, then the new row with the given identity and the derived code |
| Manage.CreateRun | P129Allup/P129Allup/Areas/Manage/Controllers/ProductController.cs:151-160 | the table after n such Creates in a row, the i-th taking the i-th identity from the product's on |
| Manage.RunCode | P129Allup/P129Allup/Areas/Manage/Controllers/ProductController.cs:153 | the code the n-th Create of that run derives |
| Manage.EndsRun | P129Allup/P129Allup/Areas/Manage/Controllers/ProductController.cs:153 | the newest row of the seria is the last row, holds code k and has the largest key |
| Manage.RunStepFirst | P129Allup/P129Allup/Areas/Manage/Controllers/ProductController.cs:153 | the first Create of a seria no row has derives code 1 and leaves its row, with code 1, newest |
| Manage.RunStepNext | P129Allup/P129Allup/Areas/Manage/Controllers/ProductController.cs:153 | after the newest row of the seria holds code k, the next Create derives k + 1 and leaves its row, with code k + 1, newest |
| Manage.CodesCountUp | P129Allup/P129Allup/Areas/Manage/Controllers/ProductController.cs:153 | n successive Creates of a seria no row has derive the codes 1, 2, ..., n, for n below 2^31 where Inc32 wraps |
| Manage.CreateThenNextCode | P129Allup/P129Allup/Areas/Manage/Controllers/ProductController.cs:153-160 | after a Create has stored its row with the next identity, the next Create of the same seria derives the code just assigned plus one |
| Manage.SameKeysSameCode | P129Allup/P129Allup/Areas/Manage/Controllers/ProductController.cs:153 | the next code of a seria depends only on the keys, the serias and that seria's codes |
| Manage.OtherCreateKeepsCode | P129Allup/P129Allup/Areas/Manage/Controllers/ProductController.cs:151-160 | a successful Create of another seria, code bump and new row included, leaves the next code of this seria as it was |
| Manage.UpdateKeepsCode | P129Allup/P129Allup/Areas/Manage/Controllers/ProductController.cs:284-289 | storing an Edited row leaves the next code of every seria as it was |
| Manage.DeleteImageKeepsCode | P129Allup/P129Allup/Areas/Manage/Controllers/ProductController.cs:305-306 | removing a gallery row leaves the next code of every seria as it was |
| Manage.ProductController.Valid | P129Allup/P129Allup/Areas/Manage/Controllers/ProductController.cs:26-30 | the controller invariant over the database it holds: FilesValid and TableValid |
| Manage.ProductController.FilesValid | P129Allup/P129Allup/Areas/Manage/Controllers/ProductController.cs:92 | both image folders hold only names already handed out |
| Manage.ProductController.TableValid | P129Allup/P129Allup/Areas/Manage/Controllers/ProductController.cs:159-160 | the product table satisfies RowsValid for the current counters |
| Manage.ProductController.constructor | P129Allup/P129Allup/Areas/Manage/Controllers/ProductController.cs:26-30 | the controller over the database it is given: its tables, folders and counters are the given ones, and a valid database gives a valid controller |
| Manage.ProductController.CreateFile | P129Allup/P129Allup/Areas/Manage/Controllers/ProductController.cs:92 | CreateAsync: stores the upload under a name not in use in either folder, and returns that name |
| Manage.ProductController.DeleteFile | P129Allup/P129Allup/Areas/Manage/Controllers/ProductController.cs:234 | FileHelper.DeleteFile: removes that name from the named folder and nothing else; every stored file keeps a name already handed out |
| Manage.ProductController.SaveGallery | P129Allup/P129Allup/Areas/Manage/Controllers/ProductController.cs:122-149 | the gallery loop returns the first failing file's error; the files before it are saved under consecutive names; on success, one row per file in order |
| Manage.ProductController.SaveRequiredImage | P129Allup/P129Allup/Areas/Manage/Controllers/ProductController.cs:78-98 | a required image is checked in order, and saved under the next name when it passes; on failure no file changes |
| Manage.ProductController.ReplaceImage | P129Allup/P129Allup/Areas/Manage/Controllers/ProductController.cs:220-237 | an optional image is checked; when it is supplied and passes, the old file is deleted and the new one saved; otherwise nothing changes |
| Manage.ProductController.SaveNamed | P129Allup/P129Allup/Areas/Manage/Controllers/ProductController.cs:78-120 | the main and then the hover image are saved as far as AddProgress says, and the result agrees with AddProgress |
| Manage.ProductController.ReplaceNamed | P129Allup/P129Allup/Areas/Manage/Controllers/ProductController.cs:220-256 | the main and then the hover image are replaced as far as EditProgress says; returns the names the row refers to next |
| Manage.ProductController.Finish | P129Allup/P129Allup/Areas/Manage/Controllers/ProductController.cs:122-162 | the gallery loop's files and result as GalleryCheck and GalleryPassed say; a failing file or a missing seria changes no row; otherwise the new row has the main and hover images under the two names before the gallery's |
| Manage.ProductController.Insert | P129Allup/P129Allup/Areas/Manage/Controllers/ProductController.cs:151-162 | with no seria (Substring throws), no row changes; otherwise the newest product of the seria has its code bumped and one row is added, with the trimmed name, the seria, the shared code, the saved images and the next identity |
| Manage.ProductController.Store | P129Allup/P129Allup/Areas/Manage/Controllers/ProductController.cs:159-160 | AddAsync and SaveChangesAsync: the rows become the tracked rows followed by the new one, and the product and image identities advance past it |
| Manage.ProductController.Create | P129Allup/P129Allup/Areas/Manage/Controllers/ProductController.cs:47-163 | returns what CreateProgress says; the folders hold exactly the files saved up to that point; a failed check changes no row; success adds exactly one product, with a gallery of one image per file in order, and changes no other row except the code bump |
| Manage.ProductController.Add | P129Allup/P129Allup/Areas/Manage/Controllers/ProductController.cs:78-163 | the same, once the request checks have passed, stated with AddProgress |
| Manage.ProductController.Update | P129Allup/P129Allup/Areas/Manage/Controllers/ProductController.cs:181-292 | returns what UpdateProgress says; a failed request check changes nothing; past it, the supplied images are replaced and the gallery files saved as far as the checks went; rows change only on success, and then only the target row, as Edited says |
| Manage.ProductController.Edit | P129Allup/P129Allup/Areas/Manage/Controllers/ProductController.cs:220-291 | the same, once the request checks have passed, stated with EditProgress |
| Manage.ProductController.EditGallery | P129Allup/P129Allup/Areas/Manage/Controllers/ProductController.cs:258-291 | the gallery loop and SaveChangesAsync: files saved as GalleryPassed says, the result GalleryCheck's; on success the row is stored with the new gallery rows appended, and on failure no row changes |
| Manage.ProductController.Commit | P129Allup/P129Allup/Areas/Manage/Controllers/ProductController.cs:284-289 | SaveChangesAsync: the tracked row is written back in place, and the new gallery rows take the next image identities |
| Manage.ProductController.DeleteImage | P129Allup/P129Allup/Areas/Manage/Controllers/ProductController.cs:295-311 | a null id gives BadRequest and an unknown id NotFound, both changing nothing; otherwise exactly that gallery row and its file are removed, no gallery row keeps the id, and the owner's remaining gallery is returned |
| Manage.ProductController.RemoveImage | P129Allup/P129Allup/Areas/Manage/Controllers/ProductController.cs:305-310 | the found row removed from its owner's gallery and its file from the gallery folder, returning the owner's remaining images |

## Left out

- The entity classes, the `IFormFile` extensions (`CheckContentType`,
  `CheckFileLength`, `CreateAsync`) and `FileHelper` are not part of this
  model. An upload is a record of its bytes and two booleans: it is a JPEG, and
  it is over 50 KB. `CreateAsync` stores the file under the next fresh name,
  and `DeleteFile` removes a name from its folder.
- File names are counters, not the names `CreateAsync` chooses. Two
  folders with one counter give names that are fresh in both folders.
- `async`/`await`, Entity Framework query translation, change tracking and
  navigation fix-up are left out. Tables are sequences, and a tracked row is a
  local copy written back at `SaveChangesAsync`.
- `ModelState.IsValid` is an input flag. The data-annotation rules behind it are
  left out, and so are views, `ViewBag` loading and the `[Authorize]` attribute.
- The read-only actions (`Index`, GET `Create`, GET `Update`) and the
  commented-out code at the end of the file are left out.
- Concurrency is left out: two requests racing on `Code`, and crashes between
  a file write and a database commit. Each action is one sequential request.
- Database identities are handed out in insertion order from a counter, so
  product ids increase in table order. The order of the stored rows is the
  order the queries see.
- Manage.ProductController.Create, Manage.ProductController.Update: a null
  `Files` list and an empty one are both the empty sequence. The source treats
  them alike except in Update's capacity check (:212-214) when a product
  already has more than five images. `Valid()` excludes that case.
- Strings.IntToString: the minus sign is the ASCII hyphen-minus. A current
  culture with another negative sign is not modelled. The capacity the
  controller formats at :216 is never negative under `Valid()`, so the text
  there carries no sign.
- Manage.ProductController.Insert: a null `Name` is not modelled. A name is
  always a string, so the `Trim()` at :151 and :157 in Create and at :287 in
  Update cannot throw.
- Strings.ToLower: `String.ToLower()` uses the current culture. The model
  assumes a culture that lowers the capitals A to Z to a to z and lowers no
  other character. Under Turkish or Azerbaijani cultures `I` lowers to the
  dotless `ı`, and every culture lowers non-ASCII capitals as well; neither is
  modelled.
- Strings.Substring: a .NET string is a sequence of UTF-16 code units, and a
  Dafny string here is a sequence of Unicode scalar values. A character outside
  the Basic Multilingual Plane is one position in the model and two in .NET, so
  for such text the lengths and positions differ.
- Manage.Seria: it takes the first two scalar values of each name, where .NET
  takes the first two UTF-16 code units. For a name whose first characters lie
  outside the Basic Multilingual Plane, the two differ, and .NET can split a
  surrogate pair.
- Strings.TrimStart: the fact that the removed prefix is white space is stated
  by the lemma Strings.TrimStartDropsWhiteSpace, not in the function's own
  `ensures`. Strings.TrimEnd is the same, with Strings.TrimEndDropsWhiteSpace.
