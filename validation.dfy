/**
  The validation that the POST actions Create and Update run, written out as
  an ordered list of steps: each step is a condition and the result the action
  returns when the condition is the first one that fails. The action methods in
  module Manage are proved to stop exactly where this list first fails, and the
  lemmas here say what that order means for the caller.
 */
module Validation {
  import opened Wrappers
  import opened Models
  import opened Catalog
  import opened Strings

  /** An entry ModelState.AddModelError adds: the field key and the message. */
  datatype ModelError = ModelError(key: string, message: string)

  /** What an action hands back to MVC. */
  datatype ActionResult =
    | RedirectToIndex                        // RedirectToAction("Index")
    | FormView(error: Option<ModelError>)    // View(), with the error just added, if any
    | BadRequest
    | NotFound
    | GalleryPartial(images: seq<ProductImage>)   // PartialView("_ProductImagePartial", ...)
    | ServerError                            // an exception the action does not catch

  /** `return View()` right after ModelState.AddModelError(e.key, e.message). */
  function Invalid(e: ModelError): ActionResult {
    FormView(Some(e))
  }

  // The errors the two actions add, with the keys and messages as they are
  // written (including the misspelt key of the hover content-type error).
  const BrandInvalid := ModelError("BrandId", "Select Correct Brand")
  const CategoryMissing := ModelError("CategoryId", "You Must Select Correct")
  const CategoryInvalid := ModelError("CategoryId", "Select Correct Category")
  const TooManyFiles := ModelError("Files", "Can Select Maximum 5 Image")
  const MainMissing := ModelError("MainFile", "Main Image Is Requered")
  const MainNotJpeg := ModelError("MainFile", "Main Image Must Be .jpg")
  const MainTooLarge := ModelError("MainFile", "Main Image Length Must Be 50kb")
  const HoverMissing := ModelError("HoveFile", "Second Image Is Requered")
  const HoverNotJpeg := ModelError("MainFHoveFileile", "Second Image Must Be .jpg")
  const HoverTooLarge := ModelError("HoveFile", "Second Image Length Must Be 50kb")
  const FileNotJpeg := ModelError("Files", "Files Image Must Be .jpg")
  const FileTooLarge := ModelError("Files", "Files Image Length Must Be 50kb")

  /** Update's capacity error, `$"Can Select {canSelecteCount} items"`. */
  function OverCapacity(canSelect: int): ModelError {
    ModelError("Files", "Can Select " + IntToString(canSelect) + " items")
  }

  datatype Step = Step(ok: bool, failure: ActionResult)

  /** The index of the first step that fails, |steps| when none does. */
  function FirstFailure(steps: seq<Step>): (k: nat)
    ensures k <= |steps|
    ensures forall j :: 0 <= j < k ==> steps[j].ok
    ensures k < |steps| ==> !steps[k].ok
  {
    if steps == [] || !steps[0].ok then 0 else 1 + FirstFailure(steps[1..])
  }

  /** The steps before the stopping point all passed and it failed: that is
      where the pipeline stops. */
  lemma StopsAt(steps: seq<Step>, k: nat)
    requires k <= |steps|
    requires forall j :: 0 <= j < k ==> steps[j].ok
    requires k < |steps| ==> !steps[k].ok
    ensures FirstFailure(steps) == k
  {
  }

  /** Running two lists one after the other: the second is reached only when
      the whole first one passes. */
  lemma {:induction false} FirstFailureConcat(a: seq<Step>, b: seq<Step>)
    ensures FirstFailure(a + b) == if FirstFailure(a) < |a| then FirstFailure(a) else |a| + FirstFailure(b)
  {
    if a == [] {
      assert a + b == b;
    } else {
      assert (a + b)[0] == a[0];
      if a[0].ok {
        assert (a + b)[1..] == a[1..] + b;
        FirstFailureConcat(a[1..], b);
      }
    }
  }

  /** The result of a pipeline that stopped early; None when every step passed. */
  function Rejection(steps: seq<Step>): (r: Option<ActionResult>)
    ensures r.None? <==> forall j :: 0 <= j < |steps| ==> steps[j].ok
    ensures r.None? <==> FirstFailure(steps) == |steps|
    ensures r.Some? ==> exists j :: 0 <= j < |steps| && !steps[j].ok && r.value == steps[j].failure
    ensures r.Some? ==> FirstFailure(steps) < |steps| && r.value == steps[FirstFailure(steps)].failure
  {
    var k := FirstFailure(steps);
    if k < |steps| then Some(steps[k].failure) else None
  }

  /** The result of two lists run one after the other. */
  lemma RejectionConcat(a: seq<Step>, b: seq<Step>)
    ensures Rejection(a + b) == if Rejection(a).Some? then Rejection(a) else Rejection(b)
  {
    FirstFailureConcat(a, b);
    var k := FirstFailure(a);
    if k < |a| {
      assert (a + b)[k] == a[k];
    } else if FirstFailure(b) < |b| {
      assert (a + b)[|a| + FirstFailure(b)] == b[FirstFailure(b)];
    }
  }

  // ---------------------------------------------------------------- the steps

  /** The brand and category checks, alike in Create and Update. */
  function ReferenceSteps(brands: seq<Brand>, categories: seq<Category>, form: ProductForm): seq<Step> {
    [ Step(HasActiveBrand(brands, form.brandId), Invalid(BrandInvalid)),
      Step(form.categoryId.Some?, Invalid(CategoryMissing)),
      Step(form.categoryId.None? || HasSelectableCategory(categories, form.categoryId.value), Invalid(CategoryInvalid)) ]
  }

  /** The two checks on a supplied main or hover image: content type, then
      size. They pass vacuously when no file is supplied. */
  function ImageChecks(f: Option<Upload>, notJpeg: ModelError, tooLarge: ModelError): seq<Step> {
    [ Step(f.None? || f.value.isJpeg, Invalid(notJpeg)),
      Step(f.None? || !f.value.tooLarge, Invalid(tooLarge)) ]
  }

  /** Create's checks on an image it requires: present, then ImageChecks. */
  function RequiredImageSteps(f: Option<Upload>, missing: ModelError, notJpeg: ModelError, tooLarge: ModelError): seq<Step> {
    [Step(f.Some?, Invalid(missing))] + ImageChecks(f, notJpeg, tooLarge)
  }

  /** Two checks per gallery file, file by file in upload order. */
  function GallerySteps(files: seq<Upload>): (steps: seq<Step>)
    ensures |steps| == 2 * |files|
  {
    seq(2 * |files|, j requires 0 <= j < 2 * |files| =>
      if j % 2 == 0 then Step(files[j / 2].isJpeg, Invalid(FileNotJpeg))
      else Step(!files[j / 2].tooLarge, Invalid(FileTooLarge)))
  }

  /** The gallery steps stop at the first file that fails a check: at its
      content-type step, or else at its size step; each file before it passed
      both and has been saved. */
  lemma GalleryStopsAt(files: seq<Upload>, i: nat)
    requires i <= |files|
    requires forall j :: 0 <= j < i ==> AcceptableUpload(files[j])
    requires i < |files| ==> !AcceptableUpload(files[i])
    ensures FirstFailure(GallerySteps(files)) / 2 == i
    ensures Rejection(GallerySteps(files))
            == if i == |files| then None
               else if !files[i].isJpeg then Some(Invalid(FileNotJpeg))
               else Some(Invalid(FileTooLarge))
  {
    var steps := GallerySteps(files);
    forall j | 0 <= j < 2 * i ensures steps[j].ok {
      assert AcceptableUpload(files[j / 2]);
    }
    if i == |files| {
      StopsAt(steps, 2 * i);
    } else if !files[i].isJpeg {
      StopsAt(steps, 2 * i);
    } else {
      assert steps[2 * i].ok;
      StopsAt(steps, 2 * i + 1);
    }
  }

  /** How many gallery files the loop saves: those before the first file
      that fails a check. */
  function GalleryPassed(files: seq<Upload>): (n: nat)
    ensures n <= |files|
    ensures forall j :: 0 <= j < n ==> AcceptableUpload(files[j])
    ensures n < |files| ==> !AcceptableUpload(files[n])
  {
    if files == [] || !AcceptableUpload(files[0]) then 0 else 1 + GalleryPassed(files[1..])
  }

  /** The loop's verdict: the first failing file's content-type or size error. */
  function GalleryCheck(files: seq<Upload>): (r: Option<ActionResult>)
    ensures r.None? <==> GalleryPassed(files) == |files|
  {
    var n := GalleryPassed(files);
    if n == |files| then None
    else if !files[n].isJpeg then Some(Invalid(FileNotJpeg))
    else Some(Invalid(FileTooLarge))
  }

  /** The loop, file by file, and the gallery steps agree. */
  lemma GalleryAgrees(files: seq<Upload>)
    ensures Rejection(GallerySteps(files)) == GalleryCheck(files)
    ensures FirstFailure(GallerySteps(files)) / 2 == GalleryPassed(files)
  {
    GalleryStopsAt(files, GalleryPassed(files));
  }

  /** Where the gallery checks begin, in both actions. */
  const GalleryStart: nat := 11

  /** The checks POST Create makes before touching any file: ModelState,
      brand, category and the number of gallery files. */
  function CreateChecks(brands: seq<Brand>, categories: seq<Category>, modelValid: bool, form: ProductForm): (steps: seq<Step>)
    ensures |steps| == 5
  {
    [Step(modelValid, FormView(None))]
    + ReferenceSteps(brands, categories, form)
    + [Step(|form.files| <= MaxGallery, Invalid(TooManyFiles))]
  }

  function CreateMainSteps(form: ProductForm): seq<Step> {
    RequiredImageSteps(form.mainFile, MainMissing, MainNotJpeg, MainTooLarge)
  }

  function CreateHoverSteps(form: ProductForm): seq<Step> {
    RequiredImageSteps(form.hoveFile, HoverMissing, HoverNotJpeg, HoverTooLarge)
  }

  /** The eleven steps before the gallery in POST Create. */
  function CreateHead(brands: seq<Brand>, categories: seq<Category>, modelValid: bool, form: ProductForm): (steps: seq<Step>)
    ensures |steps| == GalleryStart
  {
    CreateChecks(brands, categories, modelValid, form) + CreateMainSteps(form) + CreateHoverSteps(form)
  }

  function CreateSteps(brands: seq<Brand>, categories: seq<Category>, modelValid: bool, form: ProductForm): (steps: seq<Step>)
    ensures |steps| == GalleryStart + 2 * |form.files|
  {
    CreateHead(brands, categories, modelValid, form) + GallerySteps(form.files)
  }

  /** The product POST Update edits: the first row with the requested id. */
  function UpdateTarget(products: seq<Product>, id: Option<int>): (r: Option<nat>)
    ensures r.Some? ==> id.Some? && r.value < |products| && products[r.value].id == id.value
    ensures r.None? <==> id.None? || forall i :: 0 <= i < |products| ==> products[i].id != id.value
  {
    if id.None? then None else FindProduct(products, id.value)
  }

  /** How many more gallery images the target product can take (`5 - count`). */
  function Capacity(products: seq<Product>, id: Option<int>): int {
    var t := UpdateTarget(products, id);
    if t.Some? then MaxGallery - |products[t.value].gallery| else MaxGallery
  }

  /** The checks POST Update makes before touching any file: ModelState,
      id, lookup, brand, category and the gallery capacity. */
  function UpdateChecks(brands: seq<Brand>, categories: seq<Category>, products: seq<Product>,
                        modelValid: bool, id: Option<int>, form: ProductForm): (steps: seq<Step>)
    ensures |steps| == 7
  {
    var capacity := Capacity(products, id);
    [ Step(modelValid, FormView(None)),
      Step(id.Some?, BadRequest),
      Step(UpdateTarget(products, id).Some?, NotFound) ]
    + ReferenceSteps(brands, categories, form)
    + [Step(|form.files| <= capacity, Invalid(OverCapacity(capacity)))]
  }

  /** The eleven steps before the gallery in POST Update: its checks, then
      those on whichever of the main and hover images were supplied. */
  function UpdateHead(brands: seq<Brand>, categories: seq<Category>, products: seq<Product>,
                      modelValid: bool, id: Option<int>, form: ProductForm): (steps: seq<Step>)
    ensures |steps| == GalleryStart
  {
    UpdateChecks(brands, categories, products, modelValid, id, form)
    + ImageChecks(form.mainFile, MainNotJpeg, MainTooLarge)
    + ImageChecks(form.hoveFile, HoverNotJpeg, HoverTooLarge)
  }

  function UpdateSteps(brands: seq<Brand>, categories: seq<Category>, products: seq<Product>,
                       modelValid: bool, id: Option<int>, form: ProductForm): (steps: seq<Step>)
    ensures |steps| == GalleryStart + 2 * |form.files|
  {
    UpdateHead(brands, categories, products, modelValid, id, form) + GallerySteps(form.files)
  }

  // ------------------------------------------------ what was saved by then

  /** Gallery files are saved one by one, each after its two checks: the
      number saved when the pipeline stops at step k. */
  function GallerySaved(k: nat, n: nat): (g: nat)
    ensures g <= n
    ensures k <= GalleryStart ==> g == 0
    ensures k == GalleryStart + 2 * n ==> g == n
  {
    if k <= GalleryStart then 0
    else
      var g := (k - GalleryStart) / 2;
      if g < n then g else n
  }

  // ------------------------------------------------- the actions, directly

  /** How far an action got: the result it returned early (None when every
      check passed), whether it had saved the new main and hover images by
      then, and how many gallery files it had saved. */
  datatype Progress = Progress(rejection: Option<ActionResult>, mainSaved: bool, hoverSaved: bool, gallerySaved: nat)

  function Stopped(r: ActionResult): Progress {
    Progress(Some(r), false, false, 0)
  }

  /** The gallery loop, reached with the named images saved as given. */
  function GalleryProgress(files: seq<Upload>, mainSaved: bool, hoverSaved: bool): (p: Progress)
    ensures p.gallerySaved <= |files|
  {
    Progress(GalleryCheck(files), mainSaved, hoverSaved, GalleryPassed(files))
  }

  /** POST Create's checks before it touches a file (lines 52-75 of the
      action), in the order it makes them. */
  function CreateRequestCheck(brands: seq<Brand>, categories: seq<Category>, modelValid: bool, form: ProductForm)
    : (r: Option<ActionResult>)
    ensures r.None? <==> modelValid && HasActiveBrand(brands, form.brandId) && form.categoryId.Some?
                         && HasSelectableCategory(categories, form.categoryId.value) && |form.files| <= MaxGallery
  {
    if !modelValid then Some(FormView(None))
    else if !HasActiveBrand(brands, form.brandId) then Some(Invalid(BrandInvalid))
    else if form.categoryId.None? then Some(Invalid(CategoryMissing))
    else if !HasSelectableCategory(categories, form.categoryId.value) then Some(Invalid(CategoryInvalid))
    else if |form.files| > MaxGallery then Some(Invalid(TooManyFiles))
    else None
  }

  /** A required image: present, then of type image/jpeg, then small enough. */
  function RequiredImageCheck(f: Option<Upload>, missing: ModelError, notJpeg: ModelError, tooLarge: ModelError)
    : (r: Option<ActionResult>)
    ensures r.None? <==> f.Some? && AcceptableUpload(f.value)
  {
    if f.None? then Some(Invalid(missing)) else ImageCheck(f, notJpeg, tooLarge)
  }

  /** An optional image: when supplied, of type image/jpeg, then small enough. */
  function ImageCheck(f: Option<Upload>, notJpeg: ModelError, tooLarge: ModelError): (r: Option<ActionResult>)
    ensures r.None? <==> OptionalAcceptable(f)
  {
    if f.Some? && !f.value.isJpeg then Some(Invalid(notJpeg))
    else if f.Some? && f.value.tooLarge then Some(Invalid(tooLarge))
    else None
  }

  /** POST Update's checks before it touches a file (lines 183-218 of the
      action), in the order it makes them. */
  function UpdateRequestCheck(brands: seq<Brand>, categories: seq<Category>, products: seq<Product>,
                              modelValid: bool, id: Option<int>, form: ProductForm): (r: Option<ActionResult>)
    ensures r.None? <==> modelValid && UpdateTarget(products, id).Some? && HasActiveBrand(brands, form.brandId)
                         && form.categoryId.Some? && HasSelectableCategory(categories, form.categoryId.value)
                         && |form.files| <= Capacity(products, id)
  {
    if !modelValid then Some(FormView(None))
    else if id.None? then Some(BadRequest)
    else if UpdateTarget(products, id).None? then Some(NotFound)
    else if !HasActiveBrand(brands, form.brandId) then Some(Invalid(BrandInvalid))
    else if form.categoryId.None? then Some(Invalid(CategoryMissing))
    else if !HasSelectableCategory(categories, form.categoryId.value) then Some(Invalid(CategoryInvalid))
    else if |form.files| > Capacity(products, id) then Some(Invalid(OverCapacity(Capacity(products, id))))
    else None
  }

  /** POST Create phase by phase, and where each phase leaves the files: the
      main image is saved once its checks pass, the hover image likewise. */
  function CreateProgress(brands: seq<Brand>, categories: seq<Category>, modelValid: bool, form: ProductForm): (p: Progress)
    ensures p.mainSaved ==> form.mainFile.Some?
    ensures p.hoverSaved ==> p.mainSaved && form.hoveFile.Some?
  {
    var checks := CreateRequestCheck(brands, categories, modelValid, form);
    if checks.Some? then Stopped(checks.value) else AddProgress(form)
  }

  /** POST Create past its request checks: the main image is saved once its
      checks pass, then the hover image, then the gallery files one by one. */
  function AddProgress(form: ProductForm): (p: Progress)
    ensures p.mainSaved ==> form.mainFile.Some?
    ensures p.hoverSaved ==> p.mainSaved && form.hoveFile.Some?
  {
    var main := RequiredImageCheck(form.mainFile, MainMissing, MainNotJpeg, MainTooLarge);
    var hover := RequiredImageCheck(form.hoveFile, HoverMissing, HoverNotJpeg, HoverTooLarge);
    if main.Some? then Stopped(main.value)
    else if hover.Some? then Progress(hover, true, false, 0)
    else GalleryProgress(form.files, true, true)
  }

  /** Past Update's request checks the target exists, the new files fit
      beside its gallery, and the image phases decide the rest. */
  lemma UpdateRequestPassed(brands: seq<Brand>, categories: seq<Category>, products: seq<Product>,
                            modelValid: bool, id: Option<int>, form: ProductForm)
    requires UpdateRequestCheck(brands, categories, products, modelValid, id, form).None?
    ensures id.Some? && UpdateTarget(products, id).Some?
    ensures |products[UpdateTarget(products, id).value].gallery| + |form.files| <= MaxGallery
    ensures UpdateProgress(brands, categories, products, modelValid, id, form) == EditProgress(form)
  {
  }

  /** POST Update phase by phase; a named image is saved only when supplied. */
  function UpdateProgress(brands: seq<Brand>, categories: seq<Category>, products: seq<Product>,
                          modelValid: bool, id: Option<int>, form: ProductForm): (p: Progress)
    ensures p.mainSaved ==> form.mainFile.Some?
    ensures p.hoverSaved ==> form.hoveFile.Some?
  {
    var checks := UpdateRequestCheck(brands, categories, products, modelValid, id, form);
    if checks.Some? then Stopped(checks.value) else EditProgress(form)
  }

  /** POST Update past its request checks: a supplied main image replaces
      the stored one once its checks pass, then the hover image likewise,
      then the gallery files are saved one by one. */
  function EditProgress(form: ProductForm): (p: Progress)
    ensures p.mainSaved ==> form.mainFile.Some?
    ensures p.hoverSaved ==> form.hoveFile.Some?
  {
    var main := ImageCheck(form.mainFile, MainNotJpeg, MainTooLarge);
    var hover := ImageCheck(form.hoveFile, HoverNotJpeg, HoverTooLarge);
    if main.Some? then Stopped(main.value)
    else if hover.Some? then Progress(hover, form.mainFile.Some?, false, 0)
    else GalleryProgress(form.files, form.mainFile.Some?, form.hoveFile.Some?)
  }

  // -------------------------------------------- acceptance, stated directly

  predicate GalleryAcceptable(files: seq<Upload>) {
    forall i :: 0 <= i < |files| ==> AcceptableUpload(files[i])
  }

  predicate OptionalAcceptable(f: Option<Upload>) {
    f.None? || AcceptableUpload(f.value)
  }

  /** Everything POST Create demands of a request, as one condition. */
  predicate CreateAccepts(brands: seq<Brand>, categories: seq<Category>, modelValid: bool, form: ProductForm) {
    && modelValid
    && HasActiveBrand(brands, form.brandId)
    && form.categoryId.Some?
    && HasSelectableCategory(categories, form.categoryId.value)
    && |form.files| <= MaxGallery
    && form.mainFile.Some? && AcceptableUpload(form.mainFile.value)
    && form.hoveFile.Some? && AcceptableUpload(form.hoveFile.value)
    && GalleryAcceptable(form.files)
  }

  /** Everything POST Update demands of a request, as one condition. */
  predicate UpdateAccepts(brands: seq<Brand>, categories: seq<Category>, products: seq<Product>,
                          modelValid: bool, id: Option<int>, form: ProductForm) {
    && modelValid
    && UpdateTarget(products, id).Some?
    && HasActiveBrand(brands, form.brandId)
    && form.categoryId.Some?
    && HasSelectableCategory(categories, form.categoryId.value)
    && |products[UpdateTarget(products, id).value].gallery| + |form.files| <= MaxGallery
    && OptionalAcceptable(form.mainFile)
    && OptionalAcceptable(form.hoveFile)
    && GalleryAcceptable(form.files)
  }

  // ------------------------------------------- the pipelines by segments

  /** The two image checks stop at the content type, then at the size. */
  lemma ImageChecksOutcome(f: Option<Upload>, notJpeg: ModelError, tooLarge: ModelError)
    ensures FirstFailure(ImageChecks(f, notJpeg, tooLarge))
            == if f.Some? && !f.value.isJpeg then 0 else if f.Some? && f.value.tooLarge then 1 else 2
    ensures Rejection(ImageChecks(f, notJpeg, tooLarge)) == ImageCheck(f, notJpeg, tooLarge)
  {
    var steps := ImageChecks(f, notJpeg, tooLarge);
    if f.Some? && !f.value.isJpeg {
      StopsAt(steps, 0);
    } else if f.Some? && f.value.tooLarge {
      StopsAt(steps, 1);
    } else {
      StopsAt(steps, 2);
    }
  }

  /** A required image: missing, or else as its two checks say. */
  lemma RequiredImageOutcome(f: Option<Upload>, missing: ModelError, notJpeg: ModelError, tooLarge: ModelError)
    ensures FirstFailure(RequiredImageSteps(f, missing, notJpeg, tooLarge))
            == if f.None? then 0 else 1 + FirstFailure(ImageChecks(f, notJpeg, tooLarge))
    ensures Rejection(RequiredImageSteps(f, missing, notJpeg, tooLarge)) == RequiredImageCheck(f, missing, notJpeg, tooLarge)
  {
    ImageChecksOutcome(f, notJpeg, tooLarge);
    var present := [Step(f.Some?, Invalid(missing))];
    FirstFailureConcat(present, ImageChecks(f, notJpeg, tooLarge));
    RejectionConcat(present, ImageChecks(f, notJpeg, tooLarge));
    if f.None? {
      StopsAt(present, 0);
    } else {
      StopsAt(present, 1);
    }
  }

  /** The brand check, then the category's presence, then its validity. */
  lemma ReferenceOutcome(brands: seq<Brand>, categories: seq<Category>, form: ProductForm)
    ensures var steps := ReferenceSteps(brands, categories, form);
            FirstFailure(steps)
            == if !HasActiveBrand(brands, form.brandId) then 0
               else if form.categoryId.None? then 1
               else if !HasSelectableCategory(categories, form.categoryId.value) then 2
               else 3
    ensures var steps := ReferenceSteps(brands, categories, form);
            Rejection(steps)
            == if !HasActiveBrand(brands, form.brandId) then Some(Invalid(BrandInvalid))
               else if form.categoryId.None? then Some(Invalid(CategoryMissing))
               else if !HasSelectableCategory(categories, form.categoryId.value) then Some(Invalid(CategoryInvalid))
               else None
  {
    var steps := ReferenceSteps(brands, categories, form);
    if !HasActiveBrand(brands, form.brandId) {
      StopsAt(steps, 0);
    } else if form.categoryId.None? {
      StopsAt(steps, 1);
    } else if !HasSelectableCategory(categories, form.categoryId.value) {
      StopsAt(steps, 2);
    } else {
      StopsAt(steps, 3);
    }
  }

  /** Create's checks before any file: ModelState, brand and category, count. */
  lemma CreateChecksOutcome(brands: seq<Brand>, categories: seq<Category>, modelValid: bool, form: ProductForm)
    ensures var refs := ReferenceSteps(brands, categories, form);
            FirstFailure(CreateChecks(brands, categories, modelValid, form))
            == if !modelValid then 0
               else if FirstFailure(refs) < 3 then 1 + FirstFailure(refs)
               else if |form.files| > MaxGallery then 4
               else 5
    ensures Rejection(CreateChecks(brands, categories, modelValid, form))
            == CreateRequestCheck(brands, categories, modelValid, form)
  {
    ReferenceOutcome(brands, categories, form);
    var model := [Step(modelValid, FormView(None))];
    var refs := ReferenceSteps(brands, categories, form);
    var count := [Step(|form.files| <= MaxGallery, Invalid(TooManyFiles))];
    FirstFailureConcat(model + refs, count);
    FirstFailureConcat(model, refs);
    RejectionConcat(model + refs, count);
    RejectionConcat(model, refs);
    StopsAt(model, if modelValid then 1 else 0);
    StopsAt(count, if |form.files| > MaxGallery then 0 else 1);
  }

  /** Where Create stops and what it returns, segment by segment. */
  lemma CreateSegments(brands: seq<Brand>, categories: seq<Category>, modelValid: bool, form: ProductForm)
    ensures var checks := CreateChecks(brands, categories, modelValid, form);
            var main := CreateMainSteps(form);
            var hover := CreateHoverSteps(form);
            var gallery := GallerySteps(form.files);
            FirstFailure(CreateSteps(brands, categories, modelValid, form))
            == if FirstFailure(checks) < 5 then FirstFailure(checks)
               else if FirstFailure(main) < 3 then 5 + FirstFailure(main)
               else if FirstFailure(hover) < 3 then 8 + FirstFailure(hover)
               else GalleryStart + FirstFailure(gallery)
    ensures var checks := CreateChecks(brands, categories, modelValid, form);
            var main := CreateMainSteps(form);
            var hover := CreateHoverSteps(form);
            var gallery := GallerySteps(form.files);
            Rejection(CreateSteps(brands, categories, modelValid, form))
            == if Rejection(checks).Some? then Rejection(checks)
               else if Rejection(main).Some? then Rejection(main)
               else if Rejection(hover).Some? then Rejection(hover)
               else Rejection(gallery)
  {
    var checks := CreateChecks(brands, categories, modelValid, form);
    var main := CreateMainSteps(form);
    var hover := CreateHoverSteps(form);
    var gallery := GallerySteps(form.files);
    FirstFailureConcat(checks + main + hover, gallery);
    FirstFailureConcat(checks + main, hover);
    FirstFailureConcat(checks, main);
    RejectionConcat(checks + main + hover, gallery);
    RejectionConcat(checks + main, hover);
    RejectionConcat(checks, main);
  }

  /** Update's checks before any file: ModelState, id, lookup, brand and
      category, capacity. */
  lemma UpdateChecksOutcome(brands: seq<Brand>, categories: seq<Category>, products: seq<Product>,
                            modelValid: bool, id: Option<int>, form: ProductForm)
    ensures var refs := ReferenceSteps(brands, categories, form);
            FirstFailure(UpdateChecks(brands, categories, products, modelValid, id, form))
            == if !modelValid then 0
               else if id.None? then 1
               else if UpdateTarget(products, id).None? then 2
               else if FirstFailure(refs) < 3 then 3 + FirstFailure(refs)
               else if |form.files| > Capacity(products, id) then 6
               else 7
    ensures Rejection(UpdateChecks(brands, categories, products, modelValid, id, form))
            == UpdateRequestCheck(brands, categories, products, modelValid, id, form)
  {
    ReferenceOutcome(brands, categories, form);
    var capacity := Capacity(products, id);
    var guards := [ Step(modelValid, FormView(None)), Step(id.Some?, BadRequest),
                    Step(UpdateTarget(products, id).Some?, NotFound) ];
    var refs := ReferenceSteps(brands, categories, form);
    var room := [Step(|form.files| <= capacity, Invalid(OverCapacity(capacity)))];
    FirstFailureConcat(guards + refs, room);
    FirstFailureConcat(guards, refs);
    RejectionConcat(guards + refs, room);
    RejectionConcat(guards, refs);
    StopsAt(guards, if !modelValid then 0 else if id.None? then 1
                    else if UpdateTarget(products, id).None? then 2 else 3);
    StopsAt(room, if |form.files| > capacity then 0 else 1);
  }

  /** Where Update stops and what it returns, segment by segment. */
  lemma UpdateSegments(brands: seq<Brand>, categories: seq<Category>, products: seq<Product>,
                       modelValid: bool, id: Option<int>, form: ProductForm)
    ensures var checks := UpdateChecks(brands, categories, products, modelValid, id, form);
            var main := ImageChecks(form.mainFile, MainNotJpeg, MainTooLarge);
            var hover := ImageChecks(form.hoveFile, HoverNotJpeg, HoverTooLarge);
            var gallery := GallerySteps(form.files);
            FirstFailure(UpdateSteps(brands, categories, products, modelValid, id, form))
            == if FirstFailure(checks) < 7 then FirstFailure(checks)
               else if FirstFailure(main) < 2 then 7 + FirstFailure(main)
               else if FirstFailure(hover) < 2 then 9 + FirstFailure(hover)
               else GalleryStart + FirstFailure(gallery)
    ensures var checks := UpdateChecks(brands, categories, products, modelValid, id, form);
            var main := ImageChecks(form.mainFile, MainNotJpeg, MainTooLarge);
            var hover := ImageChecks(form.hoveFile, HoverNotJpeg, HoverTooLarge);
            var gallery := GallerySteps(form.files);
            Rejection(UpdateSteps(brands, categories, products, modelValid, id, form))
            == if Rejection(checks).Some? then Rejection(checks)
               else if Rejection(main).Some? then Rejection(main)
               else if Rejection(hover).Some? then Rejection(hover)
               else Rejection(gallery)
  {
    var checks := UpdateChecks(brands, categories, products, modelValid, id, form);
    var main := ImageChecks(form.mainFile, MainNotJpeg, MainTooLarge);
    var hover := ImageChecks(form.hoveFile, HoverNotJpeg, HoverTooLarge);
    var gallery := GallerySteps(form.files);
    FirstFailureConcat(checks + main + hover, gallery);
    FirstFailureConcat(checks + main, hover);
    FirstFailureConcat(checks, main);
    RejectionConcat(checks + main + hover, gallery);
    RejectionConcat(checks + main, hover);
    RejectionConcat(checks, main);
  }

  lemma AllPass(steps: seq<Step>)
    ensures FirstFailure(steps) == |steps| <==> forall j :: 0 <= j < |steps| ==> steps[j].ok
  {
  }

  /** The gallery steps all pass exactly when every file passes both checks. */
  lemma GalleryStepsPass(files: seq<Upload>)
    ensures (forall j :: 0 <= j < |GallerySteps(files)| ==> GallerySteps(files)[j].ok)
            <==> GalleryAcceptable(files)
  {
    var steps := GallerySteps(files);
    if forall j :: 0 <= j < |steps| ==> steps[j].ok {
      forall i | 0 <= i < |files| ensures AcceptableUpload(files[i]) {
        assert steps[2 * i].ok && steps[2 * i + 1].ok;
      }
    }
  }

  /** The pipeline of Create runs to its end exactly when the request meets
      every condition of CreateAccepts. */
  lemma CreateAcceptsIff(brands: seq<Brand>, categories: seq<Category>, modelValid: bool, form: ProductForm)
    ensures var steps := CreateSteps(brands, categories, modelValid, form);
            FirstFailure(steps) == |steps| <==> CreateAccepts(brands, categories, modelValid, form)
  {
    var head := CreateHead(brands, categories, modelValid, form);
    var tail := GallerySteps(form.files);
    FirstFailureConcat(head, tail);
    AllPass(head);
    AllPass(tail);
    GalleryStepsPass(form.files);
    if forall j :: 0 <= j < |head| ==> head[j].ok {
      assert head[0].ok && head[1].ok && head[2].ok && head[3].ok && head[4].ok && head[5].ok;
      assert head[6].ok && head[7].ok && head[8].ok && head[9].ok && head[10].ok;
    }
  }

  /** The pipeline of Update runs to its end exactly when the request meets
      every condition of UpdateAccepts. */
  lemma UpdateAcceptsIff(brands: seq<Brand>, categories: seq<Category>, products: seq<Product>,
                         modelValid: bool, id: Option<int>, form: ProductForm)
    ensures var steps := UpdateSteps(brands, categories, products, modelValid, id, form);
            FirstFailure(steps) == |steps| <==> UpdateAccepts(brands, categories, products, modelValid, id, form)
  {
    var head := UpdateHead(brands, categories, products, modelValid, id, form);
    var tail := GallerySteps(form.files);
    FirstFailureConcat(head, tail);
    AllPass(head);
    AllPass(tail);
    GalleryStepsPass(form.files);
    if forall j :: 0 <= j < |head| ==> head[j].ok {
      assert head[0].ok && head[1].ok && head[2].ok && head[3].ok && head[4].ok && head[5].ok;
      assert head[6].ok && head[7].ok && head[8].ok && head[9].ok && head[10].ok;
    }
  }

  /** The action as written and the ordered list of checks agree: Create
      returns early exactly with the result of the first failing step, it has
      saved its main image once the eight steps before it passed and its hover
      image once the eleven before the gallery passed, and one gallery file
      for each two gallery steps passed. */
  lemma CreateFollowsPipeline(brands: seq<Brand>, categories: seq<Category>, modelValid: bool, form: ProductForm)
    ensures var p := CreateProgress(brands, categories, modelValid, form);
            var k := FirstFailure(CreateSteps(brands, categories, modelValid, form));
            && p.rejection == Rejection(CreateSteps(brands, categories, modelValid, form))
            && p.mainSaved == (k >= 8)
            && p.hoverSaved == (k >= GalleryStart)
            && p.gallerySaved == GallerySaved(k, |form.files|)
  {
    CreateSegments(brands, categories, modelValid, form);
    CreateChecksOutcome(brands, categories, modelValid, form);
    ReferenceOutcome(brands, categories, form);
    RequiredImageOutcome(form.mainFile, MainMissing, MainNotJpeg, MainTooLarge);
    RequiredImageOutcome(form.hoveFile, HoverMissing, HoverNotJpeg, HoverTooLarge);
    ImageChecksOutcome(form.mainFile, MainNotJpeg, MainTooLarge);
    ImageChecksOutcome(form.hoveFile, HoverNotJpeg, HoverTooLarge);
    GalleryAgrees(form.files);
  }

  /** The same agreement for Update, whose named images are optional: each is
      saved once its own two checks passed, if it was supplied at all. */
  lemma UpdateFollowsPipeline(brands: seq<Brand>, categories: seq<Category>, products: seq<Product>,
                              modelValid: bool, id: Option<int>, form: ProductForm)
    ensures var p := UpdateProgress(brands, categories, products, modelValid, id, form);
            var k := FirstFailure(UpdateSteps(brands, categories, products, modelValid, id, form));
            && p.rejection == Rejection(UpdateSteps(brands, categories, products, modelValid, id, form))
            && p.mainSaved == (k >= 9 && form.mainFile.Some?)
            && p.hoverSaved == (k >= GalleryStart && form.hoveFile.Some?)
            && p.gallerySaved == GallerySaved(k, |form.files|)
  {
    UpdateSegments(brands, categories, products, modelValid, id, form);
    UpdateChecksOutcome(brands, categories, products, modelValid, id, form);
    ReferenceOutcome(brands, categories, form);
    ImageChecksOutcome(form.mainFile, MainNotJpeg, MainTooLarge);
    ImageChecksOutcome(form.hoveFile, HoverNotJpeg, HoverTooLarge);
    GalleryAgrees(form.files);
  }

  /** Create goes past every check exactly when CreateAccepts holds. */
  lemma CreateProgressAccepts(brands: seq<Brand>, categories: seq<Category>, modelValid: bool, form: ProductForm)
    ensures CreateProgress(brands, categories, modelValid, form).rejection.None?
            <==> CreateAccepts(brands, categories, modelValid, form)
  {
    CreateFollowsPipeline(brands, categories, modelValid, form);
    CreateAcceptsIff(brands, categories, modelValid, form);
  }

  /** Update goes past every check exactly when UpdateAccepts holds. */
  lemma UpdateProgressAccepts(brands: seq<Brand>, categories: seq<Category>, products: seq<Product>,
                              modelValid: bool, id: Option<int>, form: ProductForm)
    ensures UpdateProgress(brands, categories, products, modelValid, id, form).rejection.None?
            <==> UpdateAccepts(brands, categories, products, modelValid, id, form)
  {
    UpdateFollowsPipeline(brands, categories, products, modelValid, id, form);
    UpdateAcceptsIff(brands, categories, products, modelValid, id, form);
  }

  // ------------------------------------------------------ consequences

  /** Create rejects more than five gallery files before it writes any file:
      the check comes before the main image is saved. */
  lemma CreateCountsBeforeSaving(brands: seq<Brand>, categories: seq<Category>, modelValid: bool, form: ProductForm)
    requires modelValid && HasActiveBrand(brands, form.brandId) && form.categoryId.Some?
    requires HasSelectableCategory(categories, form.categoryId.value)
    requires |form.files| > MaxGallery
    ensures CreateProgress(brands, categories, modelValid, form) == Stopped(Invalid(TooManyFiles))
  {
  }

  /** A hover image that fails its checks stops Create with the main image
      already saved, and nothing of the gallery saved. */
  lemma CreateKeepsMainOnHoverFailure(brands: seq<Brand>, categories: seq<Category>, modelValid: bool, form: ProductForm)
    requires CreateRequestCheck(brands, categories, modelValid, form).None?
    requires form.mainFile.Some? && AcceptableUpload(form.mainFile.value)
    requires form.hoveFile.None? || !AcceptableUpload(form.hoveFile.value)
    ensures var p := CreateProgress(brands, categories, modelValid, form);
            && p.rejection.Some? && p.rejection.value.FormView?
            && p.mainSaved && !p.hoverSaved && p.gallerySaved == 0
  {
  }

  /** Update looks at the id and the product only once ModelState is valid:
      an invalid model wins over a missing id, a missing id over an unknown one. */
  lemma UpdateGuardOrder(brands: seq<Brand>, categories: seq<Category>, products: seq<Product>,
                         modelValid: bool, id: Option<int>, form: ProductForm)
    ensures var r := UpdateRequestCheck(brands, categories, products, modelValid, id, form);
            && (!modelValid ==> r == Some(FormView(None)))
            && (modelValid && id.None? ==> r == Some(BadRequest))
            && (modelValid && id.Some? && (forall i :: 0 <= i < |products| ==> products[i].id != id.value)
                ==> r == Some(NotFound))
  {
  }

  /** Past its reference checks, Update accepts exactly as many gallery files
      as the product has room for, five less the images it has, and names
      that number when it refuses. */
  lemma UpdateCapacityRule(brands: seq<Brand>, categories: seq<Category>, products: seq<Product>,
                           modelValid: bool, id: Option<int>, form: ProductForm)
    requires modelValid && UpdateTarget(products, id).Some? && HasActiveBrand(brands, form.brandId)
    requires form.categoryId.Some? && HasSelectableCategory(categories, form.categoryId.value)
    ensures var existing := |products[UpdateTarget(products, id).value].gallery|;
            var r := UpdateRequestCheck(brands, categories, products, modelValid, id, form);
            && (r.None? <==> |form.files| + existing <= MaxGallery)
            && (r.Some? ==> r == Some(Invalid(OverCapacity(MaxGallery - existing))))
  {
  }
}
