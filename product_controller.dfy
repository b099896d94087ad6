/**
  The admin ProductController of the Manage area: POST Create, POST Update
  and DeleteImage over a product catalog and two image folders.

  The class holds what the actions see: the four tables behind AppDbContext
  (brands and categories are reference data, never written here), the two
  folders under assets/images that CreateAsync and FileHelper.DeleteFile work
  on, and the counters that stand for database identities and for the fresh
  file names CreateAsync invents.

  Entity Framework tracks the rows an action loads and writes them back only
  at SaveChangesAsync. The methods keep an edited row in a local variable and
  store it into `products` only where the source calls SaveChangesAsync; an
  early `return View()` therefore discards those edits, while files already
  written or deleted stay so.
 */
module Manage {
  import opened Wrappers
  import opened Strings
  import opened Models
  import opened Catalog
  import opened Validation

  // ------------------------------------------------------------ seria, code

  /** (brand.Name.Substring(0, 2) + product.Name.Trim().Substring(0, 2)).ToLower();
      None where either Substring throws. */
  function Seria(brandName: string, name: string): (r: Option<string>)
    ensures r.Some? <==> |brandName| >= 2 && |Trim(name)| >= 2
    ensures r.Some? ==>
              var t := Trim(name);
              r.value == [LowerChar(brandName[0]), LowerChar(brandName[1]), LowerChar(t[0]), LowerChar(t[1])]
  {
    var b := Substring(brandName, 0, 2);
    var n := Substring(Trim(name), 0, 2);
    if b.None? || n.None? then None else Some(ToLower(b.value + n.value))
  }

  /** The seria of a new product: the first brand row with the form's BrandId
      supplies the prefix; None (a null dereference) if there is none. */
  function SeriaFor(brands: seq<Brand>, form: ProductForm): Option<string> {
    match FirstBrand(brands, form.brandId)
    case None => None
    case Some(b) => Seria(brands[b].name, form.name)
  }

  /** Brand "Nike" with a product "Air Max" gives the seria "niai". */
  lemma SeriaExample(brand: string, name: string)
    requires brand == "Nike" && name == "Air Max"
    ensures Seria(brand, name) == Some("niai")
  {
    assert name[0] == 'A' && name[1] == 'i' && name[|name| - 1] == 'x';
    assert !IsWhiteSpace('A') && !IsWhiteSpace('x');
    TrimOfTrimmed(name);
    assert brand[0] == 'N' && brand[1] == 'i';
    assert LowerChar('N') == 'n' && LowerChar('i') == 'i' && LowerChar('A') == 'a';
  }

  /** White space around the product name does not change its seria. */
  lemma SeriaIgnoresPadding(brandName: string, pre: string, name: string, post: string)
    requires AllWhiteSpace(pre) && AllWhiteSpace(post)
    ensures Seria(brandName, pre + name + post) == Seria(brandName, name)
  {
    TrimIgnoresPadding(pre, name, post);
  }

  /** The case of the brand name does not change the seria. */
  lemma SeriaIgnoresBrandCase(brandName: string, name: string)
    ensures Seria(ToLower(brandName), name) == Seria(brandName, name)
  {
    if |brandName| >= 2 {
      var lower := ToLower(brandName);
      assert LowerChar(lower[0]) == LowerChar(brandName[0]);
      assert LowerChar(lower[1]) == LowerChar(brandName[1]);
    }
  }

  /** `code` at line 153: with no product of this seria, 1; otherwise the
      newest such product's Code is incremented in place (`Code += 1`) and the
      incremented value is the new code. Returns the rows and the code. */
  function BumpCode(products: seq<Product>, seria: string): (res: (seq<Product>, int32))
    ensures |res.0| == |products|
    ensures (forall j :: 0 <= j < |products| ==> products[j].seria != seria) ==> res == (products, 1)
  {
    match LatestWithSeria(products, seria)
    case None => (products, 1)
    case Some(k) =>
      var code := Inc32(products[k].code);
      (products[k := products[k].(code := code)], code)
  }

  /** Bumping changes the Code field of rows and nothing else. */
  lemma BumpChangesOnlyCodes(products: seq<Product>, seria: string)
    ensures var rows := BumpCode(products, seria).0;
            forall j :: 0 <= j < |products| ==> rows[j] == products[j].(code := rows[j].code)
  {
  }

  /** When the seria is taken, the newest product that has it is bumped to the
      new code and keeps it: afterwards two products share that code, and no
      other row changes. */
  lemma CodeSharedWithLatest(products: seq<Product>, seria: string, j0: nat)
    requires j0 < |products| && products[j0].seria == seria
    ensures var (rows, code) := BumpCode(products, seria);
            exists k :: 0 <= k < |products| && products[k].seria == seria
                        && (forall j :: 0 <= j < |products| && products[j].seria == seria ==> products[j].id <= products[k].id)
                        && rows[k].code == code && code == Inc32(products[k].code)
                        && (forall j :: 0 <= j < |products| && j != k ==> rows[j] == products[j])
  {
    var k := LatestWithSeria(products, seria).value;
    var (rows, code) := BumpCode(products, seria);
    assert rows[k].code == code;
  }

  // ------------------------------------------------------ files and images

  /** The two folders the controller stores images in. */
  datatype Folder =
    | ProductFolder    // assets/images/product: main and hover images
    | QuickFolder      // assets/images/product-quick: gallery images

  /** A folder after the uploads are saved into it one after the other,
      under the names start, start + 1, ... */
  function Saved(files: map<Path, Upload>, start: Path, uploads: seq<Upload>): map<Path, Upload> {
    if uploads == [] then files
    else
      var n := |uploads| - 1;
      Saved(files, start, uploads[..n])[start + n := uploads[n]]
  }

  /** Saving puts each upload under its own name and leaves every other file
      as it was. */
  lemma {:induction false} SavedContents(files: map<Path, Upload>, start: Path, uploads: seq<Upload>)
    ensures forall p: Path :: start <= p < start + |uploads|
              ==> p in Saved(files, start, uploads) && Saved(files, start, uploads)[p] == uploads[p - start]
    ensures forall p :: p in files && !(start <= p < start + |uploads|)
              ==> p in Saved(files, start, uploads) && Saved(files, start, uploads)[p] == files[p]
    ensures forall p :: p in Saved(files, start, uploads) ==> p in files || start <= p < start + |uploads|
  {
    if uploads != [] {
      var n := |uploads| - 1;
      SavedContents(files, start, uploads[..n]);
      forall p: Path | start <= p < start + n
        ensures Saved(files, start, uploads[..n])[p] == uploads[p - start]
      {
        assert uploads[..n][p - start] == uploads[p - start];
      }
    }
  }

  lemma SavedSnoc(files: map<Path, Upload>, start: Path, uploads: seq<Upload>, u: Upload)
    ensures Saved(files, start, uploads + [u]) == Saved(files, start, uploads)[start + |uploads| := u]
  {
    assert (uploads + [u])[..|uploads|] == uploads;
  }

  /** The gallery rows for n files saved under consecutive names, keyed by
      consecutive identities. */
  function NewGallery(firstId: nat, firstPath: Path, n: nat): (g: seq<ProductImage>)
    ensures |g| == n
    ensures forall i :: 0 <= i < n ==> g[i].id == firstId + i && g[i].image == firstPath + i
  {
    if n == 0 then [] else NewGallery(firstId, firstPath, n - 1) + [ProductImage(firstId + n - 1, firstPath + n - 1)]
  }

  /** One optional file replaced: the old one deleted, the new one saved. */
  function Replaced(files: map<Path, Upload>, oldPath: Path, newPath: Path, u: Option<Upload>): map<Path, Upload> {
    if u.Some? then (files - {oldPath})[newPath := u.value] else files
  }

  /** The main and hover images Create has saved by the time it stops. */
  function NamedSaved(form: ProductForm, p: Progress): seq<Upload> {
    (if p.mainSaved && form.mainFile.Some? then [form.mainFile.value] else [])
    + (if p.hoverSaved && form.hoveFile.Some? then [form.hoveFile.value] else [])
  }

  /** The row POST Create adds: the trimmed name, the seria and code, the
      main and hover images under the names start and start + 1, and one
      gallery row per file under the names after them. */
  function NewProduct(form: ProductForm, seria: string, code: int32, id: nat, start: Path, firstImageId: nat): Product
    requires form.categoryId.Some?
  {
    Product(id, Trim(form.name), form.brandId, form.categoryId.value, seria, code,
            start, start + 1, NewGallery(firstImageId, start + 2, |form.files|))
  }

  /** A row after POST Update took every step: the supplied main and hover
      images under the next names, the gallery rows appended after the
      existing ones. */
  function Edited(row: Product, form: ProductForm, firstPath: Path, firstId: nat): Product {
    var first := firstPath + Count(form.mainFile) + Count(form.hoveFile);
    row.(mainImage := if form.mainFile.Some? then firstPath else row.mainImage,
         hoverImage := if form.hoveFile.Some? then firstPath + Count(form.mainFile) else row.hoverImage,
         gallery := row.gallery + NewGallery(firstId, first, |form.files|))
  }

  /** Edited, read as the row with its two images set and the new gallery
      rows appended after the images saved so far. */
  lemma EditedImages(row: Product, form: ProductForm, firstPath: Path, firstId: nat, main: Path, hover: Path)
    requires main == (if form.mainFile.Some? then firstPath else row.mainImage)
    requires hover == (if form.hoveFile.Some? then firstPath + Count(form.mainFile) else row.hoverImage)
    ensures Edited(row, form, firstPath, firstId)
            == row.(mainImage := main, hoverImage := hover)
                  .(gallery := row.gallery + NewGallery(firstId, firstPath + Count(form.mainFile) + Count(form.hoveFile), |form.files|))
  {
  }

  /** Update leaves every field but the two images and the gallery as stored;
      an image changes only when a new file is supplied, and the gallery keeps
      its images in front and gains one per uploaded file, in upload order. */
  lemma EditedTouchesOnlyImages(row: Product, form: ProductForm, firstPath: Path, firstId: nat)
    ensures var e := Edited(row, form, firstPath, firstId);
            && e.(mainImage := row.mainImage, hoverImage := row.hoverImage, gallery := row.gallery) == row
            && (form.mainFile.None? ==> e.mainImage == row.mainImage)
            && (form.hoveFile.None? ==> e.hoverImage == row.hoverImage)
            && |e.gallery| == |row.gallery| + |form.files|
            && e.gallery[..|row.gallery|] == row.gallery
  {
    var e := Edited(row, form, firstPath, firstId);
    assert e.gallery[..|row.gallery|] == row.gallery;
  }

  function Count<T>(o: Option<T>): nat {
    if o.Some? then 1 else 0
  }

  /** A stored row refers only to identities and file names handed out already,
      and its gallery holds at most five images. */
  predicate WellFormed(p: Product, nextProductId: nat, nextImageId: nat, nextPath: Path) {
    && p.id < nextProductId
    && p.mainImage < nextPath && p.hoverImage < nextPath
    && |p.gallery| <= MaxGallery
    && forall g :: 0 <= g < |p.gallery| ==> p.gallery[g].id < nextImageId && p.gallery[g].image < nextPath
  }

  /** No two gallery rows of the table share a key, as ProductImages'
      primary key demands. */
  predicate ImageKeysDistinct(products: seq<Product>) {
    forall i, g, j, h :: 0 <= i < |products| && 0 <= j < |products|
                         && 0 <= g < |products[i].gallery| && 0 <= h < |products[j].gallery|
                         && products[i].gallery[g].id == products[j].gallery[h].id
                         ==> i == j && g == h
  }

  /** The product table: every row well formed, product keys strictly
      increasing in storage order (identity keys are handed out in insertion
      order), and gallery keys distinct. */
  predicate RowsValid(products: seq<Product>, nextProductId: nat, nextImageId: nat, nextPath: Path) {
    && (forall i :: 0 <= i < |products| ==> WellFormed(products[i], nextProductId, nextImageId, nextPath))
    && (forall i, j :: 0 <= i < j < |products| ==> products[i].id < products[j].id)
    && ImageKeysDistinct(products)
  }

  /** Gallery rows that take the consecutive identities from `first` on. */
  predicate KeysFrom(images: seq<ProductImage>, first: nat) {
    forall g :: 0 <= g < |images| ==> images[g].id == first + g
  }

  predicate FilesBelow(files: map<Path, Upload>, nextPath: Path) {
    forall p :: p in files ==> p < nextPath
  }

  lemma RowsValidLater(products: seq<Product>, a: nat, b: nat, c: Path, a': nat, b': nat, c': Path)
    requires RowsValid(products, a, b, c) && a <= a' && b <= b' && c <= c'
    ensures RowsValid(products, a', b', c')
  {
  }

  /** Bumping a code touches no key, file or gallery. */
  lemma BumpKeepsRowsValid(products: seq<Product>, seria: string, a: nat, b: nat, c: Path)
    requires RowsValid(products, a, b, c)
    ensures RowsValid(BumpCode(products, seria).0, a, b, c)
  {
    var rows := BumpCode(products, seria).0;
    BumpChangesOnlyCodes(products, seria);
    forall i | 0 <= i < |rows| ensures WellFormed(rows[i], a, b, c) && rows[i].gallery == products[i].gallery {
      assert rows[i] == products[i].(code := rows[i].code);
    }
  }

  /** The row Create adds is well formed once its files have names, and its
      gallery rows take the next gallery keys. */
  lemma NewProductFits(form: ProductForm, seria: string, code: int32, a: nat, b: nat, c: Path, start: Path)
    requires form.categoryId.Some? && start + 2 + |form.files| <= c && |form.files| <= MaxGallery
    ensures var p := NewProduct(form, seria, code, a, start, b);
            && p.id == a && |p.gallery| == |form.files| && KeysFrom(p.gallery, b)
            && WellFormed(p, a + 1, b + |form.files|, c)
  {
  }

  /** A new row with the next key may be appended, its gallery rows taking
      the next gallery keys. */
  lemma AppendKeepsRowsValid(products: seq<Product>, p: Product, a: nat, b: nat, c: Path)
    requires RowsValid(products, a, b, c) && p.id == a
    requires KeysFrom(p.gallery, b) && WellFormed(p, a + 1, b + |p.gallery|, c)
    ensures RowsValid(products + [p], a + 1, b + |p.gallery|, c)
  {
    RowsValidLater(products, a, b, c, a + 1, b + |p.gallery|, c);
    var rows := products + [p];
    forall i, g, j, h | 0 <= i < |rows| && 0 <= j < |rows|
                        && 0 <= g < |rows[i].gallery| && 0 <= h < |rows[j].gallery|
                        && rows[i].gallery[g].id == rows[j].gallery[h].id
      ensures i == j && g == h
    {
      if i < |products| && j < |products| {
        assert rows[i] == products[i] && rows[j] == products[j];
      }
    }
  }

  /** A row may be replaced by one with the same key whose gallery keeps the
      old gallery rows in front and adds rows under the next gallery keys. */
  lemma ReplaceKeepsRowsValid(products: seq<Product>, t: nat, p: Product, images: seq<ProductImage>,
                              a: nat, b: nat, c: Path)
    requires RowsValid(products, a, b, c) && t < |products| && p.id == products[t].id
    requires p.gallery == products[t].gallery + images && KeysFrom(images, b)
    requires WellFormed(p, a, b + |images|, c)
    ensures RowsValid(products[t := p], a, b + |images|, c)
  {
    RowsValidLater(products, a, b, c, a, b + |images|, c);
    var rows := products[t := p];
    var n := |products[t].gallery|;
    forall i, g, j, h | 0 <= i < |rows| && 0 <= j < |rows|
                        && 0 <= g < |rows[i].gallery| && 0 <= h < |rows[j].gallery|
                        && rows[i].gallery[g].id == rows[j].gallery[h].id
      ensures i == j && g == h
    {
      // a gallery key below b is an old one, of the same row and position
      if i == t && g >= n {
        assert rows[i].gallery[g].id == b + (g - n);
      } else if !(j == t && h >= n) {
        assert rows[i].gallery[g] == products[i].gallery[g];
        assert rows[j].gallery[h] == products[j].gallery[h];
      }
    }
  }

  /** The table with gallery row g of product i removed. */
  function WithoutImage(products: seq<Product>, i: nat, g: nat): seq<Product>
    requires i < |products| && g < |products[i].gallery|
  {
    products[i := products[i].(gallery := RemoveAt(products[i].gallery, g))]
  }

  /** Removing one gallery row keeps the table valid. */
  lemma RemoveKeepsRowsValid(products: seq<Product>, i: nat, g: nat, a: nat, b: nat, c: Path)
    requires RowsValid(products, a, b, c) && i < |products| && g < |products[i].gallery|
    ensures RowsValid(WithoutImage(products, i, g), a, b, c)
  {
    var rows := WithoutImage(products, i, g);
    // position h of the rows' gallery i stands where it stood before, or one further
    forall k, x, j, y | 0 <= k < |rows| && 0 <= j < |rows|
                        && 0 <= x < |rows[k].gallery| && 0 <= y < |rows[j].gallery|
                        && rows[k].gallery[x].id == rows[j].gallery[y].id
      ensures k == j && x == y
    {
      var x' := if k == i && x >= g then x + 1 else x;
      var y' := if j == i && y >= g then y + 1 else y;
      assert rows[k].gallery[x] == products[k].gallery[x'];
      assert rows[j].gallery[y] == products[j].gallery[y'];
    }
  }

  /** With distinct gallery keys, the row FindImage returns is the only one
      with its key, so removing it leaves no gallery row with that key. */
  lemma {:induction false} RemoveFoundImage(products: seq<Product>, id: int)
    requires ImageKeysDistinct(products) && FindImage(products, id).Some?
    ensures var (i, g) := FindImage(products, id).value;
            forall j, h :: 0 <= j < |products| && 0 <= h < |products[j].gallery| && products[j].gallery[h].id == id
                           ==> j == i && h == g
    ensures var (i, g) := FindImage(products, id).value;
            FindImage(WithoutImage(products, i, g), id).None?
  {
    var (i, g) := FindImage(products, id).value;
    var rows := WithoutImage(products, i, g);
    forall j, h | 0 <= j < |rows| && 0 <= h < |rows[j].gallery|
      ensures rows[j].gallery[h].id != id
    {
      var h' := if j == i && h >= g then h + 1 else h;
      assert rows[j].gallery[h] == products[j].gallery[h'];
    }
  }

  /** A row stored with a key above every other is the one the next Create
      of its seria bumps: that Create's code is the row's code plus one. */
  lemma NextCodeFollows(rows: seq<Product>, p: Product)
    requires forall j :: 0 <= j < |rows| ==> rows[j].id < p.id
    ensures BumpCode(rows + [p], p.seria).1 == Inc32(p.code)
  {
    NewestIsLatest(rows, p);
  }

  /** One successful POST Create of p's seria, as the run below takes it:
      the latest row of the seria bumped, then p with the identity id and the
      code derived. */
  function RunStep(rows: seq<Product>, p: Product, id: nat): seq<Product> {
    var bump := BumpCode(rows, p.seria);
    bump.0 + [p.(id := id, code := bump.1)]
  }

  /** The table after n such Creates, the i-th new row taking the identity
      p.id + i. Only the seria and the keys bear on the codes. */
  function CreateRun(products: seq<Product>, p: Product, n: nat): seq<Product> {
    if n == 0 then products else RunStep(CreateRun(products, p, n - 1), p, p.id + n - 1)
  }

  /** The code the n-th Create of that run derives (n >= 1). */
  function RunCode(products: seq<Product>, p: Product, n: nat): int32
    requires n > 0
  {
    BumpCode(CreateRun(products, p, n - 1), p.seria).1
  }

  /** The table ends with the row of the seria that holds code k under the
      newest key. */
  predicate EndsRun(rows: seq<Product>, p: Product, k: nat) {
    && |rows| > 0 && rows[|rows| - 1].seria == p.seria
    && rows[|rows| - 1].id == p.id + k - 1 && rows[|rows| - 1].code as int == k
    && forall j :: 0 <= j < |rows| - 1 ==> rows[j].id < p.id + k - 1
  }

  /** After the row of code k, the next Create derives k + 1 and ends the
      table with that row. */
  lemma {:induction false} RunStepNext(rows: seq<Product>, p: Product, k: nat)
    requires EndsRun(rows, p, k) && 0 < k < 0x7FFF_FFFF
    ensures BumpCode(rows, p.seria).1 as int == k + 1
    ensures EndsRun(RunStep(rows, p, p.id + k), p, k + 1)
  {
    var last := |rows| - 1;
    assert rows[..last] + [rows[last]] == rows;
    NextCodeFollows(rows[..last], rows[last]);
    BumpChangesOnlyCodes(rows, p.seria);
    var bumped := BumpCode(rows, p.seria).0;
    forall j | 0 <= j < |rows| ensures bumped[j].id == rows[j].id {
      assert bumped[j] == rows[j].(code := bumped[j].code);
    }
  }

  /** The first Create of a seria no stored product has derives code 1 and
      ends the table with its row. */
  lemma {:induction false} RunStepFirst(products: seq<Product>, p: Product)
    requires forall j :: 0 <= j < |products| ==> products[j].id < p.id && products[j].seria != p.seria
    ensures BumpCode(products, p.seria).1 == 1
    ensures EndsRun(RunStep(products, p, p.id), p, 1)
  {
    var rows := RunStep(products, p, p.id);
    assert rows == products + [p.(id := p.id, code := 1)];
    assert forall j :: 0 <= j < |rows| - 1 ==> rows[j] == products[j];
  }

  /** Successive Creates of a seria no stored product has receive the codes
      1, 2, 3, ... (as long as the 32-bit code does not wrap): each Create
      bumps the row the one before it added. */
  lemma {:induction false} CodesCountUp(products: seq<Product>, p: Product, n: nat)
    requires forall j :: 0 <= j < |products| ==> products[j].id < p.id && products[j].seria != p.seria
    requires 0 < n < 0x8000_0000
    ensures RunCode(products, p, n) as int == n
    ensures EndsRun(CreateRun(products, p, n), p, n)
  {
    var prev := CreateRun(products, p, n - 1);
    if n == 1 {
      RunStepFirst(products, p);
    } else {
      CodesCountUp(products, p, n - 1);
      RunStepNext(prev, p, n - 1);
    }
  }

  /** Create's own step of that run: after a successful Create (the row it
      appends, with the next identity), the next Create of the same seria
      derives the code it assigned plus one. */
  lemma CreateThenNextCode(products: seq<Product>, form: ProductForm, seria: string,
                           a: nat, b: nat, c: Path, start: Path)
    requires RowsValid(products, a, b, c) && form.categoryId.Some?
    ensures var bumped := BumpCode(products, seria);
            BumpCode(bumped.0 + [NewProduct(form, seria, bumped.1, a, start, b)], seria).1 == Inc32(bumped.1)
  {
    var bumped := BumpCode(products, seria);
    BumpChangesOnlyCodes(products, seria);
    var p := NewProduct(form, seria, bumped.1, a, start, b);
    forall j | 0 <= j < |bumped.0| ensures bumped.0[j].id < p.id {
      assert bumped.0[j].id == products[j].id;
    }
    NextCodeFollows(bumped.0, p);
  }

  /** The next code of a seria depends only on the keys, the serias and
      that seria's codes. */
  lemma SameKeysSameCode(a: seq<Product>, b: seq<Product>, seria: string)
    requires SameKeys(a, b, seria)
    ensures BumpCode(a, seria).1 == BumpCode(b, seria).1
  {
    LatestSame(a, b, seria);
  }

  /** A successful Create of another seria, with its code bump and its new
      row, leaves the next code of this seria as it was. */
  lemma OtherCreateKeepsCode(rows: seq<Product>, p: Product, seria: string)
    requires p.seria != seria
    ensures BumpCode(BumpCode(rows, p.seria).0 + [p], seria).1 == BumpCode(rows, seria).1
  {
    var bumped := BumpCode(rows, p.seria).0;
    BumpChangesOnlyCodes(rows, p.seria);
    OtherSeriaIgnored(bumped, p, seria);
    assert SameKeys(bumped, rows, seria) by {
      forall j | 0 <= j < |rows| && rows[j].seria == seria ensures bumped[j].code == rows[j].code {
        var k := LatestWithSeria(rows, p.seria);
        assert k.Some? ==> k.value != j;
      }
    }
    SameKeysSameCode(bumped, rows, seria);
  }

  /** A successful Update stores an Edited row, which keeps its key, seria
      and code, so the next code of every seria stays as it was. */
  lemma UpdateKeepsCode(rows: seq<Product>, t: nat, form: ProductForm, firstPath: Path, firstId: nat, seria: string)
    requires t < |rows|
    ensures BumpCode(rows[t := Edited(rows[t], form, firstPath, firstId)], seria).1 == BumpCode(rows, seria).1
  {
    SameKeysSameCode(rows[t := Edited(rows[t], form, firstPath, firstId)], rows, seria);
  }

  /** DeleteImage changes one gallery, so the next code of every seria stays
      as it was. */
  lemma DeleteImageKeepsCode(rows: seq<Product>, i: nat, g: nat, seria: string)
    requires i < |rows| && g < |rows[i].gallery|
    ensures BumpCode(WithoutImage(rows, i, g), seria).1 == BumpCode(rows, seria).1
  {
    SameKeysSameCode(WithoutImage(rows, i, g), rows, seria);
  }

  // -------------------------------------------------------------- controller

  class ProductController {
    const brands: seq<Brand>
    const categories: seq<Category>
    var products: seq<Product>
    var productFiles: map<Path, Upload>
    var quickFiles: map<Path, Upload>
    var nextPath: Path
    var nextProductId: nat
    var nextImageId: nat

    ghost predicate Valid()
      reads this
    {
      FilesValid() && TableValid()
    }

    /** Every stored file has a name handed out already. */
    ghost predicate FilesValid()
      reads this`productFiles, this`quickFiles, this`nextPath
    {
      FilesBelow(productFiles, nextPath) && FilesBelow(quickFiles, nextPath)
    }

    ghost predicate TableValid()
      reads this`products, this`nextProductId, this`nextImageId, this`nextPath
    {
      RowsValid(products, nextProductId, nextImageId, nextPath)
    }

    /** The controller over the database it is given (the injected
        AppDbContext): its tables and folders as they are stored, and the
        next free identities and file names. */
    constructor (brands: seq<Brand>, categories: seq<Category>, products: seq<Product>,
                 productFiles: map<Path, Upload>, quickFiles: map<Path, Upload>,
                 nextPath: Path, nextProductId: nat, nextImageId: nat)
      requires RowsValid(products, nextProductId, nextImageId, nextPath)
      requires FilesBelow(productFiles, nextPath) && FilesBelow(quickFiles, nextPath)
      ensures Valid()
      ensures this.brands == brands && this.categories == categories && this.products == products
      ensures this.productFiles == productFiles && this.quickFiles == quickFiles
      ensures this.nextPath == nextPath && this.nextProductId == nextProductId && this.nextImageId == nextImageId
    {
      this.brands := brands;
      this.categories := categories;
      this.products := products;
      this.productFiles := productFiles;
      this.quickFiles := quickFiles;
      this.nextPath := nextPath;
      this.nextProductId := nextProductId;
      this.nextImageId := nextImageId;
    }

    /** IFormFile.CreateAsync: saves the upload under a name not in use and
        returns that name. */
    method CreateFile(folder: Folder, file: Upload) returns (path: Path)
      requires Valid()
      modifies this`productFiles, this`quickFiles, this`nextPath
      ensures Valid()
      ensures path == old(nextPath) && nextPath == old(nextPath) + 1
      ensures path !in old(productFiles) && path !in old(quickFiles)
      ensures folder == ProductFolder ==> productFiles == old(productFiles)[path := file] && quickFiles == old(quickFiles)
      ensures folder == QuickFolder ==> quickFiles == old(quickFiles)[path := file] && productFiles == old(productFiles)
    {
      path := nextPath;
      RowsValidLater(products, nextProductId, nextImageId, nextPath, nextProductId, nextImageId, nextPath + 1);
      nextPath := nextPath + 1;
      if folder == ProductFolder {
        productFiles := productFiles[path := file];
      } else {
        quickFiles := quickFiles[path := file];
      }
    }

    /** FileHelper.DeleteFile: removes the file, if present. */
    method DeleteFile(folder: Folder, path: Path)
      requires FilesValid()
      modifies this`productFiles, this`quickFiles
      ensures FilesValid()
      ensures folder == ProductFolder ==> productFiles == old(productFiles) - {path} && quickFiles == old(quickFiles)
      ensures folder == QuickFolder ==> quickFiles == old(quickFiles) - {path} && productFiles == old(productFiles)
    {
      if folder == ProductFolder {
        productFiles := productFiles - {path};
      } else {
        quickFiles := quickFiles - {path};
      }
    }

    /** The foreach over product.Files in both actions: each file is checked,
        then saved to product-quick, and its row collected. The rows take the
        next free identities; they are stored only by the caller. */
    method SaveGallery(files: seq<Upload>) returns (failure: Option<ActionResult>, images: seq<ProductImage>)
      requires Valid()
      modifies this`productFiles, this`quickFiles, this`nextPath
      ensures Valid()
      ensures productFiles == old(productFiles)
      ensures failure == GalleryCheck(files)
      ensures var k := GalleryPassed(files);
              && quickFiles == Saved(old(quickFiles), old(nextPath), files[..k])
              && nextPath == old(nextPath) + k
      ensures failure.None? ==> images == NewGallery(nextImageId, old(nextPath), |files|)
    {
      images := [];
      var i := 0;
      while i < |files|
        invariant 0 <= i <= |files|
        invariant forall j :: 0 <= j < i ==> AcceptableUpload(files[j])
        invariant quickFiles == Saved(old(quickFiles), old(nextPath), files[..i])
        invariant nextPath == old(nextPath) + i
        invariant productFiles == old(productFiles)
        invariant images == NewGallery(nextImageId, old(nextPath), i)
        invariant Valid()
      {
        var file := files[i];
        if !file.isJpeg {
          assert GalleryPassed(files) == i;
          return Some(Invalid(FileNotJpeg)), images;
        }
        if file.tooLarge {
          assert GalleryPassed(files) == i;
          return Some(Invalid(FileTooLarge)), images;
        }
        var path := CreateFile(QuickFolder, file);
        SavedSnoc(old(quickFiles), old(nextPath), files[..i], file);
        assert files[..i + 1] == files[..i] + [file];
        images := images + [ProductImage(nextImageId + i, path)];
        i := i + 1;
      }
      assert files[..|files|] == files;
      assert GalleryPassed(files) == |files|;
      failure := None;
    }

    /** A main or hover image Create requires: when present and passing both
        checks it is saved to the product folder (CreateAsync). */
    method SaveRequiredImage(f: Option<Upload>, missing: ModelError, notJpeg: ModelError, tooLarge: ModelError)
      returns (failure: Option<ActionResult>, path: Path)
      requires Valid()
      modifies this`productFiles, this`quickFiles, this`nextPath
      ensures Valid()
      ensures failure == RequiredImageCheck(f, missing, notJpeg, tooLarge)
      ensures quickFiles == old(quickFiles)
      ensures failure.Some? ==> productFiles == old(productFiles) && nextPath == old(nextPath)
      ensures failure.None? ==>
                && path == old(nextPath) && nextPath == old(nextPath) + 1
                && productFiles == old(productFiles)[path := f.value]
    {
      if f.None? {
        return Some(Invalid(missing)), 0;
      }
      var file := f.value;
      if !file.isJpeg {
        return Some(Invalid(notJpeg)), 0;
      }
      if file.tooLarge {
        return Some(Invalid(tooLarge)), 0;
      }
      assert AcceptableUpload(file);
      path := CreateFile(ProductFolder, file);
      failure := None;
    }

    /** A main or hover image Update may replace: when supplied and passing
        both checks, the stored file is deleted (FileHelper.DeleteFile) and the
        new one saved (CreateAsync). Returns the name the row refers to next. */
    method ReplaceImage(f: Option<Upload>, replacing: Path, notJpeg: ModelError, tooLarge: ModelError)
      returns (failure: Option<ActionResult>, path: Path)
      requires Valid() && replacing < nextPath
      modifies this`productFiles, this`quickFiles, this`nextPath
      ensures Valid()
      ensures failure == ImageCheck(f, notJpeg, tooLarge)
      ensures quickFiles == old(quickFiles)
      ensures failure.Some? ==> productFiles == old(productFiles) && nextPath == old(nextPath)
      ensures failure.None? ==>
                && productFiles == Replaced(old(productFiles), replacing, old(nextPath), f)
                && nextPath == old(nextPath) + Count(f)
                && path == (if f.Some? then old(nextPath) else replacing)
                && path < nextPath
    {
      if f.None? {
        return None, replacing;
      }
      var file := f.value;
      if !file.isJpeg {
        return Some(Invalid(notJpeg)), replacing;
      }
      if file.tooLarge {
        return Some(Invalid(tooLarge)), replacing;
      }
      DeleteFile(ProductFolder, replacing);
      path := CreateFile(ProductFolder, file);
      failure := None;
    }

    /** The main and then the hover image of POST Create, each saved once its
        checks pass. */
    method SaveNamed(form: ProductForm) returns (failure: Option<ActionResult>, mainImage: Path, hoverImage: Path)
      requires Valid()
      modifies this`productFiles, this`quickFiles, this`nextPath
      ensures Valid()
      ensures failure.Some? ==> failure == AddProgress(form).rejection && AddProgress(form).gallerySaved == 0
      ensures failure.None? ==> AddProgress(form) == GalleryProgress(form.files, true, true)
      ensures var named := NamedSaved(form, AddProgress(form));
              && productFiles == Saved(old(productFiles), old(nextPath), named)
              && nextPath == old(nextPath) + |named|
      ensures quickFiles == old(quickFiles)
      ensures failure.None? ==> mainImage == old(nextPath) && hoverImage == old(nextPath) + 1
    {
      failure, mainImage := SaveRequiredImage(form.mainFile, MainMissing, MainNotJpeg, MainTooLarge);
      if failure.Some? {
        assert NamedSaved(form, AddProgress(form)) == [] + [];
        return failure, 0, 0;
      }
      SavedSnoc(old(productFiles), old(nextPath), [], form.mainFile.value);
      failure, hoverImage := SaveRequiredImage(form.hoveFile, HoverMissing, HoverNotJpeg, HoverTooLarge);
      if failure.None? {
        SavedSnoc(old(productFiles), old(nextPath), [form.mainFile.value], form.hoveFile.value);
        assert NamedSaved(form, AddProgress(form)) == [form.mainFile.value] + [form.hoveFile.value];
      } else {
        assert NamedSaved(form, AddProgress(form)) == [form.mainFile.value] + [];
      }
    }

    /** The end of POST Create, once every check passed and every file is
        saved: the seria and code are derived, the newest product of that
        seria has its code bumped, and the new row is added. */
    method Insert(form: ProductForm, mainImage: Path, hoverImage: Path, images: seq<ProductImage>) returns (r: ActionResult)
      requires TableValid() && form.categoryId.Some?
      requires hoverImage == mainImage + 1 && mainImage + 2 + |form.files| <= nextPath && |form.files| <= MaxGallery
      requires images == NewGallery(nextImageId, mainImage + 2, |form.files|)
      modifies this`products, this`nextProductId, this`nextImageId
      ensures TableValid()
      // the seria cannot be derived: the action throws, no row changes
      ensures SeriaFor(brands, form).None? ==>
                && r == ServerError
                && products == old(products)
                && nextProductId == old(nextProductId) && nextImageId == old(nextImageId)
      // one product added, one existing code possibly bumped
      ensures SeriaFor(brands, form).Some? ==>
                var seria := SeriaFor(brands, form).value;
                var bumped := BumpCode(old(products), seria);
                && r == RedirectToIndex
                && products == bumped.0 + [NewProduct(form, seria, bumped.1, old(nextProductId), mainImage, old(nextImageId))]
                && nextProductId == old(nextProductId) + 1
                && nextImageId == old(nextImageId) + |form.files|
    {
      var seria := SeriaFor(brands, form);
      if seria.None? {
        return ServerError;
      }
      // OrderByDescending(Id).FirstOrDefault(Seria == seria), then Code += 1 on
      // that tracked row, or 1 when there is none
      var bumped := BumpCode(products, seria.value);
      var product := NewProduct(form, seria.value, bumped.1, nextProductId, mainImage, nextImageId);
      NewProductFits(form, seria.value, bumped.1, nextProductId, nextImageId, nextPath, mainImage);
      BumpKeepsRowsValid(products, seria.value, nextProductId, nextImageId, nextPath);
      Store(bumped.0, product, |images|);
      return RedirectToIndex;
    }

    /** AddAsync and SaveChangesAsync at the end of POST Create: the tracked
        rows are written back with the new row after them, and the new row and
        its gallery rows take their identities. */
    method Store(table: seq<Product>, product: Product, added: nat)
      requires RowsValid(table, nextProductId, nextImageId, nextPath)
      requires product.id == nextProductId && KeysFrom(product.gallery, nextImageId) && added == |product.gallery|
      requires WellFormed(product, nextProductId + 1, nextImageId + added, nextPath)
      modifies this`products, this`nextProductId, this`nextImageId
      ensures TableValid()
      ensures products == table + [product]
      ensures nextProductId == old(nextProductId) + 1 && nextImageId == old(nextImageId) + added
    {
      AppendKeepsRowsValid(table, product, nextProductId, nextImageId, nextPath);
      products := table + [product];
      nextProductId := nextProductId + 1;
      nextImageId := nextImageId + added;
    }

    /** POST Create(Product). */
    method Create(modelValid: bool, form: ProductForm) returns (r: ActionResult)
      requires Valid()
      modifies this
      ensures Valid()
      // files: saved as the checks went, and kept whatever happened after
      ensures var p := CreateProgress(brands, categories, modelValid, form);
              var named := NamedSaved(form, p);
              && productFiles == Saved(old(productFiles), old(nextPath), named)
              && quickFiles == Saved(old(quickFiles), old(nextPath) + |named|, form.files[..p.gallerySaved])
              && nextPath == old(nextPath) + |named| + p.gallerySaved
      // a failed check: its result, and no row changes
      ensures CreateProgress(brands, categories, modelValid, form).rejection.Some? ==>
                && r == CreateProgress(brands, categories, modelValid, form).rejection.value
                && products == old(products)
                && nextProductId == old(nextProductId) && nextImageId == old(nextImageId)
      // the seria cannot be derived: the action throws, no row changes
      ensures CreateProgress(brands, categories, modelValid, form).rejection.None? && SeriaFor(brands, form).None? ==>
                && r == ServerError
                && products == old(products)
                && nextProductId == old(nextProductId) && nextImageId == old(nextImageId)
      // success: one product added, one existing code possibly bumped
      ensures CreateProgress(brands, categories, modelValid, form).rejection.None? && SeriaFor(brands, form).Some? ==>
                var seria := SeriaFor(brands, form).value;
                var bumped := BumpCode(old(products), seria);
                && r == RedirectToIndex
                && products == bumped.0 + [NewProduct(form, seria, bumped.1, old(nextProductId), old(nextPath), old(nextImageId))]
                && nextProductId == old(nextProductId) + 1
                && nextImageId == old(nextImageId) + |form.files|
      ensures CreateRequestCheck(brands, categories, modelValid, form).Some? ==> unchanged(this)
    {
      var failure := CreateRequestCheck(brands, categories, modelValid, form);
      if failure.Some? {
        return failure.value;
      }
      r := Add(form);
    }

    /** The rest of POST Create once every request check passed: each image
        step as AddProgress describes, then the new row. */
    method Add(form: ProductForm) returns (r: ActionResult)
      requires Valid() && form.categoryId.Some? && |form.files| <= MaxGallery
      modifies this`products, this`productFiles, this`quickFiles, this`nextPath, this`nextProductId, this`nextImageId
      ensures Valid()
      // files: saved as the checks went, and kept whatever happened after
      ensures var p := AddProgress(form);
              var named := NamedSaved(form, p);
              && productFiles == Saved(old(productFiles), old(nextPath), named)
              && quickFiles == Saved(old(quickFiles), old(nextPath) + |named|, form.files[..p.gallerySaved])
              && nextPath == old(nextPath) + |named| + p.gallerySaved
      // a failed check: its result, and no row changes
      ensures AddProgress(form).rejection.Some? ==>
                && r == AddProgress(form).rejection.value
                && products == old(products)
                && nextProductId == old(nextProductId) && nextImageId == old(nextImageId)
      // the seria cannot be derived: the action throws, no row changes
      ensures AddProgress(form).rejection.None? && SeriaFor(brands, form).None? ==>
                && r == ServerError
                && products == old(products)
                && nextProductId == old(nextProductId) && nextImageId == old(nextImageId)
      // success: one product added, one existing code possibly bumped
      ensures AddProgress(form).rejection.None? && SeriaFor(brands, form).Some? ==>
                var seria := SeriaFor(brands, form).value;
                var bumped := BumpCode(old(products), seria);
                && r == RedirectToIndex
                && products == bumped.0 + [NewProduct(form, seria, bumped.1, old(nextProductId), old(nextPath), old(nextImageId))]
                && nextProductId == old(nextProductId) + 1
                && nextImageId == old(nextImageId) + |form.files|
    {
      var failure, mainImage, hoverImage := SaveNamed(form);
      if failure.Some? {
        assert form.files[..0] == [];
        assert AddProgress(form).rejection.Some? && AddProgress(form).gallerySaved == 0;
        assert Saved(quickFiles, nextPath, []) == quickFiles;
        return failure.value;
      }
      assert AddProgress(form) == GalleryProgress(form.files, true, true);
      assert AddProgress(form).rejection == GalleryCheck(form.files);
      assert AddProgress(form).gallerySaved == GalleryPassed(form.files);
      assert nextPath == old(nextPath) + 2 by {
        assert NamedSaved(form, AddProgress(form)) == [form.mainFile.value, form.hoveFile.value];
      }
      assert mainImage == old(nextPath) && hoverImage == old(nextPath) + 1;
      assert products == old(products) && nextProductId == old(nextProductId) && nextImageId == old(nextImageId);
      r := Finish(form, mainImage, hoverImage);
    }

    /** The gallery loop and the new row of POST Create, once the main and the
        hover image are saved. */
    method Finish(form: ProductForm, mainImage: Path, hoverImage: Path) returns (r: ActionResult)
      requires Valid() && form.categoryId.Some? && |form.files| <= MaxGallery
      requires hoverImage == mainImage + 1 && nextPath == mainImage + 2
      modifies this`products, this`productFiles, this`quickFiles, this`nextPath, this`nextProductId, this`nextImageId
      ensures Valid()
      ensures productFiles == old(productFiles)
      ensures quickFiles == Saved(old(quickFiles), old(nextPath), form.files[..GalleryPassed(form.files)])
      ensures nextPath == old(nextPath) + GalleryPassed(form.files)
      // a gallery file fails its checks: its result, and no row changes
      ensures GalleryCheck(form.files).Some? ==>
                && r == GalleryCheck(form.files).value
                && products == old(products)
                && nextProductId == old(nextProductId) && nextImageId == old(nextImageId)
      // the seria cannot be derived: the action throws, no row changes
      ensures GalleryCheck(form.files).None? && SeriaFor(brands, form).None? ==>
                && r == ServerError
                && products == old(products)
                && nextProductId == old(nextProductId) && nextImageId == old(nextImageId)
      // one product added, one existing code possibly bumped
      ensures GalleryCheck(form.files).None? && SeriaFor(brands, form).Some? ==>
                var seria := SeriaFor(brands, form).value;
                var bumped := BumpCode(old(products), seria);
                && r == RedirectToIndex
                && products == bumped.0 + [NewProduct(form, seria, bumped.1, old(nextProductId), mainImage, old(nextImageId))]
                && nextProductId == old(nextProductId) + 1
                && nextImageId == old(nextImageId) + |form.files|
    {
      var failure, images := SaveGallery(form.files);
      if failure.Some? {
        return failure.value;
      }
      r := Insert(form, mainImage, hoverImage, images);
    }

    /** POST Update(int? id, Product product). */
    method Update(modelValid: bool, id: Option<int>, form: ProductForm) returns (r: ActionResult)
      requires Valid()
      modifies this`products, this`productFiles, this`quickFiles, this`nextPath, this`nextImageId
      ensures Valid()
      ensures var p := UpdateProgress(brands, categories, old(products), modelValid, id, form);
              r == if p.rejection.Some? then p.rejection.value else RedirectToIndex
      // a failed request check: nothing changes
      ensures UpdateRequestCheck(brands, categories, old(products), modelValid, id, form).Some? ==> unchanged(this)
      ensures nextProductId == old(nextProductId)
      // past the request checks, files: the named images replaced and the
      // gallery saved as the checks went
      ensures UpdateRequestCheck(brands, categories, old(products), modelValid, id, form).None? ==>
                var p := UpdateProgress(brands, categories, old(products), modelValid, id, form);
                var row := old(products)[UpdateTarget(old(products), id).value];
                var main := if p.mainSaved then form.mainFile else None;
                var hover := if p.hoverSaved then form.hoveFile else None;
                var first := old(nextPath) + Count(main) + Count(hover);
                && productFiles == Replaced(Replaced(old(productFiles), row.mainImage, old(nextPath), main),
                                            row.hoverImage, old(nextPath) + Count(main), hover)
                && quickFiles == Saved(old(quickFiles), first, form.files[..p.gallerySaved])
                && nextPath == first + p.gallerySaved
      // a failed image check: no row changes
      ensures UpdateProgress(brands, categories, old(products), modelValid, id, form).rejection.Some? ==>
                products == old(products) && nextImageId == old(nextImageId)
      // success: only the target's images change; the gallery grows at its end
      ensures UpdateProgress(brands, categories, old(products), modelValid, id, form).rejection.None? ==>
                var t := UpdateTarget(old(products), id).value;
                && products == old(products)[t := Edited(old(products)[t], form, old(nextPath), old(nextImageId))]
                && nextImageId == old(nextImageId) + |form.files|
    {
      var failure := UpdateRequestCheck(brands, categories, products, modelValid, id, form);
      if failure.Some? {
        return failure.value;
      }
      UpdateRequestPassed(brands, categories, products, modelValid, id, form);
      var t := UpdateTarget(products, id).value;
      r := Edit(t, form);
    }

    /** The rest of POST Update once every request check passed and the
        tracked row t is loaded: each image step as EditProgress describes,
        and the edited row stored at SaveChangesAsync. */
    method Edit(t: nat, form: ProductForm) returns (r: ActionResult)
      requires Valid() && t < |products| && |products[t].gallery| + |form.files| <= MaxGallery
      modifies this`products, this`productFiles, this`quickFiles, this`nextPath, this`nextImageId
      ensures Valid()
      ensures var p := EditProgress(form);
              var row := old(products)[t];
              var main := if p.mainSaved then form.mainFile else None;
              var hover := if p.hoverSaved then form.hoveFile else None;
              var first := old(nextPath) + Count(main) + Count(hover);
              && r == (if p.rejection.Some? then p.rejection.value else RedirectToIndex)
              && productFiles == Replaced(Replaced(old(productFiles), row.mainImage, old(nextPath), main),
                                          row.hoverImage, old(nextPath) + Count(main), hover)
              && quickFiles == Saved(old(quickFiles), first, form.files[..p.gallerySaved])
              && nextPath == first + p.gallerySaved
      ensures EditProgress(form).rejection.Some? ==> products == old(products) && nextImageId == old(nextImageId)
      ensures EditProgress(form).rejection.None? ==>
                && products == old(products)[t := Edited(old(products)[t], form, old(nextPath), old(nextImageId))]
                && nextImageId == old(nextImageId) + |form.files|
    {
      var dbProduct := products[t];       // the tracked row; stored back only at SaveChangesAsync
      var failure, mainImage, hoverImage := ReplaceNamed(form, dbProduct);
      if failure.Some? {
        assert form.files[..0] == [];
        return failure.value;
      }
      assert EditProgress(form).rejection == GalleryCheck(form.files);
      assert EditProgress(form).gallerySaved == GalleryPassed(form.files);
      assert nextPath == old(nextPath) + Count(form.mainFile) + Count(form.hoveFile);
      EditedImages(dbProduct, form, old(nextPath), nextImageId, mainImage, hoverImage);
      dbProduct := dbProduct.(mainImage := mainImage, hoverImage := hoverImage);
      r := EditGallery(t, form, dbProduct);
    }

    /** The gallery loop of POST Update and its SaveChangesAsync, once the
        tracked row t has its main and hover images. */
    method EditGallery(t: nat, form: ProductForm, dbProduct: Product) returns (r: ActionResult)
      requires Valid() && t < |products| && dbProduct.id == products[t].id && dbProduct.gallery == products[t].gallery
      requires WellFormed(dbProduct, nextProductId, nextImageId, nextPath)
      requires |dbProduct.gallery| + |form.files| <= MaxGallery
      modifies this`products, this`productFiles, this`quickFiles, this`nextPath, this`nextImageId
      ensures Valid()
      ensures productFiles == old(productFiles)
      ensures quickFiles == Saved(old(quickFiles), old(nextPath), form.files[..GalleryPassed(form.files)])
      ensures nextPath == old(nextPath) + GalleryPassed(form.files)
      ensures r == if GalleryCheck(form.files).Some? then GalleryCheck(form.files).value else RedirectToIndex
      ensures GalleryCheck(form.files).Some? ==> products == old(products) && nextImageId == old(nextImageId)
      ensures GalleryCheck(form.files).None? ==>
                && products == old(products)[t := dbProduct.(gallery := dbProduct.gallery + NewGallery(old(nextImageId), old(nextPath), |form.files|))]
                && nextImageId == old(nextImageId) + |form.files|
    {
      var failure, images := SaveGallery(form.files);
      if failure.Some? {
        return failure.value;
      }
      // AddRange; `product.Name = product.Name.Trim()` assigns to the bound
      // form, not to dbProduct, so it changes nothing that is stored.
      Commit(t, dbProduct.(gallery := dbProduct.gallery + images), images);
      return RedirectToIndex;
    }

    /** The main and then the hover image of POST Update, each replaced when
        supplied and once its checks pass. */
    method ReplaceNamed(form: ProductForm, row: Product) returns (failure: Option<ActionResult>, mainImage: Path, hoverImage: Path)
      requires Valid() && row.mainImage < nextPath && row.hoverImage < nextPath
      modifies this`productFiles, this`quickFiles, this`nextPath
      ensures Valid()
      ensures var p := EditProgress(form);
              var main := if p.mainSaved then form.mainFile else None;
              var hover := if p.hoverSaved then form.hoveFile else None;
              && productFiles == Replaced(Replaced(old(productFiles), row.mainImage, old(nextPath), main),
                                          row.hoverImage, old(nextPath) + Count(main), hover)
              && nextPath == old(nextPath) + Count(main) + Count(hover)
      ensures failure.Some? ==> failure == EditProgress(form).rejection && EditProgress(form).gallerySaved == 0
      ensures failure.None? ==> EditProgress(form) == GalleryProgress(form.files, form.mainFile.Some?, form.hoveFile.Some?)
      ensures quickFiles == old(quickFiles)
      ensures failure.None? ==>
                && mainImage == (if form.mainFile.Some? then old(nextPath) else row.mainImage)
                && hoverImage == (if form.hoveFile.Some? then old(nextPath) + Count(form.mainFile) else row.hoverImage)
                && mainImage < nextPath && hoverImage < nextPath
    {
      failure, mainImage := ReplaceImage(form.mainFile, row.mainImage, MainNotJpeg, MainTooLarge);
      if failure.Some? {
        return failure, mainImage, row.hoverImage;
      }
      failure, hoverImage := ReplaceImage(form.hoveFile, row.hoverImage, HoverNotJpeg, HoverTooLarge);
    }

    /** SaveChangesAsync at the end of POST Update: the tracked row is written
        back and the new gallery rows take their identities. */
    method Commit(t: nat, edited: Product, images: seq<ProductImage>)
      requires TableValid() && t < |products| && edited.id == products[t].id
      requires edited.gallery == products[t].gallery + images && KeysFrom(images, nextImageId)
      requires WellFormed(edited, nextProductId, nextImageId + |images|, nextPath)
      modifies this`products, this`nextImageId
      ensures TableValid()
      ensures products == old(products)[t := edited] && nextImageId == old(nextImageId) + |images|
    {
      ReplaceKeepsRowsValid(products, t, edited, images, nextProductId, nextImageId, nextPath);
      products := products[t := edited];
      nextImageId := nextImageId + |images|;
    }

    /** GET DeleteImage(int? id). */
    method DeleteImage(id: Option<int>) returns (r: ActionResult)
      requires Valid()
      modifies this`products, this`productFiles, this`quickFiles
      ensures Valid()
      ensures id.None? ==> r == BadRequest && unchanged(this)
      ensures id.Some? && FindImage(old(products), id.value).None? ==> r == NotFound && unchanged(this)
      ensures id.Some? && FindImage(old(products), id.value).Some? ==>
                var (i, g) := FindImage(old(products), id.value).value;
                && products == WithoutImage(old(products), i, g)
                && FindImage(products, id.value).None?
                && quickFiles == old(quickFiles) - {old(products)[i].gallery[g].image}
                && productFiles == old(productFiles)
                && r == GalleryPartial(RemoveAt(old(products)[i].gallery, g))
    {
      if id.None? {
        return BadRequest;
      }
      var found := FindImage(products, id.value);
      if found.None? {
        return NotFound;
      }
      var i, g := found.value.0, found.value.1;
      // Products.FirstOrDefaultAsync(p => p.Id == productImage.ProductId): ids are unique
      var owner := FindProduct(products, products[i].id);
      assert owner == Some(i);
      RemoveFoundImage(products, id.value);
      r := RemoveImage(owner.value, g);
    }

    /** The end of DeleteImage: the gallery row removed (Remove,
        SaveChangesAsync), then its file deleted from product-quick, and the
        owner's remaining gallery rendered. */
    method RemoveImage(i: nat, g: nat) returns (r: ActionResult)
      requires Valid() && i < |products| && g < |products[i].gallery|
      modifies this`products, this`productFiles, this`quickFiles
      ensures Valid()
      ensures products == WithoutImage(old(products), i, g)
      ensures quickFiles == old(quickFiles) - {old(products)[i].gallery[g].image}
      ensures productFiles == old(productFiles)
      ensures r == GalleryPartial(RemoveAt(old(products)[i].gallery, g))
    {
      var image := products[i].gallery[g];
      RemoveKeepsRowsValid(products, i, g, nextProductId, nextImageId, nextPath);
      products := WithoutImage(products, i, g);
      DeleteFile(QuickFolder, image.image);
      return GalleryPartial(products[i].gallery);
    }
  }
}
