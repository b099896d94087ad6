/**
  The LINQ queries the controller runs against its tables, as functions over
  the tables' rows in storage order.
 */
module Catalog {
  import opened Wrappers
  import opened Models

  /** Brands.AnyAsync(b => !b.IsDeleted && b.Id == id) */
  predicate HasActiveBrand(brands: seq<Brand>, id: int) {
    exists i :: 0 <= i < |brands| && brands[i].id == id && !brands[i].isDeleted
  }

  /** An active brand is in particular a brand, so the lookup at code
      derivation cannot come back empty once the brand check passed. */
  lemma ActiveBrandIsFound(brands: seq<Brand>, id: int)
    requires HasActiveBrand(brands, id)
    ensures FirstBrand(brands, id).Some?
  {
  }

  /** Categories.AnyAsync(c => !c.IsDeleted && !c.IsMain && c.Id == id) */
  predicate HasSelectableCategory(categories: seq<Category>, id: int) {
    exists i :: 0 <= i < |categories| && categories[i].id == id
                && !categories[i].isDeleted && !categories[i].isMain
  }

  /** The first position that holds the key: the index form of
      FirstOrDefault(x => x.Id == key) over a table's keys in storage order. */
  function IndexOf(keys: seq<int>, key: int): (r: Option<nat>)
    ensures r.Some? ==> r.value < |keys| && keys[r.value] == key
    ensures r.Some? ==> forall i :: 0 <= i < r.value ==> keys[i] != key
    ensures r.None? <==> forall i :: 0 <= i < |keys| ==> keys[i] != key
  {
    if |keys| == 0 then None
    else if keys[0] == key then Some(0)
    else
      match IndexOf(keys[1..], key)
      case None => None
      case Some(i) => Some(i + 1)
  }

  function BrandIds(brands: seq<Brand>): seq<int> {
    seq(|brands|, i requires 0 <= i < |brands| => brands[i].id)
  }

  function ProductIds(products: seq<Product>): seq<int>
  {
    seq(|products|, i requires 0 <= i < |products| => products[i].id)
  }

  function ImageIds(gallery: seq<ProductImage>): seq<int>
  {
    seq(|gallery|, i requires 0 <= i < |gallery| => gallery[i].id)
  }

  /** Brands.FirstOrDefault(b => b.Id == id), deleted or not, as an index. */
  function FirstBrand(brands: seq<Brand>, id: int): (r: Option<nat>)
    ensures r.Some? ==> r.value < |brands| && brands[r.value].id == id
    ensures r.Some? ==> forall i :: 0 <= i < r.value ==> brands[i].id != id
    ensures r.None? <==> forall i :: 0 <= i < |brands| ==> brands[i].id != id
  {
    assert forall i :: 0 <= i < |brands| ==> BrandIds(brands)[i] == brands[i].id;
    IndexOf(BrandIds(brands), id)
  }

  /** Products.FirstOrDefaultAsync(p => p.Id == id), as an index. */
  function FindProduct(products: seq<Product>, id: int): (r: Option<nat>)
    ensures r.Some? ==> r.value < |products| && products[r.value].id == id
    ensures r.Some? ==> forall i :: 0 <= i < r.value ==> products[i].id != id
    ensures r.None? <==> forall i :: 0 <= i < |products| ==> products[i].id != id
  {
    assert forall i :: 0 <= i < |products| ==> ProductIds(products)[i] == products[i].id;
    IndexOf(ProductIds(products), id)
  }

  /** Products.OrderByDescending(p => p.Id).FirstOrDefault(p => p.Seria == seria):
      among the products of that seria the one with the highest Id; the sort is
      stable, so of equal Ids the one stored first. */
  function LatestWithSeria(products: seq<Product>, seria: string): (r: Option<nat>)
    ensures r.Some? ==> r.value < |products| && products[r.value].seria == seria
    ensures r.Some? ==> forall j :: 0 <= j < |products| && products[j].seria == seria
                                    ==> products[j].id <= products[r.value].id
    ensures r.Some? ==> forall j :: 0 <= j < r.value && products[j].seria == seria
                                    ==> products[j].id < products[r.value].id
    ensures r.None? <==> forall j :: 0 <= j < |products| ==> products[j].seria != seria
  {
    if |products| == 0 then None
    else
      var last := |products| - 1;
      var best := LatestWithSeria(products[..last], seria);
      if products[last].seria == seria && (best.None? || products[best.value].id < products[last].id)
      then Some(last)
      else best
  }

  /** Two tables that agree, row by row, on the keys, on which rows have the
      seria, and on the codes of those rows. */
  predicate SameKeys(a: seq<Product>, b: seq<Product>, seria: string) {
    && |a| == |b|
    && forall j :: 0 <= j < |a| ==>
         && a[j].id == b[j].id
         && (a[j].seria == seria <==> b[j].seria == seria)
         && (a[j].seria == seria ==> a[j].code == b[j].code)
  }

  /** The seria query sees only keys and serias, so such tables give the
      same row. */
  lemma {:induction false} LatestSame(a: seq<Product>, b: seq<Product>, seria: string)
    requires SameKeys(a, b, seria)
    ensures LatestWithSeria(a, seria) == LatestWithSeria(b, seria)
  {
    if |a| > 0 {
      var n := |a| - 1;
      assert SameKeys(a[..n], b[..n], seria);
      LatestSame(a[..n], b[..n], seria);
    }
  }

  /** A row of another seria appended to the table does not change the row
      the seria query picks. */
  lemma OtherSeriaIgnored(products: seq<Product>, p: Product, seria: string)
    requires p.seria != seria
    ensures LatestWithSeria(products + [p], seria) == LatestWithSeria(products, seria)
  {
    assert (products + [p])[..|products|] == products;
  }

  /** A row appended with a key above every stored key is the latest row of
      its seria, whatever the rows before it hold. */
  lemma NewestIsLatest(products: seq<Product>, p: Product)
    requires forall j :: 0 <= j < |products| ==> products[j].id < p.id
    ensures LatestWithSeria(products + [p], p.seria) == Some(|products|)
  {
    assert (products + [p])[..|products|] == products;
  }

  /** ProductImages.FirstOrDefaultAsync(p => p.Id == id): the first gallery row
      with that key, as (product index, gallery index). */
  function FindImage(products: seq<Product>, id: int): (r: Option<(nat, nat)>)
    ensures r.Some? ==> r.value.0 < |products| && r.value.1 < |products[r.value.0].gallery|
                        && products[r.value.0].gallery[r.value.1].id == id
    ensures r.Some? ==> forall i, g :: 0 <= i < r.value.0 && 0 <= g < |products[i].gallery|
                                       ==> products[i].gallery[g].id != id
    ensures r.Some? ==> forall g :: 0 <= g < r.value.1 ==> products[r.value.0].gallery[g].id != id
    ensures r.None? <==> forall i, g :: 0 <= i < |products| && 0 <= g < |products[i].gallery|
                                        ==> products[i].gallery[g].id != id
  {
    if |products| == 0 then None
    else
      match FindInGallery(products[0].gallery, id)
      case Some(g) => Some((0, g))
      case None =>
        match FindImage(products[1..], id)
        case None => None
        case Some(p) => Some((p.0 + 1, p.1))
  }

  /** The first position in one gallery with the key. */
  function FindInGallery(gallery: seq<ProductImage>, id: int): (r: Option<nat>)
    ensures r.Some? ==> r.value < |gallery| && gallery[r.value].id == id
    ensures r.Some? ==> forall g :: 0 <= g < r.value ==> gallery[g].id != id
    ensures r.None? <==> forall g :: 0 <= g < |gallery| ==> gallery[g].id != id
  {
    assert forall i :: 0 <= i < |gallery| ==> ImageIds(gallery)[i] == gallery[i].id;
    IndexOf(ImageIds(gallery), id)
  }

  /** List.Remove of the element at index i: the others keep their order. */
  function RemoveAt<T>(s: seq<T>, i: nat): (r: seq<T>)
    requires i < |s|
    ensures |r| == |s| - 1
    ensures forall j :: 0 <= j < i ==> r[j] == s[j]
    ensures forall j :: i <= j < |r| ==> r[j] == s[j + 1]
    ensures multiset(r) + multiset{s[i]} == multiset(s)
  {
    assert s == s[..i] + [s[i]] + s[i + 1..];
    s[..i] + s[i + 1..]
  }
}
