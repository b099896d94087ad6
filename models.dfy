/**
  The entities the product admin works on (P129Allup.Models), the uploaded
  files it receives and the form it binds a request to.
 */
module Models {
  import opened Wrappers

  /** C#'s `int`, for the product code whose `+= 1` wraps around. */
  newtype int32 = x: int | -0x8000_0000 <= x < 0x8000_0000

  /** Unchecked `x + 1` on an `int`: two's-complement wrap-around. */
  function Inc32(x: int32): (r: int32)
    ensures (r as int + 0x8000_0000) == (x as int + 0x8000_0000 + 1) % 0x1_0000_0000
  {
    if x == 0x7FFF_FFFF then -0x8000_0000 else x + 1
  }

  /** The name under which a file is stored in an image folder. */
  type Path = nat

  /** The most gallery images a product may have. */
  const MaxGallery: nat := 5

  datatype Brand = Brand(id: int, name: string, isDeleted: bool)

  datatype Category = Category(id: int, isDeleted: bool, isMain: bool)

  /** A gallery row: its key and the stored file in product-quick. */
  datatype ProductImage = ProductImage(id: nat, image: Path)

  /** A stored product row, its gallery loaded with it. */
  datatype Product = Product(
    id: nat,
    name: string,
    brandId: int,
    categoryId: int,
    seria: string,
    code: int32,
    mainImage: Path,
    hoverImage: Path,
    gallery: seq<ProductImage>)

  /** An uploaded IFormFile: its bytes, whether CheckContentType("image/jpeg")
      holds of it and whether CheckFileLength(50) reports it too large. */
  datatype Upload = Upload(content: seq<bv8>, isJpeg: bool, tooLarge: bool)

  /** A file passes both upload checks the controller makes. */
  predicate AcceptableUpload(u: Upload) {
    u.isJpeg && !u.tooLarge
  }

  /** The bound `Product` a POST carries: the fields the actions read and the
      three file inputs. A missing and an empty Files list are both []. */
  datatype ProductForm = ProductForm(
    name: string,
    brandId: int,
    categoryId: Option<int>,
    mainFile: Option<Upload>,
    hoveFile: Option<Upload>,
    files: seq<Upload>)
}
