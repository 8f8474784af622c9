/** getFolderForProduct: the folder a product unpacks to, used to tell
    whether the destination already holds it. */
module Products {
  import opened JsValues

  /** The `productFolderName` table. */
  const ProductFolders: map<string, string> :=
    map["b2g-desktop" := "b2g", "firefox" := "firefox", "mulet" := "firefox"]

  /** `productFolderName[product] || null` exactly as JavaScript evaluates
      it: the lookup also sees the members inherited from Object.prototype. */
  function ProductFolderAsWritten(product: string): (r: JsValue)
    ensures product in ProductFolders ==> r == Str(ProductFolders[product])
    ensures r == Null <==> product !in ProductFolders && product !in ObjectPrototypeKeys
    ensures r != Undefined
  {
    assert product in ProductFolders ==> ProductFolders[product] != "";
    Or(Lookup(ProductFolders, product), Null)
  }

  /** The lookup as intended: the table's own entries, null for any other
      product. */
  function FolderForProduct(product: string): (r: JsValue)
    ensures r == Str("b2g") <==> product == "b2g-desktop"
    ensures r == Str("firefox") <==> product == "firefox" || product == "mulet"
    ensures r == Null <==> product !in {"b2g-desktop", "firefox", "mulet"}
    ensures r.Str? || r == Null
  {
    if product in ProductFolders then Str(ProductFolders[product]) else Null
  }

  /** The two agree on every product the table lists and on every product
      that is not the name of an Object.prototype member. */
  lemma AsWrittenAgrees(product: string)
    ensures product !in ObjectPrototypeKeys ==> ProductFolderAsWritten(product) == FolderForProduct(product)
    ensures product in ObjectPrototypeKeys ==> ProductFolderAsWritten(product) == Inherited(product)
  {
    assert product in ProductFolders ==> ProductFolders[product] != "";
  }

  /** The discrepancy: "constructor" has no folder, yet the lookup as
      written does not yield null for it. */
  lemma ConstructorFolderNotNull()
    ensures ProductFolderAsWritten("constructor") != Null
    ensures FolderForProduct("constructor") == Null
  {
    AsWrittenAgrees("constructor");
  }

  /** Neither an inherited member nor null is strictly equal to a string,
      so the destination check finds the same thing in any listing with
      either lookup. */
  lemma AsWrittenFindsTheSame(names: seq<string>, product: string)
    ensures (IndexOf(names, ProductFolderAsWritten(product)) != -1) == (IndexOf(names, FolderForProduct(product)) != -1)
  {
    AsWrittenAgrees(product);
    IndexOfFound(names, ProductFolderAsWritten(product));
    IndexOfFound(names, FolderForProduct(product));
  }
}
