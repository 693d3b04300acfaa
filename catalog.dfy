/**
 * The values both product handlers share: a product record, the decoded
 * request form, the catalog document, the replies, and the pure steps of
 * adding and deleting (validation, the generated id and asset name, the
 * embedded-image fallback, `findIndex` and `splice`).
 */
module Catalog {
  import opened Wrappers
  import opened Text
  import Seqs
  import Base64

  /** One catalog entry as the handlers store it. */
  datatype Product = Product(
    id: string,
    category: string,
    name: string,
    description: string,
    link: string,
    image: string,
    createdAt: string)

  /** An uploaded file part: its name, its MIME type and its bytes. */
  datatype FileRecord = FileRecord(name: string, contentType: string, bytes: seq<Base64.Byte>)

  /** A decoded multipart form: text fields by name and the first `image` file part, if any. */
  datatype Form = Form(fields: map<string, string>, image: Option<FileRecord>)

  /** A request body: decoded by the platform, or a body it could not decode. */
  datatype Body = Decoded(form: Form) | Undecodable

  /**
   * The stored JSON document. `Catalog` is `{ products: [...] }`; `NoProductsArray`
   * stands for any JSON value whose `products` member is not an array.
   */
  datatype Document = Catalog(products: seq<Product>) | NoProductsArray

  const EmptyDocument: Document := Catalog([])

  /** The host name by which a stored image URL is recognised as a durable asset. */
  const DurableHost := "vercel-storage.com"

  /** What a handler answers: the JSON body and the status code. */
  datatype Reply = Listing(document: Document) | Added(product: Product) | Deleted | Error(message: string)
  datatype Response = Response(status: int, reply: Reply)

  const FieldsRequired := "All fields are required"
  const IdRequired := "Product ID is required"
  const NotFound := "Product not found"

  /** `!formData.get(key)` is false: the field is present and not the empty string. */
  predicate Filled(form: Form, key: string)
  {
    key in form.fields && form.fields[key] != ""
  }

  /** The inputs of an add that passed validation. */
  datatype Submission = Submission(category: string, name: string, description: string, link: string, file: FileRecord)

  /** The required-field check of an add. */
  function Validate(form: Form): (r: Option<Submission>)
    ensures r.Some? <==>
      Filled(form, "category") && Filled(form, "name") && Filled(form, "description") && Filled(form, "link")
      && form.image.Some?
    ensures r.Some? ==>
      && r.value.category == form.fields["category"] && r.value.name == form.fields["name"]
      && r.value.description == form.fields["description"] && r.value.link == form.fields["link"]
      && r.value.file == form.image.value
  {
    if Filled(form, "category") && Filled(form, "name") && Filled(form, "description") && Filled(form, "link")
       && form.image.Some?
    then Some(Submission(form.fields["category"], form.fields["name"], form.fields["description"],
                         form.fields["link"], form.image.value))
    else None
  }

  /** The generated id: category, a dash, the clock reading in milliseconds. */
  function ProductId(category: string, timestamp: nat): string
  {
    category + "-" + Decimal(timestamp)
  }

  /** The asset file name: clock reading, a dash, the upload name with whitespace runs made `-`. */
  function AssetFilename(timestamp: nat, uploadName: string): string
  {
    Decimal(timestamp) + "-" + CollapseSpaces(uploadName)
  }

  /** The path under which the image is published. */
  function AssetPath(timestamp: nat, uploadName: string): string
  {
    "products/" + AssetFilename(timestamp, uploadName)
  }

  /** The embedded image reference: a `data:` URL (RFC 2397) carrying base64 of the bytes. */
  function DataUrl(contentType: string, bytes: seq<Base64.Byte>): string
  {
    "data:" + contentType + ";base64," + Base64.Encode(bytes)
  }

  /** The record an add appends. */
  function NewProduct(s: Submission, timestamp: nat, image: string, createdAt: string): Product
  {
    Product(ProductId(s.category, timestamp), s.category, s.name, s.description, s.link, image, createdAt)
  }

  /** `products.findIndex(p => p.id === id)`. */
  function FindIndex(ps: seq<Product>, id: string): (k: int)
    ensures -1 <= k < |ps|
    ensures k == -1 <==> forall j :: 0 <= j < |ps| ==> ps[j].id != id
    ensures k >= 0 ==> ps[k].id == id && forall j :: 0 <= j < k ==> ps[j].id != id
  {
    if ps == [] then -1
    else if ps[0].id == id then 0
    else
      var k := FindIndex(ps[1..], id);
      if k == -1 then -1 else k + 1
  }

  /** `products.splice(k, 1)`. */
  function RemoveAt(ps: seq<Product>, k: nat): seq<Product>
    requires k < |ps|
  {
    ps[..k] + ps[k + 1..]
  }

  /** The delete handlers' ownership test for an image: its URL names the durable host. */
  predicate IsDurable(image: string)
  {
    Contains(image, DurableHost)
  }

  predicate UniqueIds(ps: seq<Product>)
  {
    forall i, j :: 0 <= i < j < |ps| ==> ps[i].id != ps[j].id
  }

  lemma DecimalStep(n: nat, d: nat)
    requires n >= 1 && d < 10
    ensures Decimal(n * 10 + d) == Decimal(n) + [DigitChar(d)]
  {
    assert (n * 10 + d) / 10 == n && (n * 10 + d) % 10 == d;
  }

  /** With a fixed category and clock the id is fixed. */
  lemma IdForFixedClock()
    ensures ProductId("automation", 1700000000000) == "automation-1700000000000"
  {
    DecimalStep(1, 7);
    DecimalStep(17, 0);
    DecimalStep(170, 0);
    DecimalStep(1700, 0);
    DecimalStep(17000, 0);
    DecimalStep(170000, 0);
    DecimalStep(1700000, 0);
    DecimalStep(17000000, 0);
    DecimalStep(170000000, 0);
    DecimalStep(1700000000, 0);
    DecimalStep(17000000000, 0);
    DecimalStep(170000000000, 0);
    assert Decimal(1700000000000) == "1700000000000";
  }

  /** Splitting at a dash: the digits after it cannot reach past the dash of another split. */
  lemma DigitsAfterDash(c1: string, d1: string, c2: string, d2: string)
    requires c1 + "-" + d1 == c2 + "-" + d2
    requires forall i :: 0 <= i < |d2| ==> IsDigit(d2[i])
    ensures |d1| >= |d2|
  {
    var s := c2 + "-" + d2;
    assert forall i :: |c2| < i < |s| ==> s[i] == d2[i - |c2| - 1] && s[i] != '-';
    assert s[|c1|] == (c1 + "-" + d1)[|c1|] == '-';
  }

  /** The id determines its category and clock reading: equal ids mean equal inputs. */
  lemma IdDeterminesInputs(c1: string, t1: nat, c2: string, t2: nat)
    requires ProductId(c1, t1) == ProductId(c2, t2)
    ensures c1 == c2 && t1 == t2
  {
    var d1, d2 := Decimal(t1), Decimal(t2);
    var s := ProductId(c1, t1);
    DigitsAfterDash(c1, d1, c2, d2);
    DigitsAfterDash(c2, d2, c1, d1);
    assert s == (c1 + "-") + d1 && s == (c2 + "-") + d2;
    assert d1 == s[|s| - |d1|..] == d2;
    assert c1 == s[..|c1|] == c2;
    DecimalInjective(t1, t2);
  }

  /** The asset file name starts with the clock reading and a dash and holds no whitespace. */
  lemma AssetFilenameShape(timestamp: nat, uploadName: string)
    ensures StartsWith(AssetFilename(timestamp, uploadName), Decimal(timestamp) + "-")
    ensures NoSpace(AssetFilename(timestamp, uploadName))
  {
    var d := Decimal(timestamp);
    var f := AssetFilename(timestamp, uploadName);
    CollapseHasNoSpace(uploadName);
    assert f == (d + "-") + CollapseSpaces(uploadName);
    assert f[..|d| + 1] == d + "-";
    forall i | 0 <= i < |f| ensures !IsSpace(f[i]) {
      if i < |d| {
        assert f[i] == d[i] && IsDigit(d[i]);
      } else if i > |d| {
        assert f[i] == CollapseSpaces(uploadName)[i - |d| - 1];
      }
    }
  }

  /** An embedded reference decodes back to the uploaded bytes. */
  lemma DataUrlCarriesBytes(contentType: string, bytes: seq<Base64.Byte>)
    ensures var prefix := "data:" + contentType + ";base64,";
      StartsWith(DataUrl(contentType, bytes), prefix)
      && Base64.Decode(DataUrl(contentType, bytes)[|prefix|..]) == Some(bytes)
  {
    var prefix := "data:" + contentType + ";base64,";
    var u := DataUrl(contentType, bytes);
    assert u == prefix + Base64.Encode(bytes);
    assert u[..|prefix|] == prefix;
    assert u[|prefix|..] == Base64.Encode(bytes);
    Base64.DecodeEncode(bytes);
  }

  /**
   * An embedded reference is never taken for a durable asset unless its MIME
   * type has a dot: the host name has one, the rest of a data URL has none.
   */
  lemma EmbeddedIsNotDurable(contentType: string, bytes: seq<Base64.Byte>)
    requires '.' !in contentType
    ensures !IsDurable(DataUrl(contentType, bytes))
  {
    var e := Base64.Encode(bytes);
    Base64.EncodeAlphabet(bytes);
    var u := DataUrl(contentType, bytes);
    assert u == "data:" + contentType + ";base64," + e;
    if IsDurable(u) {
      assert '.' in DurableHost;
      ContainsChar(u, DurableHost, '.');
    }
  }

  /** Appending a product whose id is new keeps the ids unique. */
  lemma AppendKeepsUnique(ps: seq<Product>, p: Product)
    requires UniqueIds(ps) && FindIndex(ps, p.id) == -1
    ensures UniqueIds(ps + [p])
  {
  }

  /**
   * Removing the first product with `id`: one fewer entry, the others in
   * their order, and the entry removed is the one that had the id.
   */
  lemma RemoveFirstMatch(ps: seq<Product>, id: string)
    requires FindIndex(ps, id) >= 0
    ensures var k := FindIndex(ps, id); var r := RemoveAt(ps, k);
      && |r| == |ps| - 1
      && Seqs.IsSubsequence(r, ps)
      && multiset(r) == multiset(ps) - multiset{ps[k]}
      && (forall j :: 0 <= j < k ==> r[j] == ps[j] && r[j].id != id)
      && (forall j :: k <= j < |r| ==> r[j] == ps[j + 1])
  {
    var k := FindIndex(ps, id);
    RemoveAtIsSubsequence(ps, k);
    RemoveAtMultiset(ps, k);
  }

  lemma RemoveAtMultiset(ps: seq<Product>, k: nat)
    requires k < |ps|
    ensures multiset(RemoveAt(ps, k)) == multiset(ps) - multiset{ps[k]}
  {
    assert ps == ps[..k] + [ps[k]] + ps[k + 1..];
    assert multiset(ps) == multiset(ps[..k]) + multiset{ps[k]} + multiset(ps[k + 1..]);
  }

  lemma {:induction false} RemoveAtIsSubsequence(ps: seq<Product>, k: nat)
    requires k < |ps|
    ensures Seqs.IsSubsequence(RemoveAt(ps, k), ps)
  {
    if k == 0 {
      assert RemoveAt(ps, 0) == ps[1..];
      SubsequenceOfSelf(ps[1..]);
    } else {
      RemoveAtIsSubsequence(ps[1..], k - 1);
      assert RemoveAt(ps, k)[0] == ps[0];
      assert RemoveAt(ps, k)[1..] == RemoveAt(ps[1..], k - 1);
    }
  }

  lemma {:induction false} SubsequenceOfSelf(ps: seq<Product>)
    ensures Seqs.IsSubsequence(ps, ps)
  {
    if ps != [] {
      SubsequenceOfSelf(ps[1..]);
    }
  }

  /** With unique ids, removing the match leaves no product with that id, and ids stay unique. */
  lemma RemoveLeavesNoMatch(ps: seq<Product>, id: string)
    requires UniqueIds(ps) && FindIndex(ps, id) >= 0
    ensures var r := RemoveAt(ps, FindIndex(ps, id));
      UniqueIds(r) && FindIndex(r, id) == -1
  {
    var k := FindIndex(ps, id);
    var r := RemoveAt(ps, k);
    RemoveFirstMatch(ps, id);
    forall j | 0 <= j < |r| ensures r[j].id != id {
      if j >= k {
        assert r[j] == ps[j + 1];
      }
    }
    forall i, j | 0 <= i < j < |r| ensures r[i].id != r[j].id {
      var i', j' := if i < k then i else i + 1, if j < k then j else j + 1;
      assert r[i] == ps[i'] && r[j] == ps[j'];
    }
  }
}
