/**
 * The Next.js product route (`src/pages/api/admin/products/route.ts`): GET,
 * POST and DELETE over the durable store, with no fallback. Each handler is a
 * method over the store client and the parsed document object; each is proved
 * against a function on store values (`GetSpec`, `PostSpec`, `DeleteSpec`),
 * and the lemmas below state the properties of those functions.
 */
module NextRoute {
  import opened Wrappers
  import opened Catalog
  import opened BlobStore

  const AddFailed := "Failed to add product"
  const DeleteFailed := "Failed to delete product"

  /** What `readProducts` yields: the products, a JSON value without a products array, or an exception. */
  datatype ReadResult = Products(products: seq<Product>) | Foreign | Throws

  /** `readProducts`: no blob and a non-OK fetch both give `{ products: [] }`; failures propagate. */
  function ReadSpec(s: Store, env: ReadEnv): ReadResult
  {
    match Fetch(s.catalog, env)
    case Missing => Products([])
    case NotOk => Products([])
    case Threw => Throws
    case Rejected => Throws
    case Parsed(d) => if d.Catalog? then Products(d.products) else Foreign
  }

  /** `GET`: the stored document, or `{ products: [] }` when reading throws. */
  function GetSpec(s: Store, env: ReadEnv): Response
  {
    match ReadSpec(s, env)
    case Products(ps) => Response(200, Listing(Catalog(ps)))
    case Foreign => Response(200, Listing(NoProductsArray))
    case Throws => Response(200, Listing(EmptyDocument))
  }

  /** `POST`: validate, publish the image, read, append, write. */
  function PostSpec(s: Store, body: Body, env: Env): (Store, Response)
  {
    if body.Undecodable? then (s, Response(500, Error(AddFailed)))
    else match Validate(body.form)
      case None => (s, Response(400, Error(FieldsRequired)))
      case Some(sub) =>
        match env.assetPut
        case PutThrows => (s, Response(500, Error(AddFailed)))
        case Published(url) =>
          var s1 := PutAsset(s, url, Asset(AssetPath(env.now, sub.file.name), sub.file.contentType, sub.file.bytes));
          match ReadSpec(s1, env.read)
          case Products(ps) =>
            var p := NewProduct(sub, env.now, url, env.isoNow);
            if env.writeThrows then (s1, Response(500, Error(AddFailed)))
            else (PutDocument(s1, Catalog(ps + [p])), Response(200, Added(p)))
          case _ => (s1, Response(500, Error(AddFailed)))
  }

  /** `DELETE`: find by id, best-effort asset deletion, splice, write. */
  function DeleteSpec(s: Store, id: Option<string>, env: Env): (Store, Response)
  {
    if id.None? || id.value == "" then (s, Response(400, Error(IdRequired)))
    else match ReadSpec(s, env.read)
      case Products(ps) =>
        var k := FindIndex(ps, id.value);
        if k == -1 then (s, Response(404, Error(NotFound)))
        else
          var s1 := if IsDurable(ps[k].image) && !env.delThrows then DeleteAsset(s, ps[k].image) else s;
          if env.writeThrows then (s1, Response(500, Error(DeleteFailed)))
          else (PutDocument(s1, Catalog(RemoveAt(ps, k))), Response(200, Deleted))
      case _ => (s, Response(500, Error(DeleteFailed)))
  }

  // ---------------------------------------------------------------------
  // The handlers
  // ---------------------------------------------------------------------

  method ReadProducts(gw: Gateway, env: ReadEnv) returns (r: Loaded)
    ensures match ReadSpec(gw.State(), env)
      case Products(ps) => r.Object? && fresh(r.data) && r.data.products == ps
      case Foreign => r.ForeignJson?
      case Throws => r.Raised?
  {
    var f := gw.Read(env);
    match f
    case Missing =>
      var data := new ProductsData([]);
      r := Object(data);
    case NotOk =>
      var data := new ProductsData([]);
      r := Object(data);
    case Threw =>
      r := Raised;
    case Rejected =>
      r := Raised;
    case Parsed(d) =>
      if d.Catalog? {
        var data := new ProductsData(d.products);
        r := Object(data);
      } else {
        r := ForeignJson;
      }
  }

  method Get(gw: Gateway, env: ReadEnv) returns (resp: Response)
    ensures resp == GetSpec(gw.State(), env)
  {
    var loaded := ReadProducts(gw, env);
    match loaded
    case Object(data) =>
      resp := Response(200, Listing(Catalog(data.products)));
    case ForeignJson =>
      resp := Response(200, Listing(NoProductsArray));
    case Raised =>
      resp := Response(200, Listing(EmptyDocument));
  }

  method Post(gw: Gateway, body: Body, env: Env) returns (resp: Response)
    modifies gw
    ensures (gw.State(), resp) == PostSpec(old(gw.State()), body, env)
  {
    if body.Undecodable? {
      return Response(500, Error(AddFailed));
    }
    var sub := Validate(body.form);
    if sub.None? {
      return Response(400, Error(FieldsRequired));
    }
    var file := sub.value.file;
    var published := gw.Publish(AssetPath(env.now, file.name), file, env.assetPut);
    if published.PutThrows? {
      return Response(500, Error(AddFailed));
    }
    var loaded := ReadProducts(gw, env.read);
    if !loaded.Object? {
      return Response(500, Error(AddFailed));
    }
    var data := loaded.data;
    var p := NewProduct(sub.value, env.now, published.url, env.isoNow);
    data.products := data.products + [p];
    var ok := gw.Write(Catalog(data.products), env.writeThrows);
    if !ok {
      return Response(500, Error(AddFailed));
    }
    resp := Response(200, Added(p));
  }

  method Delete(gw: Gateway, id: Option<string>, env: Env) returns (resp: Response)
    modifies gw
    ensures (gw.State(), resp) == DeleteSpec(old(gw.State()), id, env)
  {
    if id.None? || id.value == "" {
      return Response(400, Error(IdRequired));
    }
    var loaded := ReadProducts(gw, env.read);
    if !loaded.Object? {
      return Response(500, Error(DeleteFailed));
    }
    var data := loaded.data;
    var k := FindIndex(data.products, id.value);
    if k == -1 {
      return Response(404, Error(NotFound));
    }
    var product := data.products[k];
    if IsDurable(product.image) {
      var _ := gw.Delete(product.image, env.delThrows);
    }
    data.products := RemoveAt(data.products, k);
    var ok := gw.Write(Catalog(data.products), env.writeThrows);
    if !ok {
      return Response(500, Error(DeleteFailed));
    }
    resp := Response(200, Deleted);
  }

  // ---------------------------------------------------------------------
  // Properties
  // ---------------------------------------------------------------------

  /** GET answers with the stored document when the read goes through. */
  lemma GetReturnsStored(s: Store, d: Document)
    requires s.catalog == Some(d)
    ensures GetSpec(s, ReadSucceeds) == Response(200, Listing(d))
  {
  }

  /** GET never fails: no blob, a non-OK fetch or any exception give an empty catalog. */
  lemma GetDegradesToEmpty(s: Store, env: ReadEnv)
    requires s.catalog.None? || !env.ReadSucceeds?
    ensures GetSpec(s, env) == Response(200, Listing(EmptyDocument))
  {
  }

  /** An add with a missing or empty field, or without an image, is refused and changes nothing. */
  lemma PostRejectsIncomplete(s: Store, form: Form, env: Env)
    requires !Filled(form, "category") || !Filled(form, "name") || !Filled(form, "description")
             || !Filled(form, "link") || form.image.None?
    ensures PostSpec(s, Decoded(form), env) == (s, Response(400, Error(FieldsRequired)))
  {
  }

  /**
   * The image is published before the catalog is read: when publishing
   * throws, the answer is 500 and the store is as before, whatever the read
   * and write would have done.
   */
  lemma PostUploadFailureTouchesNothing(s: Store, form: Form, env: Env)
    requires Validate(form).Some? && env.assetPut.PutThrows?
    ensures PostSpec(s, Decoded(form), env) == (s, Response(500, Error(AddFailed)))
  {
  }

  /**
   * A successful add appends exactly one product, built from the inputs, at
   * the end of the stored list, and publishes the image under its path.
   */
  lemma PostAppends(s: Store, form: Form, env: Env, ps: seq<Product>)
    requires Validate(form).Some? && env.assetPut.Published? && !env.writeThrows
    requires ReadSpec(s, env.read) == Products(ps)
    ensures var (s', resp) := PostSpec(s, Decoded(form), env);
      var url := env.assetPut.url;
      var file := form.image.value;
      && resp.status == 200 && resp.reply.Added?
      && var p := resp.reply.product;
      && s'.catalog == Some(Catalog(ps + [p]))
      && p.id == form.fields["category"] + "-" + Text.Decimal(env.now)
      && p.category == form.fields["category"] && p.name == form.fields["name"]
      && p.description == form.fields["description"] && p.link == form.fields["link"]
      && p.image == url && p.createdAt == env.isoNow
      && s'.assets == s.assets[url := Asset("products/" + AssetFilename(env.now, file.name), file.contentType, file.bytes)]
  {
  }

  /** A failed write after a publish leaves the asset in the store and the document as it was. */
  lemma PostWriteFailureOrphansAsset(s: Store, form: Form, env: Env)
    requires Validate(form).Some? && env.assetPut.Published? && env.writeThrows
    ensures var (s', resp) := PostSpec(s, Decoded(form), env);
      resp == Response(500, Error(AddFailed)) && s'.catalog == s.catalog && env.assetPut.url in s'.assets
  {
  }

  /** A delete without an id is refused and changes nothing. */
  lemma DeleteRequiresId(s: Store, id: Option<string>, env: Env)
    requires id.None? || id == Some("")
    ensures DeleteSpec(s, id, env) == (s, Response(400, Error(IdRequired)))
  {
  }

  /** Deleting an id no product has answers 404 and writes nothing. */
  lemma DeleteUnknownIs404(s: Store, id: string, env: Env, ps: seq<Product>)
    requires id != "" && ReadSpec(s, env.read) == Products(ps)
    requires forall j :: 0 <= j < |ps| ==> ps[j].id != id
    ensures DeleteSpec(s, Some(id), env) == (s, Response(404, Error(NotFound)))
  {
  }

  /**
   * Deleting a present id removes its first product, keeps the others in
   * order, and deletes the asset only when the image names the durable host;
   * a failing asset deletion does not stop the removal.
   */
  lemma DeleteRemovesFirstMatch(s: Store, id: string, env: Env, ps: seq<Product>)
    requires id != "" && ReadSpec(s, env.read) == Products(ps) && !env.writeThrows
    requires FindIndex(ps, id) >= 0
    ensures var k := FindIndex(ps, id);
      var (s', resp) := DeleteSpec(s, Some(id), env);
      && resp == Response(200, Deleted)
      && s'.catalog == Some(Catalog(ps[..k] + ps[k + 1..]))
      && s'.assets == (if IsDurable(ps[k].image) && !env.delThrows then s.assets - {ps[k].image} else s.assets)
  {
  }

  /** A failed write after the asset deletion keeps the product, whose image may now be gone. */
  lemma DeleteWriteFailureKeepsDocument(s: Store, id: string, env: Env, ps: seq<Product>)
    requires id != "" && ReadSpec(s, env.read) == Products(ps) && env.writeThrows
    requires FindIndex(ps, id) >= 0
    ensures var (s', resp) := DeleteSpec(s, Some(id), env);
      resp == Response(500, Error(DeleteFailed)) && s'.catalog == s.catalog
  {
  }

  /** Add then list: the listing ends with the product just added. */
  lemma AddThenList(s: Store, form: Form, env: Env, later: ReadEnv)
    requires Validate(form).Some? && Online(env) && later.ReadSucceeds?
    requires s.catalog.None? || s.catalog.value.Catalog?
    ensures var (s', resp) := PostSpec(s, Decoded(form), env);
      var before := if s.catalog.None? then [] else s.catalog.value.products;
      resp.reply.Added? && GetSpec(s', later) == Response(200, Listing(Catalog(before + [resp.reply.product])))
  {
  }

  /**
   * Delete then list: with unique ids the listing no longer has the id, and
   * deleting it again answers 404.
   */
  lemma DeleteThenDeleteAgain(s: Store, id: string, env: Env, ps: seq<Product>)
    requires id != "" && Online(env) && s.catalog == Some(Catalog(ps))
    requires UniqueIds(ps) && FindIndex(ps, id) >= 0
    ensures var (s', resp) := DeleteSpec(s, Some(id), env);
      && resp == Response(200, Deleted)
      && s'.catalog.Some? && s'.catalog.value.Catalog?
      && FindIndex(s'.catalog.value.products, id) == -1
      && DeleteSpec(s', Some(id), env).1 == Response(404, Error(NotFound))
  {
    RemoveLeavesNoMatch(ps, id);
  }
}
