/**
 * The edge product handler (`api/admin/products.ts`): the same catalog
 * operations as the Next.js route, but a throwing `list`, `fetch` or
 * document `put` falls back, one call at a time, to a process-memory
 * document kept in a global slot; an image `put` that throws is replaced by
 * a data URL, and a rejected `res.json()` escapes to a 500. A throwing `del`
 * is ignored here as it is on the route.
 *
 * The heap model keeps the source's aliasing: a read that falls back returns
 * the memory document itself, so the `push` or `splice` that follows changes
 * the memory document whether or not the later write reaches the store.
 * Each method is proved against a function on values (`World`).
 */
module EdgeApi {
  import opened Wrappers
  import opened Catalog
  import opened BlobStore
  import Base64
  import NextRoute

  const ServerError := "Server error"
  const MethodNotAllowed := "Method not allowed"

  /** The number of bytes turned into characters per `String.fromCharCode` call. */
  const Chunk: nat := 0x8000

  /** An incoming request: its method, its body and its `id` query parameter. */
  datatype Request = Request(verb: string, body: Body, id: Option<string>)

  /** What the handler can change: the store and the fallback slot (absent until first used). */
  datatype World = World(store: Store, mem: Option<seq<Product>>)

  /** The products of the fallback document; an absent slot reads as empty. */
  function MemProducts(mem: Option<seq<Product>>): seq<Product>
  {
    mem.GetOr([])
  }

  /** The slot after `getMem()`: created empty on first access, otherwise untouched. */
  function WithMem(w: World): World
  {
    w.(mem := Some(MemProducts(w.mem)))
  }

  /** Where `readProducts` takes its document from. */
  datatype Source = Fresh(products: seq<Product>) | Memory | Foreign | Rejects

  /**
   * `readProducts`: no blob or a non-OK fetch give a new empty document; a
   * throwing `list` or `fetch` gives the memory document; a rejected
   * `res.json()` is returned without `await`, so the `catch` does not see it
   * and it reaches the caller.
   */
  function SourceOf(s: Store, env: ReadEnv): Source
  {
    match Fetch(s.catalog, env)
    case Missing => Fresh([])
    case NotOk => Fresh([])
    case Threw => Memory
    case Rejected => Rejects
    case Parsed(d) => if d.Catalog? then Fresh(d.products) else Foreign
  }

  /** `writeProducts(d)`: the store on success, otherwise a copy into the memory document. */
  function WriteSpec(w: World, d: Document, throws: bool): World
  {
    if !throws then w.(store := PutDocument(w.store, d))
    else w.(mem := Some(if d.Catalog? then d.products else []))
  }

  function GetSpec(w: World, env: Env): (World, Response)
  {
    match SourceOf(w.store, env.read)
    case Fresh(ps) => (w, Response(200, Listing(Catalog(ps))))
    case Memory => (WithMem(w), Response(200, Listing(Catalog(MemProducts(w.mem)))))
    case Foreign => (w, Response(200, Listing(NoProductsArray)))
    case Rejects => (w, Response(500, Error(ServerError)))
  }

  /** The image reference of an add and the store after publishing it. */
  function PublishSpec(s: Store, file: FileRecord, env: Env): (Store, string)
  {
    match env.assetPut
    case Published(url) => (PutAsset(s, url, Asset(AssetPath(env.now, file.name), file.contentType, file.bytes)), url)
    case PutThrows => (s, DataUrl(file.contentType, file.bytes))
  }

  function PostSpec(w: World, body: Body, env: Env): (World, Response)
  {
    if body.Undecodable? then (w, Response(500, Error(ServerError)))
    else match Validate(body.form)
      case None => (w, Response(400, Error(FieldsRequired)))
      case Some(sub) =>
        var (s1, url) := PublishSpec(w.store, sub.file, env);
        var w1 := w.(store := s1);
        var p := NewProduct(sub, env.now, url, env.isoNow);
        match SourceOf(s1, env.read)
        case Fresh(ps) => (WriteSpec(w1, Catalog(ps + [p]), env.writeThrows), Response(200, Added(p)))
        case Memory =>
          var ps := MemProducts(w1.mem) + [p];
          (WriteSpec(w1.(mem := Some(ps)), Catalog(ps), env.writeThrows), Response(200, Added(p)))
        case Foreign => (w1, Response(500, Error(ServerError)))
        case Rejects => (w1, Response(500, Error(ServerError)))
  }

  /** The part of a delete after the read; `aliased` tells whether `ps` is the memory document. */
  function RemoveSpec(w: World, ps: seq<Product>, aliased: bool, id: string, env: Env): (World, Response)
  {
    var k := FindIndex(ps, id);
    if k == -1 then (w, Response(404, Error(NotFound)))
    else
      var s1 := if IsDurable(ps[k].image) && !env.delThrows then DeleteAsset(w.store, ps[k].image) else w.store;
      var rest := RemoveAt(ps, k);
      var w2 := w.(store := s1, mem := if aliased then Some(rest) else w.mem);
      (WriteSpec(w2, Catalog(rest), env.writeThrows), Response(200, Deleted))
  }

  function DeleteSpec(w: World, id: Option<string>, env: Env): (World, Response)
  {
    if id.None? || id.value == "" then (w, Response(400, Error(IdRequired)))
    else match SourceOf(w.store, env.read)
      case Fresh(ps) => RemoveSpec(w, ps, false, id.value, env)
      case Memory => RemoveSpec(WithMem(w), MemProducts(w.mem), true, id.value, env)
      case Foreign => (w, Response(500, Error(ServerError)))
      case Rejects => (w, Response(500, Error(ServerError)))
  }

  /** `handler`: dispatch on the request method. */
  function HandleSpec(w: World, req: Request, env: Env): (World, Response)
  {
    if req.verb == "GET" then GetSpec(w, env)
    else if req.verb == "POST" then PostSpec(w, req.body, env)
    else if req.verb == "DELETE" then DeleteSpec(w, req.id, env)
    else (w, Response(405, Error(MethodNotAllowed)))
  }

  // ---------------------------------------------------------------------
  // The handler on the heap
  // ---------------------------------------------------------------------

  /** `globalThis`, as far as the handler uses it: the `__MEM_PRODUCTS__` slot. */
  class Runtime {
    var mem: ProductsData?

    constructor ()
      ensures mem == null
    {
      mem := null;
    }
  }

  function MemOf(rt: Runtime): Option<seq<Product>>
    reads rt, rt.mem
  {
    if rt.mem == null then None else Some(rt.mem.products)
  }

  function WorldOf(gw: Gateway, rt: Runtime): World
    reads gw, rt, rt.mem
  {
    World(gw.State(), MemOf(rt))
  }

  /** `getMem()`: creates `{ products: [] }` on first access and returns the same object afterwards. */
  method GetMem(rt: Runtime) returns (m: ProductsData)
    modifies rt
    ensures old(rt.mem) != null ==> m == old(rt.mem)
    ensures old(rt.mem) == null ==> fresh(m) && m.products == []
    ensures rt.mem == m
  {
    if rt.mem == null {
      rt.mem := new ProductsData([]);
    }
    m := rt.mem;
  }

  /** `toDataUrl(file)`: the bytes go into a binary string chunk by chunk, then through `btoa`. */
  method ToDataUrl(file: FileRecord) returns (url: string)
    ensures url == DataUrl(file.contentType, file.bytes)
  {
    var bytes := file.bytes;
    var binary := "";
    var i := 0;
    while i < |bytes|
      invariant 0 <= i
      invariant binary == Base64.Latin1(bytes[..if i < |bytes| then i else |bytes|])
      decreases |bytes| - i
    {
      var end := if i + Chunk < |bytes| then i + Chunk else |bytes|;
      Base64.Latin1Append(bytes[..i], bytes[i..end]);
      assert bytes[..i] + bytes[i..end] == bytes[..end];
      binary := binary + Base64.Latin1(bytes[i..end]);
      i := i + Chunk;
    }
    assert bytes[..|bytes|] == bytes;
    Base64.BtoaLatin1(bytes);
    var encoded := Base64.Btoa(binary);
    url := "data:" + file.contentType + ";base64," + encoded.value;
  }

  method ReadProducts(gw: Gateway, rt: Runtime, env: ReadEnv) returns (r: Loaded)
    modifies rt
    ensures old(rt.mem) != null ==> rt.mem == old(rt.mem)
    ensures match SourceOf(gw.State(), env)
      case Fresh(ps) => r.Object? && fresh(r.data) && r.data.products == ps && rt.mem == old(rt.mem)
      case Memory => r.Object? && r.data == rt.mem && MemOf(rt) == Some(MemProducts(old(MemOf(rt))))
                     && (old(rt.mem) == null ==> fresh(rt.mem))
      case Foreign => r.ForeignJson? && rt.mem == old(rt.mem)
      case Rejects => r.Raised? && rt.mem == old(rt.mem)
  {
    var f := gw.Read(env);
    match f
    case Missing =>
      var data := new ProductsData([]);
      r := Object(data);
    case NotOk =>
      var data := new ProductsData([]);
      r := Object(data);
    case Threw =>
      var m := GetMem(rt);
      r := Object(m);
    case Rejected =>
      r := Raised;
    case Parsed(d) =>
      if d.Catalog? {
        var data := new ProductsData(d.products);
        r := Object(data);
      } else {
        r := ForeignJson;
      }
  }

  method WriteProducts(gw: Gateway, rt: Runtime, d: Document, throws: bool)
    modifies gw, rt, rt.mem
    ensures old(rt.mem) != null ==> rt.mem == old(rt.mem)
    ensures old(rt.mem) == null && rt.mem != null ==> fresh(rt.mem)
    ensures WorldOf(gw, rt) == WriteSpec(old(WorldOf(gw, rt)), d, throws)
  {
    var ok := gw.Write(d, throws);
    if !ok {
      var m := GetMem(rt);
      m.products := if d.Catalog? then d.products else [];
    }
  }

  method Get(gw: Gateway, rt: Runtime, env: Env) returns (resp: Response)
    modifies rt
    ensures old(rt.mem) != null ==> rt.mem == old(rt.mem)
    ensures old(rt.mem) == null && rt.mem != null ==> fresh(rt.mem)
    ensures (WorldOf(gw, rt), resp) == GetSpec(old(WorldOf(gw, rt)), env)
  {
    var loaded := ReadProducts(gw, rt, env.read);
    match loaded
    case Object(data) =>
      resp := Response(200, Listing(Catalog(data.products)));
    case ForeignJson =>
      resp := Response(200, Listing(NoProductsArray));
    case Raised =>
      resp := Response(500, Error(ServerError));
  }

  method Post(gw: Gateway, rt: Runtime, body: Body, env: Env) returns (resp: Response)
    modifies gw, rt, rt.mem
    ensures old(rt.mem) != null ==> rt.mem == old(rt.mem)
    ensures old(rt.mem) == null && rt.mem != null ==> fresh(rt.mem)
    ensures (WorldOf(gw, rt), resp) == PostSpec(old(WorldOf(gw, rt)), body, env)
  {
    if body.Undecodable? {
      return Response(500, Error(ServerError));
    }
    var sub := Validate(body.form);
    if sub.None? {
      return Response(400, Error(FieldsRequired));
    }
    var file := sub.value.file;
    var url: string;
    var published := gw.Publish(AssetPath(env.now, file.name), file, env.assetPut);
    if published.Published? {
      url := published.url;
    } else {
      url := ToDataUrl(file);
    }
    var loaded := ReadProducts(gw, rt, env.read);
    if !loaded.Object? {
      return Response(500, Error(ServerError));
    }
    var data := loaded.data;
    var p := NewProduct(sub.value, env.now, url, env.isoNow);
    data.products := data.products + [p];
    WriteProducts(gw, rt, Catalog(data.products), env.writeThrows);
    resp := Response(200, Added(p));
  }

  method Delete(gw: Gateway, rt: Runtime, id: Option<string>, env: Env) returns (resp: Response)
    modifies gw, rt, rt.mem
    ensures old(rt.mem) != null ==> rt.mem == old(rt.mem)
    ensures old(rt.mem) == null && rt.mem != null ==> fresh(rt.mem)
    ensures (WorldOf(gw, rt), resp) == DeleteSpec(old(WorldOf(gw, rt)), id, env)
  {
    if id.None? || id.value == "" {
      return Response(400, Error(IdRequired));
    }
    var loaded := ReadProducts(gw, rt, env.read);
    if !loaded.Object? {
      return Response(500, Error(ServerError));
    }
    var data := loaded.data;
    var k := FindIndex(data.products, id.value);
    if k == -1 {
      return Response(404, Error(NotFound));
    }
    var product := data.products[k];
    if IsDurable(product.image) {
      var _ := gw.Delete(product.image, env.delThrows);
    }
    data.products := RemoveAt(data.products, k);
    WriteProducts(gw, rt, Catalog(data.products), env.writeThrows);
    resp := Response(200, Deleted);
  }

  method Handle(gw: Gateway, rt: Runtime, req: Request, env: Env) returns (resp: Response)
    modifies gw, rt, rt.mem
    ensures old(rt.mem) != null ==> rt.mem == old(rt.mem)
    ensures old(rt.mem) == null && rt.mem != null ==> fresh(rt.mem)
    ensures (WorldOf(gw, rt), resp) == HandleSpec(old(WorldOf(gw, rt)), req, env)
  {
    if req.verb == "GET" {
      resp := Get(gw, rt, env);
    } else if req.verb == "POST" {
      resp := Post(gw, rt, req.body, env);
    } else if req.verb == "DELETE" {
      resp := Delete(gw, rt, req.id, env);
    } else {
      resp := Response(405, Error(MethodNotAllowed));
    }
  }

  // ---------------------------------------------------------------------
  // Properties
  // ---------------------------------------------------------------------

  /** Any method other than GET, POST and DELETE is answered 405 and changes nothing. */
  lemma OtherMethodsRefused(w: World, req: Request, env: Env)
    requires req.verb != "GET" && req.verb != "POST" && req.verb != "DELETE"
    ensures HandleSpec(w, req, env) == (w, Response(405, Error(MethodNotAllowed)))
  {
  }

  /** A read that finds no blob, or gets a non-OK fetch, lists an empty catalog. */
  lemma GetEmptyWithoutDocument(w: World, env: Env)
    requires (w.store.catalog.None? && !env.read.ListThrows?) || (w.store.catalog.Some? && env.read.FetchNotOk?)
    ensures GetSpec(w, env) == (w, Response(200, Listing(EmptyDocument)))
  {
  }

  /** A read whose `list` throws lists the memory document, creating it empty on first use. */
  lemma GetFallsBackToMemory(w: World, env: Env)
    requires env.read.ListThrows?
    ensures GetSpec(w, env).1 == Response(200, Listing(Catalog(MemProducts(w.mem))))
    ensures GetSpec(w, env).0.mem.Some? && GetSpec(w, env).0.store == w.store
  {
  }

  /** An add with a missing or empty field, or without an image, is refused and changes nothing. */
  lemma PostRejectsIncomplete(w: World, form: Form, env: Env)
    requires !Filled(form, "category") || !Filled(form, "name") || !Filled(form, "description")
             || !Filled(form, "link") || form.image.None?
    ensures PostSpec(w, Decoded(form), env) == (w, Response(400, Error(FieldsRequired)))
  {
  }

  /** The document an add reads, before the new product is appended. */
  function Before(w: World, src: Source): seq<Product>
  {
    match src
    case Fresh(ps) => ps
    case _ => MemProducts(w.mem)
  }

  /**
   * A successful add appends exactly one product built from the inputs: to
   * the store when the write goes through, to the memory document when it
   * does not. The image is the published URL, or the embedded data URL when
   * publishing throws.
   */
  lemma PostAppends(w: World, form: Form, env: Env)
    requires Validate(form).Some?
    requires var src := SourceOf(w.store, env.read); src.Fresh? || src.Memory?
    ensures var (w', resp) := PostSpec(w, Decoded(form), env);
      var file := form.image.value;
      var ps := Before(w, SourceOf(w.store, env.read));
      && resp.status == 200 && resp.reply.Added?
      && var p := resp.reply.product;
      && p.id == form.fields["category"] + "-" + Text.Decimal(env.now)
      && p.category == form.fields["category"] && p.name == form.fields["name"]
      && p.description == form.fields["description"] && p.link == form.fields["link"]
      && p.createdAt == env.isoNow
      && p.image == (if env.assetPut.Published? then env.assetPut.url else DataUrl(file.contentType, file.bytes))
      && (if env.writeThrows then w'.mem == Some(ps + [p]) else w'.store.catalog == Some(Catalog(ps + [p])))
      && w'.store.assets == (if env.assetPut.Published?
           then w.store.assets[env.assetPut.url := Asset("products/" + AssetFilename(env.now, file.name), file.contentType, file.bytes)]
           else w.store.assets)
      && (env.writeThrows ==> w'.store.catalog == w.store.catalog)
      && (!env.writeThrows && SourceOf(w.store, env.read).Fresh? ==> w'.mem == w.mem)
  {
  }

  /** When publishing throws, nothing is added to the assets and the image is embedded. */
  lemma PostEmbedsUnpublishedImage(w: World, form: Form, env: Env)
    requires Validate(form).Some? && env.assetPut.PutThrows?
    ensures var (w', resp) := PostSpec(w, Decoded(form), env);
      var file := form.image.value;
      w'.store.assets == w.store.assets
      && (resp.reply.Added? ==> resp.reply.product.image == DataUrl(file.contentType, file.bytes))
  {
  }

  /** A delete without an id is refused and changes nothing. */
  lemma DeleteRequiresId(w: World, id: Option<string>, env: Env)
    requires id.None? || id == Some("")
    ensures DeleteSpec(w, id, env) == (w, Response(400, Error(IdRequired)))
  {
  }

  /** Deleting an id no product has answers 404; the store and the memory document keep their contents. */
  lemma DeleteUnknownIs404(w: World, id: string, env: Env)
    requires id != ""
    requires var src := SourceOf(w.store, env.read); src.Fresh? || src.Memory?
    requires var ps := Before(w, SourceOf(w.store, env.read));
      forall j :: 0 <= j < |ps| ==> ps[j].id != id
    ensures var (w', resp) := DeleteSpec(w, Some(id), env);
      resp == Response(404, Error(NotFound)) && w'.store == w.store && MemProducts(w'.mem) == MemProducts(w.mem)
  {
    var ps := Before(w, SourceOf(w.store, env.read));
    assert FindIndex(ps, id) == -1;
  }

  /**
   * Deleting a present id removes its first product and keeps the others in
   * order, in the store or in the memory document; the asset is deleted only
   * when the image names the durable host, and a failing deletion does not
   * stop the removal.
   */
  lemma DeleteRemovesFirstMatch(w: World, id: string, env: Env)
    requires id != ""
    requires var src := SourceOf(w.store, env.read); src.Fresh? || src.Memory?
    requires FindIndex(Before(w, SourceOf(w.store, env.read)), id) >= 0
    ensures var ps := Before(w, SourceOf(w.store, env.read));
      var k := FindIndex(ps, id);
      var rest := ps[..k] + ps[k + 1..];
      var (w', resp) := DeleteSpec(w, Some(id), env);
      && resp == Response(200, Deleted)
      && w'.store.assets == (if IsDurable(ps[k].image) && !env.delThrows then w.store.assets - {ps[k].image} else w.store.assets)
      && (if env.writeThrows then w'.mem == Some(rest) else w'.store.catalog == Some(Catalog(rest)))
      && (env.writeThrows ==> w'.store.catalog == w.store.catalog)
      && (!env.writeThrows && SourceOf(w.store, env.read).Fresh? ==> w'.mem == w.mem)
  {
    var src := SourceOf(w.store, env.read);
    var ps := Before(w, src);
    if src.Fresh? {
      assert DeleteSpec(w, Some(id), env) == RemoveSpec(w, ps, false, id, env);
    } else {
      assert DeleteSpec(w, Some(id), env) == RemoveSpec(WithMem(w), ps, true, id, env);
    }
  }

  /** An env in which every store call throws, as when no store is configured. */
  predicate Offline(env: Env)
  {
    env.assetPut.PutThrows? && env.read.ListThrows? && env.writeThrows && env.delThrows
  }

  /** POST while the store works: the route's store change, and its answer up to the wording of a 500. */
  lemma PostAgreesOnline(w: World, body: Body, env: Env)
    requires Online(env)
    ensures var (w1, edge) := PostSpec(w, body, env);
      var (s2, route) := NextRoute.PostSpec(w.store, body, env);
      && w1 == World(s2, w.mem)
      && edge.status == route.status
      && (edge.status == 500 <==>
            body.Undecodable? || (Validate(body.form).Some? && w.store.catalog == Some(NoProductsArray)))
      && (edge.status == 500 ==> edge.reply == Error(ServerError) && route.reply == Error(NextRoute.AddFailed))
      && (edge.status != 500 ==> edge == route)
  {
    if body.Decoded? && Validate(body.form).Some? {
      var sub := Validate(body.form).value;
      var s1 := PutAsset(w.store, env.assetPut.url,
        Asset(AssetPath(env.now, sub.file.name), sub.file.contentType, sub.file.bytes));
      assert PublishSpec(w.store, sub.file, env) == (s1, env.assetPut.url);
      assert s1.catalog == w.store.catalog;
    }
  }

  /** DELETE while the store works: the route's store change, and its answer up to the wording of a 500. */
  lemma DeleteAgreesOnline(w: World, id: Option<string>, env: Env)
    requires Online(env)
    ensures var (w1, edge) := DeleteSpec(w, id, env);
      var (s2, route) := NextRoute.DeleteSpec(w.store, id, env);
      && w1 == World(s2, w.mem)
      && edge.status == route.status
      && (edge.status == 500 <==>
            id.Some? && id.value != "" && w.store.catalog == Some(NoProductsArray))
      && (edge.status == 500 ==> edge.reply == Error(ServerError) && route.reply == Error(NextRoute.DeleteFailed))
      && (edge.status != 500 ==> edge == route)
  {
    if id.Some? && id.value != "" && w.store.catalog.Some? && w.store.catalog.value.Catalog? {
      assert SourceOf(w.store, env.read) == Fresh(w.store.catalog.value.products);
    }
  }

  /**
   * While the store works, the edge handler changes the store as the Next.js
   * route does and leaves the memory slot alone. The answers are the same
   * except for the 500s, which come exactly from an undecodable body or a
   * stored document without a `products` array, and which the two handlers
   * word differently.
   */
  lemma AgreesWithRouteOnline(w: World, body: Body, id: Option<string>, env: Env)
    requires Online(env)
    ensures var (w1, edge) := PostSpec(w, body, env);
      var (s2, route) := NextRoute.PostSpec(w.store, body, env);
      && w1 == World(s2, w.mem)
      && edge.status == route.status
      && (edge.status == 500 <==>
            body.Undecodable? || (Validate(body.form).Some? && w.store.catalog == Some(NoProductsArray)))
      && (edge.status == 500 ==> edge.reply == Error(ServerError) && route.reply == Error(NextRoute.AddFailed))
      && (edge.status != 500 ==> edge == route)
    ensures var (w1, edge) := DeleteSpec(w, id, env);
      var (s2, route) := NextRoute.DeleteSpec(w.store, id, env);
      && w1 == World(s2, w.mem)
      && edge.status == route.status
      && (edge.status == 500 <==>
            id.Some? && id.value != "" && w.store.catalog == Some(NoProductsArray))
      && (edge.status == 500 ==> edge.reply == Error(ServerError) && route.reply == Error(NextRoute.DeleteFailed))
      && (edge.status != 500 ==> edge == route)
    ensures GetSpec(w, env) == (w, NextRoute.GetSpec(w.store, env.read))
  {
    PostAgreesOnline(w, body, env);
    DeleteAgreesOnline(w, id, env);
  }

  /**
   * With every store call failing, the memory document behaves as the store
   * would: an add is listed at the end with its image embedded, and the
   * store is never changed.
   */
  lemma OfflineAddThenList(w: World, form: Form, env: Env, later: Env)
    requires Validate(form).Some? && Offline(env) && Offline(later)
    ensures var (w1, resp) := PostSpec(w, Decoded(form), env);
      var file := form.image.value;
      && resp.reply.Added?
      && resp.reply.product.image == DataUrl(file.contentType, file.bytes)
      && w1.store == w.store
      && GetSpec(w1, later).1 == Response(200, Listing(Catalog(MemProducts(w.mem) + [resp.reply.product])))
  {
  }

  /**
   * With every store call failing and unique ids, a delete removes the id
   * from the memory document and deleting it again answers 404.
   */
  lemma OfflineDeleteThenDeleteAgain(w: World, id: string, env: Env)
    requires id != "" && Offline(env)
    requires UniqueIds(MemProducts(w.mem)) && FindIndex(MemProducts(w.mem), id) >= 0
    ensures var (w1, resp) := DeleteSpec(w, Some(id), env);
      && resp == Response(200, Deleted)
      && w1.store == w.store
      && FindIndex(MemProducts(w1.mem), id) == -1
      && DeleteSpec(w1, Some(id), env).1 == Response(404, Error(NotFound))
  {
    RemoveLeavesNoMatch(MemProducts(w.mem), id);
  }

  /**
   * The fallback is chosen per call: an add whose read reaches the store but
   * whose write fails is acknowledged, lands only in the memory document, and
   * a later read that reaches the store does not list it.
   */
  lemma FailedWriteHidesAdd(ps: seq<Product>, assets: map<string, Asset>, mem: Option<seq<Product>>, form: Form, env: Env)
    requires Validate(form).Some? && env.read.ReadSucceeds? && env.writeThrows
    ensures var w := World(Store(Some(Catalog(ps)), assets), mem);
      var (w1, resp) := PostSpec(w, Decoded(form), env);
      && resp.reply.Added?
      && w1.mem == Some(ps + [resp.reply.product])
      && GetSpec(w1, env).1 == Response(200, Listing(Catalog(ps)))
  {
  }

  /**
   * A read that falls back while the write goes through replaces the stored
   * catalog by the memory document plus the new product: what the store held
   * before is no longer listed.
   */
  lemma FailedReadOverwritesStore(ps: seq<Product>, assets: map<string, Asset>, mem: Option<seq<Product>>, form: Form, env: Env)
    requires Validate(form).Some? && env.read.ListThrows? && !env.writeThrows
    ensures var w := World(Store(Some(Catalog(ps)), assets), mem);
      var (w1, resp) := PostSpec(w, Decoded(form), env);
      && resp.reply.Added?
      && w1.store.catalog == Some(Catalog(MemProducts(mem) + [resp.reply.product]))
      && w1.mem == Some(w1.store.catalog.value.products)
  {
  }
}
