/**
 * The durable object store as the handlers see it: one catalog document at
 * `data/products.json` and image assets addressed by URL. Every operation may
 * fail; whether it does, and which URL a publish gets, are decided by the
 * environment and passed in (`Env`), one decision per call.
 */
module BlobStore {
  import opened Wrappers
  import opened Catalog
  import Base64

  const DocumentKey := "data/products.json"

  /** A published asset: the path it was put under, its MIME type and bytes. */
  datatype Asset = Asset(pathname: string, contentType: string, bytes: seq<Base64.Byte>)

  /** The store's contents: the catalog blob, if any, and the assets by URL. */
  datatype Store = Store(catalog: Option<Document>, assets: map<string, Asset>)

  /**
   * How reading the catalog goes: `list` throws, `fetch` throws, the response
   * is not OK, or parsing the body as JSON rejects. A fault after the first
   * step only matters when a catalog blob exists.
   */
  datatype ReadEnv = ReadSucceeds | ListThrows | FetchThrows | FetchNotOk | JsonRejects

  /** What a publish of the image returns: the URL the store chose, or an exception. */
  datatype PutOutcome = Published(url: string) | PutThrows

  /** The environment of one request: the clock and the outcome of each store call. */
  datatype Env = Env(
    now: nat,            // Date.now()
    isoNow: string,      // new Date().toISOString()
    assetPut: PutOutcome,
    read: ReadEnv,
    writeThrows: bool,
    delThrows: bool)

  /** An environment in which every store call goes through. */
  predicate Online(env: Env)
  {
    env.assetPut.Published? && env.read.ReadSucceeds? && !env.writeThrows && !env.delThrows
  }

  /** The result of reading the catalog blob. */
  datatype Fetched = Missing | Threw | NotOk | Rejected | Parsed(document: Document)

  /** `list` then `fetch` then `res.json()`, each step as the environment lets it go. */
  function Fetch(catalog: Option<Document>, env: ReadEnv): (r: Fetched)
    ensures r.Parsed? <==> catalog.Some? && env.ReadSucceeds?
    ensures r.Parsed? ==> r.document == catalog.value
    ensures r.Missing? <==> catalog.None? && !env.ListThrows?
  {
    if env.ListThrows? then Threw
    else if catalog.None? then Missing
    else if env.FetchThrows? then Threw
    else if env.FetchNotOk? then NotOk
    else if env.JsonRejects? then Rejected
    else Parsed(catalog.value)
  }

  /** A successful write of the whole document. */
  function PutDocument(s: Store, d: Document): (r: Store)
    ensures r.catalog == Some(d) && r.assets == s.assets
  {
    s.(catalog := Some(d))
  }

  /** A successful publish of an asset under `url`. */
  function PutAsset(s: Store, url: string, a: Asset): (r: Store)
    ensures r.catalog == s.catalog
    ensures url in r.assets && r.assets[url] == a
    ensures forall u :: u in s.assets && u != url ==> u in r.assets && r.assets[u] == s.assets[u]
    ensures forall u :: u in r.assets ==> u == url || u in s.assets
  {
    s.(assets := s.assets[url := a])
  }

  /** A successful `del(url)`. */
  function DeleteAsset(s: Store, url: string): (r: Store)
    ensures r.catalog == s.catalog
    ensures url !in r.assets
    ensures forall u :: u in s.assets && u != url ==> u in r.assets && r.assets[u] == s.assets[u]
    ensures forall u :: u in r.assets ==> u in s.assets
  {
    s.(assets := s.assets - {url})
  }

  /** A parsed `{ products: [...] }` object, changed in place by `push` and `splice`. */
  class ProductsData {
    var products: seq<Product>

    constructor (ps: seq<Product>)
      ensures products == ps
    {
      products := ps;
    }
  }

  /** What a handler's `readProducts` leaves it with. */
  datatype Loaded = Object(data: ProductsData) | ForeignJson | Raised

  /** The store client. */
  class Gateway {
    var catalog: Option<Document>
    var assets: map<string, Asset>

    function State(): Store
      reads this
    {
      Store(catalog, assets)
    }

    constructor (s: Store)
      ensures State() == s
    {
      catalog, assets := s.catalog, s.assets;
    }

    /** Reads the catalog blob. */
    method Read(env: ReadEnv) returns (r: Fetched)
      ensures r == Fetch(catalog, env)
    {
      if env.ListThrows? {
        return Threw;
      }
      if catalog.None? {
        return Missing;
      }
      if env.FetchThrows? {
        r := Threw;
      } else if env.FetchNotOk? {
        r := NotOk;
      } else if env.JsonRejects? {
        r := Rejected;
      } else {
        r := Parsed(catalog.value);
      }
    }

    /** `put(DocumentKey, JSON.stringify(d))`, overwriting the previous snapshot. */
    method Write(d: Document, throws: bool) returns (ok: bool)
      modifies this
      ensures ok == !throws
      ensures State() == if ok then PutDocument(old(State()), d) else old(State())
    {
      ok := !throws;
      if ok {
        catalog := Some(d);
      }
    }

    /** `put(path, file)` for an uploaded image. */
    method Publish(path: string, file: FileRecord, outcome: PutOutcome) returns (r: PutOutcome)
      modifies this
      ensures r == outcome
      ensures State() == if outcome.Published? then PutAsset(old(State()), outcome.url, Asset(path, file.contentType, file.bytes))
                         else old(State())
    {
      r := outcome;
      if outcome.Published? {
        assets := assets[outcome.url := Asset(path, file.contentType, file.bytes)];
      }
    }

    /** `del(url)`. */
    method Delete(url: string, throws: bool) returns (ok: bool)
      modifies this
      ensures ok == !throws
      ensures State() == if ok then DeleteAsset(old(State()), url) else old(State())
    {
      ok := !throws;
      if ok {
        assets := assets - {url};
      }
    }
  }
}
