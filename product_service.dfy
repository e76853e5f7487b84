/** The product service (product-service/app.py): a token gate in front of
    `create_product`, and the public lookups `get_product` and
    `list_products` over the `products` table. */
module ProductService {
  import opened Http
  import opened Tokens
  import opened Bearer

  /** A row of `products`. The `DECIMAL(10, 2)` price is kept as a whole
      number of cents; `description` and `stock` are nullable columns. */
  datatype Product = Product(id: int, name: string, description: Option<string>, price: int, stock: Option<int>)

  datatype ProductRequest = ProductRequest(
    name: Field<string>, description: Field<string>, price: Field<int>, stock: Field<int>)

  datatype ProductBody =
    | Error(error: string)
    | Record(product: Product)
    | Listing(products: seq<Product>)
    | Created(message: string, id: int)

  type ProductResponse = Response<ProductBody>

  const Unauthorized: ProductResponse := Response(401, Error("Unauthorized"))
  const NameAndPriceRequired: ProductResponse := Response(400, Error("Name and price required"))
  const CreateFailed: ProductResponse := Response(500, Error("Failed to create product"))
  const NotFound: ProductResponse := Response(404, Error("Product not found"))

  /** `DECIMAL(10, 2)` holds at most eight digits before the point. */
  const PriceLimitCents: int := 10_000_000_000
  /** The range of a Postgres `INTEGER`. */
  const IntegerMin: int := -0x8000_0000
  const IntegerMax: int := 0x7fff_ffff

  /** The row the INSERT writes for `p`, or `None` when it raises and the
      handler answers 500: psycopg2 refuses a NUL in the name or the
      description, and Postgres refuses a value that does not fit its column
      (a name longer than 255 characters is cut instead when the excess is
      all spaces). */
  function StoredProduct(p: Product): Option<Product> {
    if !Sendable(p.name) || (p.description.Some? && !Sendable(p.description.value)) then None
    else if !(-PriceLimitCents < p.price < PriceLimitCents) then None
    else if p.stock.Some? && !(IntegerMin <= p.stock.value <= IntegerMax) then None
    else
      match StoreVarchar(p.name)
      case None => None
      case Some(name) => Some(p.(name := name))
  }

  /** `verify_token`: any failure of `jwt.decode`, of whatever kind, gives `None`. */
  function VerifyToken(token: Token, codec: TokenCodec, secret: Secret, now: int): (r: Option<Payload>)
    ensures r.Some? <==> codec.decode(token, secret, now).Ok?
    ensures r.Some? ==> r.value == codec.decode(token, secret, now).payload
  {
    match codec.decode(token, secret, now)
    case Ok(payload) => Some(payload)
    case _ => None
  }

  /** `if not verify_token(token)` lets the request through: a payload is
      needed, and an empty one is falsy in Python. The gate opens only on a
      successful decode, never on an expired or otherwise invalid token. */
  predicate GateAccepts(authorization: Option<string>, codec: TokenCodec, secret: Secret, now: int)
    ensures GateAccepts(authorization, codec, secret, now) <==>
      var d := codec.decode(BearerToken(authorization), secret, now);
      d.Ok? && d.payload != map[]
  {
    var p := VerifyToken(BearerToken(authorization), codec, secret, now);
    p.Some? && |p.value| != 0
  }

  /** The row the INSERT of an accepted request writes: `description`
      defaults to "" and `stock` to 0 when their keys are missing. */
  function NewProduct(id: int, req: ProductRequest): Product
    requires NonEmptyText(req.name) && NonZero(req.price)
  {
    Product(id, req.name.value, WithDefault(req.description, ""), req.price.value, WithDefault(req.stock, 0))
  }

  /** `SELECT ... FROM products WHERE id = %s` followed by `fetchone()`. */
  function FindById(rows: seq<Product>, id: int): (r: Option<Product>)
    ensures r.Some? ==> r.value in rows && r.value.id == id
    ensures r.None? ==> forall p :: p in rows ==> p.id != id
  {
    if rows == [] then None
    else if rows[0].id == id then Some(rows[0])
    else FindById(rows[1..], id)
  }

  /** `GET /api/products/<int:product_id>`: read-only. */
  function GetProduct(rows: seq<Product>, id: nat): (r: ProductResponse)
    ensures r.status == 404 <==> forall p :: p in rows ==> p.id != id
    ensures r.status == 404 ==> r == NotFound
    ensures r.status != 404 ==> r.status == 200 && r.body.Record? && r.body.product in rows && r.body.product.id == id
  {
    match FindById(rows, id)
    case None => NotFound
    case Some(p) => Response(200, Record(p))
  }

  /** The `PRIMARY KEY` on `products.id`. */
  ghost predicate UniqueIds(rows: seq<Product>) {
    forall i, j :: 0 <= i < j < |rows| ==> rows[i].id != rows[j].id
  }

  /** With unique ids, a stored row is returned in full under its own id. */
  lemma GetProductFindsRow(rows: seq<Product>, p: Product)
    requires UniqueIds(rows) && p in rows && p.id >= 0
    ensures GetProduct(rows, p.id) == Response(200, Record(p))
  {
  }

  /** The `products` table with its `SERIAL` id sequence. */
  class ProductStore {
    var rows: seq<Product>
    /** The value `SERIAL` hands out next. */
    var nextId: int

    ghost predicate Valid()
      reads this
    {
      && UniqueIds(rows)
      && 0 < nextId
      && (forall p :: p in rows ==> 0 < p.id < nextId)
    }

    constructor ()
      ensures Valid() && rows == [] && nextId == 1
    {
      rows := [];
      nextId := 1;
    }

    /** `POST /api/products`: the token gate first, before the body is read
        or the table touched; then the field checks; then one INSERT. */
    method CreateProduct(authorization: Option<string>, req: ProductRequest, codec: TokenCodec, secret: Secret, now: int)
      returns (resp: ProductResponse)
      requires Valid()
      modifies this
      ensures Valid()
      ensures !GateAccepts(authorization, codec, secret, now) ==> resp == Unauthorized
      ensures GateAccepts(authorization, codec, secret, now) ==>
        if !(NonEmptyText(req.name) && NonZero(req.price)) then resp == NameAndPriceRequired
        else if StoredProduct(NewProduct(old(nextId), req)).None? then resp == CreateFailed
        else
          && resp == Response(201, Created("Product created", old(nextId)))
          && rows == old(rows) + [StoredProduct(NewProduct(old(nextId), req)).value]
          && forall p :: p in old(rows) ==> p.id != old(nextId)
      ensures resp.status != 201 ==> rows == old(rows) && nextId == old(nextId)
    {
      var token := BearerToken(authorization);
      var payload := VerifyToken(token, codec, secret, now);
      if payload.None? || |payload.value| == 0 {
        return Unauthorized;
      }
      if !(NonEmptyText(req.name) && NonZero(req.price)) {
        return NameAndPriceRequired;
      }
      var stored := StoredProduct(NewProduct(nextId, req));
      if stored.None? {
        return CreateFailed;
      }
      var product := stored.value;
      assert UniqueIds(rows + [product]) by {
        forall i, j | 0 <= i < j < |rows| + 1 ensures (rows + [product])[i].id != (rows + [product])[j].id {
          if j == |rows| {
            assert rows[i] in rows;
          }
        }
      }
      rows := rows + [product];
      nextId := nextId + 1;
      resp := Response(201, Created("Product created", product.id));
    }

    /** `GET /api/products`: one entry per stored row, in table order; read-only. */
    method ListProducts() returns (resp: ProductResponse)
      ensures resp.status == 200 && resp.body.Listing?
      ensures |resp.body.products| == |rows|
      ensures forall i :: 0 <= i < |rows| ==> resp.body.products[i] == rows[i]
    {
      var products: seq<Product> := [];
      for i := 0 to |rows|
        invariant |products| == i
        invariant forall k :: 0 <= k < i ==> products[k] == rows[k]
      {
        products := products + [rows[i]];
      }
      resp := Response(200, Listing(products));
    }
  }
}
