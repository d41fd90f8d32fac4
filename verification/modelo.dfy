/** The records the sale handlers read and write, the error taxonomy they
    answer with, and the reference sums used to state their contracts. */
module Modelo {
  import opened Wrappers

  /** One entry of the request body `productos`: `{ id, cantidad }`.
      A missing or falsy id is represented by 0. */
  datatype ItemVenta = ItemVenta(id: int, cantidad: int)

  /** A product record; prices are integer cents. */
  datatype Producto = Producto(stockActual: int, precioVenta: int)

  /** A sale line: the product id, the quantity sold and the unit price
      captured when the sale was validated. */
  datatype Detalle = Detalle(producto: int, cantidad: int, precioUnitario: int)

  /** A sale header together with its lines (as read with `populate`). */
  datatype Venta = Venta(total: int, cancelada: bool, detalles: seq<Detalle>)

  /** The record store: products and sales by id, and the id the store hands
      out to the next sale it creates. */
  datatype Store = Store(productos: map<int, Producto>, ventas: map<int, Venta>, siguienteVenta: int)

  datatype Error =
    | SinProductos                                  // no `productos` list, or an empty one
    | ProductoInvalido(item: ItemVenta)             // id missing or cantidad <= 0
    | ProductoNoEncontrado(id: int)
    | StockInsuficiente(id: int, disponible: int, solicitado: int)
    | VentaSinId
    | VentaNoEncontrada(id: int)
    | VentaYaCancelada(id: int)

  /** The HTTP status each error is thrown with. */
  function Status(e: Error): int
  {
    match e
    case ProductoNoEncontrado(_) => 404
    case VentaNoEncontrada(_) => 404
    case _ => 400
  }

  /** What a handler leaves behind: the store after the call and either the
      id of the sale it returns or the error it throws. */
  datatype Respuesta = Respuesta(store: Store, resultado: Result<int, Error>)

  /** A request line that passes every check of the validation pass. */
  predicate ItemValido(productos: map<int, Producto>, item: ItemVenta)
  {
    && item.id != 0
    && item.cantidad > 0
    && item.id in productos
    && item.cantidad <= productos[item.id].stockActual
  }

  /** No product id occurs on two request lines. */
  predicate IdsDistintos(items: seq<ItemVenta>)
  {
    forall i, j :: 0 <= i < j < |items| ==> items[i].id != items[j].id
  }

  /** Total quantity of product `k` asked for over all request lines. */
  function Pedido(items: seq<ItemVenta>, k: int): int
  {
    if |items| == 0 then 0
    else
      var last := items[|items| - 1];
      Pedido(items[..|items| - 1], k) + (if last.id == k then last.cantidad else 0)
  }

  /** Index of the last request line naming product `k`, or -1 when no line
      names it. */
  function UltimaLinea(items: seq<ItemVenta>, k: int): (r: int)
    ensures -1 <= r < |items|
    ensures r >= 0 ==> items[r].id == k
    ensures forall j :: r < j < |items| ==> items[j].id != k
  {
    if |items| == 0 then -1
    else if items[|items| - 1].id == k then |items| - 1
    else UltimaLinea(items[..|items| - 1], k)
  }

  /** Sum of `precio_venta * cantidad` over the request lines, at the prices
      of `productos`. */
  function Importe(productos: map<int, Producto>, items: seq<ItemVenta>): int
  {
    if |items| == 0 then 0
    else
      var last := items[|items| - 1];
      Importe(productos, items[..|items| - 1])
        + (if last.id in productos then productos[last.id].precioVenta * last.cantidad else 0)
  }

  /** Sum of `cantidad * precio_unitario` over a sale's lines. */
  function ImporteDetalles(ds: seq<Detalle>): int
  {
    if |ds| == 0 then 0
    else ImporteDetalles(ds[..|ds| - 1]) + ds[|ds| - 1].cantidad * ds[|ds| - 1].precioUnitario
  }

  /** Total quantity of product `k` over a sale's lines. */
  function Repuesto(ds: seq<Detalle>, k: int): int
  {
    if |ds| == 0 then 0
    else
      var last := ds[|ds| - 1];
      Repuesto(ds[..|ds| - 1], k) + (if last.producto == k then last.cantidad else 0)
  }

  /** A sale as the create handler writes it: positive quantities and a total
      equal to the sum of its lines. */
  predicate VentaBienFormada(v: Venta)
  {
    && (forall i :: 0 <= i < |v.detalles| ==> v.detalles[i].cantidad > 0)
    && v.total == ImporteDetalles(v.detalles)
  }

  /** The store invariant the handlers keep: sale ids below the next id,
      well-formed sales, no negative stock. */
  predicate Valido(s: Store)
  {
    && (forall k :: k in s.ventas ==> k < s.siguienteVenta && VentaBienFormada(s.ventas[k]))
    && (forall k :: k in s.productos ==> s.productos[k].stockActual >= 0)
  }
}
