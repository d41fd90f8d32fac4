/** The two custom handlers of the sale controller, `crearVenta` and
    `cancelarVenta`, each as one sequential transition of the store. */
module VentaController {
  import opened Wrappers
  import opened Modelo

  /** The error the validation pass throws for one request line, checked in
      the handler's order: shape, existence, stock. */
  function ErrorDeItem(productos: map<int, Producto>, item: ItemVenta): (r: Option<Error>)
    ensures r.None? <==> ItemValido(productos, item)
    ensures r.Some? && Status(r.value) == 404 <==> item.id != 0 && item.cantidad > 0 && item.id !in productos
  {
    if item.id == 0 || item.cantidad <= 0 then Some(ProductoInvalido(item))
    else if item.id !in productos then Some(ProductoNoEncontrado(item.id))
    else if productos[item.id].stockActual < item.cantidad then
      Some(StockInsuficiente(item.id, productos[item.id].stockActual, item.cantidad))
    else None
  }

  /** The three accumulators of the validation pass: the running total, the
      lines to create and the product records read for each request line. */
  datatype Validacion = Validacion(total: int, detalles: seq<Detalle>, leidos: seq<Producto>)

  /** The validation pass of `crearVenta`: reads only, stops at the first
      failing line. */
  function Validar(productos: map<int, Producto>, items: seq<ItemVenta>): (r: Result<Validacion, Error>)
    ensures r.Success? <==> forall i :: 0 <= i < |items| ==> ItemValido(productos, items[i])
    ensures r.Failure? ==>
              exists k :: 0 <= k < |items| && ErrorDeItem(productos, items[k]) == Some(r.error)
                          && forall j :: 0 <= j < k ==> ItemValido(productos, items[j])
    ensures r.Success? ==>
              && r.value.total == Importe(productos, items)
              && |r.value.detalles| == |items| && |r.value.leidos| == |items|
              && forall i :: 0 <= i < |items| ==>
                   && r.value.leidos[i] == productos[items[i].id]
                   && r.value.detalles[i] == Detalle(items[i].id, items[i].cantidad, productos[items[i].id].precioVenta)
  {
    if |items| == 0 then Success(Validacion(0, [], []))
    else
      var init := items[..|items| - 1];
      var item := items[|items| - 1];
      assert forall j :: 0 <= j < |init| ==> init[j] == items[j];
      match Validar(productos, init)
      case Failure(e) => Failure(e)
      case Success(v) =>
        match ErrorDeItem(productos, item)
        case Some(e) => Failure(e)
        case None =>
          var producto := productos[item.id];
          Success(Validacion(
            v.total + producto.precioVenta * item.cantidad,
            v.detalles + [Detalle(item.id, item.cantidad, producto.precioVenta)],
            v.leidos + [producto]))
  }

  /** The stock debit of `crearVenta`: line i writes the stock read for it
      during validation minus its quantity, so a later line naming the same
      product overwrites an earlier one. */
  function Debitar(productos: map<int, Producto>, items: seq<ItemVenta>, leidos: seq<Producto>): (r: map<int, Producto>)
    requires |leidos| == |items|
    ensures r.Keys == productos.Keys
    ensures forall k :: k in productos ==>
              var u := UltimaLinea(items, k);
              r[k] == if u < 0 then productos[k]
                      else productos[k].(stockActual := leidos[u].stockActual - items[u].cantidad)
  {
    if |items| == 0 then productos
    else
      var n := |items| - 1;
      var q := Debitar(productos, items[..n], leidos[..n]);
      var item := items[n];
      if item.id in q then q[item.id := q[item.id].(stockActual := leidos[n].stockActual - item.cantidad)]
      else q
  }

  /** `crearVenta`: validate every line, then create the sale, its lines and
      the stock debits. */
  function CrearVenta(s: Store, productos: Option<seq<ItemVenta>>): (r: Respuesta)
    ensures r.resultado.Failure? ==> r.store == s
    ensures productos.None? || productos == Some([]) ==> r.resultado == Failure(SinProductos)
    ensures r.resultado.Success? <==>
              && productos.Some? && |productos.value| > 0
              && forall i :: 0 <= i < |productos.value| ==> ItemValido(s.productos, productos.value[i])
    ensures productos.Some? && |productos.value| > 0 && r.resultado.Failure? ==>
              var items := productos.value;
              exists k :: 0 <= k < |items| && ErrorDeItem(s.productos, items[k]) == Some(r.resultado.error)
                          && forall j :: 0 <= j < k ==> ItemValido(s.productos, items[j])
    ensures r.resultado.Success? ==>
              var items := productos.value;
              var id := r.resultado.value;
              && id == s.siguienteVenta
              && r.store.siguienteVenta == s.siguienteVenta + 1
              && id in r.store.ventas
              && r.store.ventas == s.ventas[id := r.store.ventas[id]]
              && r.store.ventas[id].total == Importe(s.productos, items)
              && !r.store.ventas[id].cancelada
              && |r.store.ventas[id].detalles| == |items|
              && (forall i :: 0 <= i < |items| ==>
                    r.store.ventas[id].detalles[i]
                      == Detalle(items[i].id, items[i].cantidad, s.productos[items[i].id].precioVenta))
              && r.store.productos.Keys == s.productos.Keys
              && forall k :: k in s.productos ==>
                   var u := UltimaLinea(items, k);
                   r.store.productos[k]
                     == if u < 0 then s.productos[k]
                        else s.productos[k].(stockActual := s.productos[k].stockActual - items[u].cantidad)
  {
    if productos.None? || |productos.value| == 0 then Respuesta(s, Failure(SinProductos))
    else
      var items := productos.value;
      match Validar(s.productos, items)
      case Failure(e) => Respuesta(s, Failure(e))
      case Success(v) =>
        var id := s.siguienteVenta;
        var venta := Venta(v.total, false, v.detalles);
        Respuesta(Store(Debitar(s.productos, items, v.leidos), s.ventas[id := venta], id + 1), Success(id))
  }

  /** The restock loop of `cancelarVenta`: each line re-reads its product and
      adds its quantity. A line whose product id is 0 is skipped, and so is a
      line whose product id is no longer in the store. */
  function Reponer(productos: map<int, Producto>, ds: seq<Detalle>): (r: map<int, Producto>)
    ensures r.Keys == productos.Keys
    ensures forall k :: k in productos ==>
              r[k] == if k == 0 then productos[k]
                      else productos[k].(stockActual := productos[k].stockActual + Repuesto(ds, k))
  {
    if |ds| == 0 then productos
    else
      var q := Reponer(productos, ds[..|ds| - 1]);
      var d := ds[|ds| - 1];
      if d.producto != 0 && d.producto in q then
        q[d.producto := q[d.producto].(stockActual := q[d.producto].stockActual + d.cantidad)]
      else q
  }

  /** `cancelarVenta`: check the id and the sale's state, restock every line
      and mark the sale cancelled. */
  function CancelarVenta(s: Store, id: Option<int>): (r: Respuesta)
    ensures r.resultado.Failure? ==> r.store == s
    ensures id.None? ==> r.resultado == Failure(VentaSinId)
    ensures id.Some? && id.value !in s.ventas ==> r.resultado == Failure(VentaNoEncontrada(id.value))
    ensures id.Some? && id.value in s.ventas && s.ventas[id.value].cancelada ==>
              r.resultado == Failure(VentaYaCancelada(id.value))
    ensures r.resultado.Success? <==> id.Some? && id.value in s.ventas && !s.ventas[id.value].cancelada
    ensures r.resultado.Success? ==>
              var v := s.ventas[id.value];
              && r.resultado.value == id.value
              && r.store.ventas == s.ventas[id.value := v.(cancelada := true)]
              && r.store.siguienteVenta == s.siguienteVenta
              && r.store.productos.Keys == s.productos.Keys
              && forall k :: k in s.productos ==>
                   r.store.productos[k]
                     == if k == 0 then s.productos[k]
                        else s.productos[k].(stockActual := s.productos[k].stockActual + Repuesto(v.detalles, k))
  {
    if id.None? then Respuesta(s, Failure(VentaSinId))
    else if id.value !in s.ventas then Respuesta(s, Failure(VentaNoEncontrada(id.value)))
    else
      var v := s.ventas[id.value];
      if v.cancelada then Respuesta(s, Failure(VentaYaCancelada(id.value)))
      else
        Respuesta(Store(Reponer(s.productos, v.detalles), s.ventas[id.value := v.(cancelada := true)], s.siguienteVenta),
                  Success(id.value))
  }
}
