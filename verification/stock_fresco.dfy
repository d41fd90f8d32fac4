/** `crearVenta` as its stock checks evidently intend: each request line is
    checked against, and debited from, the stock left by the earlier lines of
    the same request. Also the counterexample showing how the handler as
    written oversells when one product id appears on two lines. */
module StockFresco {
  import opened Wrappers
  import opened Modelo
  import opened VentaController
  import opened VentaPropiedades

  /** Every line has an id, a positive quantity and a known product, and for
      each product the whole request asks for no more than its stock. */
  predicate PedidoAtendible(productos: map<int, Producto>, items: seq<ItemVenta>)
  {
    && (forall i :: 0 <= i < |items| ==> items[i].id != 0 && items[i].cantidad > 0 && items[i].id in productos)
    && (forall i :: 0 <= i < |items| ==> Pedido(items, items[i].id) <= productos[items[i].id].stockActual)
  }

  /** A product no line names is requested 0 times. */
  lemma {:induction false} PedidoAusente(items: seq<ItemVenta>, k: int)
    requires forall i :: 0 <= i < |items| ==> items[i].id != k
    ensures Pedido(items, k) == 0
  {
    if |items| > 0 {
      PedidoAusente(items[..|items| - 1], k);
    }
  }

  /** Validation and debit over the running stock: line i is checked against
      the stock as lines 0..i-1 left it and then debited from it. */
  function ValidarYDebitar(productos: map<int, Producto>, items: seq<ItemVenta>): (r: Result<map<int, Producto>, Error>)
    ensures r.Success? <==> PedidoAtendible(productos, items)
    ensures r.Success? ==>
              && r.value.Keys == productos.Keys
              && forall k :: k in productos ==>
                   r.value[k] == productos[k].(stockActual := productos[k].stockActual - Pedido(items, k))
  {
    if |items| == 0 then Success(productos)
    else
      var n := |items| - 1;
      var init := items[..n];
      var item := items[n];
      assert forall j :: 0 <= j < n ==> init[j] == items[j];
      assert forall k :: Pedido(items, k) == Pedido(init, k) + (if item.id == k then item.cantidad else 0);
      match ValidarYDebitar(productos, init)
      case Failure(e) =>
        assert !PedidoAtendible(productos, items) by {
          if PedidoAtendible(productos, items) {
            forall j | 0 <= j < n
              ensures Pedido(init, init[j].id) <= productos[init[j].id].stockActual
            {
              assert Pedido(items, items[j].id) <= productos[items[j].id].stockActual;
            }
            assert PedidoAtendible(productos, init);
          }
        }
        Failure(e)
      case Success(q) =>
        match ErrorDeItem(q, item)
        case Some(e) =>
          assert !PedidoAtendible(productos, items);
          Failure(e)
        case None =>
          var r := q[item.id := q[item.id].(stockActual := q[item.id].stockActual - item.cantidad)];
          assert PedidoAtendible(productos, items) by {
            forall j | 0 <= j < |items|
              ensures Pedido(items, items[j].id) <= productos[items[j].id].stockActual
            {
              if j < n && items[j].id != item.id {
                assert Pedido(init, init[j].id) <= productos[init[j].id].stockActual;
              }
            }
          }
          Success(r)
  }

  /** The lines of the corrected sale: one per request line, at the price of
      its product. */
  function LineasVenta(productos: map<int, Producto>, items: seq<ItemVenta>): seq<Detalle>
    requires forall i :: 0 <= i < |items| ==> items[i].id in productos
  {
    seq(|items|, i requires 0 <= i < |items| && items[i].id in productos =>
                   Detalle(items[i].id, items[i].cantidad, productos[items[i].id].precioVenta))
  }

  /** `crearVenta` with the debit accumulated over the request. */
  function CrearVentaCorregida(s: Store, productos: Option<seq<ItemVenta>>): (r: Respuesta)
    ensures r.resultado.Failure? ==> r.store == s
    ensures r.resultado.Success? <==>
              productos.Some? && |productos.value| > 0 && PedidoAtendible(s.productos, productos.value)
    ensures r.resultado.Success? ==>
              var items := productos.value;
              var id := r.resultado.value;
              && id == s.siguienteVenta
              && r.store.siguienteVenta == s.siguienteVenta + 1
              && id in r.store.ventas
              && r.store.ventas == s.ventas[id := r.store.ventas[id]]
              && r.store.ventas[id].total == Importe(s.productos, items)
              && !r.store.ventas[id].cancelada
              && |r.store.ventas[id].detalles| == |items|
              && (forall i :: 0 <= i < |items| ==>
                    r.store.ventas[id].detalles[i]
                      == Detalle(items[i].id, items[i].cantidad, s.productos[items[i].id].precioVenta))
              && r.store.productos.Keys == s.productos.Keys
              && (forall k :: k in s.productos ==>
                    r.store.productos[k]
                      == s.productos[k].(stockActual := s.productos[k].stockActual - Pedido(items, k)))
              && forall i :: 0 <= i < |items| ==> r.store.productos[items[i].id].stockActual >= 0
  {
    if productos.None? || |productos.value| == 0 then Respuesta(s, Failure(SinProductos))
    else
      var items := productos.value;
      match ValidarYDebitar(s.productos, items)
      case Failure(e) => Respuesta(s, Failure(e))
      case Success(q) =>
        var id := s.siguienteVenta;
        var venta := Venta(Importe(s.productos, items), false, LineasVenta(s.productos, items));
        Respuesta(Store(q, s.ventas[id := venta], id + 1), Success(id))
  }

  /** With the corrected debit, creating any sale and cancelling it puts every
      product back as it was, repeated ids included. */
  lemma CorregidaYCancelarRestauraStock(s: Store, items: seq<ItemVenta>)
    requires CrearVentaCorregida(s, Some(items)).resultado.Success?
    ensures var c := CrearVentaCorregida(s, Some(items));
            var r := CancelarVenta(c.store, Some(c.resultado.value));
            && r.resultado == Success(c.resultado.value)
            && r.store.ventas[c.resultado.value].cancelada
            && r.store.productos == s.productos
  {
    var c := CrearVentaCorregida(s, Some(items));
    var v := c.store.ventas[c.resultado.value];
    var r := CancelarVenta(c.store, Some(c.resultado.value));
    assert LineasDe(v.detalles, items);
    forall k | k in s.productos
      ensures r.store.productos[k] == s.productos[k]
    {
      if k != 0 {
        RepuestoEsPedido(v.detalles, items, k);
      } else {
        PedidoAusente(items, k);
      }
    }
  }

  /** With distinct ids, checking each line against the original stock is
      the same as checking the request's total per product. */
  lemma AtendibleSinRepetidos(productos: map<int, Producto>, items: seq<ItemVenta>)
    requires IdsDistintos(items)
    ensures PedidoAtendible(productos, items) <==> forall i :: 0 <= i < |items| ==> ItemValido(productos, items[i])
  {
    forall i | 0 <= i < |items|
      ensures Pedido(items, items[i].id) == items[i].cantidad
    {
      UltimaLineaEsPedido(items, items[i].id);
    }
  }

  /** With distinct ids, the as-written debit and the corrected one leave the
      same products. */
  lemma DebitosCoinciden(s: Store, items: seq<ItemVenta>)
    requires IdsDistintos(items)
    requires CrearVenta(s, Some(items)).resultado.Success?
    requires CrearVentaCorregida(s, Some(items)).resultado.Success?
    ensures CrearVenta(s, Some(items)).store.productos == CrearVentaCorregida(s, Some(items)).store.productos
  {
    var c := CrearVenta(s, Some(items)).store.productos;
    var f := CrearVentaCorregida(s, Some(items)).store.productos;
    forall k | k in s.productos
      ensures c[k] == f[k]
    {
      UltimaLineaEsPedido(items, k);
    }
  }

  /** Both handlers record the same sale. */
  lemma VentasCoinciden(s: Store, items: seq<ItemVenta>)
    requires CrearVenta(s, Some(items)).resultado.Success?
    requires CrearVentaCorregida(s, Some(items)).resultado.Success?
    ensures CrearVenta(s, Some(items)).store.ventas == CrearVentaCorregida(s, Some(items)).store.ventas
  {
    var c := CrearVenta(s, Some(items)).store.ventas;
    var f := CrearVentaCorregida(s, Some(items)).store.ventas;
    var id := s.siguienteVenta;
    assert c[id].detalles == f[id].detalles;
  }

  /** On requests with distinct ids the corrected handler and the handler as
      written accept the same requests and leave the same store. */
  lemma CorregidaCoincideSinRepetidos(s: Store, items: seq<ItemVenta>)
    requires IdsDistintos(items)
    ensures CrearVenta(s, Some(items)).resultado.Success? <==> CrearVentaCorregida(s, Some(items)).resultado.Success?
    ensures CrearVenta(s, Some(items)).resultado.Success? ==> CrearVentaCorregida(s, Some(items)) == CrearVenta(s, Some(items))
  {
    AtendibleSinRepetidos(s.productos, items);
    if CrearVenta(s, Some(items)).resultado.Success? {
      DebitosCoinciden(s, items);
      VentasCoinciden(s, items);
    }
  }

  /** The store and request of the overselling example. */
  const tiendaEjemplo := Store(map[7 := Producto(5, 100)], map[], 1)
  const pedidoRepetido := [ItemVenta(7, 3), ItemVenta(7, 4)]

  /** As written, the example request is accepted and the stock is left at
      the original stock minus the last line's quantity. */
  lemma CrearConIdsRepetidos()
    ensures var c := CrearVenta(tiendaEjemplo, Some(pedidoRepetido));
            && c.resultado == Success(1)
            && c.store.productos[7].stockActual == 1
            && c.store.ventas[1].detalles == [Detalle(7, 3, 100), Detalle(7, 4, 100)]
  {
    var s := tiendaEjemplo;
    var items := pedidoRepetido;
    assert ItemValido(s.productos, items[0]) && ItemValido(s.productos, items[1]);
    assert UltimaLinea(items, 7) == 1;
    var c := CrearVenta(s, Some(items));
    var ds := c.store.ventas[1].detalles;
    assert ds[0] == Detalle(7, 3, 100) && ds[1] == Detalle(7, 4, 100);
  }

  /** Cancelling the example sale adds both lines' quantities back. */
  lemma CancelarConIdsRepetidos(c: Store)
    requires 7 in c.productos && c.productos[7].stockActual == 1
    requires 1 in c.ventas && !c.ventas[1].cancelada
    requires c.ventas[1].detalles == [Detalle(7, 3, 100), Detalle(7, 4, 100)]
    ensures CancelarVenta(c, Some(1)).store.productos[7].stockActual == 8
  {
    var ds := c.ventas[1].detalles;
    assert ds[..1] == [Detalle(7, 3, 100)];
    assert ds[..1][..0] == [];
    assert Repuesto(ds[..1], 7) == 3;
    assert Repuesto(ds, 7) == 7;
  }

  /** The handler as written: two lines of 3 and 4 units of a product with
      stock 5 are both accepted, 7 units are sold, the stock is left at 1,
      and cancelling the sale raises it to 8. The corrected handler refuses
      the request. */
  lemma SobreventaConIdsRepetidos()
    ensures var c := CrearVenta(tiendaEjemplo, Some(pedidoRepetido));
            var r := CancelarVenta(c.store, Some(1));
            && c.resultado == Success(1)
            && Pedido(pedidoRepetido, 7) > tiendaEjemplo.productos[7].stockActual
            && c.store.productos[7].stockActual == 1
            && r.store.productos[7].stockActual == 8
            && CrearVentaCorregida(tiendaEjemplo, Some(pedidoRepetido)).resultado.Failure?
  {
    var items := pedidoRepetido;
    CrearConIdsRepetidos();
    var c := CrearVenta(tiendaEjemplo, Some(items));
    CancelarConIdsRepetidos(c.store);
    assert items[..1] == [ItemVenta(7, 3)];
    assert Pedido(items, 7) == 7;
    assert !PedidoAtendible(tiendaEjemplo.productos, items) by {
      assert Pedido(items, items[0].id) == 7;
    }
  }
}
