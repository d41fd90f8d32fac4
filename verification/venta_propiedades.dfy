/** Properties of the sale handlers that relate several calls or tie a
    handler's result to an independent definition. */
module VentaPropiedades {
  import opened Wrappers
  import opened Modelo
  import opened VentaController

  /** Lines built from the request one to one: same product, same quantity. */
  predicate LineasDe(ds: seq<Detalle>, items: seq<ItemVenta>)
  {
    && |ds| == |items|
    && forall i :: 0 <= i < |items| ==> ds[i].producto == items[i].id && ds[i].cantidad == items[i].cantidad
  }

  /** A sale's total, accumulated at validation-time prices, is the sum of its
      lines' `cantidad * precio_unitario`. */
  lemma {:induction false} ImporteDeLineas(productos: map<int, Producto>, items: seq<ItemVenta>, ds: seq<Detalle>)
    requires LineasDe(ds, items)
    requires forall i :: 0 <= i < |items| ==> items[i].id in productos
    requires forall i :: 0 <= i < |items| ==> ds[i].precioUnitario == productos[items[i].id].precioVenta
    ensures Importe(productos, items) == ImporteDetalles(ds)
  {
    if |items| > 0 {
      var n := |items| - 1;
      ImporteDeLineas(productos, items[..n], ds[..n]);
    }
  }

  /** The quantity a sale restores to product `k` is the quantity its request
      asked for. */
  lemma {:induction false} RepuestoEsPedido(ds: seq<Detalle>, items: seq<ItemVenta>, k: int)
    requires LineasDe(ds, items)
    ensures Repuesto(ds, k) == Pedido(items, k)
  {
    if |items| > 0 {
      var n := |items| - 1;
      RepuestoEsPedido(ds[..n], items[..n], k);
    }
  }

  /** With distinct ids, the last line naming `k` carries all of `k`'s
      requested quantity, and a product no line names is asked for 0. */
  lemma {:induction false} UltimaLineaEsPedido(items: seq<ItemVenta>, k: int)
    requires IdsDistintos(items)
    ensures UltimaLinea(items, k) < 0 ==> Pedido(items, k) == 0
    ensures UltimaLinea(items, k) >= 0 ==> Pedido(items, k) == items[UltimaLinea(items, k)].cantidad
  {
    if |items| > 0 {
      var n := |items| - 1;
      UltimaLineaEsPedido(items[..n], k);
      if items[n].id == k {
        assert UltimaLinea(items[..n], k) < 0;
      }
    }
  }

  /** The quantities on a well-formed sale restore a non-negative amount. */
  lemma {:induction false} RepuestoNoNegativo(ds: seq<Detalle>, k: int)
    requires forall i :: 0 <= i < |ds| ==> ds[i].cantidad > 0
    ensures Repuesto(ds, k) >= 0
  {
    if |ds| > 0 {
      RepuestoNoNegativo(ds[..|ds| - 1], k);
    }
  }

  /** The sale `crearVenta` stores has a total equal to the sum of its lines. */
  lemma TotalIgualADetalles(s: Store, productos: Option<seq<ItemVenta>>)
    requires CrearVenta(s, productos).resultado.Success?
    ensures var r := CrearVenta(s, productos);
            VentaBienFormada(r.store.ventas[r.resultado.value])
  {
    var r := CrearVenta(s, productos);
    var items := productos.value;
    var v := r.store.ventas[r.resultado.value];
    ImporteDeLineas(s.productos, items, v.detalles);
  }

  /** `crearVenta` keeps the store invariant; in particular no stock goes
      negative and the new id is fresh. */
  lemma CrearVentaPreservaValido(s: Store, productos: Option<seq<ItemVenta>>)
    requires Valido(s)
    ensures Valido(CrearVenta(s, productos).store)
    ensures CrearVenta(s, productos).resultado.Success? ==> CrearVenta(s, productos).resultado.value !in s.ventas
  {
    var r := CrearVenta(s, productos);
    if r.resultado.Success? {
      TotalIgualADetalles(s, productos);
      var items := productos.value;
      forall k | k in r.store.productos
        ensures r.store.productos[k].stockActual >= 0
      {
        var u := UltimaLinea(items, k);
        if u >= 0 {
          assert ItemValido(s.productos, items[u]);
        }
      }
    }
  }

  /** `cancelarVenta` keeps the store invariant. */
  lemma CancelarVentaPreservaValido(s: Store, id: Option<int>)
    requires Valido(s)
    ensures Valido(CancelarVenta(s, id).store)
  {
    var r := CancelarVenta(s, id);
    if r.resultado.Success? {
      var v := s.ventas[id.value];
      assert VentaBienFormada(v);
      forall k | k in r.store.productos
        ensures r.store.productos[k].stockActual >= 0
      {
        RepuestoNoNegativo(v.detalles, k);
      }
    }
  }

  /** For a request whose ids are distinct, every product's stock after the
      sale is its stock before minus the quantity requested of it. */
  lemma DebitoSinRepetidos(s: Store, items: seq<ItemVenta>)
    requires IdsDistintos(items)
    requires CrearVenta(s, Some(items)).resultado.Success?
    ensures forall k :: k in s.productos ==>
              CrearVenta(s, Some(items)).store.productos[k].stockActual
                == s.productos[k].stockActual - Pedido(items, k)
  {
    forall k | k in s.productos
      ensures CrearVenta(s, Some(items)).store.productos[k].stockActual
                == s.productos[k].stockActual - Pedido(items, k)
    {
      UltimaLineaEsPedido(items, k);
    }
  }

  /** Cancelling a sale whose lines were built from `items` undoes a debit
      of `Pedido(items, k)` on every product. */
  lemma CancelarDeshaceDebito(c: Store, id: int, antes: map<int, Producto>, items: seq<ItemVenta>)
    requires id in c.ventas && !c.ventas[id].cancelada
    requires LineasDe(c.ventas[id].detalles, items)
    requires forall i :: 0 <= i < |items| ==> items[i].id != 0
    requires c.productos.Keys == antes.Keys
    requires forall k :: k in antes ==>
               c.productos[k] == antes[k].(stockActual := antes[k].stockActual - Pedido(items, k))
    ensures CancelarVenta(c, Some(id)).store.productos == antes
  {
    var r := CancelarVenta(c, Some(id));
    forall k | k in antes
      ensures r.store.productos[k] == antes[k]
    {
      if k != 0 {
        RepuestoEsPedido(c.ventas[id].detalles, items, k);
      } else {
        assert UltimaLinea(items, k) < 0;
        UltimaLineaEsPedido(items, k);
      }
    }
  }

  /** Creating a sale over distinct ids and then cancelling it succeeds,
      leaves the sale cancelled and puts every product back as it was. */
  lemma CrearYCancelarRestauraStock(s: Store, items: seq<ItemVenta>)
    requires IdsDistintos(items)
    requires CrearVenta(s, Some(items)).resultado.Success?
    ensures var c := CrearVenta(s, Some(items));
            var r := CancelarVenta(c.store, Some(c.resultado.value));
            && r.resultado == Success(c.resultado.value)
            && r.store.ventas[c.resultado.value].cancelada
            && r.store.productos == s.productos
  {
    var c := CrearVenta(s, Some(items));
    var id := c.resultado.value;
    assert LineasDe(c.store.ventas[id].detalles, items);
    forall k | k in s.productos
      ensures c.store.productos[k] == s.productos[k].(stockActual := s.productos[k].stockActual - Pedido(items, k))
    {
      UltimaLineaEsPedido(items, k);
    }
    CancelarDeshaceDebito(c.store, id, s.productos, items);
  }

  /** Cancelling is terminal: a cancelled sale cannot be cancelled again,
      the refusal changes nothing, and no later call un-cancels it. */
  lemma CanceladaEsTerminal(s: Store, id: int, otra: Option<int>, productos: Option<seq<ItemVenta>>)
    requires Valido(s)
    requires id in s.ventas && s.ventas[id].cancelada
    ensures CancelarVenta(s, Some(id)) == Respuesta(s, Failure(VentaYaCancelada(id)))
    ensures var r := CancelarVenta(s, otra); id in r.store.ventas && r.store.ventas[id].cancelada
    ensures var r := CrearVenta(s, productos); id in r.store.ventas && r.store.ventas[id].cancelada
  {
  }

  /** A successful cancellation followed by a second one: the second fails
      with 400 and leaves the store exactly as the first left it. */
  lemma CancelarDosVeces(s: Store, id: int)
    requires CancelarVenta(s, Some(id)).resultado.Success?
    ensures var r := CancelarVenta(s, Some(id)).store;
            var r2 := CancelarVenta(r, Some(id));
            && r2 == Respuesta(r, Failure(VentaYaCancelada(id)))
            && Status(r2.resultado.error) == 400
  {
  }

  /** Worked example: stock 10 at 500 cents, sell 3, then cancel. */
  lemma EjemploVentaYCancelacion()
    ensures var s := Store(map[7 := Producto(10, 500)], map[], 1);
            var c := CrearVenta(s, Some([ItemVenta(7, 3)]));
            var r := CancelarVenta(c.store, Some(1));
            && c.resultado == Success(1)
            && c.store.ventas[1] == Venta(1500, false, [Detalle(7, 3, 500)])
            && c.store.productos[7].stockActual == 7
            && r.resultado == Success(1)
            && r.store.ventas[1].cancelada
            && r.store.productos[7].stockActual == 10
  {
  }

  /** Worked example: asking for 5 of a product with stock 2 is refused with
      400 and nothing is written. */
  lemma EjemploStockInsuficiente()
    ensures var s := Store(map[7 := Producto(2, 500)], map[], 1);
            var r := CrearVenta(s, Some([ItemVenta(7, 5)]));
            && r.resultado == Failure(StockInsuficiente(7, 2, 5))
            && Status(r.resultado.error) == 400
            && r.store == s
  {
  }
}
