# Sale creation and cancellation (venta controller)

This project models the two custom handlers of the point-of-sale backend's
sale controller, `crearVenta` and `cancelarVenta`
(`src/api/venta/controllers/venta.ts`), as pure transitions of an abstract
record store, and proves what they promise about totals, price snapshots,
stock and the sale's cancelled flag.

- `Modelo` (modelo.dfy): the records — `Producto` (`stock_actual`,
  `precio_venta`), `Venta` (`total`, `cancelada`, its `Detalle` lines) and a
  `Store` of products and sales keyed by id plus the id the store gives the
  next sale — the error taxonomy with its HTTP status, the reference sums
  (`Importe`, `ImporteDetalles`, `Pedido`, `Repuesto`) and the store
  invariant `Valido`.
- `VentaController` (venta_controller.dfy): the validation pass, the stock
  debit, `CrearVenta`, the restock loop and `CancelarVenta`. Each handler
  returns the store after the call together with either the sale id or the
  error it throws, so "the store is unchanged on error" is a stated property.
- `VentaPropiedades` (venta_propiedades.dfy): lemmas relating several calls:
  total equals the lines' sum, invariant preservation, exact debit for
  distinct ids, the create-then-cancel round trip, cancellation as a terminal
  state, and two worked examples.
- `StockFresco` (stock_fresco.dfy): the finding below — a counterexample for
  the handler as written, and a corrected create handler with its proofs.

The handler model reproduces the source's stale read: the stock written for a
request line is the stock read for that line during validation minus its
quantity, so when one product id appears on two lines each line is checked
against the original stock and the last write wins. One would expect
post-sale stock to equal pre-sale stock minus the quantity of every
referenced product; the code does this only when the ids in the request are
distinct, and the model follows the code (`DebitoSinRepetidos` proves the
distinct case, `SobreventaConIdsRepetidos` shows the other).

Modelling choices: a missing or falsy request `id` is the id 0; a missing or
non-array `productos` is `None`; a missing cancel id is `None`; prices are
integer cents; a sale's lines are held inside the sale, in creation order, as
the handler reads them back with `populate`.

## Model

| member | source | states |
|---|---|---|
| VentaController.ErrorDeItem | src/api/venta/controllers/venta.ts:47-62 | a request line passes iff its id is non-zero, its quantity positive, its product exists and has at least that much stock; the error is 404 exactly when only the product is missing, otherwise 400 |
| VentaController.Validar | src/api/venta/controllers/venta.ts:37-75 | validation succeeds iff every line passes; on failure the error is that of the first failing line with all earlier lines valid; on success the total is the sum of price × quantity at the read prices, and there is one line snapshot and one product read per request line, in order |
| VentaController.Debitar | src/api/venta/controllers/venta.ts:89-113 | no product is added or removed; a product no line names is untouched; a named product ends with the stock read for its last line minus that line's quantity (last write wins), price unchanged |
| VentaController.CrearVenta | src/api/venta/controllers/venta.ts:29-121 | an absent or empty list fails with SinProductos; any failure leaves the store unchanged; success iff the list is non-empty and every line is valid, else the first failing line's error; on success a new sale under the next id, not cancelled, total = Σ price × quantity, one line per request line in order with the validation-time price, other sales untouched, and stocks debited as Debitar states |
| VentaController.Reponer | src/api/venta/controllers/venta.ts:155-180 | every existing product with a non-zero id gains exactly the sum of the quantities of the lines naming it (fresh reads, so repeated lines accumulate); lines with id 0 are skipped, as are lines whose product id is not in the store; no product is added or removed |
| VentaController.CancelarVenta | src/api/venta/controllers/venta.ts:133-191 | missing id fails with 400, unknown sale with 404, cancelled sale with 400, each leaving the store unchanged; otherwise the sale alone is set cancelled, every product with a non-zero id rises by its lines' quantities, product 0 is untouched, and the next sale id is kept |
| VentaPropiedades.ImporteDeLineas | src/api/venta/controllers/venta.ts:65-100 | the total accumulated at validation prices equals the sum of quantity × snapshot price over the created lines |
| VentaPropiedades.RepuestoEsPedido | src/api/venta/controllers/venta.ts:95-103 | the lines created from a request restore, per product, exactly the quantity the request asked for |
| VentaPropiedades.UltimaLineaEsPedido | src/api/venta/controllers/venta.ts:106-111 | with distinct ids the quantity written off by the last line naming a product is the whole quantity requested of it, and an unnamed product is requested 0 |
| VentaPropiedades.TotalIgualADetalles | src/api/venta/controllers/venta.ts:65-100 | a created sale has positive line quantities and a total equal to the sum of its lines |
| VentaPropiedades.CrearVentaPreservaValido | src/api/venta/controllers/venta.ts:60-111 | creating a sale keeps the store invariant: no stock becomes negative, every sale is well formed, the new sale id was not in use |
| VentaPropiedades.CancelarVentaPreservaValido | src/api/venta/controllers/venta.ts:150-189 | cancelling keeps the store invariant, stocks stay non-negative |
| VentaPropiedades.DebitoSinRepetidos | src/api/venta/controllers/venta.ts:106-111 | for a request with distinct ids every product ends with its stock before minus the quantity requested of it (0 for products not requested) |
| VentaPropiedades.CancelarDeshaceDebito | src/api/venta/controllers/venta.ts:156-180 | cancelling a sale whose lines were built one to one from a request, with no id 0, undoes a debit of the total requested quantity on every product, leaving the products exactly as before the debit |
| VentaPropiedades.CrearYCancelarRestauraStock | src/api/venta/controllers/venta.ts:89-189 | creating a sale over distinct ids and cancelling it succeeds, leaves the sale cancelled and restores every product exactly |
| VentaPropiedades.CanceladaEsTerminal | src/api/venta/controllers/venta.ts:150-189 | a cancelled sale is refused with VentaYaCancelada and an unchanged store, and stays cancelled through any later create or cancel |
| VentaPropiedades.CancelarDosVeces | src/api/venta/controllers/venta.ts:150-152 | after a successful cancellation a second one fails with 400 and changes nothing |
| VentaPropiedades.EjemploVentaYCancelacion | src/api/venta/controllers/venta.ts:29-191 | stock 10 at 500 cents, sell 3: total 1500, stock 7, one line at 500; cancelling returns the stock to 10 and marks the sale cancelled |
| VentaPropiedades.EjemploStockInsuficiente | src/api/venta/controllers/venta.ts:60-62 | asking for 5 of a product with stock 2 fails with 400 StockInsuficiente(7, 2, 5) and writes nothing |
| StockFresco.ValidarYDebitar | src/api/venta/controllers/venta.ts:46-111 | checking and debiting each line against the running stock succeeds iff every line is well formed and each product's total requested quantity fits its stock, and then leaves each product at stock minus its total requested quantity |
| StockFresco.CrearVentaCorregida | src/api/venta/controllers/venta.ts:29-121 | the corrected create handler: success iff the request is non-empty and satisfiable in total; on success stock is debited by the total requested per product and never goes negative; failures leave the store unchanged |
| StockFresco.CorregidaYCancelarRestauraStock | src/api/venta/controllers/venta.ts:89-189 | with the corrected handler, create then cancel restores every stock for any request, repeated ids included |
| StockFresco.AtendibleSinRepetidos | src/api/venta/controllers/venta.ts:46-62 | with distinct ids, per-line checks against the original stock and per-product total checks accept the same requests |
| StockFresco.CorregidaCoincideSinRepetidos | src/api/venta/controllers/venta.ts:29-121 | on requests with distinct ids the corrected and the as-written handler accept the same requests and leave the same store |
| StockFresco.SobreventaConIdsRepetidos | src/api/venta/controllers/venta.ts:60-109 | as written, lines of 3 and 4 units of a product with stock 5 are accepted, 7 units are sold, stock is left at 1 and cancelling raises it to 8; the corrected handler refuses the request |

## Left out

- The host framework (`createCoreController`, `strapi.db.query`, `populate`, `transformResponse`): replaced by the map-based `Store`; the response is the sale id whose record is in the returned store.
- The route table in src/api/venta/routes/01-custom-venta.ts: configuration only.
- Sale dates and `publishedAt`: clock reads with no behaviour to state.
- The 500 paths and logging in the `catch` blocks: every store write is assumed to succeed, so the partial-write states they guard are not modelled.
- Concurrency and the lost-update race between simultaneous requests: each handler is one atomic transition.
- Floating-point prices and rounding: prices are integer cents.
- Non-integer quantities and the object-or-id check on a line's product: ids and quantities are integers, and a line's product is an id.
- VentaController.Reponer: skips a sale line whose product is no longer in the store. In the source the populated relation of such a line is `null`, and the object check at venta.ts:158-159 then reads `.id` of `null` and throws. The handler answers 500 with the earlier lines' stock already raised and the sale still active, so a retry raises that stock again. The model has no partial-failure states (see the 500 paths above), so it does not promise this behaviour.
- The product name and message text in the errors: errors carry the ids and quantities only.
- Sale-line records as separate rows with their own ids: a sale holds its lines directly.

## Findings

| source | as written | input that shows it | evidently intended | confidence | as-written member | corrected member |
|---|---|---|---|---|---|---|
| src/api/venta/controllers/venta.ts:60-109 | each line is checked against, and its debit computed from, the stock read before any line was debited, so repeated ids are checked separately and the last write wins | product 7 with stock 5; request `[{id:7, cantidad:3}, {id:7, cantidad:4}]` is accepted, sells 7 units and leaves stock 1; cancelling it sets stock 8 | a request is refused when the total quantity of a product exceeds its stock, and the stock falls by that total | high; not executed | StockFresco.SobreventaConIdsRepetidos | StockFresco.CrearVentaCorregida |

The handler model in `VentaController` keeps the code's behaviour; the
corrected definition, with its round-trip proof
`StockFresco.CorregidaYCancelarRestauraStock`, states the intended one, and
`StockFresco.CorregidaCoincideSinRepetidos` shows the two agree whenever no id
repeats.
