/** The clean-architecture order workflow: the Order entity of the domain layer,
    the in-memory repository and e-mail notifier of the infrastructure layer, and
    the PlaceOrderUseCase of the application layer that drives them. */
module CleanOrders {
  import opened Common
  import opened Text

  // ---------------------------------------------------------------------------
  // Identifiers
  // ---------------------------------------------------------------------------

  const GuidLimit: nat := 0x1_0000_0000_0000_0000_0000_0000_0000_0000

  /** A `Guid`, as the 128-bit number its 32 hexadecimal digits spell. */
  type Guid = n: nat | n < GuidLimit

  lemma GuidLimitIsHexWidth()
    ensures Pow(16, 32) == GuidLimit
  {
    PowAdd(16, 0, 1);
    PowAdd(16, 1, 1);
    PowAdd(16, 2, 2);
    PowAdd(16, 4, 4);
    PowAdd(16, 8, 8);
    PowAdd(16, 16, 16);
  }

  /** `Guid.ToString()`: 32 lower-case hexadecimal digits in groups of 8, 4, 4, 4
      and 12, joined by hyphens. */
  function GuidText(g: Guid): (r: string)
    ensures |r| == 36
    ensures r[8] == '-' && r[13] == '-' && r[18] == '-' && r[23] == '-'
  {
    var h := FixedDigits(g, 32, LowerHexDigits);
    h[..8] + "-" + h[8..12] + "-" + h[12..16] + "-" + h[16..20] + "-" + h[20..]
  }

  /** The 32 digits of a GUID text: the text without its four hyphens. */
  function GuidDigits(t: string): (r: string)
    requires |t| == 36
    ensures |r| == 32
  {
    t[..8] + t[9..13] + t[14..18] + t[19..23] + t[24..]
  }

  /** Removing the hyphens gives the id's 32 hexadecimal digits back. */
  lemma GuidDigitsOfText(g: Guid)
    ensures GuidDigits(GuidText(g)) == FixedDigits(g, 32, LowerHexDigits)
  {
    var h := FixedDigits(g, 32, LowerHexDigits);
    var a, b, c, d, e := h[..8], h[8..12], h[12..16], h[16..20], h[20..];
    var t := a + "-" + b + "-" + c + "-" + d + "-" + e;
    assert t == GuidText(g);
    assert t[..8] == a && t[9..13] == b && t[14..18] == c && t[19..23] == d && t[24..] == e;
    assert a + b + c + d + e == h;
  }

  /** Different ids have different texts: the hyphens sit at fixed places, and the
      32 digits read back to the id. */
  lemma GuidTextInjective(g: Guid, h: Guid)
    requires GuidText(g) == GuidText(h)
    ensures g == h
  {
    GuidDigitsOfText(g);
    GuidDigitsOfText(h);
    var digits := FixedDigits(g, 32, LowerHexDigits);
    assert digits == FixedDigits(h, 32, LowerHexDigits);
    StandardAlphabets();
    GuidLimitIsHexWidth();
    ValueOfFixedDigits(g, 32, LowerHexDigits);
    ValueOfFixedDigits(h, 32, LowerHexDigits);
    ModSmall(g, Pow(16, 32));
    ModSmall(h, Pow(16, 32));
    assert Some(g) == ValueOf(digits, LowerHexDigits) == Some(h);
  }

  // ---------------------------------------------------------------------------
  // Domain: Order
  // ---------------------------------------------------------------------------

  datatype OrderStatus = Pending | Confirmed | Shipped

  /** The two `ArgumentException`s of the constructor. */
  datatype OrderError = ProductRequired | QuantityMustBePositive

  /** `string.IsNullOrWhiteSpace`, with `None` for a null reference. */
  predicate IsNullOrWhiteSpace(s: Option<string>)
  {
    s.None? || forall k :: 0 <= k < |s.value| ==> IsWhiteSpace(s.value[k])
  }

  /** The constructor's checks, the product first: the error it throws, if any. */
  function Validate(product: Option<string>, quantity: int): (r: Option<OrderError>)
    ensures r.None? <==> !IsNullOrWhiteSpace(product) && quantity > 0
    ensures r == Some(ProductRequired) <==> IsNullOrWhiteSpace(product)
    ensures r == Some(QuantityMustBePositive) <==> !IsNullOrWhiteSpace(product) && quantity <= 0
  {
    if IsNullOrWhiteSpace(product) then Some(ProductRequired)
    else if quantity <= 0 then Some(QuantityMustBePositive)
    else None
  }

  class Order {
    const id: Guid
    const product: string
    const quantity: int
    var status: OrderStatus

    /** What every constructed order satisfies; the fields it reads never change. */
    predicate Valid()
    {
      !IsNullOrWhiteSpace(Some(product)) && quantity > 0
    }

    /** The fields the constructor assigns once its checks have passed; the id is
        the fresh `Guid.NewGuid()`. */
    constructor (id: Guid, product: string, quantity: int)
      requires Validate(Some(product), quantity).None?
      ensures this.id == id && this.product == product && this.quantity == quantity
      ensures status == Pending && Valid()
    {
      this.id := id;
      this.product := product;
      this.quantity := quantity;
      status := Pending;
    }

    /** `new Order(product, quantity)`: the exception it throws, or the new order. */
    static method New(id: Guid, product: Option<string>, quantity: int) returns (r: Result<Order, OrderError>)
      ensures r.Err? <==> Validate(product, quantity).Some?
      ensures r.Err? ==> r.error == Validate(product, quantity).value
      ensures r.Ok? ==>
        && fresh(r.value) && r.value.Valid() && r.value.status == Pending
        && r.value.id == id && product == Some(r.value.product) && r.value.quantity == quantity
    {
      var error := Validate(product, quantity);
      if error.Some? {
        return Err(error.value);
      }
      var order := new Order(id, product.value, quantity);
      return Ok(order);
    }

    /** From any status. */
    method Confirm()
      modifies this
      ensures status == Confirmed
    {
      status := Confirmed;
    }

    /** From any status. */
    method Ship()
      modifies this
      ensures status == Shipped
    {
      status := Shipped;
    }
  }

  // ---------------------------------------------------------------------------
  // Infrastructure
  // ---------------------------------------------------------------------------

  class InMemoryOrderRepository {
    var orders: map<Guid, Order>

    /** Every order is filed under its own id. */
    predicate Valid()
      reads this
    {
      forall id :: id in orders ==> orders[id].id == id
    }

    constructor ()
      ensures orders == map[] && Valid()
    {
      orders := map[];
    }

    /** Files the order under its id, replacing an earlier order with that id;
        no other id is touched. */
    method Save(order: Order)
      requires Valid()
      modifies this
      ensures Valid()
      ensures orders == old(orders)[order.id := order]
      ensures forall id :: id != order.id ==> (id in orders <==> id in old(orders))
    {
      orders := orders[order.id := order];
    }

    /** The order filed under the id, or nothing (`null`) when there is none. */
    method GetById(id: Guid) returns (r: Option<Order>)
      ensures r.Some? <==> id in orders
      ensures r.Some? ==> r.value == orders[id]
      ensures Valid() && r.Some? ==> r.value.id == id
    {
      r := if id in orders then Some(orders[id]) else None;
    }

    /** `_orders.Values.ToList()`: each filed order exactly once, in some order. */
    method GetAll() returns (r: seq<Order>)
      requires Valid()
      ensures |r| == |orders|
      ensures forall k :: 0 <= k < |r| ==> r[k].id in orders && orders[r[k].id] == r[k]
      ensures forall i, j :: 0 <= i < j < |r| ==> r[i].id != r[j].id
      ensures forall id :: id in orders ==> orders[id] in r
    {
      var filed := orders;
      var pending := filed.Keys;
      var ids: seq<Guid> := [];
      while pending != {}
        invariant pending + Elements(ids) == filed.Keys && pending !! Elements(ids)
        invariant Distinct(ids)
        decreases |pending|
      {
        var id :| id in pending;
        Extend(ids, id);
        ids := ids + [id];
        pending := pending - {id};
      }
      r := seq(|ids|, k requires 0 <= k < |ids| => filed[ids[k]]);
      Listing(filed, ids, r);
    }
  }

  /** The ids listed in a sequence. */
  ghost function Elements(ids: seq<Guid>): set<Guid>
  {
    set k | 0 <= k < |ids| :: ids[k]
  }

  ghost predicate Distinct(ids: seq<Guid>)
  {
    forall i, j :: 0 <= i < j < |ids| ==> ids[i] != ids[j]
  }

  /** The orders of a repetition-free list of every filed id list each filed order
      exactly once. */
  lemma Listing(filed: map<Guid, Order>, ids: seq<Guid>, r: seq<Order>)
    requires forall id :: id in filed ==> filed[id].id == id
    requires Distinct(ids) && Elements(ids) == filed.Keys
    requires |r| == |ids| && forall k :: 0 <= k < |ids| ==> ids[k] in filed && r[k] == filed[ids[k]]
    ensures |r| == |filed|
    ensures forall k :: 0 <= k < |r| ==> r[k].id in filed && filed[r[k].id] == r[k]
    ensures forall i, j :: 0 <= i < j < |r| ==> r[i].id != r[j].id
    ensures forall id :: id in filed ==> filed[id] in r
  {
    DistinctCount(ids);
    assert forall k :: 0 <= k < |r| ==> r[k].id == ids[k];
    forall id | id in filed
      ensures filed[id] in r
    {
      var k :| 0 <= k < |ids| && ids[k] == id;
      assert r[k] == filed[id];
    }
  }

  /** Appending an id not yet listed keeps the sequence free of repeats. */
  lemma Extend(ids: seq<Guid>, id: Guid)
    requires Distinct(ids) && id !in Elements(ids)
    ensures Distinct(ids + [id]) && Elements(ids + [id]) == Elements(ids) + {id}
  {
    var t := ids + [id];
    assert forall k :: 0 <= k < |ids| ==> t[k] == ids[k];
    assert Elements(t) == Elements(ids) + {t[|ids|]};
  }

  /** A sequence without repeats lists as many ids as it is long. */
  lemma {:induction false} DistinctCount(ids: seq<Guid>)
    requires Distinct(ids)
    ensures |Elements(ids)| == |ids|
  {
    if |ids| > 0 {
      var init := ids[..|ids| - 1];
      DistinctCount(init);
      assert Elements(ids) == Elements(init) + {ids[|ids| - 1]};
    }
  }

  /** The confirmation text of an order: "Order {Id}: {Product} x {Quantity}". */
  function ConfirmationText(id: Guid, product: string, quantity: int): (r: string)
    ensures |r| == 47 + |product| + |IntToString(quantity)|
  {
    "Order " + GuidText(id) + ": " + product + " x " + IntToString(quantity)
  }

  /** Where the parts sit in a confirmation text: the id's text fills positions 6 to
      41, and from position 44 on come the product, " x " and the quantity. */
  lemma ConfirmationTextParts(id: Guid, product: string, quantity: int)
    ensures var t := ConfirmationText(id, product, quantity);
      t[..6] == "Order " && t[6..42] == GuidText(id) && t[42..44] == ": "
      && t[44..] == product + " x " + IntToString(quantity)
  {
  }

  /** A confirmation text names its order: the id, product and quantity can be read
      back from it, since the quantity's digits hold no space. */
  lemma ConfirmationTextInjective(id1: Guid, p1: string, q1: int, id2: Guid, p2: string, q2: int)
    requires ConfirmationText(id1, p1, q1) == ConfirmationText(id2, p2, q2)
    ensures id1 == id2 && p1 == p2 && q1 == q2
  {
    ConfirmationTextParts(id1, p1, q1);
    ConfirmationTextParts(id2, p2, q2);
    GuidTextInjective(id1, id2);
    SplitBeforeLastWord(p1, IntToString(q1), p2, IntToString(q2), " x ");
    IntToStringInjective(q1, q2);
  }

  class EmailNotificationService {
    var sentNotifications: seq<string>

    constructor ()
      ensures sentNotifications == []
    {
      sentNotifications := [];
    }

    /** Appends the order's confirmation text; the earlier entries stay. */
    method SendOrderConfirmation(order: Order)
      modifies this
      ensures sentNotifications == old(sentNotifications) + [ConfirmationText(order.id, order.product, order.quantity)]
    {
      sentNotifications := sentNotifications + [ConfirmationText(order.id, order.product, order.quantity)];
    }
  }

  // ---------------------------------------------------------------------------
  // Application
  // ---------------------------------------------------------------------------

  class PlaceOrderUseCase {
    const repository: InMemoryOrderRepository
    const notification: EmailNotificationService

    constructor (repository: InMemoryOrderRepository, notification: EmailNotificationService)
      ensures this.repository == repository && this.notification == notification
    {
      this.repository := repository;
      this.notification := notification;
    }

    /** Creates the order with a fresh id, confirms it, files it and sends its
        confirmation. An invalid product or quantity fails before anything is filed
        or sent. */
    method Execute(id: Guid, product: Option<string>, quantity: int) returns (r: Result<Order, OrderError>)
      requires repository.Valid()
      modifies repository, notification
      ensures repository.Valid()
      ensures r.Err? <==> Validate(product, quantity).Some?
      ensures r.Err? ==>
        && r.error == Validate(product, quantity).value
        && repository.orders == old(repository.orders)
        && notification.sentNotifications == old(notification.sentNotifications)
      ensures r.Ok? ==>
        && fresh(r.value) && r.value.status == Confirmed
        && r.value.id == id && product == Some(r.value.product) && r.value.quantity == quantity
        && repository.orders == old(repository.orders)[id := r.value]
        && notification.sentNotifications
           == old(notification.sentNotifications) + [ConfirmationText(id, r.value.product, quantity)]
    {
      r := Order.New(id, product, quantity);
      if r.Err? {
        return;
      }
      var order := r.value;
      order.Confirm();
      repository.Save(order);
      notification.SendOrderConfirmation(order);
    }
  }

  // ---------------------------------------------------------------------------
  // The layer tests, as straight-line programs
  // ---------------------------------------------------------------------------

  /** A domain order confirmed on its own is Confirmed and keeps its product. */
  method DomainOrderConfirms(id: Guid) returns (status: OrderStatus, product: string)
    ensures status == Confirmed && product == "Widget"
  {
    var created := Order.New(id, Some("Widget"), 5);
    assert !IsWhiteSpace("Widget"[0]);
    var order := created.value;
    order.Confirm();
    status, product := order.status, order.product;
  }

  /** Placing one order on fresh infrastructure files one order and sends one
      notification. */
  method PlaceOneOrder(id: Guid) returns (status: OrderStatus, filed: nat, sent: nat)
    ensures status == Confirmed && filed == 1 && sent == 1
  {
    var repository := new InMemoryOrderRepository();
    var notification := new EmailNotificationService();
    var useCase := new PlaceOrderUseCase(repository, notification);
    assert !IsWhiteSpace("Gadget"[0]);
    var placed := useCase.Execute(id, Some("Gadget"), 3);
    var all := repository.GetAll();
    assert repository.orders.Keys == {id};
    status, filed, sent := placed.value.status, |all|, |notification.sentNotifications|;
  }
}
