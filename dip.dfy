/** The dependency-inversion example, good side: an OrderService that records and
    announces orders through abstractions, with one repository and two
    interchangeable notification services. The INotificationService interface is
    the `Notifier` datatype over its two implementations. */
module InvertedOrders {
  import opened Text

  /** The record saved for an order: "Order: {product} x {quantity}". */
  function OrderRecord(product: string, quantity: int): (r: string)
    ensures StartsWith(r, "Order: ")
  {
    "Order: " + product + " x " + IntToString(quantity)
  }

  /** The message announcing an order: "Order placed: {product}". */
  function PlacedMessage(product: string): (r: string)
    ensures StartsWith(r, "Order placed: ") && r[14..] == product
  {
    "Order placed: " + product
  }

  /** What the SMS service logs for a message: "SMS: {message}". */
  function SmsText(message: string): (r: string)
    ensures StartsWith(r, "SMS: ") && r[5..] == message
  {
    "SMS: " + message
  }

  /** A saved record names its order: product and quantity read back from it. */
  lemma OrderRecordInjective(p1: string, q1: int, p2: string, q2: int)
    requires OrderRecord(p1, q1) == OrderRecord(p2, q2)
    ensures p1 == p2 && q1 == q2
  {
    var t := OrderRecord(p1, q1);
    assert t[7..] == p1 + " x " + IntToString(q1);
    assert t[7..] == p2 + " x " + IntToString(q2);
    SplitBeforeLastWord(p1, IntToString(q1), p2, IntToString(q2), " x ");
    IntToStringInjective(q1, q2);
  }

  class SqlOrderRepository {
    var savedOrders: seq<string>

    constructor ()
      ensures savedOrders == []
    {
      savedOrders := [];
    }

    /** Appends the record verbatim. */
    method Save(order: string)
      modifies this
      ensures savedOrders == old(savedOrders) + [order]
    {
      savedOrders := savedOrders + [order];
    }
  }

  class EmailNotificationService {
    var sentNotifications: seq<string>

    constructor ()
      ensures sentNotifications == []
    {
      sentNotifications := [];
    }

    /** Appends the message verbatim. */
    method Notify(message: string)
      modifies this
      ensures sentNotifications == old(sentNotifications) + [message]
    {
      sentNotifications := sentNotifications + [message];
    }
  }

  class SmsNotificationService {
    var sentSms: seq<string>

    constructor ()
      ensures sentSms == []
    {
      sentSms := [];
    }

    /** Appends the message with the "SMS: " prefix. */
    method Notify(message: string)
      modifies this
      ensures sentSms == old(sentSms) + [SmsText(message)]
    {
      sentSms := sentSms + [SmsText(message)];
    }
  }

  /** An INotificationService: one of the two implementations. */
  datatype Notifier = Email(email: EmailNotificationService) | Sms(sms: SmsNotificationService)
  {
    /** The object a notification changes. */
    function Target(): (r: object)
      ensures r == (if Email? then email as object else sms as object)
    {
      if Email? then email else sms
    }

    /** The service's log. */
    function Log(): (r: seq<string>)
      reads Target()
    {
      if Email? then email.sentNotifications else sms.sentSms
    }

    /** The entry notifying a message appends to the log. */
    function Entry(message: string): (r: string)
      ensures Email? ==> r == message
      ensures Sms? ==> r == SmsText(message)
    {
      if Email? then message else SmsText(message)
    }

    /** `notification.Notify(message)`, dispatched to the implementation. */
    method Notify(message: string)
      modifies Target()
      ensures Log() == old(Log()) + [Entry(message)]
    {
      if Email? {
        email.Notify(message);
      } else {
        sms.Notify(message);
      }
    }
  }

  class OrderService {
    const repository: SqlOrderRepository
    const notification: Notifier

    constructor (repository: SqlOrderRepository, notification: Notifier)
      ensures this.repository == repository && this.notification == notification
    {
      this.repository := repository;
      this.notification := notification;
    }

    /** Saves one record of the order and sends one message about it; nothing
        else changes. */
    method PlaceOrder(product: string, quantity: int)
      modifies repository, notification.Target()
      ensures repository.savedOrders == old(repository.savedOrders) + [OrderRecord(product, quantity)]
      ensures notification.Log() == old(notification.Log()) + [notification.Entry(PlacedMessage(product))]
    {
      repository.Save(OrderRecord(product, quantity));
      notification.Notify(PlacedMessage(product));
    }
  }

  /** The test: one order through e-mail logs one record and one e-mail; the same
      repository behind an SMS service then logs one SMS, which starts "SMS:". */
  method SwapNotifier() returns (saved: seq<string>, emails: seq<string>, texts: seq<string>)
    ensures |emails| == 1 && |texts| == 1 && StartsWith(texts[0], "SMS:")
    ensures saved == [OrderRecord("Widget", 2), OrderRecord("Gadget", 1)]
  {
    var repository := new SqlOrderRepository();
    var email := new EmailNotificationService();
    var service := new OrderService(repository, Email(email));
    service.PlaceOrder("Widget", 2);
    var sms := new SmsNotificationService();
    var serviceWithSms := new OrderService(repository, Sms(sms));
    serviceWithSms.PlaceOrder("Gadget", 1);
    saved, emails, texts := repository.savedOrders, email.sentNotifications, sms.sentSms;
  }
}

/** The dependency-inversion example, bad side: an OrderService that builds its own
    database and e-mail sender. It records the same texts as the good side with
    an e-mail notifier. */
module CoupledOrders {
  import opened InvertedOrders

  class SqlDatabase {
    var savedItems: seq<string>

    constructor ()
      ensures savedItems == []
    {
      savedItems := [];
    }

    method Save(data: string)
      modifies this
      ensures savedItems == old(savedItems) + [data]
    {
      savedItems := savedItems + [data];
    }
  }

  class EmailSender {
    var sentEmails: seq<string>

    constructor ()
      ensures sentEmails == []
    {
      sentEmails := [];
    }

    method Send(message: string)
      modifies this
      ensures sentEmails == old(sentEmails) + [message]
    {
      sentEmails := sentEmails + [message];
    }
  }

  class OrderService {
    const database: SqlDatabase
    const emailSender: EmailSender

    /** A new service owns a new, empty database and e-mail sender. */
    constructor ()
      ensures fresh(database) && fresh(emailSender)
      ensures database.savedItems == [] && emailSender.sentEmails == []
    {
      database := new SqlDatabase();
      emailSender := new EmailSender();
    }

    /** One record and one e-mail per order. */
    method PlaceOrder(product: string, quantity: int)
      modifies database, emailSender
      ensures database.savedItems == old(database.savedItems) + [OrderRecord(product, quantity)]
      ensures emailSender.sentEmails == old(emailSender.sentEmails) + [PlacedMessage(product)]
    {
      database.Save(OrderRecord(product, quantity));
      emailSender.Send(PlacedMessage(product));
    }
  }

  /** The test: a fresh service placing one order holds one record and one e-mail. */
  method PlaceOneOrder() returns (saved: seq<string>, sent: seq<string>)
    ensures saved == [OrderRecord("Widget", 2)] && sent == [PlacedMessage("Widget")]
  {
    var service := new OrderService();
    service.PlaceOrder("Widget", 2);
    saved, sent := service.database.savedItems, service.emailSender.sentEmails;
  }
}
