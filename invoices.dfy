/** Invoice arithmetic of the single-responsibility example: the InvoiceCalculator
    over the Invoice record (GoodExample) and the all-in-one Invoice class
    (BadExample). C# `decimal` amounts are modelled as exact reals. */
module Invoices {

  /** `record InvoiceItem(string Description, int Quantity, decimal UnitPrice)`. */
  datatype InvoiceItem = InvoiceItem(description: string, quantity: int, unitPrice: real)

  /** The tax rate an invoice gets when none is given. */
  const DefaultTaxRate: real := 0.19

  /** `record Invoice(string CustomerName, List<InvoiceItem> Items, decimal TaxRate = 0.19m)`. */
  datatype Invoice = Invoice(customerName: string, items: seq<InvoiceItem>, taxRate: real := DefaultTaxRate)

  /** The amount of one line: quantity times unit price. */
  function LineAmount(item: InvoiceItem): real
  {
    item.quantity as real * item.unitPrice
  }

  /** `Items.Sum(item => item.Quantity * item.UnitPrice)`. */
  function Sum(items: seq<InvoiceItem>): real
  {
    if |items| == 0 then 0.0 else Sum(items[..|items| - 1]) + LineAmount(items[|items| - 1])
  }

  // ---------------------------------------------------------------------------
  // InvoiceCalculator
  // ---------------------------------------------------------------------------

  function CalculateSubtotal(invoice: Invoice): real
  {
    Sum(invoice.items)
  }

  function CalculateTax(invoice: Invoice): real
  {
    CalculateSubtotal(invoice) * invoice.taxRate
  }

  /** The total is the subtotal scaled by one plus the tax rate. */
  function CalculateTotal(invoice: Invoice): (r: real)
    ensures r == CalculateSubtotal(invoice) * (1.0 + invoice.taxRate)
  {
    CalculateSubtotal(invoice) + CalculateTax(invoice)
  }

  // ---------------------------------------------------------------------------
  // Properties of the figures
  // ---------------------------------------------------------------------------

  /** An invoice without items has nothing to pay, whatever the tax rate. */
  lemma EmptyInvoice(name: string, rate: real)
    ensures var invoice := Invoice(name, [], rate);
      CalculateSubtotal(invoice) == 0.0 && CalculateTax(invoice) == 0.0 && CalculateTotal(invoice) == 0.0
  {
  }

  /** The subtotal of two lists of items laid end to end is the sum of their subtotals. */
  lemma {:induction false} SumAppend(a: seq<InvoiceItem>, b: seq<InvoiceItem>)
    ensures Sum(a + b) == Sum(a) + Sum(b)
    decreases |b|
  {
    if |b| == 0 {
      assert a + b == a;
    } else {
      var init := b[..|b| - 1];
      assert (a + b)[..|a + b| - 1] == a + init;
      SumStep(a + b);
      SumAppend(a, init);
    }
  }

  /** One step of the sum: the last item's amount on top of the rest. */
  lemma SumStep(items: seq<InvoiceItem>)
    requires |items| >= 1
    ensures Sum(items) == Sum(items[..|items| - 1]) + LineAmount(items[|items| - 1])
  {
  }

  /** Taking one item out of the list takes its amount out of the subtotal. */
  lemma SumRemove(items: seq<InvoiceItem>, k: nat)
    requires k < |items|
    ensures Sum(items) == Sum(items[..k] + items[k + 1..]) + LineAmount(items[k])
  {
    var before, x, after := items[..k], items[k], items[k + 1..];
    var upTo := before + [x];
    assert items == upTo + after;
    assert upTo[..|upTo| - 1] == before;
    SumStep(upTo);
    SumAppend(upTo, after);
    SumAppend(before, after);
  }

  /** Taking the item at index k out of a list takes one copy of it out of the multiset. */
  lemma RemoveOne(b: seq<InvoiceItem>, k: nat)
    requires k < |b|
    ensures multiset(b[..k] + b[k + 1..]) == multiset(b) - multiset{b[k]}
  {
    assert b == b[..k] + [b[k]] + b[k + 1..];
    assert multiset(b) == multiset(b[..k]) + multiset{b[k]} + multiset(b[k + 1..]);
  }

  /** The subtotal does not depend on the order of the items: any rearrangement of
      the same items has the same sum. */
  lemma {:induction false} SumOrderIndependent(a: seq<InvoiceItem>, b: seq<InvoiceItem>)
    requires multiset(a) == multiset(b)
    ensures Sum(a) == Sum(b)
    decreases |a|
  {
    if |a| == 0 {
      assert |b| == |multiset(b)| == 0;
    } else {
      var last := a[|a| - 1];
      var init := a[..|a| - 1];
      RemoveOne(a, |a| - 1);
      assert a[..|a| - 1] + a[|a|..] == init;
      assert last in multiset(b);
      var k :| 0 <= k < |b| && b[k] == last;
      RemoveOne(b, k);
      SumOrderIndependent(init, b[..k] + b[k + 1..]);
      SumRemove(b, k);
    }
  }

  /** The tests' figures: 2 x 10.00 + 1 x 25.00 at 19 % is 45.00, 8.55 and 53.55;
      1 x 50.00 at 20 % totals 60.00. */
  lemma CalculatorExamples()
    ensures var invoice := Invoice("Acme Corp", [InvoiceItem("Widget", 2, 10.00), InvoiceItem("Gadget", 1, 25.00)], 0.19);
      CalculateSubtotal(invoice) == 45.00 && CalculateTax(invoice) == 8.55 && CalculateTotal(invoice) == 53.55
    ensures CalculateTotal(Invoice("Independent Test", [InvoiceItem("Test", 1, 50.00)], 0.20)) == 60.00
  {
    var items := [InvoiceItem("Widget", 2, 10.00), InvoiceItem("Gadget", 1, 25.00)];
    assert items[..1][..0] == [];
    assert Sum(items[..1]) == 20.00;
    assert Sum(items) == 45.00;
    var single := [InvoiceItem("Test", 1, 50.00)];
    assert single[..0] == [];
    assert Sum(single) == 50.00;
  }

  /** A record built without a rate taxes at 19 %. */
  lemma DefaultRate(name: string, items: seq<InvoiceItem>)
    ensures CalculateTax(Invoice(name, items)) == CalculateSubtotal(Invoice(name, items)) * 0.19
  {
  }
}

/** The BadExample Invoice: one mutable class holding the data and computing the
    figures itself. */
module BadInvoices {
  import opened Invoices

  class Invoice {
    var customerName: string
    var items: seq<InvoiceItem>
    var taxRate: real

    /** The property defaults: no customer name, no items, a 19 % rate. */
    constructor ()
      ensures customerName == "" && items == [] && taxRate == DefaultTaxRate
    {
      customerName := "";
      items := [];
      taxRate := DefaultTaxRate;
    }

    /** The same data as a GoodExample record. */
    function AsRecord(): (r: Invoices.Invoice)
      reads this
      ensures r.items == items && r.taxRate == taxRate
    {
      Invoices.Invoice(customerName, items, taxRate)
    }

    /** CalculateSubtotal(): the figure the calculator gives for the same data. The
        three calculations read the invoice and change nothing. */
    method CalculateSubtotal() returns (r: real)
      ensures r == Invoices.CalculateSubtotal(AsRecord())
    {
      r := Sum(items);
    }

    method CalculateTax() returns (r: real)
      ensures r == Invoices.CalculateTax(AsRecord())
    {
      var subtotal := CalculateSubtotal();
      r := subtotal * taxRate;
    }

    method CalculateTotal() returns (r: real)
      ensures r == Invoices.CalculateTotal(AsRecord())
      ensures r == Sum(items) * (1.0 + taxRate)
    {
      var subtotal := CalculateSubtotal();
      var tax := CalculateTax();
      r := subtotal + tax;
    }
  }

  /** The BadExample test: an invoice filled in after construction gives the same
      45.00, 8.55 and 53.55. */
  method BadExampleFigures() returns (subtotal: real, tax: real, total: real)
    ensures subtotal == 45.00 && tax == 8.55 && total == 53.55
  {
    var invoice := new Invoice();
    invoice.customerName := "Acme Corp";
    invoice.items := [InvoiceItem("Widget", 2, 10.00), InvoiceItem("Gadget", 1, 25.00)];
    invoice.taxRate := 0.19;
    subtotal := invoice.CalculateSubtotal();
    tax := invoice.CalculateTax();
    total := invoice.CalculateTotal();
    CalculatorExamples();
  }
}
