/** The interface-segregation example, bad side: one IWorker interface forces the
    Robot to implement eating and sleeping, which it can only refuse. Each worker
    logs what it does in its `Actions` list. */
module Workers {

  const HumanWorking: string := "Human working"
  const HumanEating: string := "Human eating"
  const HumanSleeping: string := "Human sleeping"
  const RobotWorking: string := "Robot working"

  /** A `NotSupportedException` and its message. */
  datatype NotSupported = NotSupported(message: string)

  class Human {
    var actions: seq<string>

    /** The log holds only the three things a human does. The list is public, so
      this holds only while callers leave it alone; each method keeps it. */
    predicate Valid()
      reads this
    {
      forall k :: 0 <= k < |actions| ==> actions[k] == HumanWorking || actions[k] == HumanEating || actions[k] == HumanSleeping
    }

    constructor ()
      ensures actions == [] && Valid()
    {
      actions := [];
    }

    method Work()
      modifies this
      ensures actions == old(actions) + [HumanWorking]
      ensures old(Valid()) ==> Valid()
    {
      actions := actions + [HumanWorking];
    }

    method Eat()
      modifies this
      ensures actions == old(actions) + [HumanEating]
      ensures old(Valid()) ==> Valid()
    {
      actions := actions + [HumanEating];
    }

    method Sleep()
      modifies this
      ensures actions == old(actions) + [HumanSleeping]
      ensures old(Valid()) ==> Valid()
    {
      actions := actions + [HumanSleeping];
    }
  }

  class Robot {
    var actions: seq<string>

    /** The log holds nothing but work, while callers leave the public list
        alone. */
    predicate Valid()
      reads this
    {
      forall k :: 0 <= k < |actions| ==> actions[k] == RobotWorking
    }

    constructor ()
      ensures actions == [] && Valid()
    {
      actions := [];
    }

    method Work()
      modifies this
      ensures actions == old(actions) + [RobotWorking]
      ensures old(Valid()) ==> Valid()
    {
      actions := actions + [RobotWorking];
    }

    /** Always throws; the robot's state is not touched. */
    method Eat() returns (error: NotSupported)
      ensures error == NotSupported("Robots don't eat")
    {
      error := NotSupported("Robots don't eat");
    }

    /** Always throws; the robot's state is not touched. */
    method Sleep() returns (error: NotSupported)
      ensures error == NotSupported("Robots don't sleep")
    {
      error := NotSupported("Robots don't sleep");
    }
  }

  /** The robot test: work is logged; eating and sleeping both throw and log
      nothing. */
  method RobotCannotEatOrSleep() returns (eat: NotSupported, sleep: NotSupported, log: seq<string>)
    ensures eat.message == "Robots don't eat" && sleep.message == "Robots don't sleep"
    ensures log == [RobotWorking]
  {
    var robot := new Robot();
    robot.Work();
    eat := robot.Eat();
    sleep := robot.Sleep();
    log := robot.actions;
  }
}

/** The interface-segregation example, good side: a printer that only prints, and
    a multi-function device that prints, scans and faxes, each into its own list. */
module Devices {
  import opened Text

  class SimplePrinter {
    var printedDocuments: seq<string>

    constructor ()
      ensures printedDocuments == []
    {
      printedDocuments := [];
    }

    /** The document goes at the end; earlier entries stay as they were. */
    method Print(document: string)
      modifies this
      ensures printedDocuments == old(printedDocuments) + [document]
    {
      printedDocuments := printedDocuments + [document];
    }
  }

  /** The printer test: two prints leave two entries, in call order. */
  method PrintTwice() returns (printed: seq<string>)
    ensures |printed| == 2 && printed == ["Hello", "World"]
  {
    var printer := new SimplePrinter();
    printer.Print("Hello");
    printer.Print("World");
    printed := printer.printedDocuments;
  }

  /** The name of the k-th scan: "Scanned_{k}". */
  function ScanName(k: int): (r: string)
    ensures |r| > 8 && r[..8] == "Scanned_" && r[8..] == IntToString(k)
  {
    "Scanned_" + IntToString(k)
  }

  /** Different scan numbers give different names. */
  lemma ScanNameInjective(i: int, j: int)
    requires ScanName(i) == ScanName(j)
    ensures i == j
  {
    IntToStringInjective(i, j);
  }

  /** A fax sent: the document and the number it went to. */
  datatype SentFax = SentFax(document: string, number: string)

  class MultiFunctionDevice {
    var printedDocuments: seq<string>
    var scannedDocuments: seq<string>
    var sentFaxes: seq<SentFax>

    /** The k-th entry of the scan list (from 0) is the name of scan k + 1. */
    predicate Valid()
      reads this
    {
      forall k :: 0 <= k < |scannedDocuments| ==> scannedDocuments[k] == ScanName(k + 1)
    }

    constructor ()
      ensures printedDocuments == [] && scannedDocuments == [] && sentFaxes == [] && Valid()
    {
      printedDocuments := [];
      scannedDocuments := [];
      sentFaxes := [];
    }

    /** Appends the document to the printed list only. */
    method Print(document: string)
      modifies this
      ensures printedDocuments == old(printedDocuments) + [document]
      ensures scannedDocuments == old(scannedDocuments) && sentFaxes == old(sentFaxes)
    {
      printedDocuments := printedDocuments + [document];
    }

    /** Names the scan after the count so far plus one, appends it to the scan list
        only and returns it. While the list holds only the device's own scans,
        the name is one not scanned before. */
    method Scan() returns (doc: string)
      modifies this
      ensures doc == ScanName(|old(scannedDocuments)| + 1)
      ensures scannedDocuments == old(scannedDocuments) + [doc]
      ensures printedDocuments == old(printedDocuments) && sentFaxes == old(sentFaxes)
      ensures old(Valid()) ==> Valid() && doc !in old(scannedDocuments)
    {
      doc := ScanName(|scannedDocuments| + 1);
      if Valid() && doc in scannedDocuments {
        var k :| 0 <= k < |scannedDocuments| && scannedDocuments[k] == doc;
        ScanNameInjective(k + 1, |scannedDocuments| + 1);
      }
      scannedDocuments := scannedDocuments + [doc];
    }

    /** Appends the (document, number) pair to the fax list only. */
    method Fax(document: string, number: string)
      modifies this
      ensures sentFaxes == old(sentFaxes) + [SentFax(document, number)]
      ensures printedDocuments == old(printedDocuments) && scannedDocuments == old(scannedDocuments)
    {
      sentFaxes := sentFaxes + [SentFax(document, number)];
    }
  }

  /** The scan list is public: after a caller adds the name of scan 2 to a fresh
      device's list, the device's next scan is named scan 2 again. */
  method ScanAfterCallerAdd() returns (doc: string, scanned: seq<string>)
    ensures doc == ScanName(2) && scanned == [ScanName(2), ScanName(2)]
  {
    var device := new MultiFunctionDevice();
    device.scannedDocuments := device.scannedDocuments + [ScanName(2)];
    doc := device.Scan();
    scanned := device.scannedDocuments;
  }

  /** A scan list built by successive scans never repeats a name. */
  lemma ScansDistinct(scanned: seq<string>)
    requires forall k :: 0 <= k < |scanned| ==> scanned[k] == ScanName(k + 1)
    ensures forall i, j :: 0 <= i < j < |scanned| ==> scanned[i] != scanned[j]
  {
    forall i, j | 0 <= i < j < |scanned|
      ensures scanned[i] != scanned[j]
    {
      if scanned[i] == scanned[j] {
        ScanNameInjective(i + 1, j + 1);
      }
    }
  }
}
