# Verified model of the dotnet teaching corpus

The repository is a collection of small, independent C# teaching programs and
unit tests. This project models the pieces of it that carry real sequential
logic and proves what their code and tests promise:

- **Quicksort** (`QuickSort`). The Hoare-partition `QuickSort.Sort(array,
  left, right)` runs in place on an `array<int>`. The middle element is both
  the pivot and the sentinel that keeps the two inner scans inside the range.
  The model proves the range ends sorted and holds the same elements as
  before, nothing outside the range moves, and the recursion terminates.
- **Bit-pattern texts** (`Int32Binary`, `DecimalBinary`).
  - An `int` is formatted as eight space-separated groups of four bits of its
    two's-complement pattern. The model includes the `Convert.ToInt32(s, 2)`
    parse back, with its errors.
  - A `decimal` is modelled as sign, scale and a 96-bit mantissa. Its four
    `GetBits` words (lo, mid, hi, flags) are printed hi, mid, lo, flags in
    three forms: grouped binary, plain binary and `X8` hexadecimal.
- **Memory-reservation demos** (`SizeArguments`, `PageGenerator`,
  `Allocation`).
  - The size parser, with its KB/MB/GB/TB suffixes.
  - The command-line parser of `03-Memory/ReserveMemory`.
  - The chunk plan `min(objectSize, remaining)`.
  - The page fill of every chunk from a xorshift32 generator on `bv32`, over
    an `array` of bytes, with the last byte then set to 1.
- **Invoice arithmetic** (`Invoices`, `BadInvoices`). Covers subtotal, tax
  and total, for both the calculator over the record and the all-in-one
  mutable `Invoice` class. C# `decimal` amounts are exact reals.
- **Clean-architecture order workflow** (`CleanOrders`).
  - The `Order` entity: its validation and its status.
  - A repository that keeps orders in a map keyed by id.
  - The confirmation log.
  - The `PlaceOrderUseCase` that drives them.
- **User-defined equality** (`Equality`). The `PersonB` and `PersonC` classes
  of `dotnet-training`: the reference short-cut, null handling, names, and
  hash codes.
- **SOLID examples that append to lists.**
  - `Workers`: the interface-segregation workers, where the robot refuses to
    eat and to sleep.
  - `Devices`: the printer and the multi-function device with sequential
    scan names.
  - `InvertedOrders`, `CoupledOrders`: the dependency-inversion order
    services, good and bad.

Shared pieces sit in two modules:
- `Common`: `Option`/`Result`, 32-bit integers.
- `Text`: digits in any base, padding, joining and grouping, trimming,
  integer texts and their parse.

State the source updates in place becomes a class:
- the quicksort array and the byte chunks;
- the orders, the repository and the notification logs;
- the workers, printers and devices;
- the SOLID order services.

The rest is functions and lemmas. Every loop of the source is a `while` loop
with its invariants, proved against a specification function:
- the quicksort scans and partition;
- the bit-grouping loop;
- the argument loop;
- the chunk, page and byte loops.

## Model

| member | source | states |
|---|---|---|
| QuickSort.Sort | Collection.Tests/SortImplementations/QuickSort.cs:5-25 | Afterwards `a[left..right]` is in non-decreasing order. The array holds the same multiset of elements as before. Every element outside `[left, right]` is where it was. Termination rests on both recursive ranges being strictly smaller. |
| QuickSort.Partition | Collection.Tests/SortImplementations/QuickSort.cs:7-21 | The pivot is the old middle element. On exit `left < i` and `j < right`, so both sub-ranges are strictly smaller. Everything left of `i` is at most the pivot and everything right of `j` at least the pivot. Only the range was rearranged. |
| QuickSort.ScanUp | Collection.Tests/SortImplementations/QuickSort.cs:12 | `while (array[i] < pivot) i++` stops no later than a known element that is not below the pivot, so it stays in bounds. Every element it passes is at most the pivot. |
| QuickSort.ScanDown | Collection.Tests/SortImplementations/QuickSort.cs:13 | `while (array[j] > pivot) j--` stops no earlier than a known element that is not above the pivot. Every element it passes is at least the pivot. |
| QuickSort.SwapInward | Collection.Tests/SortImplementations/QuickSort.cs:14-20 | The swap extends both bounded parts by one element. It changes only positions `i` and `j` and keeps the multiset. |
| QuickSort.SortedAfterRecursion | Collection.Tests/SortImplementations/QuickSort.cs:23-24 | A partitioned range whose two parts are then sorted in place is sorted, and is a permutation of the original range. |
| QuickSort.Midpoint | Collection.Tests/SortImplementations/QuickSort.cs:8 | The pivot index, written without overflow, lies in `[left, right]` and equals `(left + right) / 2` for non-negative bounds. |
| QuickSort.MidpointAsWrittenInRange | Collection.Tests/SortImplementations/QuickSort.cs:8 | While `left + right` fits in an `int`, the source's 32-bit `(left + right) / 2` is the exact midpoint. |
| QuickSort.MidpointAsWrittenOverflows | Collection.Tests/SortImplementations/QuickSort.cs:8 | At `left = right = 2^30`, the source's 32-bit index is `-2^30`. |
| QuickSort.SortedPermutationUnique | Sorting.Tests/QuickSortTests.cs:23-46 | Two sorted sequences with the same multiset are equal. |
| QuickSort.SortedRangeIsFixed | Sorting.Tests/QuickSortTests.cs:35-46 | A sorted permutation of an already sorted range, with nothing outside it changed, is the original array. So sorted and single-element inputs come out unchanged. |
| Int32Binary.FormatInt32AsBinary | Binary.Tests/Int32BinaryRepresentationTests.cs:100-114 | The `StringBuilder` loop (a space before every group but the first) yields the 32-bit pattern's groups of four joined by single spaces. |
| Int32Binary.PaddedBinaryIsBits32 | Binary.Tests/Int32BinaryRepresentationTests.cs:103 | `Convert.ToString(v, 2).PadLeft(32, '0')` is the 32-digit two's-complement pattern of `v`, most significant bit first. |
| Int32Binary.FormattedShape | Binary.Tests/Int32BinaryRepresentationTests.cs:105-113 | The output has 39 characters. A space sits at a position if and only if it is 4 mod 5, and every other position holds the matching pattern bit. So there is no space at either end. |
| Int32Binary.GroupedShape | Binary.Tests/Int32BinaryTests.cs:56-64 | Any 32-digit binary text, grouped, has 39 characters, with spaces exactly at the positions 4 mod 5. |
| Int32Binary.SpacesRemovedIsBits32 | Binary.Tests/Int32BinaryRepresentationTests.cs:122 | With its spaces removed, the output is exactly the 32-bit pattern. |
| Int32Binary.GroupedSpacesRemoved | Binary.Tests/Int32BinaryTests.cs:73 | Removing the spaces from a grouped 32-digit binary text gives the text back. |
| Int32Binary.RoundTrip | Binary.Tests/Int32BinaryRepresentationTests.cs:35-37 | `ConvertBinaryStringToInt32(FormatInt32AsBinary(v)) == v` for every `int`. |
| Int32Binary.ParseThenFormat | Binary.Tests/Int32BinaryTests.cs:70-75 | Every 32-digit binary pattern parses, when grouped, to the one `int` whose pattern it is. The parse inverts the formatter on its whole range. |
| Int32Binary.ConvertSignErrors | Binary.Tests/Int32BinaryRepresentationTests.cs:123 | An empty string is rejected. A `-` followed by any text without spaces is rejected, because a sign is only allowed in base 10. |
| Int32Binary.ConvertNoDigits | Binary.Tests/Int32BinaryRepresentationTests.cs:123 | A lone `+`, or a `2` followed by binary digits, gives the no-digits format error. |
| Int32Binary.ConvertTrailingJunk | Binary.Tests/Int32BinaryRepresentationTests.cs:123 | Between 1 and 32 binary digits followed by a `2` give the trailing-junk format error. |
| Int32Binary.ConvertOverflow | Binary.Tests/Int32BinaryRepresentationTests.cs:123 | 33 binary digits worth `2^32` overflow. |
| Int32Binary.PowersOfTwo | Binary.Tests/Int32BinaryRepresentationTests.cs:12-24 | For `k < 31`, `2^k` has exactly one 1 bit, at index `31 - k`. |
| Int32Binary.PowerOfTwoBits | Binary.Tests/Int32BinaryTests.cs:12-21 | `2^k` in `width` binary digits is zeros, a single 1 at `k` places from the right, then zeros. |
| Int32Binary.Zero | Binary.Tests/Int32BinaryRepresentationTests.cs:41-53 | Zero gives 32 zeros, so the output is `0000` in every group. |
| Int32Binary.MinusOne | Binary.Tests/Int32BinaryRepresentationTests.cs:83-95 | -1 gives all 32 bits set, so the output is `1111` in every group. |
| Int32Binary.MinAndMaxValue | Binary.Tests/Int32BinaryTests.cs:33-39 | `int.MinValue` is a 1 and 31 zeros and `int.MaxValue` a 0 and 31 ones. Every bit of one is the flipped bit of the other. |
| DecimalBinary.GetBits | GetDecimalBinaryValues.cs:34-40 | lo, mid and hi spell the 96-bit mantissa little-endian. Flags holds the scale in bits 16 to 23 and the sign in bit 31. |
| DecimalBinary.FromBits | GetDecimalBinaryValues.cs:36-40 | The inverse of `GetBits`: a word array is accepted if and only if its flags have only scale and sign bits, with a scale of at most 28. It then gives a valid decimal. |
| DecimalBinary.GetBitsRoundTrip | GetDecimalBinaryValues.cs:34-40 | The words of every decimal are accepted and give the decimal back. |
| DecimalBinary.FromBitsRoundTrip | GetDecimalBinaryValues.cs:36-40 | Every accepted word array is the array of the decimal it makes. Decimals and valid word arrays correspond one to one. |
| DecimalBinary.SignAndScaleInFlags | GetDecimalBinaryValues.cs:36 | Sign and scale live only in the flags word. Changing them leaves lo, mid and hi alone, and the mantissa never reaches flags. |
| DecimalBinary.WordTextsArePadded | GetDecimalBinaryValues.cs:43-46 | `Convert.ToString(w, 2).PadLeft(32, '0')` is the 32-digit base-2 value of the word. `w.ToString("X8")` is its 8-digit hexadecimal value. |
| DecimalBinary.Lengths | GetDecimalBinaryValues.cs:49-54 | The grouped form has 159 characters (4 x 39 + 3), the plain binary form 131 and the hexadecimal form 35, for every decimal. |
| DecimalBinary.GroupedSpacesRemoved | GetDecimalBinaryValues.cs:49-54 | Without its spaces, the grouped text is the 128-bit pattern hi, mid, lo, flags. |
| DecimalBinary.GroupedRoundTrip | GetDecimalBinaryValues.cs:43-54 | The grouped text decodes back to the four words. |
| DecimalBinary.PlainRoundTrip | 01-DataTypes/Binary.Tests/DecimalBinaryTests.cs:49-55 | The plain binary text (four 32-digit words hi, mid, lo, flags) decodes back to the four words. |
| DecimalBinary.HexRoundTrip | Binary.Tests/DecimalBinaryRepresentationTests.cs:74 | Each `X8` word of the hexadecimal text decodes back to its `uint`, in the order hi, mid, lo, flags. |
| DecimalBinary.FormatsInjective | Binary.Tests/DecimalBinaryRepresentationTests.cs:62-75 | Two decimals print alike in any of the three forms if and only if they have the same representation: sign, scale and mantissa. So 1.0m and 1.00m print differently. |
| DecimalBinary.NegationFlipsSignBit | 01-DataTypes/Binary.Tests/DecimalBinaryTests.cs:18-21 | Negating a decimal changes exactly one character of the plain text: position 99, the flags word's first bit, which is `1` when negative. |
| DecimalBinary.TestValues | 01-DataTypes/Binary.Tests/DecimalBinaryTests.cs:14-30 | The words of the tests' values. 0, 1, 10 and 100 fill lo only. -1 adds the sign bit. MaxValue and MinValue fill all 96 mantissa bits. 1.5, 1.25 and 1.125 are lo 15, 125 and 1125 with scale 1, 2 and 3. |
| DecimalBinary.TestHexWords | Binary.Tests/DecimalBinaryRepresentationTests.cs:74 | The word 10 prints as `0000000A` under `X8`. |
| PageGenerator.XorShift | 03-Memory/ReserveMemory/Program.cs:104 | One xorshift32 step (`<<13`, `>>17`, `<<5` on a `uint`) is zero if and only if its input is, so the generator never reaches its fixed point. |
| PageGenerator.StateAt | 03-Memory/ReserveMemory/Program.cs:99-104 | The state of every page, i.e. the seed advanced once per page, is non-zero. |
| Allocation.PageByte | 03-Memory/ReserveMemory/Program.cs:110 | `(byte)(x + (uint)k)` is the exact sum modulo 256, despite the 32-bit wrap-around. |
| Allocation.FillPage | 03-Memory/ReserveMemory/Program.cs:106-111 | The inner loop writes each byte of the page from its state and offset. Bytes after the page are untouched. |
| Allocation.FillChunk | 03-Memory/ReserveMemory/Program.cs:99-115 | After the page loop and the last-byte store, the chunk holds exactly the pattern `ChunkByte` describes. The generator is reseeded for each chunk and advanced once per page. |
| Allocation.ChunkPlanShape | 03-Memory/ReserveMemory/Program.cs:90-93 | The chunks `min(objectSize, remaining)` add up exactly to the request. Each holds between 1 and `objectSize` bytes, and all but the last are exactly `objectSize`. |
| Allocation.ChunkPlanExact | DataTypes/Program.cs:32-33 | A request of `count` times the chunk size is `count` full chunks. |
| Allocation.Allocate | 03-Memory/ReserveMemory/Program.cs:90-121 | The allocation loop ends with the running total equal to the request. It holds fresh chunks whose lengths are the chunk plan, each filled as `FillChunk` says. |
| Allocation.FixedChunkRequest | ReserveMemory/Program.cs:24-35 | The one-pass programs stop without an argument. Otherwise the request is the size of the first argument alone, trimmed. |
| Allocation.TrimBeforeRedundantAt | DataTypes/Program.cs:14-15 | Trimming `args[0]` before `TryParseSize`, which trims again, changes nothing. |
| Allocation.ZeroRequestAllocatesNothing | ReserveMemory/Program.cs:30-54 | A zero request, with or without a suffix, is accepted (there is no minimum) and its plan has no chunk. |
| Allocation.ReadFixedRequest | DataTypes/Program.cs:8-19 | The argument checks of the one-pass programs succeed if and only if the first argument parses. They then return its size. |
| Allocation.ReserveFixed | ReserveMemory/Program.cs:22-80 | Without a parseable first argument nothing is allocated. Otherwise the total equals the request, in fixed 100 MiB chunks, each one filled. |
| Allocation.ReserveMemoryMain | 03-Memory/ReserveMemory/Program.cs:24-122 | Usage or a failed parse allocates nothing. Otherwise there is one allocation pass per iteration, at least one, and the chunks held are the plan for the requested total and object size. |
| Allocation.NextPageStart32 | 03-Memory/ReserveMemory/Program.cs:101-106 | The source's `i + page` on `int`: the exact sum while it fits, the sum minus `2^32` beyond `int.MaxValue`. |
| Allocation.FillIndexOverflows | 03-Memory/ReserveMemory/Program.cs:101-107 | For a 2147483591-byte chunk and 4096-byte pages, the last page starts at 2147479552. There `i + page` wraps negative, so that page's bytes are not written and the page index turns negative. |
| SizeArguments.UnitOf | 03-Memory/ReserveMemory/Program.cs:379-382 | The suffix test picks the unit whose two-letter suffix the text ends with. The four suffixes exclude one another, so the order of the tests does not matter. |
| SizeArguments.TryParseSize | 03-Memory/ReserveMemory/Program.cs:370-392 | Succeeds if and only if the trimmed, upper-cased text is an integer numeral plus at most one suffix, whose scaled value is non-negative and fits a `long`. It then returns that value. |
| SizeArguments.ScaleIsProduct | 03-Memory/ReserveMemory/Program.cs:376-388 | The scaled value is the numeral times the unit's factor: 1, `2^10`, `2^20`, `2^30` or `2^40`. |
| SizeArguments.SizeOfNumeral | ReserveMemory/Program.cs:95-117 | Any integer followed by a suffix, in either case, or by none is read as that integer times the suffix's factor. Negative numbers and products beyond a `long` are rejected. |
| SizeArguments.TrimBeforeIsRedundant | ReserveMemory/Program.cs:30-31 | `TryParseSize(s.Trim())` and `TryParseSize(s)` agree. |
| SizeArguments.TryParseArguments | 03-Memory/ReserveMemory/Program.cs:197-277 | The loop over the arguments, with its skipping of option values, computes the scan of the whole argument list followed by the final size checks. |
| SizeArguments.ParsedBounds | 03-Memory/ReserveMemory/Program.cs:223-274 | A successful parse has a total of at least 1024 bytes that fits a `long`, an object size in `[1, int.MaxValue]` and at least one iteration. |
| SizeArguments.ObjectSizeOption | 03-Memory/ReserveMemory/Program.cs:207-231 | `--objectSize`/`-o` with no value fails. With a value, it fails on an unparseable size or one outside `[1, int.MaxValue]`, and otherwise sets the object size and consumes the value. |
| SizeArguments.IterateOption | 03-Memory/ReserveMemory/Program.cs:232-247 | `--iterate`/`-i` with no value fails. With a value, it fails unless the value is an `int` of at least 1, and otherwise sets the count and consumes the value. |
| SizeArguments.LastSizeArgumentWins | 03-Memory/ReserveMemory/Program.cs:248-251 | An argument not starting with `-` becomes the size argument and replaces any earlier one, leaving the options as they were. |
| SizeArguments.UnknownDashArgumentIgnored | 03-Memory/ReserveMemory/Program.cs:205-252 | An unknown argument starting with `-` changes nothing. |
| SizeArguments.SizeArgumentAlone | 03-Memory/ReserveMemory/Program.cs:199-276 | A lone size argument gets the defaults: 100 MiB objects, one iteration. It fails on an unparseable size or one below 1 KiB. |
| SizeArguments.DashArgumentsKeepScan | 03-Memory/ReserveMemory/Program.cs:205-252 | Arguments that all start with `-` and are neither `--objectSize`/`-o` nor `--iterate`/`-i` are passed over: the scan ends in the state it started from. |
| SizeArguments.NoSizeArgument | 03-Memory/ReserveMemory/Program.cs:203-260 | When every argument starts with `-` and none is an option flag (no arguments at all included), the parse fails with the missing-size error. |
| SizeArguments.NoSizeArgumentExamples | 03-Memory/ReserveMemory/Program.cs:254-260 | No arguments, and the single argument `-x`, both fail with the missing-size error. |
| SizeArguments.RunningCommandBounds | 03-Memory/ReserveMemory/Program.cs:26-36 | A command line that runs has a first argument that is no help word, at least 1 KiB to allocate that fits a `long`, an object size in `[1, int.MaxValue]` and at least one iteration. |
| SizeArguments.HelpStops | 03-Memory/ReserveMemory/Program.cs:26-30 | A help word first stops the program whatever follows, and so does an empty command line. |
| SizeArguments.HeapOfSizes | 03-Memory/ReserveMemory/Program.cs:46 | The default 100 MiB object size is on the large object heap. 80 KiB is not and 100 KiB is, as the usage examples say. |
| Text.Trim | 03-Memory/ReserveMemory/Program.cs:373 | The trimmed text is no longer than the input and neither starts nor ends with white space. A text with no white space at either end is its own trim. |
| Text.TrimStart | 03-Memory/ReserveMemory/Program.cs:373 | The first half of `Trim`. The result is a suffix of the input that does not start with white space, and every character cut off is white space. |
| Text.TrimEnd | 03-Memory/ReserveMemory/Program.cs:373 | The second half of `Trim`. The result is a prefix of the input that does not end with white space, and every character cut off is white space. |
| Text.TrimIdempotent | DataTypes/Program.cs:74 | Trimming a trimmed text changes nothing. |
| Text.ToUpperChangesOnlyLowerCase | 03-Memory/ReserveMemory/Program.cs:374 | Upper-casing changes a character if and only if it is a lower-case ASCII letter, and leaves no lower-case ASCII letter behind. |
| Text.ToUpperIdempotent | 03-Memory/ReserveMemory/Program.cs:374 | Upper-casing an upper-cased text changes nothing. |
| Text.PadLeft | GetDecimalBinaryValues.cs:43-46 | `PadLeft(width, c)` ends with the input, is filled with `c` in front, and is `width` long unless the input is longer. |
| Text.ParseIntegerRoundTrip | 03-Memory/ReserveMemory/Program.cs:384-385 | The integer parse reads the text of any integer back as that integer. |
| Text.ParseInt32Text | 03-Memory/ReserveMemory/Program.cs:240 | `int.TryParse` on the text of any integer gives that integer back if it lies in the 32-bit range, and fails otherwise. |
| Invoices.CalculateTotal | 04-SOLID/01-SingleResponsibilityPrinciple/GoodExample/InvoiceCalculator.cs:19-22 | The total, subtotal plus tax, equals `subtotal * (1 + TaxRate)`. |
| Invoices.EmptyInvoice | 04-SOLID/01-SingleResponsibilityPrinciple/GoodExample/InvoiceCalculator.cs:9-22 | With no items, subtotal, tax and total are all 0, whatever the rate. |
| Invoices.SumAppend | 04-SOLID/01-SingleResponsibilityPrinciple/GoodExample/InvoiceCalculator.cs:11 | The subtotal of two item lists laid end to end is the sum of their subtotals. |
| Invoices.SumOrderIndependent | 04-SOLID/01-SingleResponsibilityPrinciple/GoodExample/InvoiceCalculator.cs:11 | Any rearrangement of the items (same multiset) has the same subtotal. |
| Invoices.CalculatorExamples | 04-SOLID/01-SingleResponsibilityPrinciple/SingleResponsibilityTests.cs:57-70 | 2 x 10.00 + 1 x 25.00 at 0.19 gives 45.00, 8.55 and 53.55. 1 x 50.00 at 0.20 totals 60.00. |
| Invoices.DefaultRate | 04-SOLID/01-SingleResponsibilityPrinciple/GoodExample/Invoice.cs:6-10 | A record built without a rate is taxed at 0.19. |
| BadInvoices.Invoice.constructor | 04-SOLID/01-SingleResponsibilityPrinciple/BadExample/Invoice.cs:11-13 | A new invoice has an empty customer name, no items and the 0.19 rate. |
| BadInvoices.Invoice.CalculateSubtotal | 04-SOLID/01-SingleResponsibilityPrinciple/BadExample/Invoice.cs:16-19 | It changes nothing and gives the calculator's subtotal for the same data. |
| BadInvoices.Invoice.CalculateTax | 04-SOLID/01-SingleResponsibilityPrinciple/BadExample/Invoice.cs:21-24 | It changes nothing and gives the calculator's tax for the same data. |
| BadInvoices.Invoice.CalculateTotal | 04-SOLID/01-SingleResponsibilityPrinciple/BadExample/Invoice.cs:26-29 | It changes nothing and gives the calculator's total, `Sum(items) * (1 + TaxRate)`. |
| BadInvoices.BadExampleFigures | 04-SOLID/01-SingleResponsibilityPrinciple/SingleResponsibilityTests.cs:14-27 | The invoice filled in after construction gives 45.00, 8.55 and 53.55. |
| CleanOrders.Order.constructor | 05-CleanArchitecture/CleanArchitecture-Simple/Domain/Order.cs:11-20 | A validated order has the given id, product and quantity and starts Pending. |
| CleanOrders.Order.New | 05-CleanArchitecture/CleanArchitecture-Simple/Domain/Order.cs:11-20 | `new Order(product, quantity)` throws exactly when validation fails, with the error it names. Otherwise it gives a fresh Pending order with those fields. |
| CleanOrders.Order.Confirm | 05-CleanArchitecture/CleanArchitecture-Simple/Domain/Order.cs:22 | From any status, the status becomes Confirmed. Id, product and quantity are constants. |
| CleanOrders.Order.Ship | 05-CleanArchitecture/CleanArchitecture-Simple/Domain/Order.cs:23 | From any status, the status becomes Shipped. |
| CleanOrders.GuidText | 05-CleanArchitecture/CleanArchitecture-Simple/Infrastructure/SqlOrderRepository.cs:26 | A `Guid`'s text has 36 characters, with hyphens at 8, 13, 18 and 23. |
| CleanOrders.GuidTextInjective | 05-CleanArchitecture/CleanArchitecture-Simple/Infrastructure/SqlOrderRepository.cs:26 | Different ids have different texts. |
| CleanOrders.InMemoryOrderRepository.constructor | 05-CleanArchitecture/CleanArchitecture-Simple/Infrastructure/SqlOrderRepository.cs:11 | The repository starts empty. |
| CleanOrders.InMemoryOrderRepository.Save | 05-CleanArchitecture/CleanArchitecture-Simple/Infrastructure/SqlOrderRepository.cs:13 | The order is filed under its id, replacing any earlier one, and no other key changes. Every order stays filed under its own id. |
| CleanOrders.InMemoryOrderRepository.GetById | 05-CleanArchitecture/CleanArchitecture-Simple/Infrastructure/SqlOrderRepository.cs:14 | It returns the filed order if and only if the id is present (`null` otherwise), and that order has this id. |
| CleanOrders.InMemoryOrderRepository.GetAll | 05-CleanArchitecture/CleanArchitecture-Simple/Infrastructure/SqlOrderRepository.cs:17 | It returns one entry per filed id: as many as the map holds, each a filed order, no id twice, and every filed order present. |
| CleanOrders.ConfirmationTextInjective | 05-CleanArchitecture/CleanArchitecture-Simple/Infrastructure/SqlOrderRepository.cs:26 | `"Order {Id}: {Product} x {Quantity}"` determines the id, the product and the quantity. |
| CleanOrders.EmailNotificationService.constructor | 05-CleanArchitecture/CleanArchitecture-Simple/Infrastructure/SqlOrderRepository.cs:22 | The notification log starts empty. |
| CleanOrders.EmailNotificationService.SendOrderConfirmation | 05-CleanArchitecture/CleanArchitecture-Simple/Infrastructure/SqlOrderRepository.cs:24-27 | Exactly the order's confirmation text is appended. Earlier entries stay as they were. |
| CleanOrders.PlaceOrderUseCase.constructor | 05-CleanArchitecture/CleanArchitecture-Simple/Application/PlaceOrderUseCase.cs:9 | The use case keeps the repository and notification service it is given. |
| CleanOrders.PlaceOrderUseCase.Execute | 05-CleanArchitecture/CleanArchitecture-Simple/Application/PlaceOrderUseCase.cs:11-20 | An invalid product or quantity fails with nothing saved or sent. Otherwise the result is a fresh Confirmed order with the requested fields, filed under its id (nothing else changes), and exactly one confirmation is appended. |
| CleanOrders.DomainOrderConfirms | 05-CleanArchitecture/CleanArchitecture-Simple/CleanArchitectureTests.cs:11-20 | A Widget order, once confirmed, is Confirmed and keeps its product. |
| CleanOrders.PlaceOneOrder | 05-CleanArchitecture/CleanArchitecture-Simple/CleanArchitectureTests.cs:23-35 | On fresh infrastructure, one execution gives a Confirmed order, one filed order and one notification. |
| Equality.PersonBEqualsIff | dotnet-training/Program.cs:129-132 | `b.Equals(other)` holds if and only if other is a non-null PersonB with the same Name. |
| Equality.PersonBEqualsOnlyPersonB | dotnet-training/Program.cs:131 | Nothing that is not a PersonB, null included, equals a PersonB. |
| Equality.PersonBEquivalence | dotnet-training/Program.cs:129-132 | On persons, `Equals` is reflexive, symmetric and transitive. |
| Equality.PersonBHashConsistent | dotnet-training/Program.cs:134 | Equal PersonBs have equal hash codes, or both throw. |
| Equality.NotEqByName | dotnet-training/Program.cs:142-149 | `!=` holds if and only if exactly one side is null, or both are persons with different Names. It is irreflexive and symmetric. |
| Equality.EqByName | dotnet-training/Program.cs:142-147 | `==` holds if and only if both are null, or both are non-null with equal Names. |
| Equality.EqNulls | dotnet-training/Program.cs:144-145 | The same reference, both null included, is equal. Exactly one null side is never equal. |
| Equality.EqEquivalence | dotnet-training/Program.cs:142-147 | `==` is reflexive, symmetric and transitive on PersonC references, null included. |
| Equality.PersonCEqualsIff | dotnet-training/Program.cs:151 | `c.Equals(obj)` holds if and only if obj is a PersonC with the same Name, i.e. `this == obj`. |
| Equality.PersonCHashConsistent | dotnet-training/Program.cs:153 | Persons equal under `==` have equal hash codes. |
| Equality.AliceExamples | dotnet-training/Program.cs:78-89 | Two different objects named Alice are equal under PersonB's `Equals` and under PersonC's `==` and `Equals`. |
| Workers.Human.constructor | 04-SOLID/04-InterfaceSegregationPrinciple/BadExample/IWorker.cs:12 | A human's action list starts empty. |
| Workers.Human.Work | 04-SOLID/04-InterfaceSegregationPrinciple/BadExample/IWorker.cs:14 | It appends exactly "Human working" to whatever list it finds. If the list held only human actions before, it still does. |
| Workers.Human.Eat | 04-SOLID/04-InterfaceSegregationPrinciple/BadExample/IWorker.cs:15 | It appends exactly "Human eating" to whatever list it finds. If the list held only human actions before, it still does. |
| Workers.Human.Sleep | 04-SOLID/04-InterfaceSegregationPrinciple/BadExample/IWorker.cs:16 | It appends exactly "Human sleeping" to whatever list it finds. If the list held only human actions before, it still does. |
| Workers.Robot.constructor | 04-SOLID/04-InterfaceSegregationPrinciple/BadExample/IWorker.cs:21 | A robot's action list starts empty. |
| Workers.Robot.Work | 04-SOLID/04-InterfaceSegregationPrinciple/BadExample/IWorker.cs:23 | It appends exactly "Robot working" to whatever list it finds. If the list held only work before, it still does. |
| Workers.Robot.Eat | 04-SOLID/04-InterfaceSegregationPrinciple/BadExample/IWorker.cs:26 | It always fails with NotSupported("Robots don't eat") and changes nothing. |
| Workers.Robot.Sleep | 04-SOLID/04-InterfaceSegregationPrinciple/BadExample/IWorker.cs:27 | It always fails with NotSupported("Robots don't sleep") and changes nothing. |
| Workers.RobotCannotEatOrSleep | 04-SOLID/04-InterfaceSegregationPrinciple/InterfaceSegregationTests.cs:11-17 | After working, eating and sleeping, the robot has logged only its work, and both refusals carry their messages. |
| Devices.SimplePrinter.constructor | 04-SOLID/04-InterfaceSegregationPrinciple/GoodExample/SimplePrinter.cs:5 | The printed list starts empty. |
| Devices.SimplePrinter.Print | 04-SOLID/04-InterfaceSegregationPrinciple/GoodExample/SimplePrinter.cs:7 | The document is appended at the end, and earlier entries are untouched. |
| Devices.PrintTwice | 04-SOLID/04-InterfaceSegregationPrinciple/InterfaceSegregationTests.cs:23-28 | Two prints leave two entries, in call order. |
| Devices.ScanNameInjective | 04-SOLID/04-InterfaceSegregationPrinciple/GoodExample/MultiFunctionDevice.cs:13 | Different scan numbers give different names. |
| Devices.MultiFunctionDevice.constructor | 04-SOLID/04-InterfaceSegregationPrinciple/GoodExample/MultiFunctionDevice.cs:5-7 | All three lists start empty. |
| Devices.MultiFunctionDevice.Print | 04-SOLID/04-InterfaceSegregationPrinciple/GoodExample/MultiFunctionDevice.cs:9 | The document is appended to the printed list only. |
| Devices.MultiFunctionDevice.Scan | 04-SOLID/04-InterfaceSegregationPrinciple/GoodExample/MultiFunctionDevice.cs:11-16 | From any state, it returns `Scanned_{count + 1}` and appends it to the scan list only. If the list held only the device's own scans (scan k + 1 at index k), it still does, and the new name was not scanned before. |
| Devices.ScanAfterCallerAdd | 04-SOLID/04-InterfaceSegregationPrinciple/GoodExample/MultiFunctionDevice.cs:6-16 | The lists are public. After a caller adds `Scanned_2` to a fresh device's list, the next scan returns `Scanned_2` again, and the list holds it twice. |
| Devices.MultiFunctionDevice.Fax | 04-SOLID/04-InterfaceSegregationPrinciple/GoodExample/MultiFunctionDevice.cs:18 | The (document, number) pair is appended to the fax list only. |
| Devices.ScansDistinct | 04-SOLID/04-InterfaceSegregationPrinciple/GoodExample/MultiFunctionDevice.cs:13-14 | The scan list a device builds never repeats a name. |
| InvertedOrders.OrderRecordInjective | 04-SOLID/05-DependencyInversionPrinciple/GoodExample/OrderService.cs:7 | `"Order: {product} x {quantity}"` determines the product and the quantity. |
| InvertedOrders.SqlOrderRepository.constructor | 04-SOLID/05-DependencyInversionPrinciple/GoodExample/Implementations.cs:5 | The saved list starts empty. |
| InvertedOrders.SqlOrderRepository.Save | 04-SOLID/05-DependencyInversionPrinciple/GoodExample/Implementations.cs:6 | The record is appended verbatim, one entry per call. |
| InvertedOrders.EmailNotificationService.constructor | 04-SOLID/05-DependencyInversionPrinciple/GoodExample/Implementations.cs:11 | The e-mail log starts empty. |
| InvertedOrders.EmailNotificationService.Notify | 04-SOLID/05-DependencyInversionPrinciple/GoodExample/Implementations.cs:12 | The message is appended verbatim. |
| InvertedOrders.SmsNotificationService.constructor | 04-SOLID/05-DependencyInversionPrinciple/GoodExample/Implementations.cs:18 | The SMS log starts empty. |
| InvertedOrders.SmsNotificationService.Notify | 04-SOLID/05-DependencyInversionPrinciple/GoodExample/Implementations.cs:19 | `"SMS: " + message` is appended. |
| InvertedOrders.OrderService.constructor | 04-SOLID/05-DependencyInversionPrinciple/GoodExample/OrderService.cs:3 | The service keeps the repository and notifier it is given. |
| InvertedOrders.OrderService.PlaceOrder | 04-SOLID/05-DependencyInversionPrinciple/GoodExample/OrderService.cs:5-9 | One call saves exactly `"Order: {product} x {quantity}"`. It also adds exactly the notifier's entry for `"Order placed: {product}"`: the message itself for e-mail, with the `SMS: ` prefix for SMS. |
| InvertedOrders.SwapNotifier | 04-SOLID/05-DependencyInversionPrinciple/DependencyInversionTests.cs:24-43 | One order by e-mail and one by SMS on the same repository. The result is two records, in order, one e-mail, and one SMS that starts with `SMS:`. |
| CoupledOrders.SqlDatabase.constructor | 04-SOLID/05-DependencyInversionPrinciple/BadExample/OrderService.cs:18 | The saved list starts empty. |
| CoupledOrders.SqlDatabase.Save | 04-SOLID/05-DependencyInversionPrinciple/BadExample/OrderService.cs:19 | The data is appended verbatim. |
| CoupledOrders.EmailSender.constructor | 04-SOLID/05-DependencyInversionPrinciple/BadExample/OrderService.cs:24 | The sent list starts empty. |
| CoupledOrders.EmailSender.Send | 04-SOLID/05-DependencyInversionPrinciple/BadExample/OrderService.cs:25 | The message is appended verbatim. |
| CoupledOrders.OrderService.constructor | 04-SOLID/05-DependencyInversionPrinciple/BadExample/OrderService.cs:6-7 | A new service owns a new, empty database and e-mail sender. |
| CoupledOrders.OrderService.PlaceOrder | 04-SOLID/05-DependencyInversionPrinciple/BadExample/OrderService.cs:9-13 | One call adds exactly one record and one e-mail, with the same texts as the good example. |
| CoupledOrders.PlaceOneOrder | 04-SOLID/05-DependencyInversionPrinciple/DependencyInversionTests.cs:9-21 | A fresh service placing one order holds exactly one record and one e-mail. |

## Left out

- **Console and runtime plumbing in the memory demos.** Left out:
  - all Spectre.Console and `Console` output and `Console.ReadLine`;
  - `PrintUsage`, `PrintMemoryStats` and `PrintGCActivity`;
  - `GCSettings`, `GC.CollectionCount` and the `OutOfMemoryException` handler;
  - the `hold.Clear()` between iterations, whose effect is garbage-collector behaviour.

  `Environment.SystemPageSize` is a positive parameter `page`.
- `FormatBytes` is floating-point display and is not modelled.
- SizeArguments.TryParseSize and SizeArguments.SizeOf: the numeric part is read as an integer, `[white][sign]digits[white]`. Left out of `double.TryParse` with `NumberStyles.Float`:
  - decimal points, exponents, `Infinity` and `NaN`;
  - the rounding of integers above 2^53 to the nearest `double`;
  - the rounding of `(long)(value * factor)`.

  A product beyond `long.MaxValue` counts as rejected. The runtime's saturating or wrapping conversion is not modelled.
- Text.ToUpper: only the ASCII letters are mapped. `ToUpperInvariant` also maps other letters, none of them to a suffix letter.
- SizeArguments.UnitOf: the suffix tests `EndsWith("KB")` and `StartsWith("-")` are modelled as ordinal comparisons. The culture-sensitive comparison the source's overloads use (which ignores some zero-width characters) is not modelled.
- Allocation.ReserveMemoryMain: the iteration counter is an unbounded integer. At `--iterate 2147483647` the source's `iteration++` wraps past `int.MaxValue` and its loop never ends, which the model does not show.
- Allocation.Allocate: the `(int)` cast of `Math.Min(objectSize, remaining)` is not written out, because the chunk is at most `objectSize`, itself at most `int.MaxValue`. The page index is an unbounded integer here: its 32-bit wrap-around is the finding below.
- `Guid.NewGuid` is an id parameter of `Order.New` and `PlaceOrderUseCase.Execute`. A `Guid` is its 128-bit number, written as the 32 lower-case hexadecimal digits of `ToString()`. The byte order inside the runtime's struct is not modelled.
- `string.GetHashCode` is randomised per process. It is the function parameter `hash` of both `GetHashCode` members.
- **Interfaces.** The interfaces `IOrderRepository` and `INotificationService` (clean architecture), and `IWorker`, `IPrinter`, `IScanner` and `IFax`, carry no behaviour. Classes take the concrete implementations:
  - The dependency-inversion `INotificationService` is the datatype `Notifier` over its two implementations.
  - The clean-architecture use case takes the in-memory repository and the e-mail service.
- InvertedOrders.OrderService.PlaceOrder and CoupledOrders.OrderService.PlaceOrder: the source saves the record before it sends the notification. The two logs are separate objects, so that order is not observable in the final state, and the postconditions state only the final state.
- InvertedOrders.OrderRecord, CleanOrders.ConfirmationText and Devices.ScanName: integers are written in the invariant-culture form, an ASCII `-` followed by ASCII digits. C#'s `{int}` interpolation uses the current culture, and some cultures write the minus sign as U+2212; that is not modelled.
- Text.Trim: its own contract does not say the result is a slice of the input. That only white space is cut from each end is stated by `TrimStart` and `TrimEnd`, whose composition `Trim` is.
- CleanOrders.PlaceOrderUseCase.Execute: the ordering "saved before notified" is not observable in the final state, so the postcondition states only the final state.
- CleanOrders.InMemoryOrderRepository.GetAll: `_orders.Values.ToList()` is a loop over the keys here. The order of the list follows the dictionary's enumeration, which is left unspecified.
- `OrderController` is a mapping adapter with no logic and is not modelled.
- Invoices.CalculateTotal: amounts are exact reals. C# `decimal`'s rounding to 28-29 significant digits and its `OverflowException` are not modelled.
- The PDF export and printing of invoices (`ExportToPdf`, `Print`, `InvoicePrinter`, `InvoicePdfExporter`) depend on culture-specific currency formatting and are not modelled.
- **Test literals not encoded.**
  - The expected strings in `Binary.Tests/DecimalBinaryRepresentationTests.cs` (lines 13-55) come in two shapes. Most are sixteen 4-digit groups. The `decimal.MaxValue` and `decimal.MinValue` strings (lines 34 and 40) are eight 8-digit groups.
  - Neither shape matches the helper's `X8` output at line 74, which is four 8-digit words of 35 characters in all. The model proves that output form instead.
  - The "159 characters" comment at `01-DataTypes/Binary.Tests/DecimalBinaryTests.cs:27` is not followed. That helper produces 131 characters, as `DecimalBinary.Lengths` states. The 159 belongs to the grouped form of `GetDecimalBinaryValues.cs`.
- DecimalBinary.TestValues: only the words are stated. The literal 131-character strings of the tests follow from them through `DecimalBinary.WordTextsArePadded` and are not spelled out.
- **Out of scope.**
  - Bubble sort: its implementation is not part of this model.
  - The timing tests.
  - The shape and area code of the open-closed examples.
  - The Liskov, record, boxing and `List<T>` growth tests.

## Findings

| source | as written | input that shows it | evidently intended | confidence | as-written member | corrected member |
|---|---|---|---|---|---|---|
| Collection.Tests/SortImplementations/QuickSort.cs:8 | `int pivot = array[(left + right) / 2]` adds the bounds in 32-bit `int` | `Sort(a, 1073741824, 1073741824)` on an array of more than 2^30 elements: the sum wraps to `int.MinValue` and the index is -1073741824 | the midpoint `left + (right - left) / 2`, which stays in `[left, right]` | not executed | QuickSort.MidpointAsWrittenOverflows | QuickSort.Midpoint |
| 03-Memory/ReserveMemory/Program.cs:101-106 | the page index `i` and `i + page` are `int` | `ReserveMemory 2GB -o 2147483591` with 4096-byte pages: the last page of the first chunk starts at 2147479552, `i + page` wraps negative, that page is skipped and the next inner loop indexes the chunk at a negative position | every page of the chunk filled, with the index computed without wrap-around | not executed | Allocation.FillIndexOverflows | Allocation.FillChunk |
