# Vending machine service: a Dafny model

This project models the core of a Spring vending machine application: the
vending service (`VendingMachineServiceImpl`) and the in-memory snack store
it runs against (the anonymous `VendingMachineDao` of the service's test
class).

The service does four kinds of work:

- It adds, removes and edits snacks in the store.
- It sells a snack one item at a time. A sale of the last item removes the
  snack.
- It validates menu input: a snack number, a snack name, a selection and a
  file name.
- It handles money. It sums the inserted coins, checks them against a
  price, and hands back change greedily: TWOPOUND first, then POUND,
  FIFTYPENCE, TWENTYPENCE, TENPENCE, FIVEPENCE, TWOPENCE and PENNY.

Adding a snack, removing or editing a snack that exists, and every sale
append one line to an audit trail. Removing or editing a number with no
snack, loading and saving log nothing.

The store keeps a map from slot number to snack and a counter, `index`.
Adding a snack stores it under `index + 1`, which becomes the new `index`;
a load sets `index` to one past the number of lines read. The store reads
and writes its stock as one line per snack, `name::count::price`. Loading
numbers the lines from 1 and drops snacks with no items left. Saving
writes only the snacks that have items left.

Modules:

- `Snacks` (snacks.dfy): the `Snack` record, Java `int` as `Int32`, and
  `Option`.
- `Money` (money.dfy): coins and their values in pence, `FundsValue`,
  `SufficientFunds`, `GetChangeCoins` and `GetChange`. A reference
  definition `Greedy` specifies greedy change, and lemmas state what greedy
  change guarantees.
- `Codec` (codec.dfy): the store's line format, written out over strings.
  It covers Java's `String.split("::")`, `Integer.parseInt` and
  `Integer.toString`, and the text of a `BigDecimal` price, with the round
  trip `Unmarshall(Marshall(s)) == Some(s)`.
- `Inventory` (inventory.dfy): the store as a class `Store` with fields
  `snacks: map<int, Snack>` and `index: int`. It has the methods of the
  test's store and load/save over a sequence of lines. Functions specify
  both the load (`DecodeAll`, `Numbered`) and the save (`SavedAs`), and a
  lemma connects save to load.
- `Service` (service.dfy): the service as a class `VendingService` holding a
  `Store` and `audit: seq<string>`.
- `ChangeAsWritten` (change_as_written.dfy): the source's `getChangeCoins`
  as written, which counts coins through a `double` printed as text. It
  carries the counterexample described under Findings.

Money is whole pence. A price is the number of pence the source's
`BigDecimal` stands for, and coin values are
200, 100, 50, 20, 10, 5, 2 and 1 pence. The `Currency` enum is not part of
this model; these values follow its constant names.

Behaviours of the code a reader may not expect:

- Counts and prices are not checked to be non-negative in the service or
  the store. `Snack.count` is any Java `int` and a price is any integer
  number of pence.
- After a load of `n` lines, `index` is `n + 1`. The next snack added
  therefore gets number `n + 2`: one number is skipped, not reused.
- A sale of a snack with a count of 1 or less removes it. So a sale of a
  snack whose count is already 0 or negative removes it too, and it is
  logged as a sale.

## Model

| member | source | states |
|---|---|---|
| Money.FundsValue | src/main/java/org/nathan/vendingmachine/service/VendingMachineServiceImpl.java:125-132 | the loop's total is exactly the sum of the coin values; no coins give 0 |
| Money.SufficientFunds | src/main/java/org/nathan/vendingmachine/service/VendingMachineServiceImpl.java:191-194 | true exactly when the coins' total is at least the price, equality included |
| Money.GetChangeCoins | src/main/java/org/nathan/vendingmachine/service/VendingMachineServiceImpl.java:181-189 | every coin returned is `coin`; for non-negative funds there are floor(funds / value) of them, so their value is at most the funds and one more coin would exceed them |
| Money.TakenAndRest | src/main/java/org/nathan/vendingmachine/service/VendingMachineServiceImpl.java:138-142 | one getChange step on a non-negative remainder takes floor(remainder / value) coins and leaves a remainder that is non-negative and below that coin's value; coins taken plus what is left make up the old remainder |
| Money.TakeCoins | src/main/java/org/nathan/vendingmachine/service/VendingMachineServiceImpl.java:138-142 | one if-block of getChange: the coins appended and the new remainder are the greedy step's, and what is handed out plus what greedy change still owes is the same before and after the block |
| Money.GetChange | src/main/java/org/nathan/vendingmachine/service/VendingMachineServiceImpl.java:134-179 | the eight blocks, TWOPOUND down to PENNY, return exactly the reference greedy change for the amount |
| Money.GreedyFromIsGreedy | src/main/java/org/nathan/vendingmachine/service/VendingMachineServiceImpl.java:138-177 | running the blocks from block k on is greedy change over the denomination table from position k on |
| Money.GreedyAccounts | src/main/java/org/nathan/vendingmachine/service/VendingMachineServiceImpl.java:134-179 | the greedy coins plus the remainder left at the end add up to the amount |
| Money.LeftoverBelowLast | src/main/java/org/nathan/vendingmachine/service/VendingMachineServiceImpl.java:173-177 | for a non-negative amount, the final remainder is non-negative and below the last denomination tried |
| Money.GreedyOrdered | src/main/java/org/nathan/vendingmachine/service/VendingMachineServiceImpl.java:138-177 | over strictly decreasing denominations, greedy change is in non-increasing order of value and uses only those denominations |
| Money.GreedyChange | src/main/java/org/nathan/vendingmachine/service/VendingMachineServiceImpl.java:134-179 | over strictly decreasing denominations ending in PENNY, greedy change for an amount of 0 or more sums to exactly that amount, and for 0 or less it is empty |
| Money.DenominationsOrdered | src/main/java/org/nathan/vendingmachine/service/VendingMachineServiceImpl.java:138-173 | the order getChange tries the coins in is strictly decreasing in value and ends with PENNY |
| Money.ChangeIsExactAndOrdered | src/main/java/org/nathan/vendingmachine/service/VendingMachineServiceImpl.java:134-179 | getChange's coins sum to the amount for every amount of 0 or more, are empty for 0, come from the table and never increase in value |
| Codec.Split | src/test/java/org/nathan/vendingmachine/service/VendingMachineServiceLayerTest.java:119 | Java's `split("::")`: the whole line when it holds no "::", otherwise the pieces between the delimiters without the empty ones at the end; the pieces are those of `SplitOn`, which Codec.JoinSplit and Codec.SplitJoin describe, with the trailing empty pieces dropped as Codec.StripTrailingEmpty states |
| Codec.JoinSplit | src/test/java/org/nathan/vendingmachine/service/VendingMachineServiceLayerTest.java:119 | the pieces between the "::"s, joined back with "::", give the line back |
| Codec.SplitJoin | src/test/java/org/nathan/vendingmachine/service/VendingMachineServiceLayerTest.java:119 | fields without ':' joined with "::" split back into exactly those fields |
| Codec.StripTrailingEmpty | src/test/java/org/nathan/vendingmachine/service/VendingMachineServiceLayerTest.java:119 | `split` drops only empty pieces at the end: the result is a prefix of the pieces, it does not end in an empty piece, and every dropped piece is empty |
| Codec.NatToStringValue | src/test/java/org/nathan/vendingmachine/service/VendingMachineServiceLayerTest.java:115 | the decimal text of a number reads back as that number |
| Codec.ParseInt | src/test/java/org/nathan/vendingmachine/service/VendingMachineServiceLayerTest.java:120 | `Integer.parseInt`: a value only for a non-empty text, namely an optional sign and decimal digits within the `int` range; Codec.ParseIntToString states that it reads back every `int` Java writes, and Codec.ParseIntRejectsColon that a ':' is never a number |
| Codec.ParseIntToString | src/test/java/org/nathan/vendingmachine/service/VendingMachineServiceLayerTest.java:115-120 | every `int` written by `marshallSnack` is read back by `Integer.parseInt` as itself |
| Codec.ParseIntRejectsColon | src/test/java/org/nathan/vendingmachine/service/VendingMachineServiceLayerTest.java:120 | a count field holding a ':' is never a number |
| Codec.ParseUnsignedPriceText | src/test/java/org/nathan/vendingmachine/service/VendingMachineServiceLayerTest.java:115-120 | the two-decimal text of a non-negative price parses back to the same number of pence |
| Codec.ParsePrice | src/test/java/org/nathan/vendingmachine/service/VendingMachineServiceLayerTest.java:120 | `new BigDecimal(text)` in pence: a value only for a non-empty text, namely an optional sign and ASCII digits with an optional '.', and at least one digit ("5" reads as five pounds); Codec.ParsePriceToString states that it reads back every price written, and Codec.ParseTrailingDot that "5." reads as five pounds |
| Codec.ParseTrailingDot | src/test/java/org/nathan/vendingmachine/service/VendingMachineServiceLayerTest.java:120 | whole pounds followed by a bare '.' (such as "5.") read as that many pounds, as `new BigDecimal` reads them |
| Codec.ParsePriceSign | src/test/java/org/nathan/vendingmachine/service/VendingMachineServiceLayerTest.java:120 | an unsigned price reads as itself, and with a '-' in front as its negation |
| Codec.ParsePriceToString | src/test/java/org/nathan/vendingmachine/service/VendingMachineServiceLayerTest.java:115-120 | every price, negative ones included, written at two decimals reads back as the same number of pence |
| Codec.PriceTextHasNoColon | src/test/java/org/nathan/vendingmachine/service/VendingMachineServiceLayerTest.java:115 | a written price never holds the delimiter's ':' |
| Codec.Unmarshall | src/test/java/org/nathan/vendingmachine/service/VendingMachineServiceLayerTest.java:118-121 | a line decodes only when its split has at least three pieces, and the snack's name is the first piece |
| Codec.Marshall | src/test/java/org/nathan/vendingmachine/service/VendingMachineServiceLayerTest.java:114-116 | `marshallSnack`: name, count and price joined by "::"; Codec.SplitMarshall and Codec.UnmarshallMarshall state that it splits into those three fields and reads back as the same snack when the name has no ':' |
| Codec.SplitMarshall | src/test/java/org/nathan/vendingmachine/service/VendingMachineServiceLayerTest.java:114-121 | a marshalled snack whose name has no ':' splits into exactly name, count text and price text |
| Codec.ColonEndedSplit | src/test/java/org/nathan/vendingmachine/service/VendingMachineServiceLayerTest.java:114-119 | the line of a name ending in ':' splits with that ':' moved to the front of the count field |
| Codec.ColonEndedNameUnreadable | src/test/java/org/nathan/vendingmachine/service/VendingMachineServiceLayerTest.java:114-121 | a snack whose name ends in ':' (and holds no other ':') is written but does not read back: unmarshalling its line fails |
| Codec.UnmarshallMarshall | src/test/java/org/nathan/vendingmachine/service/VendingMachineServiceLayerTest.java:114-121 | `unmarshallSnack(marshallSnack(s)) == s` for every snack whose name has no ':' |
| Inventory.CollectAll | src/test/java/org/nathan/vendingmachine/service/VendingMachineServiceLayerTest.java:33-43 | reading all lines succeeds exactly when every line decodes, and then snack i is line i's snack |
| Inventory.CollectStep | src/test/java/org/nathan/vendingmachine/service/VendingMachineServiceLayerTest.java:33-34 | one more line read: the snacks read so far grow by its snack, or the read fails |
| Inventory.CollectNoneExtends | src/test/java/org/nathan/vendingmachine/service/VendingMachineServiceLayerTest.java:33-43 | once a line fails to decode, the whole load fails, whatever follows |
| Inventory.MapLinesAt | src/test/java/org/nathan/vendingmachine/service/VendingMachineServiceLayerTest.java:33-34 | entry j of a function mapped over the lines is that function of line j, whatever the lines around it; `Decodes` maps `unmarshallSnack` this way, so each line decodes on its own |
| Inventory.Numbered | src/test/java/org/nathan/vendingmachine/service/VendingMachineServiceLayerTest.java:35-37 | the loaded map holds only snacks with at least one item |
| Inventory.NumberedStep | src/test/java/org/nathan/vendingmachine/service/VendingMachineServiceLayerTest.java:35-38 | one more line: its snack goes under the next line number when its count is positive, and nothing changes otherwise |
| Inventory.NumberedLines | src/test/java/org/nathan/vendingmachine/service/VendingMachineServiceLayerTest.java:32-40 | number n is in the loaded map exactly when 1 <= n <= line count and line n's count is positive, and it holds line n's snack |
| Inventory.Store.constructor | src/test/java/org/nathan/vendingmachine/service/VendingMachineServiceLayerTest.java:24-25 | a new store is empty with index 0 |
| Inventory.Store.GetSnack | src/test/java/org/nathan/vendingmachine/service/VendingMachineServiceLayerTest.java:72-79 | the snack under i when there is one, and nothing (the source's null) otherwise |
| Inventory.Store.GetMachineStock | src/test/java/org/nathan/vendingmachine/service/VendingMachineServiceLayerTest.java:63-70 | the stock map has exactly the numbers getSnack finds, each with getSnack's snack |
| Inventory.Store.AddSnack | src/test/java/org/nathan/vendingmachine/service/VendingMachineServiceLayerTest.java:81-88 | the snack goes under index + 1, which becomes the new index and was not in use before, so nothing is overwritten; every number stays at most index |
| Inventory.Store.RemoveSnack | src/test/java/org/nathan/vendingmachine/service/VendingMachineServiceLayerTest.java:90-98 | true exactly when i was present; afterwards i is gone and every other entry is unchanged (no change at all when it was absent) |
| Inventory.Store.EditSnack | src/test/java/org/nathan/vendingmachine/service/VendingMachineServiceLayerTest.java:100-112 | true exactly when i was present; then only i's snack is replaced, otherwise nothing changes; the numbers in use never change |
| Inventory.Store.LoadMachineStock | src/test/java/org/nathan/vendingmachine/service/VendingMachineServiceLayerTest.java:27-45 | succeeds exactly when every line decodes; then the store holds exactly the snacks in stock, each under its line number, and index is the line count + 1; on failure the snacks and index are unchanged |
| Inventory.Store.SaveMachineStock | src/test/java/org/nathan/vendingmachine/service/VendingMachineServiceLayerTest.java:47-61 | one marshalled line per snack with a positive count, each such snack exactly once, and none for the others |
| Inventory.SaveThenLoad | src/test/java/org/nathan/vendingmachine/service/VendingMachineServiceLayerTest.java:28-61 | when no snack in stock has a ':' in its name, loading what was saved succeeds and gives back every snack in stock exactly once, renumbered 1..n in the order written; snacks out of stock do not come back |
| Inventory.FreshStoreNumbers | src/test/java/org/nathan/vendingmachine/service/VendingMachineServiceLayerTest.java:140-164 | on a fresh store the first snack added is found under 1 and the second under 2 |
| Service.ValidateFilename | src/main/java/org/nathan/vendingmachine/service/VendingMachineServiceImpl.java:120-123 | a file name is accepted exactly when it contains no '.' |
| Service.VendingService.constructor | src/main/java/org/nathan/vendingmachine/service/VendingMachineServiceImpl.java:22-25 | the service holds the store it is given, and its audit trail starts empty |
| Service.VendingService.LogAudit | src/main/java/org/nathan/vendingmachine/service/VendingMachineServiceImpl.java:96-99 | the operation is appended to the audit trail and nothing else is |
| Service.VendingService.ValidateSnackExists | src/main/java/org/nathan/vendingmachine/service/VendingMachineServiceImpl.java:101-104 | true exactly when the store has a snack under i |
| Service.VendingService.ValidateSnackNameExists | src/main/java/org/nathan/vendingmachine/service/VendingMachineServiceImpl.java:106-113 | the scan over the stock finds the name exactly when some snack's name equals it |
| Service.VendingService.ValidateSnackSelection | src/main/java/org/nathan/vendingmachine/service/VendingMachineServiceImpl.java:115-118 | true exactly when the choice is at most the number of snacks in the store |
| Service.VendingService.AddSnack | src/main/java/org/nathan/vendingmachine/service/VendingMachineServiceImpl.java:38-42 | the snack is stored under the next number, which was free, and "Added snack '<name>'" is logged |
| Service.VendingService.RemoveSnack | src/main/java/org/nathan/vendingmachine/service/VendingMachineServiceImpl.java:44-53 | a present snack is removed alone and "Removed snack '<old name>'" is logged; an absent one changes neither the store nor the audit trail |
| Service.VendingService.EditSnack | src/main/java/org/nathan/vendingmachine/service/VendingMachineServiceImpl.java:55-63 | a present snack alone is replaced, the numbers in use stay the same, and "Edited snack '<new name>'" is logged; an absent one changes neither the store nor the audit trail |
| Service.VendingService.PurchaseSnack | src/main/java/org/nathan/vendingmachine/service/VendingMachineServiceImpl.java:66-76 | with a count above 1 only that count drops by one (name and price kept) and "<name> purchased." is logged; otherwise the snack alone is removed and "<name> purchased. Now out of stock" is logged; the snack sold is never left with a count below 1, and a store where every snack is in stock stays so |
| Service.VendingService.LoadStock | src/main/java/org/nathan/vendingmachine/service/VendingMachineServiceImpl.java:78-85 | the store's load, with any failure reported as "Error loading stock" and the store unchanged |
| Service.VendingService.SaveStock | src/main/java/org/nathan/vendingmachine/service/VendingMachineServiceImpl.java:87-94 | the store's save: one line per snack in stock |
| ChangeAsWritten.FloorText | src/main/java/org/nathan/vendingmachine/service/VendingMachineServiceImpl.java:182 | `String.valueOf(Math.floor(q))` for a whole-number double: "q.0" below 10^7 in magnitude, one digit, '.', the other significant digits and an exponent from there on; ChangeAsWritten.CountAsWrittenValue states what reading it back gives |
| ChangeAsWritten.CountAsWritten | src/main/java/org/nathan/vendingmachine/service/VendingMachineServiceImpl.java:182-183 | the count `Integer.parseInt` reads from that text up to its '.'; ChangeAsWritten.CountAsWrittenValue and ChangeAsWritten.CountAsWrittenShort state its value |
| ChangeAsWritten.CountAsWrittenValue | src/main/java/org/nathan/vendingmachine/service/VendingMachineServiceImpl.java:182-183 | the count read back from the printed double is the quotient below 10^7 in magnitude, and only its signed leading digit from 10^7 on |
| ChangeAsWritten.CountAsWrittenShort | src/main/java/org/nathan/vendingmachine/service/VendingMachineServiceImpl.java:182-183 | from a quotient of 10^7 on, the count as written is always smaller than the quotient |
| ChangeAsWritten.GetChangeCoinsAsWritten | src/main/java/org/nathan/vendingmachine/service/VendingMachineServiceImpl.java:181-189 | getChangeCoins as written gives floor(funds / value) coins only below 10^7 coins, and the quotient's leading digit's worth from there on |
| ChangeAsWritten.TwentyMillionPounds | src/main/java/org/nathan/vendingmachine/service/VendingMachineServiceImpl.java:181-189 | for 20,000,000.00 in TWOPOUND coins the source gives 1 coin where the corrected GetChangeCoins gives 10,000,000 |

## Left out

- File I/O: the `.txt` suffix, `Scanner`, `FileReader` and `PrintWriter`. The store's load and save work on the file's lines as a sequence of strings.
- Exceptions other than a load failure. A `VendingMachineDaoException` from the store's other operations cannot arise in the in-memory store. "Error saving stock" cannot arise with the file left out.
- The audit store's file writes and `LocalDateTime` time stamps. The audit trail is the sequence of logged operation strings.
- `System.err` messages, Spring wiring, and the JUnit set-up and tear-down.
- The service's `getSnack` and `getSnacks`. They only pass through to the store's `GetSnack` and `GetMachineStock`.
- Service.VendingService.PurchaseSnack: requires the snack to be present. The source dereferences `null` for an absent number, which ends in an exception that is not modelled.
- Inventory.Store.AddSnack: `index` is an unbounded integer. The source's `++index` would wrap around after 2^31 - 1 additions.
- Inventory.Store.SaveMachineStock: `HashMap` iteration order is unspecified. The lines come out in some order, and the ghost `keys` records which order.
- Service.VendingService: the store is held by reference. The model does not follow other aliases of the same store.
- Codec.UnmarshallMarshall: requires a name without ':'. A name holding "::" splits into more fields, and a name ending in ':' moves that ':' into the count field, so its line does not read back (Codec.ColonEndedNameUnreadable).
- Codec.ParsePrice: rejects a text with an exponent ("1E2"), which `new BigDecimal(text)` accepts, a price written in non-ASCII decimal digits ("٠.٧٠"), which `new BigDecimal(text)` reads through `Character.digit`, and a price that is not a whole number of pence (a non-zero digit after the second decimal), which the source keeps. Prices are kept as whole pence, so the source's scale is not: a price read as "5." or "1.5" is written back by the source as "5" or "1.5" and by the model as "5.00" or "1.50".
- Inventory.SaveThenLoad: the saved lines are taken to be the lines the next load reads. In the source `println` writes a name holding a line break ('\n', '\r', '\u0085', '\u2028' or '\u2029') as two lines, `Scanner.nextLine` reads them back separately, and the load fails on the first fragment; the lemma does not cover that, since the file's text is not part of this model.
- Codec.ParseInt: accepts only ASCII digits. `Integer.parseInt` also accepts other Unicode decimal digits.
- ChangeAsWritten.FloorText: models `String.valueOf(Math.floor(x))` only for a double that holds the quotient exactly (below 2^53). It does not model the rounding of `BigDecimal.doubleValue` beyond that. `BigDecimal.divide` throws on a non-terminating quotient, which cannot happen for these coin values.
- Greedy optimality: the model does not prove that greedy change uses the fewest coins for this coin table.

## Findings

| source | as written | input that shows it | evidently intended | confidence | as-written member | corrected member |
|---|---|---|---|---|---|---|
| src/main/java/org/nathan/vendingmachine/service/VendingMachineServiceImpl.java:182-183 | the coin count is the text of `String.valueOf(Math.floor(quotient))` up to its '.', parsed as an `int`; from 10^7 on Java prints a double in scientific notation ("1.0E7"), so only the leading digit is read | `getChangeCoins(20000000.00, TWOPOUND)`: the quotient 10,000,000 prints as "1.0E7" and gives 1 coin | floor(funds / coin value) coins, that is 10,000,000 | not executed | ChangeAsWritten.TwentyMillionPounds | Money.GetChangeCoins |
