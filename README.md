# Bitcoin transaction ledger, in Dafny

This project models the ledger-reconstruction logic of a small Node.js script. The script reads
a list of owned Bitcoin addresses and a list of transaction ids, and writes one CSV row per
transaction. Each row holds the owner's signed amount, the running balance, the network fee and
the lines for the inputs and outputs. Three parts of `index.js` are modelled:

- **`satoshisToBTC`** (module `Btc`, `btc.dfy`). It renders a number of satoshis as an exact
  decimal BTC string by string manipulation only: pad to eight digits, insert a point eight
  places from the right, and optionally strip trailing zeros. It is a pure function over `nat`.
  Its partner is a decoder `DecodeBTC`. The proofs show that both renderings decode to exactly the
  amount rendered, so distinct amounts never share a rendering. They also show that deleting the
  point and the leading zeros gives back the decimal string of the amount (the empty string
  for 0). The stripped rendering keeps the point, so 0 is `"0."` and 100000000 is `"1."`.
- **Per-transaction normalisation** (module `Normalization`, `normalize.dfy`). This is the body of
  the loop in `processTransactions`. It classifies inputs and outputs as owned or external by
  membership in the owned-address list, and takes the owned and total sums on each side. It builds
  the display lines, using the "Multiple Inputs"/"Input" sentinel and the all-outputs or
  owned-outputs policy, and computes the signed amount and the fee. The two `forEach` loops are
  the methods `ScanInputs` and `ScanOutputs`, and `Normalize` runs them. Each is proved against
  recursive specification functions (`OwnedInputSum`, `InputDisplay`, `OutputLines`, `Amount`,
  `Fee`, `Normalized`, ...). Lemmas state the display policy and the sums in terms of the owned
  sub-sequences.
- **The ledger fold** (module `Ledger`, `ledger.dfy`). `ProcessTransactions` keeps `rowId` and
  `balance` across the transactions, in the order their ids are read. It formats one row per
  transaction and appends it, then reverses the rows. The method is proved to return `LedgerOf`:
  the rows `RowFor(m)` for m = 0 .. n-1, reversed. Lemmas show that row j describes transaction
  n-1-j. Its id is that index, and its amount, fee and balance cells read back as the
  transaction's amount, its fee and the prefix sum of the amounts. Ids descend down the table,
  and the first row carries the final balance.

`Scenarios` (`scenarios.dfy`) works small transactions through the model: a spend, a receipt from
several external inputs, a single external input, an owned "Input" pseudo-address, and a
small fee.

A transaction, as the model receives it, is a `FetchedTx`: the id, the date string of the block
that mined it, and its inputs (each with an optional previous output `(addr, value)`) and
outputs. The owned addresses are a `seq<string>`, and ownership is membership, as with
`includes`.

Two consequences of the code are easy to miss. Stripping removes zeros only and never the
point, so a whole number of bitcoins shows as `"+1."` or `"-1."`. An input or output line
always shows the unstripped amount, e.g. `"A: 1.00000000 BTC"`.

## Model

| member | source | states |
|---|---|---|
| Btc.NatToString | index.js:10 | definition of `toString()` on a non-negative integer: a non-empty string; properties in NatToStringDigits and NatToStringRoundTrip |
| Btc.PadStart | index.js:15 | definition of `padStart`; its padding with '0' is characterised in ShortSplit |
| Btc.RemoveTrailingZeros | index.js:22 | definition of `replace(/0+$/, '')`; properties in RemoveTrailingZerosSpec and RemoveTrailingZerosUnique |
| Btc.SatoshisToBTC | index.js:9-26 | definition; properties in Layout, UnstrippedShape, UnstrippedRoundTrip, StrippedIsUnstrippedWithoutZeros, StrippedShape, DecodeRoundTrip and RenderInjective |
| Btc.NatToStringDigits | index.js:10 | `toString()` of a non-negative integer is a non-empty digit string with no leading zero except for 0 itself |
| Btc.NatToStringRoundTrip | index.js:10 | the decimal string of n denotes n |
| Btc.KeptLength | index.js:22 | the length kept by stripping is at most the length, and the kept part is empty or does not end in '0' |
| Btc.RemoveTrailingZerosSpec | index.js:22 | `replace(/0+$/, '')` leaves r with s == r + zeros, and r is empty or ends in a non-zero character (the run removed is maximal) |
| Btc.RemoveTrailingZerosUnique | index.js:22 | the stripped string is the only split of s into a part not ending in '0' followed by zeros |
| Btc.RemoveTrailingZerosStopsAt | index.js:22 | stripping stops at the last character that is not '0' |
| Btc.RemoveTrailingZerosAfter | index.js:22 | a run of zeros after a non-zero character is removed entirely |
| Btc.Layout | index.js:10-19 | the unstripped rendering is `whole + "." + frac`, with frac exactly eight digits, whole digits without a leading zero (except "0"), whole + frac the decimal string behind padding zeros, and whole * 10^8 + frac == satoshis |
| Btc.ShortLayout | index.js:14-15 | with at most eight digits, the rendering is "0." and the digits padded with '0' to eight |
| Btc.ShortSplit | index.js:15 | "0." and the padded digits split as whole "0" and eight digits that are the digits behind padding zeros |
| Btc.LongLayout | index.js:16-18 | with more than eight digits, the whole part is the first length-8 digits (no leading zero) and the fraction the last eight |
| Btc.UnstrippedShape | index.js:14-18 | the unstripped rendering has a single point with exactly eight digits after it and only digits elsewhere, and it is the padded short form or the split of the digits |
| Btc.UnstrippedRoundTrip | index.js:9-19 | deleting the point and the leading zeros gives back the decimal string of the amount ("" for 0), and the digits denote the amount |
| Btc.StrippedIsUnstrippedWithoutZeros | index.js:21-23 | the stripped rendering is the unstripped one minus its maximal trailing run of '0': the unstripped one is the stripped one followed by zeros, and the stripped one is non-empty and does not end in '0' |
| Btc.StrippedLayout | index.js:9-25 | both renderings share the whole part and the point; the stripped fraction is the eight-digit fraction without its trailing zeros |
| Btc.StrippedShape | index.js:21-23 | the stripped rendering keeps the point and every digit before it, ends in the point exactly when the amount is a multiple of 10^8, and 0 renders as "0." |
| Btc.FractionZeroIffEmpty | index.js:22 | a digit string is all zeros exactly when stripping its trailing zeros empties it |
| Btc.WholeBitcoins | index.js:14-23 | k whole bitcoins render as the digits of k, "." and eight zeros; stripped, as the digits of k and "." |
| Btc.DecodeRoundTrip | index.js:9-26 | both renderings decode to exactly the amount rendered |
| Btc.DecodeParts | index.js:17-18 | property of the model's decoder `DecodeBTC`, the reader of the "<whole>.<fraction>" form built at these lines: "<whole>.<f>" decodes to whole * 10^8 plus f read as if padded on the right to eight digits |
| Btc.RenderInjective | index.js:9-26 | distinct amounts never share a rendering, stripped or not |
| Normalization.IsOwned | index.js:143 | definition of `myAddresses.includes(addr)`, also at lines 161 and 170; properties in OwnedInputsMembers and OwnedOutputsMembers |
| Normalization.InputAddr | index.js:141 | definition: the previous output's address, or the pseudo-address "Input"; properties in OwnedPseudoAddress and InputDisplayPolicy |
| Normalization.InputValue | index.js:142 | definition: the previous output's value, or 0; property in MissingPrevOutIsNeutral |
| Normalization.EntryLine | index.js:145 | definition of a display line "<addr>: <unstripped amount> BTC"; used in InputDisplayPolicy and OutputDisplayPolicy |
| Normalization.InputDisplay | index.js:152-155 | definition of the input display; properties in InputDisplayPolicy and HasOwnedInputIff |
| Normalization.OutputLines | index.js:166-172 | definition of the output display; properties in AllOutputLines, OwnedOutputLines and OutputDisplayPolicy |
| Normalization.Amount | index.js:150-174 | definition `outputSumOwnAddresses - inputSumOwnAddresses`; properties in SelfTransferPaysOnlyFee and IncomingOnly |
| Normalization.Fee | index.js:186 | definition `inputSumAllAddresses - outputSumAllAddresses`; computed by Normalize, properties in SelfTransferPaysOnlyFee, RowReadsBack and LedgerRowAt |
| Normalization.Normalized | index.js:128-186 | definition of the per-transaction record (amount, fee, input display, output display); computed by Normalize, properties in OutputDisplayPolicy and the scenarios |
| Normalization.ScanInputs | index.js:140-149 | the input loop computes the owned input sum, the total input sum, the owned inputs' lines in order, and whether every input is external |
| Normalization.ScanOutputs | index.js:158-173 | the output loop computes the owned and total output sums and the lines of every output (when some input is owned) or of the owned outputs, in order |
| Normalization.Normalize | index.js:128-186 | the loop body computes the record `Normalized`: amount, fee, input display and output display |
| Normalization.InputStep | index.js:143-148 | what one input adds to each sum, to the owned lines and to the owned-input flag |
| Normalization.OutputStep | index.js:161-172 | what one output adds to each sum and to the output lines |
| Normalization.HasOwnedInputExtend | index.js:146 | an external input does not clear `hasOnlyExternalInputs` |
| Normalization.InputSumAppend | index.js:148 | the total input sum is additive over concatenation |
| Normalization.OwnedInputSumAppend | index.js:144 | the owned input sum is additive over concatenation |
| Normalization.OutputSumAppend | index.js:164 | the total output sum is additive over concatenation |
| Normalization.OwnedInputsSum | index.js:143-148 | the owned input sum is the sum over exactly the owned inputs and never exceeds the total |
| Normalization.OwnedInputsMembers | index.js:143 | the owned inputs are exactly the inputs whose address is in the owned list |
| Normalization.OwnedOutputsSum | index.js:161-164 | the owned output sum is the sum over exactly the owned outputs and never exceeds the total |
| Normalization.OwnedOutputsMembers | index.js:161 | the owned outputs are exactly the outputs whose address is in the owned list |
| Normalization.HasOwnedInputIff | index.js:133-155 | some input is owned exactly when there is an owned-input line, and with none owned the owned input sum is 0 |
| Normalization.OwnedInputLinesOrder | index.js:143-147 | one line "<addr>: <value unstripped> BTC" per owned input, in input order |
| Normalization.InputDisplayPolicy | index.js:143-155 | with no input owned the display is exactly ["Multiple Inputs"] (more than one input) or ["Input"], otherwise one line per owned input in order |
| Normalization.AllOutputLines | index.js:168-169 | listing all outputs gives one line per output, in output order |
| Normalization.OwnedOutputLines | index.js:170-171 | listing only owned outputs is listing all lines of the owned outputs, in order |
| Normalization.OutputDisplayPolicy | index.js:158-173 | with some owned input every output is listed in order, otherwise exactly the owned outputs in order |
| Normalization.MissingPrevOutIsNeutral | index.js:141-142 | an input without `prev_out` adds 0 to every sum wherever it stands |
| Normalization.SelfTransferPaysOnlyFee | index.js:150-186 | when every address on both sides is owned, amount == -fee |
| Normalization.AllInputsOwned | index.js:143-148 | with every input owned, the owned input sum is the total |
| Normalization.AllOutputsOwned | index.js:161-164 | with every output owned, the owned output sum is the total |
| Normalization.IncomingOnly | index.js:150-174 | with no owned input the amount is the owned output sum, never negative, and 0 when no output is owned |
| Normalization.NoOwnedOutputs | index.js:161-163 | with no owned output, the owned output sum is 0 |
| Ledger.Magnitude | index.js:180 | definition of `Math.abs(amount)`; property in AmountDisplayRoundTrip |
| Ledger.Balance | index.js:183 | definition of the running `balance` (0 at line 115) as the sum of the amounts read; properties in BalanceStep, BalanceAppend, RowReadsBack and LedgerFinalBalance |
| Ledger.AmountDisplay | index.js:177-180 | definition of `amountStr`; properties in AmountDisplayRoundTrip and WholeBitcoinAmounts |
| Ledger.BalanceDisplay | index.js:194 | definition of the balance cell; properties in BalanceDisplayZero and BalanceDisplayRoundTrip |
| Ledger.Join | index.js:196-197 | definition of `join(',\n')`; property in JoinAppend |
| Ledger.JoinAppend | index.js:196-197 | joining one more line appends the separator and that line, so the lines appear in order, each separated once |
| Ledger.Reversed | index.js:205 | definition of `reverse()`; used by LedgerOf, properties in LedgerRowAt and LedgerOrder |
| Ledger.RowFor | index.js:189-199 | definition of the row pushed for transaction m; properties in RowReadsBack and LedgerRowAt |
| Ledger.LedgerOf | index.js:201-205 | definition of the table after `reverse()`: the pushed rows, reversed; returned by ProcessTransactions, properties in LedgerRowAt and LedgerOrder |
| Ledger.PushedRows | index.js:201 | one row is pushed per transaction |
| Ledger.ProcessTransactions | index.js:113-205 | the fold returns the table `LedgerOf`: the row for each transaction in reading order, with id = position and balance = prefix sum, then reversed |
| Ledger.BalanceStep | index.js:183 | each transaction adds its amount to the running balance |
| Ledger.BalanceAppend | index.js:183 | the running balance is additive: a prefix sum of the amounts |
| Ledger.AmountDisplayRoundTrip | index.js:177-180 | the amount display starts with '+' exactly for a non-negative amount and reads back as the amount |
| Ledger.SignedRoundTrip | index.js:177-180 | a sign followed by the stripped rendering of a magnitude reads back as the signed value |
| Ledger.WholeBitcoinAmounts | index.js:177-194 | whole bitcoins show as "+k." / "-k." and as balance "k." |
| Ledger.BalanceDisplayZero | index.js:194 | the "0." special case agrees with the stripped rendering, and "0." is shown exactly for a zero balance |
| Ledger.BalanceDisplayRoundTrip | index.js:194 | every balance display reads back as the balance |
| Ledger.AmountCellReadsBack | index.js:193 | an amount cell reads back as its amount |
| Ledger.BalanceCellReadsBack | index.js:194 | a balance cell reads back as its balance |
| Ledger.FeeCellReadsBack | index.js:195 | the fee cell reads back as the fee and keeps all eight decimals |
| Ledger.RowReadsBack | index.js:189-199 | the amount, balance and fee cells of row m read back as the amount, the prefix-sum balance and the fee |
| Ledger.LedgerRowAt | index.js:189-205 | row j of the table describes transaction n-1-j: its id, txid, date, read-back amount, balance and fee, its display lines |
| Ledger.LedgerOrder | index.js:190-205 | the table has one row per transaction, with ids strictly descending to 0, and its first row reads back as the final balance |
| Ledger.LedgerFinalBalance | index.js:183-205 | the first row of the table carries the sum of all amounts |
| Scenarios.SmallFee | index.js:14-15 | a fee of 1000 satoshis renders as "0.00001000" |
| Scenarios.OneInput | index.js:140-149 | the sums, lines and flag for a single input |
| Scenarios.TwoExternalInputs | index.js:140-149 | two external inputs: total is their sum, nothing owned |
| Scenarios.OneOutput | index.js:158-173 | the sums and lines for a single output |
| Scenarios.OwnedThenExternalOutput | index.js:158-173 | with no owned input only the owned output is listed |
| Scenarios.SpendToExternal | index.js:128-186 | one owned input to one external output: amount -v, fee v-w, both sides listed |
| Scenarios.ReceiveFromExternal | index.js:152-174 | two external inputs show as "Multiple Inputs", only the owned output is listed, amount is its value |
| Scenarios.SingleExternalInput | index.js:153-155 | a single external input shows as "Input" |
| Scenarios.OwnedPseudoAddress | index.js:141-143 | when "Input" is an owned address, an input without `prev_out` counts as owned with value 0, so every output is listed and the fee is minus the output's value |

## Left out

- Fetching transactions and blocks from blockchain.info and logging the errors (index.js:78-110): network I/O. A transaction reaches the model as a `FetchedTx` value.
- The `sleep` rate limiting and the async/await structure (index.js:5, 120-122): timing and concurrency.
- Reading the address and transaction-id files (index.js:32-52): file I/O. The owned addresses and the transactions are parameters.
- The CSV writer and `writeRecords` (index.js:55-68, 208): a foreign library and output I/O. The model ends at the reversed row list.
- `convertTimestampToUTC` (index.js:72-75): a wrapper over JavaScript's `Date`. The date is an opaque string carried from the block data.
- The `!txData` check (index.js:124-126): `txData.block_height` is read before it, so it is unreachable. It concerns failed fetches, which are outside the model.
- Btc.SatoshisToBTC: defined on `nat` only. For a negative argument the source counts the '-' in the length at index.js:11: a magnitude of at least 10^8 renders correctly (-123456789 gives "-1.23456789", -100000000 gives "-1."), a smaller one does not (-5 gives "0.000000-5", -12345678 gives "-.12345678"). The model leaves negative arguments out. Fractional arguments, JavaScript's exponent notation for numbers of 10^21 and more, and the loss of precision above 2^53 are not modelled either: integers are unbounded.
- Ledger.ProcessTransactions: requires every fee and every running balance to be non-negative (`Renderable`). The source renders a negative fee (an input without `prev_out`, e.g. a coinbase) or a negative running balance (a spend read before the receipt that funds it) with `satoshisToBTC` as described above; these ledgers are outside the model.
- Addresses that are `undefined` in the fetched data (an output without `addr`) are not modelled. Every output carries a string address.
- `transactions.reverse()` reverses a JavaScript array in place. The model reassigns a `seq` with its reversal, since the array is a dynamic list with no other alias.
- The `forEach` loops over inputs and outputs are two methods, `ScanInputs` and `ScanOutputs`. The assignment `amount -= …; amount += …` is folded into `Amount`.
