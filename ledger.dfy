/**
 * The ledger fold of `processTransactions`: a running balance and a row counter
 * are kept across the transactions in the order their ids are read, one row is
 * formatted per transaction and appended, and the rows are finally reversed.
 */
module Ledger {
  import opened Wrappers
  import opened Btc
  import opened Normalization

  /**
   * A transaction as the data source delivers it: its id, the UTC date of the
   * block that mined it (already formatted), and its inputs and outputs.
   */
  datatype FetchedTx = FetchedTx(txid: string, date: string, tx: RawTx)

  /** One row of the output table. */
  datatype LedgerRow = LedgerRow(
    id: nat,
    txid: string,
    date: string,
    amount: string,
    balance: string,
    fee: string,
    inputs: string,
    outputs: string,
    description: string)

  /** Separator between the display lines of one cell. */
  const LineSeparator: string := ",\n"

  /** `lines.join(separator)`. */
  function Join(lines: seq<string>, separator: string): string {
    if lines == [] then ""
    else if |lines| == 1 then lines[0]
    else lines[0] + separator + Join(lines[1..], separator)
  }

  /** `s.reverse()`. */
  function Reversed<T>(s: seq<T>): seq<T> {
    seq(|s|, k requires 0 <= k < |s| => s[|s| - 1 - k])
  }

  /** The signed amount: '+' and the stripped rendering, or '-' and that of the magnitude. */
  function AmountDisplay(amount: int): string {
    (if amount >= 0 then "+" else "-") + SatoshisToBTC(Magnitude(amount), true)
  }

  function Magnitude(amount: int): nat {
    if amount >= 0 then amount else -amount
  }

  /** The running balance: "0." for zero, otherwise the stripped rendering. */
  function BalanceDisplay(balance: nat): string {
    if balance == 0 then "0." else SatoshisToBTC(balance, true)
  }

  /** Reads a signed amount display back; the partner of `AmountDisplay`. */
  function DecodeSigned(s: string): Option<int> {
    if s == [] || (s[0] != '+' && s[0] != '-') then None
    else
      match DecodeBTC(s[1..])
      case None => None
      case Some(v) =>
        var signed: int := if s[0] == '+' then v else -(v as int);
        Some(signed)
  }

  /** The running balance after the transactions `fetched`: the sum of their amounts. */
  function Balance(owned: seq<string>, fetched: seq<FetchedTx>): int {
    if fetched == [] then 0
    else Balance(owned, fetched[..|fetched| - 1]) + Amount(owned, fetched[|fetched| - 1].tx)
  }

  /**
   * Every fee and every running balance is non-negative, which the rendering
   * of amounts needs.
   */
  predicate Renderable(owned: seq<string>, fetched: seq<FetchedTx>) {
    forall k :: 0 <= k < |fetched| ==> RenderableAt(owned, fetched, k)
  }

  /** The fee of transaction k and the balance after it are non-negative. */
  predicate RenderableAt(owned: seq<string>, fetched: seq<FetchedTx>, k: nat)
    requires k < |fetched|
  {
    Fee(fetched[k].tx) >= 0 && Balance(owned, fetched[..k + 1]) >= 0
  }

  /**
   * The row pushed for the m-th transaction read: id m, the signed amount, the
   * balance after the first m + 1 transactions, the unstripped fee, and the
   * display lines joined.
   */
  function RowFor(owned: seq<string>, fetched: seq<FetchedTx>, m: nat): LedgerRow
    requires Renderable(owned, fetched) && m < |fetched|
  {
    assert RenderableAt(owned, fetched, m);
    var n := Normalized(owned, fetched[m].tx);
    LedgerRow(
      m,
      fetched[m].txid,
      fetched[m].date,
      AmountDisplay(n.amount),
      BalanceDisplay(Balance(owned, fetched[..m + 1])),
      SatoshisToBTC(n.fee, false),
      Join(n.inputLines, LineSeparator),
      Join(n.outputLines, LineSeparator),
      "")
  }

  /** The rows pushed, one per transaction read, in the order they are pushed. */
  function PushedRows(owned: seq<string>, fetched: seq<FetchedTx>): (rows: seq<LedgerRow>)
    requires Renderable(owned, fetched)
    ensures |rows| == |fetched|
  {
    seq(|fetched|, m requires 0 <= m < |fetched| => RowFor(owned, fetched, m))
  }

  /**
   * The table `processTransactions` writes: every row pushed, then the whole
   * array reversed, so the most recently read transaction comes first.
   */
  function LedgerOf(owned: seq<string>, fetched: seq<FetchedTx>): seq<LedgerRow>
    requires Renderable(owned, fetched)
  {
    Reversed(PushedRows(owned, fetched))
  }

  /** What one more transaction adds to the running balance. */
  lemma BalanceStep(owned: seq<string>, fetched: seq<FetchedTx>, i: nat)
    requires i < |fetched|
    ensures Balance(owned, fetched[..i + 1]) == Balance(owned, fetched[..i]) + Amount(owned, fetched[i].tx)
  {
    assert fetched[..i + 1][..i] == fetched[..i];
  }

  /** Appending the next element to a prefix gives the next prefix. */
  lemma SnocPrefix<T>(all: seq<T>, i: nat, x: T)
    requires i < |all| && x == all[i]
    ensures all[..i] + [x] == all[..i + 1]
  {
  }

  /** `processTransactions`, given the transactions already fetched, in the order their ids are read. */
  method ProcessTransactions(owned: seq<string>, fetched: seq<FetchedTx>) returns (transactions: seq<LedgerRow>)
    requires Renderable(owned, fetched)
    ensures transactions == LedgerOf(owned, fetched)
  {
    var rowId := 0;
    var balance := 0;
    transactions := [];

    for i := 0 to |fetched|
      invariant rowId == i
      invariant balance == Balance(owned, fetched[..i])
      invariant transactions == PushedRows(owned, fetched)[..i]
    {
      var f := fetched[i];
      var n := Normalize(owned, f.tx);
      var amountStr := AmountDisplay(n.amount);

      BalanceStep(owned, fetched, i);
      assert RenderableAt(owned, fetched, i);
      balance := balance + n.amount;

      var row := LedgerRow(
        rowId,
        f.txid,
        f.date,
        amountStr,
        BalanceDisplay(balance),
        SatoshisToBTC(n.fee, false),
        Join(n.inputLines, LineSeparator),
        Join(n.outputLines, LineSeparator),
        "");
      assert row == PushedRows(owned, fetched)[i] by {
        assert row == RowFor(owned, fetched, i);
      }
      SnocPrefix(PushedRows(owned, fetched), i, row);
      rowId := rowId + 1;
      transactions := transactions + [row];
    }

    assert transactions == PushedRows(owned, fetched);
    transactions := Reversed(transactions);
  }

  // ---------------------------------------------------------------------------
  // Properties of the displays
  // ---------------------------------------------------------------------------

  /**
   * The signed amount display reads back as the amount, and it starts with '+'
   * exactly when the amount is not negative (0 shows as "+0.").
   */
  lemma AmountDisplayRoundTrip(amount: int)
    ensures |AmountDisplay(amount)| > 0
    ensures AmountDisplay(amount)[0] == '+' <==> amount >= 0
    ensures DecodeSigned(AmountDisplay(amount)) == Some(amount)
  {
    var sign := if amount >= 0 then '+' else '-';
    assert AmountDisplay(amount) == [sign] + SatoshisToBTC(Magnitude(amount), true);
    SignedRoundTrip(sign, Magnitude(amount));
  }

  lemma SignedRoundTrip(sign: char, magnitude: nat)
    requires sign == '+' || sign == '-'
    ensures DecodeSigned([sign] + SatoshisToBTC(magnitude, true)) == Some(if sign == '+' then magnitude as int else -(magnitude as int))
  {
    DecodeRoundTrip(magnitude, true);
    var s := [sign] + SatoshisToBTC(magnitude, true);
    assert s[1..] == SatoshisToBTC(magnitude, true);
  }

  /**
   * The zero special case of the balance display agrees with the general
   * stripped rendering, and "0." is shown exactly for a zero balance.
   */
  lemma BalanceDisplayZero(balance: nat)
    ensures BalanceDisplay(balance) == SatoshisToBTC(balance, true)
    ensures BalanceDisplay(balance) == "0." <==> balance == 0
  {
    StrippedShape(0);
    DecodeRoundTrip(0, true);
    DecodeRoundTrip(balance, true);
  }

  /**
   * A whole number `k` of bitcoins shows as its digits and the point, with the
   * sign in front: one bitcoin received is "+1.", one sent is "-1.".
   */
  lemma WholeBitcoinAmounts(k: nat)
    ensures AmountDisplay(k * SatoshisPerBtc) == "+" + NatToString(k) + "."
    ensures k > 0 ==> AmountDisplay(-(k * SatoshisPerBtc)) == "-" + NatToString(k) + "."
    ensures k > 0 ==> BalanceDisplay(k * SatoshisPerBtc) == NatToString(k) + "."
  {
    WholeBitcoins(k);
  }

  /** Every balance display reads back as the balance. */
  lemma BalanceDisplayRoundTrip(balance: nat)
    ensures DecodeBTC(BalanceDisplay(balance)) == Some(balance)
  {
    BalanceDisplayZero(balance);
    DecodeRoundTrip(balance, true);
  }

  // ---------------------------------------------------------------------------
  // Properties of the fold
  // ---------------------------------------------------------------------------

  /**
   * Joining is pushing: one more line appends the separator and that line, so
   * the lines appear in order, separated once each.
   */
  lemma {:induction false} JoinAppend(lines: seq<string>, line: string, separator: string)
    requires lines != []
    ensures Join(lines + [line], separator) == Join(lines, separator) + separator + line
  {
    if |lines| == 1 {
      assert (lines + [line])[1..] == [line];
    } else {
      assert (lines + [line])[1..] == lines[1..] + [line];
      JoinAppend(lines[1..], line, separator);
    }
  }

  /** The running balance is additive: a prefix sum of the amounts. */
  lemma {:induction false} BalanceAppend(owned: seq<string>, a: seq<FetchedTx>, b: seq<FetchedTx>)
    ensures Balance(owned, a + b) == Balance(owned, a) + Balance(owned, b)
  {
    if b == [] {
      assert a + b == a;
    } else {
      assert (a + b)[..|a + b| - 1] == a + b[..|b| - 1];
      BalanceAppend(owned, a, b[..|b| - 1]);
    }
  }

  /** The j-th row of the table is the one pushed for transaction |fetched| - 1 - j. */
  lemma LedgerRowIs(owned: seq<string>, fetched: seq<FetchedTx>, j: nat)
    requires Renderable(owned, fetched) && j < |fetched|
    ensures |LedgerOf(owned, fetched)| == |fetched|
    ensures LedgerOf(owned, fetched)[j] == RowFor(owned, fetched, |fetched| - 1 - j)
  {
    ReversedAt(PushedRows(owned, fetched), j);
  }

  lemma ReversedAt<T>(s: seq<T>, j: nat)
    requires j < |s|
    ensures |Reversed(s)| == |s| && Reversed(s)[j] == s[|s| - 1 - j]
  {
  }

  /** The cells of the row for transaction m are the displays of its values. */
  lemma RowCells(owned: seq<string>, fetched: seq<FetchedTx>, m: nat, row: LedgerRow)
    requires Renderable(owned, fetched) && m < |fetched| && row == RowFor(owned, fetched, m)
    ensures Fee(fetched[m].tx) >= 0 && Balance(owned, fetched[..m + 1]) >= 0
    ensures
      && row.id == m
      && row.txid == fetched[m].txid
      && row.date == fetched[m].date
      && row.amount == AmountDisplay(Amount(owned, fetched[m].tx))
      && row.balance == BalanceDisplay(Balance(owned, fetched[..m + 1]))
      && row.fee == SatoshisToBTC(Fee(fetched[m].tx), false)
      && row.inputs == Join(InputDisplay(owned, fetched[m].tx.inputs), LineSeparator)
      && row.outputs == Join(Normalized(owned, fetched[m].tx).outputLines, LineSeparator)
      && row.description == ""
  {
    assert RenderableAt(owned, fetched, m);
  }

  /**
   * The row for transaction m reads back: its amount and fee as the
   * transaction's, its balance as the sum of the amounts of the first m + 1
   * transactions; its fee keeps all eight decimals.
   */
  lemma RowReadsBack(owned: seq<string>, fetched: seq<FetchedTx>, m: nat, row: LedgerRow)
    requires Renderable(owned, fetched) && m < |fetched| && row == RowFor(owned, fetched, m)
    ensures
      && DecodeSigned(row.amount) == Some(Amount(owned, fetched[m].tx))
      && DecodeBTC(row.balance) == Some(Balance(owned, fetched[..m + 1]))
      && DecodeBTC(row.fee) == Some(Fee(fetched[m].tx))
      && |row.fee| >= Decimals + 2 && row.fee[|row.fee| - Decimals - 1] == '.'
  {
    RowCells(owned, fetched, m, row);
    AmountCellReadsBack(row.amount, Amount(owned, fetched[m].tx));
    BalanceCellReadsBack(row.balance, Balance(owned, fetched[..m + 1]));
    FeeCellReadsBack(row.fee, Fee(fetched[m].tx));
  }

  /**
   * The j-th row of the table describes the transaction read in position
   * m = |fetched| - 1 - j: its id is m, its amount and fee read back as the
   * transaction's, its balance reads back as the sum of the amounts of the
   * first m + 1 transactions, and its fee keeps all eight decimals.
   */
  lemma LedgerRowAt(owned: seq<string>, fetched: seq<FetchedTx>, j: nat)
    requires Renderable(owned, fetched) && j < |fetched|
    ensures var row, m := LedgerOf(owned, fetched)[j], |fetched| - 1 - j;
      && row.id == m
      && row.txid == fetched[m].txid
      && row.date == fetched[m].date
      && DecodeSigned(row.amount) == Some(Amount(owned, fetched[m].tx))
      && DecodeBTC(row.balance) == Some(Balance(owned, fetched[..m + 1]))
      && DecodeBTC(row.fee) == Some(Fee(fetched[m].tx))
      && |row.fee| >= Decimals + 2 && row.fee[|row.fee| - Decimals - 1] == '.'
      && row.inputs == Join(InputDisplay(owned, fetched[m].tx.inputs), LineSeparator)
      && row.outputs == Join(Normalized(owned, fetched[m].tx).outputLines, LineSeparator)
      && row.description == ""
  {
    var m := |fetched| - 1 - j;
    LedgerRowIs(owned, fetched, j);
    RowCells(owned, fetched, m, LedgerOf(owned, fetched)[j]);
    RowReadsBack(owned, fetched, m, LedgerOf(owned, fetched)[j]);
  }

  lemma AmountCellReadsBack(cell: string, amount: int)
    requires cell == AmountDisplay(amount)
    ensures DecodeSigned(cell) == Some(amount)
  {
    AmountDisplayRoundTrip(amount);
  }

  lemma BalanceCellReadsBack(cell: string, balance: nat)
    requires cell == BalanceDisplay(balance)
    ensures DecodeBTC(cell) == Some(balance)
  {
    BalanceDisplayRoundTrip(balance);
  }

  lemma FeeCellReadsBack(cell: string, fee: nat)
    requires cell == SatoshisToBTC(fee, false)
    ensures DecodeBTC(cell) == Some(fee)
    ensures |cell| >= Decimals + 2 && cell[|cell| - Decimals - 1] == '.'
  {
    DecodeRoundTrip(fee, false);
    UnstrippedShape(fee);
  }

  /**
   * The table has one row per transaction, carries descending ids from
   * |fetched| - 1 down to 0, and its first row carries the final balance, the
   * sum of all amounts.
   */
  lemma LedgerOrder(owned: seq<string>, fetched: seq<FetchedTx>)
    requires Renderable(owned, fetched)
    ensures var rows := LedgerOf(owned, fetched);
      && |rows| == |fetched|
      && (forall j, j' :: 0 <= j < j' < |rows| ==> rows[j].id > rows[j'].id)
      && (rows != [] ==> rows[|rows| - 1].id == 0 && DecodeBTC(rows[0].balance) == Some(Balance(owned, fetched)))
  {
    var rows := LedgerOf(owned, fetched);
    forall j | 0 <= j < |rows|
      ensures rows[j].id == |fetched| - 1 - j
    {
      LedgerRowIs(owned, fetched, j);
    }
    if rows != [] {
      LedgerFinalBalance(owned, fetched);
    }
  }

  lemma LedgerFinalBalance(owned: seq<string>, fetched: seq<FetchedTx>)
    requires Renderable(owned, fetched) && fetched != []
    ensures DecodeBTC(LedgerOf(owned, fetched)[0].balance) == Some(Balance(owned, fetched))
  {
    var m := |fetched| - 1;
    var row := LedgerOf(owned, fetched)[0];
    LedgerRowIs(owned, fetched, 0);
    RowReadsBack(owned, fetched, m, row);
    assert fetched[..m + 1] == fetched;
  }
}
