/**
 * Small transactions worked through the model: a spend from an owned address,
 * a receipt with only external inputs, a single external input, and the
 * "Input" pseudo-address when it is itself owned; and the rendering of a
 * small fee.
 */
module Scenarios {
  import opened Wrappers
  import opened Btc
  import opened Normalization

  // ---------------------------------------------------------------------------
  // A rendering
  // ---------------------------------------------------------------------------

  /** A fee of 1000 satoshis is padded to eight decimals. */
  lemma SmallFee()
    ensures SatoshisToBTC(1000, false) == "0.00001000"
  {
    assert NatToString(1000) == "1000";
  }

  // ---------------------------------------------------------------------------
  // The specification functions on one or two inputs and outputs
  // ---------------------------------------------------------------------------

  lemma OneInput(owned: seq<string>, x: TxInput)
    ensures InputSum([x]) == InputValue(x)
    ensures OwnedInputSum(owned, [x]) == if IsOwned(owned, InputAddr(x)) then InputValue(x) else 0
    ensures OwnedInputLines(owned, [x]) == if IsOwned(owned, InputAddr(x)) then [InputLine(x)] else []
    ensures HasOwnedInput(owned, [x]) == IsOwned(owned, InputAddr(x))
  {
    assert [x][..0] == [];
    assert [x][0] == x;
  }

  lemma TwoExternalInputs(owned: seq<string>, x: TxInput, y: TxInput)
    requires !IsOwned(owned, InputAddr(x)) && !IsOwned(owned, InputAddr(y))
    ensures InputSum([x, y]) == InputValue(x) + InputValue(y)
    ensures OwnedInputSum(owned, [x, y]) == 0
    ensures !HasOwnedInput(owned, [x, y])
  {
    OneInput(owned, x);
    assert [x, y][..1] == [x];
    assert forall k :: 0 <= k < 2 ==> [x, y][k] == x || [x, y][k] == y;
  }

  lemma OneOutput(owned: seq<string>, o: TxOutput, listAll: bool)
    ensures OutputSum([o]) == o.value
    ensures OwnedOutputSum(owned, [o]) == if IsOwned(owned, o.addr) then o.value else 0
    ensures OutputLines(owned, [o], listAll) == if listAll || IsOwned(owned, o.addr) then [OutputLine(o)] else []
  {
    assert [o][..0] == [];
  }

  lemma OwnedThenExternalOutput(owned: seq<string>, o: TxOutput, p: TxOutput)
    requires IsOwned(owned, o.addr) && !IsOwned(owned, p.addr)
    ensures OutputSum([o, p]) == o.value + p.value
    ensures OwnedOutputSum(owned, [o, p]) == o.value
    ensures OutputLines(owned, [o, p], false) == [OutputLine(o)]
  {
    OneOutput(owned, o, false);
    assert [o, p][..1] == [o];
  }

  // ---------------------------------------------------------------------------
  // Transactions
  // ---------------------------------------------------------------------------

  /**
   * One owned input of `v` satoshis and one external output of `w`: the owner
   * sends `v`, both sides are listed in full since an input is owned, and the
   * fee is the difference.
   */
  lemma SpendToExternal(owned: seq<string>, a: string, v: nat, b: string, w: nat)
    requires a in owned && b !in owned
    ensures Normalized(owned, RawTx([TxInput(Some(PrevOut(a, v)))], [TxOutput(b, w)]))
         == NormalizedTx(-(v as int), v as int - w, [EntryLine(a, v)], [EntryLine(b, w)])
  {
    OneInput(owned, TxInput(Some(PrevOut(a, v))));
    OneOutput(owned, TxOutput(b, w), true);
  }

  /**
   * Two external inputs and outputs `o` (owned) and `p` (external): the inputs
   * show as "Multiple Inputs", only `o` is listed, and the owner receives
   * `o.value`.
   */
  lemma ReceiveFromExternal(owned: seq<string>, x: PrevOut, y: PrevOut, o: TxOutput, p: TxOutput)
    requires x.addr !in owned && y.addr !in owned && o.addr in owned && p.addr !in owned
    ensures Normalized(owned, RawTx([TxInput(Some(x)), TxInput(Some(y))], [o, p]))
         == NormalizedTx(o.value, x.value + y.value - o.value - p.value, ["Multiple Inputs"], [OutputLine(o)])
  {
    TwoExternalInputs(owned, TxInput(Some(x)), TxInput(Some(y)));
    OwnedThenExternalOutput(owned, o, p);
  }

  /**
   * A single external input shows as the sentinel "Input", even though it has
   * an address of its own.
   */
  lemma SingleExternalInput(owned: seq<string>, x: PrevOut, o: TxOutput)
    requires x.addr !in owned && o.addr in owned
    ensures Normalized(owned, RawTx([TxInput(Some(x))], [o]))
         == NormalizedTx(o.value, x.value - o.value, ["Input"], [OutputLine(o)])
  {
    OneInput(owned, TxInput(Some(x)));
    OneOutput(owned, o, false);
  }

  /**
   * An input without a previous output has the pseudo-address "Input"; when
   * "Input" is in the owned list that input counts as owned, with value 0, so
   * its line is shown, every output is listed, and the fee is minus the output's value.
   */
  lemma OwnedPseudoAddress(owned: seq<string>, o: TxOutput)
    requires MissingInputAddr in owned && o.addr !in owned
    ensures Normalized(owned, RawTx([TxInput(None)], [o]))
         == NormalizedTx(0, -(o.value as int), [EntryLine("Input", 0)], [OutputLine(o)])
  {
    OneInput(owned, TxInput(None));
    OneOutput(owned, o, true);
  }
}
