/**
 * Per-transaction normalisation (the body of the loop in `processTransactions`):
 * inputs and outputs are classified as owned or external by membership in the
 * owned-address list, owned and total sums are taken on each side, the display
 * lines are built, and the signed amount and the fee are computed.
 *
 * The recursive functions below are the specification; the method `Normalize`
 * performs the source's two loops and is proved to compute them.
 */
module Normalization {
  import opened Wrappers
  import opened Btc

  /** The output an input spends: its address and its value in satoshis. */
  datatype PrevOut = PrevOut(addr: string, value: nat)

  /** A transaction input; `prevOut` is `None` when the data source gives none. */
  datatype TxInput = TxInput(prevOut: Option<PrevOut>)

  datatype TxOutput = TxOutput(addr: string, value: nat)

  /** The fields of a fetched transaction that the ledger reads. */
  datatype RawTx = RawTx(inputs: seq<TxInput>, outputs: seq<TxOutput>)

  /** What one transaction contributes to the ledger. */
  datatype NormalizedTx = NormalizedTx(
    amount: int,
    fee: int,
    inputLines: seq<string>,
    outputLines: seq<string>)

  /** The pseudo-address of an input without a previous output. */
  const MissingInputAddr: string := "Input"

  /** Input display when no input is owned and there is more than one input. */
  const MultipleInputsLine: string := "Multiple Inputs"

  /** Input display when no input is owned and there is at most one input. */
  const SingleInputLine: string := "Input"

  /** Owned-address membership, `myAddresses.includes(addr)`. */
  predicate IsOwned(owned: seq<string>, addr: string) {
    addr in owned
  }

  function InputAddr(input: TxInput): string {
    if input.prevOut.Some? then input.prevOut.value.addr else MissingInputAddr
  }

  function InputValue(input: TxInput): nat {
    if input.prevOut.Some? then input.prevOut.value.value else 0
  }

  /** One display line, "<addr>: <amount> BTC", with the amount unstripped. */
  function EntryLine(addr: string, value: nat): string {
    addr + ": " + SatoshisToBTC(value, false) + " BTC"
  }

  function InputLine(input: TxInput): string {
    EntryLine(InputAddr(input), InputValue(input))
  }

  function OutputLine(output: TxOutput): string {
    EntryLine(output.addr, output.value)
  }

  // ---------------------------------------------------------------------------
  // Inputs
  // ---------------------------------------------------------------------------

  /** Sum of the values of all inputs. */
  function InputSum(inputs: seq<TxInput>): nat {
    if inputs == [] then 0 else InputSum(inputs[..|inputs| - 1]) + InputValue(inputs[|inputs| - 1])
  }

  /** The inputs whose address is owned, in input order. */
  function OwnedInputs(owned: seq<string>, inputs: seq<TxInput>): seq<TxInput> {
    if inputs == [] then []
    else
      var last := inputs[|inputs| - 1];
      OwnedInputs(owned, inputs[..|inputs| - 1]) + (if IsOwned(owned, InputAddr(last)) then [last] else [])
  }

  /** Sum of the values of the owned inputs. */
  function OwnedInputSum(owned: seq<string>, inputs: seq<TxInput>): nat {
    if inputs == [] then 0
    else
      var last := inputs[|inputs| - 1];
      OwnedInputSum(owned, inputs[..|inputs| - 1]) + (if IsOwned(owned, InputAddr(last)) then InputValue(last) else 0)
  }

  /** One display line per owned input, in input order. */
  function OwnedInputLines(owned: seq<string>, inputs: seq<TxInput>): seq<string> {
    if inputs == [] then []
    else
      var last := inputs[|inputs| - 1];
      OwnedInputLines(owned, inputs[..|inputs| - 1]) + (if IsOwned(owned, InputAddr(last)) then [InputLine(last)] else [])
  }

  predicate HasOwnedInput(owned: seq<string>, inputs: seq<TxInput>) {
    exists k :: 0 <= k < |inputs| && IsOwned(owned, InputAddr(inputs[k]))
  }

  /** The input display: the owned inputs' lines, or a sentinel when no input is owned. */
  function InputDisplay(owned: seq<string>, inputs: seq<TxInput>): seq<string> {
    if HasOwnedInput(owned, inputs) then OwnedInputLines(owned, inputs)
    else if |inputs| > 1 then [MultipleInputsLine]
    else [SingleInputLine]
  }

  // ---------------------------------------------------------------------------
  // Outputs
  // ---------------------------------------------------------------------------

  function OutputSum(outputs: seq<TxOutput>): nat {
    if outputs == [] then 0 else OutputSum(outputs[..|outputs| - 1]) + outputs[|outputs| - 1].value
  }

  /** The outputs whose address is owned, in output order. */
  function OwnedOutputs(owned: seq<string>, outputs: seq<TxOutput>): seq<TxOutput> {
    if outputs == [] then []
    else
      var last := outputs[|outputs| - 1];
      OwnedOutputs(owned, outputs[..|outputs| - 1]) + (if IsOwned(owned, last.addr) then [last] else [])
  }

  function OwnedOutputSum(owned: seq<string>, outputs: seq<TxOutput>): nat {
    if outputs == [] then 0
    else
      var last := outputs[|outputs| - 1];
      OwnedOutputSum(owned, outputs[..|outputs| - 1]) + (if IsOwned(owned, last.addr) then last.value else 0)
  }

  /**
   * The output display: every output when `listAll` (some input is owned),
   * otherwise only the owned outputs; in output order.
   */
  function OutputLines(owned: seq<string>, outputs: seq<TxOutput>, listAll: bool): seq<string> {
    if outputs == [] then []
    else
      var last := outputs[|outputs| - 1];
      OutputLines(owned, outputs[..|outputs| - 1], listAll)
        + (if listAll || IsOwned(owned, last.addr) then [OutputLine(last)] else [])
  }

  // ---------------------------------------------------------------------------
  // The normalised record
  // ---------------------------------------------------------------------------

  /** Net effect on the owner: owned outputs received minus owned inputs spent. */
  function Amount(owned: seq<string>, tx: RawTx): int {
    OwnedOutputSum(owned, tx.outputs) - OwnedInputSum(owned, tx.inputs)
  }

  /** Network fee: everything spent minus everything paid out. */
  function Fee(tx: RawTx): int {
    InputSum(tx.inputs) - OutputSum(tx.outputs)
  }

  function Normalized(owned: seq<string>, tx: RawTx): NormalizedTx {
    NormalizedTx(
      Amount(owned, tx),
      Fee(tx),
      InputDisplay(owned, tx.inputs),
      OutputLines(owned, tx.outputs, HasOwnedInput(owned, tx.inputs)))
  }

  /**
   * The loop over the inputs: owned and total sums, the owned inputs' lines,
   * and whether every input is external.
   */
  method ScanInputs(owned: seq<string>, txInputs: seq<TxInput>)
    returns (inputSumOwnAddresses: nat, inputSumAllAddresses: nat, inputs: seq<string>, hasOnlyExternalInputs: bool)
    ensures inputSumOwnAddresses == OwnedInputSum(owned, txInputs)
    ensures inputSumAllAddresses == InputSum(txInputs)
    ensures inputs == OwnedInputLines(owned, txInputs)
    ensures hasOnlyExternalInputs == !HasOwnedInput(owned, txInputs)
  {
    inputSumOwnAddresses, inputSumAllAddresses := 0, 0;
    inputs := [];
    hasOnlyExternalInputs := true;
    var i := 0;
    while i < |txInputs|
      invariant 0 <= i <= |txInputs|
      invariant inputSumOwnAddresses == OwnedInputSum(owned, txInputs[..i])
      invariant inputSumAllAddresses == InputSum(txInputs[..i])
      invariant inputs == OwnedInputLines(owned, txInputs[..i])
      invariant hasOnlyExternalInputs == !HasOwnedInput(owned, txInputs[..i])
    {
      var input := txInputs[i];
      var inputAddress := if input.prevOut.Some? then input.prevOut.value.addr else MissingInputAddr;
      var value := if input.prevOut.Some? then input.prevOut.value.value else 0;
      if inputAddress in owned {
        inputSumOwnAddresses := inputSumOwnAddresses + value;
        inputs := inputs + [EntryLine(inputAddress, value)];
        hasOnlyExternalInputs := false;
      }
      inputSumAllAddresses := inputSumAllAddresses + value;
      InputStep(owned, txInputs, i);
      i := i + 1;
    }
    assert txInputs[..i] == txInputs;
  }

  /**
   * The loop over the outputs: owned and total sums, and the lines of every
   * output when `listAll`, of the owned outputs otherwise.
   */
  method ScanOutputs(owned: seq<string>, txOutputs: seq<TxOutput>, listAll: bool)
    returns (outputSumOwnAddresses: nat, outputSumAllAddresses: nat, outputs: seq<string>)
    ensures outputSumOwnAddresses == OwnedOutputSum(owned, txOutputs)
    ensures outputSumAllAddresses == OutputSum(txOutputs)
    ensures outputs == OutputLines(owned, txOutputs, listAll)
  {
    outputSumOwnAddresses, outputSumAllAddresses := 0, 0;
    outputs := [];
    var j := 0;
    while j < |txOutputs|
      invariant 0 <= j <= |txOutputs|
      invariant outputSumOwnAddresses == OwnedOutputSum(owned, txOutputs[..j])
      invariant outputSumAllAddresses == OutputSum(txOutputs[..j])
      invariant outputs == OutputLines(owned, txOutputs[..j], listAll)
    {
      var output := txOutputs[j];
      var outputAddress := output.addr;
      var value := output.value;
      if outputAddress in owned {
        outputSumOwnAddresses := outputSumOwnAddresses + value;
      }
      outputSumAllAddresses := outputSumAllAddresses + value;
      if listAll {
        outputs := outputs + [EntryLine(outputAddress, value)];
      } else if outputAddress in owned {
        outputs := outputs + [EntryLine(outputAddress, value)];
      }
      OutputStep(owned, txOutputs, j, listAll);
      j := j + 1;
    }
    assert txOutputs[..j] == txOutputs;
  }

  /** The body of the loop in `processTransactions`, up to the row it builds. */
  method Normalize(owned: seq<string>, tx: RawTx) returns (n: NormalizedTx)
    ensures n == Normalized(owned, tx)
  {
    var amount: int := 0;
    var inputSumOwnAddresses, inputSumAllAddresses, inputs, hasOnlyExternalInputs := ScanInputs(owned, tx.inputs);
    amount := amount - inputSumOwnAddresses;

    if hasOnlyExternalInputs {
      inputs := if |tx.inputs| > 1 then [MultipleInputsLine] else [SingleInputLine];
    }

    var outputSumOwnAddresses, outputSumAllAddresses, outputs := ScanOutputs(owned, tx.outputs, !hasOnlyExternalInputs);
    amount := amount + outputSumOwnAddresses;

    var fee := inputSumAllAddresses as int - outputSumAllAddresses;
    n := NormalizedTx(amount, fee, inputs, outputs);
  }

  /** What the input loop adds to each specification function at input `i`. */
  lemma InputStep(owned: seq<string>, inputs: seq<TxInput>, i: nat)
    requires i < |inputs|
    ensures var x, isOwned := inputs[i], IsOwned(owned, InputAddr(inputs[i]));
      && InputSum(inputs[..i + 1]) == InputSum(inputs[..i]) + InputValue(x)
      && OwnedInputSum(owned, inputs[..i + 1])
         == OwnedInputSum(owned, inputs[..i]) + (if isOwned then InputValue(x) else 0)
      && OwnedInputLines(owned, inputs[..i + 1])
         == OwnedInputLines(owned, inputs[..i]) + (if isOwned then [InputLine(x)] else [])
      && HasOwnedInput(owned, inputs[..i + 1]) == (HasOwnedInput(owned, inputs[..i]) || isOwned)
  {
    var x := inputs[i];
    assert inputs[..i + 1][..i] == inputs[..i];
    assert inputs[..i] + [x] == inputs[..i + 1];
    if !IsOwned(owned, InputAddr(x)) {
      HasOwnedInputExtend(owned, inputs[..i], x);
    } else {
      assert inputs[..i + 1][i] == x;
    }
  }

  /** What the output loop adds to each specification function at output `j`. */
  lemma OutputStep(owned: seq<string>, outputs: seq<TxOutput>, j: nat, listAll: bool)
    requires j < |outputs|
    ensures var o := outputs[j];
      && OutputSum(outputs[..j + 1]) == OutputSum(outputs[..j]) + o.value
      && OwnedOutputSum(owned, outputs[..j + 1])
         == OwnedOutputSum(owned, outputs[..j]) + (if IsOwned(owned, o.addr) then o.value else 0)
      && OutputLines(owned, outputs[..j + 1], listAll)
         == OutputLines(owned, outputs[..j], listAll) + (if listAll || IsOwned(owned, o.addr) then [OutputLine(o)] else [])
  {
    assert outputs[..j + 1][..j] == outputs[..j];
  }

  /** Appending an external input does not make an input owned. */
  lemma HasOwnedInputExtend(owned: seq<string>, inputs: seq<TxInput>, input: TxInput)
    requires !IsOwned(owned, InputAddr(input))
    ensures HasOwnedInput(owned, inputs + [input]) == HasOwnedInput(owned, inputs)
  {
    if HasOwnedInput(owned, inputs + [input]) {
      var k :| 0 <= k < |inputs + [input]| && IsOwned(owned, InputAddr((inputs + [input])[k]));
      assert k < |inputs| && (inputs + [input])[k] == inputs[k];
    }
    if HasOwnedInput(owned, inputs) {
      var k :| 0 <= k < |inputs| && IsOwned(owned, InputAddr(inputs[k]));
      assert (inputs + [input])[k] == inputs[k];
    }
  }

  // ---------------------------------------------------------------------------
  // Properties of the classification
  // ---------------------------------------------------------------------------

  lemma {:induction false} InputSumAppend(a: seq<TxInput>, b: seq<TxInput>)
    ensures InputSum(a + b) == InputSum(a) + InputSum(b)
  {
    if b == [] {
      assert a + b == a;
    } else {
      assert (a + b)[..|a + b| - 1] == a + b[..|b| - 1];
      InputSumAppend(a, b[..|b| - 1]);
    }
  }

  lemma {:induction false} OwnedInputSumAppend(owned: seq<string>, a: seq<TxInput>, b: seq<TxInput>)
    ensures OwnedInputSum(owned, a + b) == OwnedInputSum(owned, a) + OwnedInputSum(owned, b)
  {
    if b == [] {
      assert a + b == a;
    } else {
      assert (a + b)[..|a + b| - 1] == a + b[..|b| - 1];
      OwnedInputSumAppend(owned, a, b[..|b| - 1]);
    }
  }

  lemma {:induction false} OutputSumAppend(a: seq<TxOutput>, b: seq<TxOutput>)
    ensures OutputSum(a + b) == OutputSum(a) + OutputSum(b)
  {
    if b == [] {
      assert a + b == a;
    } else {
      assert (a + b)[..|a + b| - 1] == a + b[..|b| - 1];
      OutputSumAppend(a, b[..|b| - 1]);
    }
  }

  /**
   * The owned input sum is the sum over exactly the inputs whose address is in
   * the owned list; it never exceeds the sum over all inputs.
   */
  lemma {:induction false} OwnedInputsSum(owned: seq<string>, inputs: seq<TxInput>)
    ensures OwnedInputSum(owned, inputs) == InputSum(OwnedInputs(owned, inputs)) <= InputSum(inputs)
  {
    if inputs != [] {
      var prefix, last := inputs[..|inputs| - 1], inputs[|inputs| - 1];
      OwnedInputsSum(owned, prefix);
      var rest := if IsOwned(owned, InputAddr(last)) then [last] else [];
      InputSumAppend(OwnedInputs(owned, prefix), rest);
      assert [last][..0] == [];
    }
  }

  /** `OwnedInputs` keeps exactly the inputs whose address is owned. */
  lemma {:induction false} OwnedInputsMembers(owned: seq<string>, inputs: seq<TxInput>)
    ensures forall x :: x in OwnedInputs(owned, inputs) ==> x in inputs && IsOwned(owned, InputAddr(x))
    ensures forall k :: 0 <= k < |inputs| && IsOwned(owned, InputAddr(inputs[k])) ==> inputs[k] in OwnedInputs(owned, inputs)
  {
    if inputs != [] {
      var prefix, last := inputs[..|inputs| - 1], inputs[|inputs| - 1];
      OwnedInputsMembers(owned, prefix);
      assert inputs == prefix + [last];
    }
  }

  /** The owned output sum is the sum over exactly the owned outputs and never exceeds the total. */
  lemma {:induction false} OwnedOutputsSum(owned: seq<string>, outputs: seq<TxOutput>)
    ensures OwnedOutputSum(owned, outputs) == OutputSum(OwnedOutputs(owned, outputs)) <= OutputSum(outputs)
  {
    if outputs != [] {
      var prefix, last := outputs[..|outputs| - 1], outputs[|outputs| - 1];
      OwnedOutputsSum(owned, prefix);
      var rest := if IsOwned(owned, last.addr) then [last] else [];
      OutputSumAppend(OwnedOutputs(owned, prefix), rest);
      assert [last][..0] == [];
    }
  }

  /** `OwnedOutputs` keeps exactly the outputs whose address is owned. */
  lemma {:induction false} OwnedOutputsMembers(owned: seq<string>, outputs: seq<TxOutput>)
    ensures forall x :: x in OwnedOutputs(owned, outputs) ==> x in outputs && IsOwned(owned, x.addr)
    ensures forall k :: 0 <= k < |outputs| && IsOwned(owned, outputs[k].addr) ==> outputs[k] in OwnedOutputs(owned, outputs)
  {
    if outputs != [] {
      var prefix, last := outputs[..|outputs| - 1], outputs[|outputs| - 1];
      OwnedOutputsMembers(owned, prefix);
      assert outputs == prefix + [last];
    }
  }

  /** Some input is owned exactly when the owned-input display lines are not empty. */
  lemma {:induction false} HasOwnedInputIff(owned: seq<string>, inputs: seq<TxInput>)
    ensures HasOwnedInput(owned, inputs) <==> OwnedInputLines(owned, inputs) != []
    ensures !HasOwnedInput(owned, inputs) ==> OwnedInputSum(owned, inputs) == 0
  {
    if inputs != [] {
      var prefix, last := inputs[..|inputs| - 1], inputs[|inputs| - 1];
      HasOwnedInputIff(owned, prefix);
      assert inputs == prefix + [last];
      if !IsOwned(owned, InputAddr(last)) {
        HasOwnedInputExtend(owned, prefix, last);
      }
    }
  }

  /** The owned-input lines are one line per owned input, in input order. */
  lemma {:induction false} OwnedInputLinesOrder(owned: seq<string>, inputs: seq<TxInput>)
    ensures var ownedInputs := OwnedInputs(owned, inputs);
      && |OwnedInputLines(owned, inputs)| == |ownedInputs|
      && forall k :: 0 <= k < |ownedInputs| ==> OwnedInputLines(owned, inputs)[k] == InputLine(ownedInputs[k])
  {
    if inputs != [] {
      OwnedInputLinesOrder(owned, inputs[..|inputs| - 1]);
    }
  }

  /**
   * The input display policy: when no input is owned, the single sentinel line
   * "Multiple Inputs" (more than one input) or "Input"; otherwise one line
   * "<addr>: <amount> BTC" per owned input, in input order.
   */
  lemma InputDisplayPolicy(owned: seq<string>, inputs: seq<TxInput>)
    ensures var display, ownedInputs := InputDisplay(owned, inputs), OwnedInputs(owned, inputs);
      && (!HasOwnedInput(owned, inputs) ==>
            display == (if |inputs| > 1 then ["Multiple Inputs"] else ["Input"]))
      && (HasOwnedInput(owned, inputs) ==>
            ownedInputs != []
            && |display| == |ownedInputs|
            && forall k :: 0 <= k < |display| ==>
                 display[k] == InputAddr(ownedInputs[k]) + ": " + SatoshisToBTC(InputValue(ownedInputs[k]), false) + " BTC")
  {
    HasOwnedInputIff(owned, inputs);
    OwnedInputLinesOrder(owned, inputs);
  }

  /** Listing every output gives one line per output, in output order. */
  lemma {:induction false} AllOutputLines(owned: seq<string>, outputs: seq<TxOutput>)
    ensures |OutputLines(owned, outputs, true)| == |outputs|
    ensures forall k :: 0 <= k < |outputs| ==> OutputLines(owned, outputs, true)[k] == OutputLine(outputs[k])
  {
    if outputs != [] {
      var prefix := outputs[..|outputs| - 1];
      AllOutputLines(owned, prefix);
      forall k | 0 <= k < |prefix|
        ensures OutputLines(owned, outputs, true)[k] == OutputLine(outputs[k])
      {
        assert outputs[k] == prefix[k];
      }
    }
  }

  /** Listing only owned outputs is listing every output of the owned ones, in order. */
  lemma {:induction false} OwnedOutputLines(owned: seq<string>, outputs: seq<TxOutput>)
    ensures OutputLines(owned, outputs, false) == OutputLines(owned, OwnedOutputs(owned, outputs), true)
  {
    if outputs != [] {
      var prefix, last := outputs[..|outputs| - 1], outputs[|outputs| - 1];
      OwnedOutputLines(owned, prefix);
      if IsOwned(owned, last.addr) {
        var ownedOutputs := OwnedOutputs(owned, outputs);
        assert ownedOutputs[..|ownedOutputs| - 1] == OwnedOutputs(owned, prefix);
        assert ownedOutputs[|ownedOutputs| - 1] == last;
      } else {
        assert OwnedOutputs(owned, outputs) == OwnedOutputs(owned, prefix) + [];
        assert OwnedOutputs(owned, prefix) + [] == OwnedOutputs(owned, prefix);
        assert OutputLines(owned, prefix, false) + [] == OutputLines(owned, prefix, false);
      }
    }
  }

  /**
   * The output display policy: with some owned input every output is listed in
   * order, otherwise exactly the owned outputs in order.
   */
  lemma OutputDisplayPolicy(owned: seq<string>, tx: RawTx)
    ensures var display := Normalized(owned, tx).outputLines;
      var shown := if HasOwnedInput(owned, tx.inputs) then tx.outputs else OwnedOutputs(owned, tx.outputs);
      && |display| == |shown|
      && forall k :: 0 <= k < |shown| ==>
           display[k] == shown[k].addr + ": " + SatoshisToBTC(shown[k].value, false) + " BTC"
  {
    if HasOwnedInput(owned, tx.inputs) {
      AllOutputLines(owned, tx.outputs);
    } else {
      OwnedOutputLines(owned, tx.outputs);
      AllOutputLines(owned, OwnedOutputs(owned, tx.outputs));
    }
  }

  /**
   * An input without a previous output adds nothing to any sum, wherever it
   * stands among the inputs.
   */
  lemma MissingPrevOutIsNeutral(owned: seq<string>, before: seq<TxInput>, after: seq<TxInput>)
    ensures var inputs := before + [TxInput(None)] + after;
      && InputSum(inputs) == InputSum(before + after)
      && OwnedInputSum(owned, inputs) == OwnedInputSum(owned, before + after)
  {
    var missing := [TxInput(None)];
    InputSumAppend(before + missing, after);
    InputSumAppend(before, missing);
    InputSumAppend(before, after);
    OwnedInputSumAppend(owned, before + missing, after);
    OwnedInputSumAppend(owned, before, missing);
    OwnedInputSumAppend(owned, before, after);
    assert missing[..0] == [];
  }

  /** When every address on both sides is owned, the owner's net amount is minus the fee. */
  lemma SelfTransferPaysOnlyFee(owned: seq<string>, tx: RawTx)
    requires forall k :: 0 <= k < |tx.inputs| ==> IsOwned(owned, InputAddr(tx.inputs[k]))
    requires forall k :: 0 <= k < |tx.outputs| ==> IsOwned(owned, tx.outputs[k].addr)
    ensures Amount(owned, tx) == -Fee(tx)
  {
    AllInputsOwned(owned, tx.inputs);
    AllOutputsOwned(owned, tx.outputs);
  }

  lemma {:induction false} AllInputsOwned(owned: seq<string>, inputs: seq<TxInput>)
    requires forall k :: 0 <= k < |inputs| ==> IsOwned(owned, InputAddr(inputs[k]))
    ensures OwnedInputSum(owned, inputs) == InputSum(inputs)
  {
    if inputs != [] {
      AllInputsOwned(owned, inputs[..|inputs| - 1]);
    }
  }

  lemma {:induction false} AllOutputsOwned(owned: seq<string>, outputs: seq<TxOutput>)
    requires forall k :: 0 <= k < |outputs| ==> IsOwned(owned, outputs[k].addr)
    ensures OwnedOutputSum(owned, outputs) == OutputSum(outputs)
  {
    if outputs != [] {
      AllOutputsOwned(owned, outputs[..|outputs| - 1]);
    }
  }

  /**
   * A transaction with no owned input only receives: its amount is the owned
   * output sum, never negative; with no owned output either it is 0.
   */
  lemma IncomingOnly(owned: seq<string>, tx: RawTx)
    requires !HasOwnedInput(owned, tx.inputs)
    ensures Amount(owned, tx) == OwnedOutputSum(owned, tx.outputs) >= 0
    ensures (forall k :: 0 <= k < |tx.outputs| ==> !IsOwned(owned, tx.outputs[k].addr)) ==> Amount(owned, tx) == 0
  {
    HasOwnedInputIff(owned, tx.inputs);
    OwnedOutputsSum(owned, tx.outputs);
    if forall k :: 0 <= k < |tx.outputs| ==> !IsOwned(owned, tx.outputs[k].addr) {
      NoOwnedOutputs(owned, tx.outputs);
    }
  }

  lemma {:induction false} NoOwnedOutputs(owned: seq<string>, outputs: seq<TxOutput>)
    requires forall k :: 0 <= k < |outputs| ==> !IsOwned(owned, outputs[k].addr)
    ensures OwnedOutputSum(owned, outputs) == 0
  {
    if outputs != [] {
      NoOwnedOutputs(owned, outputs[..|outputs| - 1]);
    }
  }
}
