// The bitmask width scan: given the instruction whose output feeds a masking
// operation, guess how many bytes of the word the mask keeps.

module Bitmask {

  import opened Strings

  /** An operand of an operation: a literal word, or the result of another operation. */
  datatype WrappedInput = Raw(word: nat) | Opcode(op: WrappedOpcode)

  /** An operation by opcode name, with its operands. */
  datatype WrappedOpcode = WrappedOpcode(name: string, inputs: seq<WrappedInput>)

  /**
   An executed instruction: its input words, each carried as its hex encoding,
   and the operations its output went into.
  */
  datatype Instruction = Instruction(inputs: seq<string>, outputOperations: seq<WrappedOpcode>)

  /** The default width, the EVM word size in bytes. */
  const DefaultWidth: nat := 32

  /** Operands whose value does not come from call data; the mask is taken to be one of these. */
  predicate Qualifies(input: WrappedInput)
  {
    input.Opcode? && input.op.name != "CALLDATALOAD" && input.op.name != "CALLDATACOPY"
  }

  /** Mask operations for which the width is measured. */
  predicate Measured(mask: WrappedOpcode)
  {
    mask.name == "AND" || mask.name == "OR"
  }

  /** The byte pattern that a mask keeps: `ff` for `AND`, `00` for `OR`. */
  function KeptByte(mask: WrappedOpcode): (b: string)
    requires Measured(mask)
    ensures |b| == 2 && b[0] == b[1]
    ensures b[0] == (if mask.name == "AND" then 'f' else '0')
  {
    if mask.name == "AND" then "ff" else "00"
  }

  /** The instruction input at every qualifying position of a measured mask is there to be read. */
  predicate Readable(mask: WrappedOpcode, words: seq<string>)
  {
    Measured(mask) ==> forall i :: 0 <= i < |mask.inputs| && Qualifies(mask.inputs[i]) ==> i < |words|
  }

  /** The width after looking at the first `n` operands of the mask. */
  function WidthAfter(mask: WrappedOpcode, words: seq<string>, n: nat): (w: nat)
    requires n <= |mask.inputs| && Readable(mask, words)
    ensures !Measured(mask) ==> w == DefaultWidth
  {
    if n == 0 then DefaultWidth
    else if Qualifies(mask.inputs[n - 1]) && Measured(mask) then CountMatches(words[n - 1], KeptByte(mask))
    else WidthAfter(mask, words, n - 1)
  }

  /** The width the scan settles on for an instruction. */
  function MaskWidth(instruction: Instruction): nat
    requires |instruction.outputOperations| > 0
    requires Readable(instruction.outputOperations[0], instruction.inputs)
  {
    var mask := instruction.outputOperations[0];
    WidthAfter(mask, instruction.inputs, |mask.inputs|)
  }

  /**
   `convert_bitmask`: scans the operands of the first operation fed by the
   instruction, overwriting the width at each qualifying operand. No candidate
   type is ever produced; the width is returned beside the (empty) list so
   that the scan can be stated.
  */
  method ConvertBitmask(instruction: Instruction) returns (potentialTypes: seq<string>, typeByteSize: nat)
    requires |instruction.outputOperations| > 0
    requires Readable(instruction.outputOperations[0], instruction.inputs)
    ensures potentialTypes == []
    ensures typeByteSize == MaskWidth(instruction)
  {
    var mask := instruction.outputOperations[0];
    potentialTypes := [];
    typeByteSize := 32;
    for i := 0 to |mask.inputs|
      invariant typeByteSize == WidthAfter(mask, instruction.inputs, i)
    {
      match mask.inputs[i] {
        case Raw(_) =>
        case Opcode(opcode) =>
          if !(opcode.name == "CALLDATALOAD" || opcode.name == "CALLDATACOPY") {
            if mask.name == "AND" {
              typeByteSize := CountMatches(instruction.inputs[i], "ff");
            } else if mask.name == "OR" {
              typeByteSize := CountMatches(instruction.inputs[i], "00");
            }
          }
      }
    }
  }

  /** With no qualifying operand among the first `n`, the width stays at its default. */
  lemma {:induction false} NothingQualifies(mask: WrappedOpcode, words: seq<string>, n: nat)
    requires n <= |mask.inputs| && Readable(mask, words)
    requires forall i :: 0 <= i < n ==> !Qualifies(mask.inputs[i])
    ensures WidthAfter(mask, words, n) == DefaultWidth
  {
    if n > 0 {
      NothingQualifies(mask, words, n - 1);
    }
  }

  /**
   The last qualifying operand decides: the width is the count of kept bytes
   in the instruction input at that position, whatever came before it.
  */
  lemma {:induction false} LastQualifyingWins(mask: WrappedOpcode, words: seq<string>, n: nat, j: nat)
    requires n <= |mask.inputs| && Readable(mask, words) && Measured(mask)
    requires j < n && Qualifies(mask.inputs[j])
    requires forall i :: j < i < n ==> !Qualifies(mask.inputs[i])
    ensures j < |words|
    ensures WidthAfter(mask, words, n) == CountMatches(words[j], KeptByte(mask))
  {
    if n - 1 > j {
      LastQualifyingWins(mask, words, n - 1, j);
    }
  }

  /** The width is the default or the count at some qualifying operand. */
  lemma {:induction false} WidthSource(mask: WrappedOpcode, words: seq<string>, n: nat)
    requires n <= |mask.inputs| && Readable(mask, words)
    ensures WidthAfter(mask, words, n) == DefaultWidth
            || exists j :: 0 <= j < n && j < |words| && Qualifies(mask.inputs[j]) && Measured(mask)
                 && WidthAfter(mask, words, n) == CountMatches(words[j], KeptByte(mask))
  {
    if n > 0 && !(Qualifies(mask.inputs[n - 1]) && Measured(mask)) {
      WidthSource(mask, words, n - 1);
    }
  }

  /**
   An input word as `encode_hex` writes it: at most 64 hex digits, possibly
   after a `0x`.
  */
  predicate HexWord(w: string)
  {
    |w| <= 2 * DefaultWidth || (|w| <= 2 * DefaultWidth + 2 && w[..2] == "0x")
  }

  /** A kept-byte pattern matches at most once per two hex digits of a word; a leading `0x` never matches. */
  lemma WordCountBound(w: string, mask: WrappedOpcode)
    requires Measured(mask) && HexWord(w)
    ensures CountMatches(w, KeptByte(mask)) <= DefaultWidth
  {
    var pat := KeptByte(mask);
    if |w| > 2 * DefaultWidth {
      assert w[0] == w[..2][0] && w[1] == w[..2][1];
      assert !MatchesFrom(w, pat, 0, 1);
      assert !MatchesFrom(w, pat, 1, 0);
      assert CountFrom(w, pat, 0) == CountFrom(w, pat, 2);
    }
  }

  /** When every input word is an encoded word, the width never exceeds the word size. */
  lemma WordWidthBound(instruction: Instruction)
    requires |instruction.outputOperations| > 0
    requires Readable(instruction.outputOperations[0], instruction.inputs)
    requires forall i :: 0 <= i < |instruction.inputs| ==> HexWord(instruction.inputs[i])
    ensures MaskWidth(instruction) <= DefaultWidth
  {
    var mask := instruction.outputOperations[0];
    WidthSource(mask, instruction.inputs, |mask.inputs|);
    if MaskWidth(instruction) != DefaultWidth {
      var j :| 0 <= j < |mask.inputs| && j < |instruction.inputs| && Qualifies(mask.inputs[j]) && Measured(mask)
               && MaskWidth(instruction) == CountMatches(instruction.inputs[j], KeptByte(mask));
      WordCountBound(instruction.inputs[j], mask);
    }
  }

  /** Adding an operand to the mask: a qualifying one sets the width, any other leaves it as it was. */
  lemma ExtendOperands(mask: WrappedOpcode, words: seq<string>, input: WrappedInput)
    requires Readable(mask, words)
    requires Measured(mask) && Qualifies(input) ==> |mask.inputs| < |words|
    ensures Readable(mask.(inputs := mask.inputs + [input]), words)
    ensures WidthAfter(mask.(inputs := mask.inputs + [input]), words, |mask.inputs| + 1)
            == if Measured(mask) && Qualifies(input) then CountMatches(words[|mask.inputs|], KeptByte(mask))
               else WidthAfter(mask, words, |mask.inputs|)
  {
    var longer := mask.(inputs := mask.inputs + [input]);
    assert forall i :: 0 <= i < |mask.inputs| ==> longer.inputs[i] == mask.inputs[i];
    PrefixWidth(mask, longer, words, |mask.inputs|);
  }

  /** The width after `n` operands depends only on those operands. */
  lemma {:induction false} PrefixWidth(mask: WrappedOpcode, longer: WrappedOpcode, words: seq<string>, n: nat)
    requires longer.name == mask.name
    requires n <= |mask.inputs| && n <= |longer.inputs|
    requires Readable(mask, words) && Readable(longer, words)
    requires forall i :: 0 <= i < n ==> longer.inputs[i] == mask.inputs[i]
    ensures WidthAfter(longer, words, n) == WidthAfter(mask, words, n)
  {
    if n > 0 {
      PrefixWidth(mask, longer, words, n - 1);
    }
  }
}
