/** The ABI type descriptors the signature parser produces (ethers' `ParamType`, the variants used). */
module AbiTypes {

  datatype ParamType =
    | Address
    | Bytes
    | Int(bits: nat)
    | Uint(bits: nat)
    | Bool
    | String
    | FixedBytes(size: nat)
    | Array(elem: ParamType)
    | FixedArray(elem: ParamType, size: nat)
    | Tuple(elems: seq<ParamType>)
}

/**
 `parse_function_parameters`: a best-effort reader of a Solidity-style
 signature such as `transfer(address,uint256)` or a bare tuple body such as
 `(address,uint256)` into a list of type descriptors.

 The source recurses without a limit and, on a fixed-size array token such as
 `uint256[3]`, recurses on the unchanged token forever. The model therefore
 carries `fuel`, one unit per nested call, and answers `Exhausted` where the
 source would still be recursing when the fuel runs out.
 */
module SignatureParser {

  import opened Wrappers
  import opened Strings
  import opened AbiTypes

  datatype Outcome<+T> = Done(value: T) | Exhausted

  /**
   `AsWritten` follows the source. `Corrected` differs in three places: the
   re-merge counts every `(` and `)` of a fragment instead of asking whether
   one is present; a dynamic-array token `T[]` recurses on `T` instead of on
   `replace("[]", "")`, which also strips the inner dimensions of `T[][]`; and
   a fixed-size array token recurses on the text before its last `[` (reading
   the size after it) instead of on `replace("[]", "")`, which leaves `T[N]`
   unchanged.
   */
  datatype Variant = AsWritten | Corrected

  /**
   The parameter list: the text after the first `(` (or the whole signature
   when there is none) with its last `)` removed. It never holds a character
   the signature lacks, and it is strictly shorter once the signature has a `(`.
   */
  function ParamBody(sig: string): (body: string)
  {
    match IndexOf(sig, '(')
    case Some(i) =>
      RemoveLast(sig[i + 1..], ')')
    case None => RemoveLast(sig, ')')
  }

  /** The state of the re-merge loop: tuple depth, buffered fragments, finished tokens. */
  datatype MergeState = MergeState(depth: int, complex: seq<string>, inputs: seq<string>)

  const MergeStart := MergeState(0, [], [])

  /**
   One fragment of the re-merge loop: a fragment holding `(` raises the depth
   before it is buffered, one holding `)` lowers it after, and the buffer is
   joined with commas into one token when the depth comes back to zero.
   */
  function MergeStep(st: MergeState, frag: string, variant: Variant): MergeState
  {
    var depth := st.depth + Opens(frag, variant);
    var complex := if depth > 0 then st.complex + [frag] else st.complex;
    var inputs := if depth > 0 then st.inputs else st.inputs + [frag];
    var closes := Closes(frag, variant);
    if closes > 0 then
      if depth > 0 && depth - closes <= 0 then MergeState(depth - closes, [], inputs + [JoinWith(complex, ',')])
      else MergeState(depth - closes, complex, inputs)
    else MergeState(depth, complex, inputs)
  }

  /** How much a fragment raises the depth: one if it holds a `(` as written, the number of `(`s corrected. */
  function Opens(frag: string, variant: Variant): nat
  {
    match variant
    case AsWritten => if '(' in frag then 1 else 0
    case Corrected => CountMatches(frag, "(")
  }

  /** How much a fragment lowers the depth, likewise for `)`. */
  function Closes(frag: string, variant: Variant): nat
  {
    match variant
    case AsWritten => if ')' in frag then 1 else 0
    case Corrected => CountMatches(frag, ")")
  }

  /** The loop state after the fragments `frags`, starting from `st`. */
  function MergeFold(st: MergeState, frags: seq<string>, variant: Variant): MergeState
  {
    if |frags| == 0 then st
    else MergeStep(MergeFold(st, frags[..|frags| - 1], variant), frags[|frags| - 1], variant)
  }

  /** The re-merged tokens; fragments still buffered at the end are lost. */
  function Remerge(frags: seq<string>, variant: Variant): seq<string>
  {
    MergeFold(MergeStart, frags, variant).inputs
  }

  /** The top-level tokens of a signature, re-merged only when its body holds a `(`. */
  function Tokens(sig: string, variant: Variant): seq<string>
  {
    var body := ParamBody(sig);
    var frags := SplitOn(body, ',');
    if '(' in body then Remerge(frags, variant) else frags
  }

  /** One element type as it is, several as a tuple. */
  function Collapse(ps: seq<ParamType>): ParamType
  {
    if |ps| == 1 then ps[0] else Tuple(ps)
  }

  /**
   The size of a fixed array. As written: the text after the first `[` (up
   to any next `[`) without `]`; corrected: the text after the last `[`
   without `]`.
   */
  function FixedArraySize(t: string, variant: Variant): Option<nat>
  {
    match variant
    case AsWritten =>
      var pieces := SplitOn(t, '[');
      if |pieces| < 2 then None else ParseUsize(ReplaceAll(pieces[1], "]", ""))
    case Corrected =>
      match LastIndexOf(t, '[')
      case None => None
      case Some(i) => ParseUsize(ReplaceAll(t[i + 1..], "]", ""))
  }

  /** What a dynamic-array token recurses on: every `[]` removed as written, the last one corrected. */
  function ArrayElementText(t: string, variant: Variant): string
  {
    match variant
    case AsWritten => ReplaceAll(t, "[]", "")
    case Corrected => if |t| >= 2 then t[..|t| - 2] else t
  }

  /** What a fixed-array token recurses on: every `[]` removed as written, the last `[...]` corrected. */
  function FixedElementText(t: string, variant: Variant): string
  {
    match variant
    case AsWritten => ReplaceAll(t, "[]", "")
    case Corrected =>
      match LastIndexOf(t, '[')
      case Some(i) => t[..i]
      case None => t
  }

  /** A width or size read from the rest of the token, or the default when it does not parse. */
  function WidthOr(rest: string, default: nat): nat
  {
    match ParseUsize(rest)
    case Some(n) => n
    case None => default
  }

  /**
   The signature's descriptors: `Done(None)` when none was produced,
   `Done(Some(ps))` with `ps` non-empty otherwise.
   */
  function Parse(sig: string, fuel: nat, variant: Variant): (r: Outcome<Option<seq<ParamType>>>)
    ensures r.Done? && r.value.Some? ==> |r.value.value| > 0
    decreases fuel, 2, 0
  {
    match ClassifyAll(Tokens(sig, variant), fuel, variant)
    case Exhausted => Exhausted
    case Done(ps) => Done(if |ps| == 0 then None else Some(ps))
  }

  /** The descriptors of `tokens` in order, leaving out the tokens that were dropped. */
  function ClassifyAll(tokens: seq<string>, fuel: nat, variant: Variant): Outcome<seq<ParamType>>
    decreases fuel, 1, |tokens|
  {
    if |tokens| == 0 then Done([])
    else
      match ClassifyAll(tokens[..|tokens| - 1], fuel, variant)
      case Exhausted => Exhausted
      case Done(ps) =>
        match Classify(tokens[|tokens| - 1], fuel, variant)
        case Exhausted => Exhausted
        case Done(None) => Done(ps)
        case Done(Some(p)) => Done(ps + [p])
  }

  /** The four names that are matched exactly, before any other rule. */
  function ExactType(t: string): Option<ParamType>
  {
    if t == "address" then Some(Address)
    else if t == "bytes" then Some(Bytes)
    else if t == "bool" then Some(Bool)
    else if t == "string" then Some(String)
    else None
  }

  predicate IsTupleToken(t: string) {
    StartsWith(t, "(") && !EndsWith(t, "]")
  }

  /**
   The last three rules: `int…`, `uint…` and `bytes…` with the width read from
   what is left once every occurrence of the prefix is removed.
   */
  function WidthType(t: string): Option<ParamType>
  {
    if StartsWith(t, "int") then Some(Int(WidthOr(ReplaceAll(t, "int", ""), 256)))
    else if StartsWith(t, "uint") then Some(Uint(WidthOr(ReplaceAll(t, "uint", ""), 256)))
    else if StartsWith(t, "bytes") then Some(FixedBytes(WidthOr(ReplaceAll(t, "bytes", ""), 32)))
    else None
  }

  /** How a nested parse is wrapped: as a tuple, a dynamic array or a fixed array of `size`. */
  datatype Wrapping = AsTuple | AsArray | AsFixedArray(size: nat)

  /**
   The descriptor a nested parse gives: a failed nested parse drops the
   parameter, and an exhausted one exhausts the whole parse.
   */
  function Nested(sub: Outcome<Option<seq<ParamType>>>, w: Wrapping): Outcome<Option<ParamType>>
  {
    match sub
    case Exhausted => Exhausted
    case Done(None) => Done(None)
    case Done(Some(ps)) =>
      match w
      case AsTuple => Done(Some(Tuple(ps)))
      case AsArray => Done(Some(Array(Collapse(ps))))
      case AsFixedArray(size) => Done(Some(FixedArray(Collapse(ps), size)))
  }

  /** One token, by the source's first-match-wins chain; `Done(None)` drops it. */
  function Classify(t: string, fuel: nat, variant: Variant): Outcome<Option<ParamType>>
    decreases fuel, 0, 0
  {
    if ExactType(t).Some? then Done(ExactType(t))
    else if IsTupleToken(t) then
      if fuel == 0 then Exhausted else Nested(Parse(t, fuel - 1, variant), AsTuple)
    else if EndsWith(t, "[]") then
      if fuel == 0 then Exhausted else Nested(Parse(ArrayElementText(t, variant), fuel - 1, variant), AsArray)
    else if EndsWith(t, "]") then
      match FixedArraySize(t, variant)
      case None => Done(None)
      case Some(size) =>
        if fuel == 0 then Exhausted
        else Nested(Parse(FixedElementText(t, variant), fuel - 1, variant), AsFixedArray(size))
    else Done(WidthType(t))
  }

  /** The re-merge loop of `parse_function_parameters`. */
  method RemergeFragments(fragments: seq<string>) returns (inputs: seq<string>)
    ensures inputs == Remerge(fragments, AsWritten)
  {
    var tupleDepth := 0;
    var complexInput: seq<string> := [];
    inputs := [];
    for i := 0 to |fragments|
      invariant MergeFold(MergeStart, fragments[..i], AsWritten) == MergeState(tupleDepth, complexInput, inputs)
    {
      var input := fragments[i];
      assert fragments[..i + 1][..i] == fragments[..i];
      if '(' in input {
        tupleDepth := tupleDepth + 1;
      }
      if tupleDepth > 0 {
        complexInput := complexInput + [input];
      } else {
        inputs := inputs + [input];
      }
      if ')' in input {
        tupleDepth := tupleDepth - 1;
        if tupleDepth == 0 {
          inputs := inputs + [JoinWith(complexInput, ',')];
          complexInput := [];
        }
      }
    }
    assert fragments[..|fragments|] == fragments;
  }

  lemma ExhaustedPrefix(tokens: seq<string>, k: nat, fuel: nat, variant: Variant)
    requires k <= |tokens| && ClassifyAll(tokens[..k], fuel, variant).Exhausted?
    ensures ClassifyAll(tokens, fuel, variant).Exhausted?
    decreases |tokens| - k
  {
    if k < |tokens| {
      assert tokens[..k + 1][..k] == tokens[..k];
      ExhaustedPrefix(tokens, k + 1, fuel, variant);
    } else {
      assert tokens[..k] == tokens;
    }
  }

  /**
   `parse_function_parameters`: take the parameter list, split and re-merge
   it, classify each token in order, and answer `None` when nothing was
   recognised.
   */
  method ParseFunctionParameters(functionSignature: string, fuel: nat) returns (r: Outcome<Option<seq<ParamType>>>)
    ensures r == Parse(functionSignature, fuel, AsWritten)
    decreases fuel, 4
  {
    var inputs := SplitParameters(functionSignature);
    var functionInputs := ClassifyTokens(inputs, fuel);
    r := match functionInputs
      case Exhausted => Exhausted
      case Done(ps) => if |ps| == 0 then Done(None) else Done(Some(ps));
  }

  /** The top-level parameter tokens: split on every comma, re-merged when a `(` is present. */
  method SplitParameters(functionSignature: string) returns (inputs: seq<string>)
    ensures inputs == Tokens(functionSignature, AsWritten)
  {
    var stringInputs := ParamBody(functionSignature);
    var tempInputs := SplitOn(stringInputs, ',');
    if '(' in stringInputs {
      inputs := RemergeFragments(tempInputs);
    } else {
      inputs := tempInputs;
    }
  }

  /** The classification loop: each token in order, the dropped ones left out. */
  method ClassifyTokens(inputs: seq<string>, fuel: nat) returns (r: Outcome<seq<ParamType>>)
    ensures r == ClassifyAll(inputs, fuel, AsWritten)
    decreases fuel, 3
  {
    var functionInputs: seq<ParamType> := [];
    for i := 0 to |inputs|
      invariant ClassifyAll(inputs[..i], fuel, AsWritten) == Done(functionInputs)
    {
      assert inputs[..i + 1][..i] == inputs[..i];
      var parsed := ClassifyToken(inputs[i], fuel);
      match parsed
      case Exhausted =>
        ExhaustedPrefix(inputs, i + 1, fuel, AsWritten);
        return Exhausted;
      case Done(None) =>
      case Done(Some(p)) =>
        functionInputs := functionInputs + [p];
    }
    assert inputs[..|inputs|] == inputs;
    r := Done(functionInputs);
  }

  /** The body of the classification loop for one token; `Done(None)` is the source's `continue`. */
  method ClassifyToken(solidityType: string, fuel: nat) returns (r: Outcome<Option<ParamType>>)
    ensures r == Classify(solidityType, fuel, AsWritten)
    decreases fuel, 2
  {
    ClassifyArms(solidityType, fuel, AsWritten);
    var exact := ExactType(solidityType);
    if exact.Some? {
      r := Done(exact);
    } else if StartsWith(solidityType, "(") && !EndsWith(solidityType, "]") {
      r := ClassifyTuple(solidityType, fuel);
    } else if EndsWith(solidityType, "[]") {
      r := ClassifyArray(solidityType, fuel);
    } else if EndsWith(solidityType, "]") {
      r := ClassifyFixedArray(solidityType, fuel);
    } else {
      r := Done(WidthType(solidityType));
    }
  }

  /** A nested parse of `text` wrapped as `w`; it takes one unit of fuel. */
  function NestedCase(text: string, w: Wrapping, fuel: nat, variant: Variant): Outcome<Option<ParamType>>
  {
    if fuel == 0 then Exhausted else Nested(Parse(text, fuel - 1, variant), w)
  }

  /** The tuple arm of `Classify`: the token is parsed again as a tuple body. */
  function TupleCase(t: string, fuel: nat, variant: Variant): Outcome<Option<ParamType>>
  {
    NestedCase(t, AsTuple, fuel, variant)
  }

  /** The dynamic-array arm of `Classify`: the element text is parsed again and wrapped in an array. */
  function ArrayCase(t: string, fuel: nat, variant: Variant): Outcome<Option<ParamType>>
  {
    NestedCase(ArrayElementText(t, variant), AsArray, fuel, variant)
  }

  /** The fixed-array arm of `Classify`: a size that parses is needed, then the element text is parsed again. */
  function FixedArrayCase(t: string, fuel: nat, variant: Variant): Outcome<Option<ParamType>>
  {
    match FixedArraySize(t, variant)
    case None => Done(None)
    case Some(size) => NestedCase(FixedElementText(t, variant), AsFixedArray(size), fuel, variant)
  }

  /** `Classify` is the first-match chain over the exact names, the three nested arms and the width rules. */
  lemma ClassifyArms(t: string, fuel: nat, variant: Variant)
    ensures Classify(t, fuel, variant) ==
      if ExactType(t).Some? then Done(ExactType(t))
      else if IsTupleToken(t) then TupleCase(t, fuel, variant)
      else if EndsWith(t, "[]") then ArrayCase(t, fuel, variant)
      else if EndsWith(t, "]") then FixedArrayCase(t, fuel, variant)
      else Done(WidthType(t))
  {
  }

  /** A token starting with `(` (and not ending with `]`) is parsed again as a tuple body. */
  method ClassifyTuple(solidityType: string, fuel: nat) returns (r: Outcome<Option<ParamType>>)
    ensures r == TupleCase(solidityType, fuel, AsWritten)
    decreases fuel, 1
  {
    if fuel == 0 {
      return Exhausted;
    }
    var complexInputs := ParseFunctionParameters(solidityType, fuel - 1);
    match complexInputs
    case Exhausted => r := Exhausted;
    case Done(None) => r := Done(None);
    case Done(Some(ps)) => r := Done(Some(Tuple(ps)));
  }

  /** A token ending with `[]` is parsed again with every `[]` removed. */
  method ClassifyArray(solidityType: string, fuel: nat) returns (r: Outcome<Option<ParamType>>)
    ensures r == ArrayCase(solidityType, fuel, AsWritten)
    decreases fuel, 1
  {
    r := ArrayOf(ReplaceAll(solidityType, "[]", ""), AsArray, fuel);
  }

  /**
   A token ending with `]` but not `[]` needs a size that parses; it is then
   parsed again with every `[]` removed, which leaves `T[N]` as it was.
   */
  method ClassifyFixedArray(solidityType: string, fuel: nat) returns (r: Outcome<Option<ParamType>>)
    ensures r == FixedArrayCase(solidityType, fuel, AsWritten)
    decreases fuel, 1
  {
    var size := FixedArraySize(solidityType, AsWritten);
    if size.None? {
      r := Done(None);
    } else {
      r := ArrayOf(ReplaceAll(solidityType, "[]", ""), AsFixedArray(size.value), fuel);
    }
  }

  /**
   The array arms of the loop body: parse the element text again, then wrap
   one element type as it is, several as a tuple, in a dynamic array or a
   fixed one.
   */
  method ArrayOf(arrayText: string, w: Wrapping, fuel: nat) returns (r: Outcome<Option<ParamType>>)
    requires !w.AsTuple?
    ensures r == NestedCase(arrayText, w, fuel, AsWritten)
    decreases fuel, 0
  {
    if fuel == 0 {
      return Exhausted;
    }
    var arrayType := ParseFunctionParameters(arrayText, fuel - 1);
    match arrayType
    case Exhausted => r := Exhausted;
    case Done(None) => r := Done(None);
    case Done(Some(ps)) =>
      var elem := if |ps| == 1 then ps[0] else Tuple(ps);
      r := if w.AsFixedArray? then Done(Some(FixedArray(elem, w.size))) else Done(Some(Array(elem)));
  }
}
