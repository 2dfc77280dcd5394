/**
 `display`: the decoded arguments of a call as indented text lines. Each value
 gives its own lines, in input order. A scalar takes one line tagged with its
 type. A byte string is cut into 64-character pieces, one line each. An array
 or tuple is bracketed, with its elements one indentation level deeper.

 The colouring of the type tags is left out. The hexadecimal text of
 addresses and byte strings is taken as it is given.
 */
module ValueDisplay {

  import opened Strings

  /**
   A decoded value (ethers' `Token`, the variants `display` handles). The
   text of an address or byte string is its hexadecimal rendering without
   `0x`. Integers carry the value whose decimal text is shown.
   */
  datatype Token =
    | Address(hex: string)
    | Int(value: nat)
    | Uint(value: nat)
    | String(text: string)
    | Bool(b: bool)
    | FixedBytes(hex: string)
    | Bytes(hex: string)
    | FixedArray(elems: seq<Token>)
    | Array(elems: seq<Token>)
    | Tuple(elems: seq<Token>)

  /** How much deeper the elements of an array or tuple are indented. */
  const Indent := "   "

  /** How many characters of a byte string's text go on one line. */
  const BytesWidth: nat := 64

  predicate IsScalar(t: Token) {
    t.Address? || t.Int? || t.Uint? || t.String? || t.Bool?
  }

  predicate IsComposite(t: Token) {
    t.FixedArray? || t.Array? || t.Tuple?
  }

  /** `chars().chunks(width)`: consecutive pieces of `width` characters, the last possibly shorter. */
  function Chunks(s: string, width: nat): seq<string>
    requires width > 0
    decreases |s|
  {
    if |s| == 0 then []
    else if |s| <= width then [s]
    else [s[..width]] + Chunks(s[width..], width)
  }

  /** The single line of a scalar. */
  function ScalarLine(t: Token, prefix: string): string
    requires IsScalar(t)
  {
    match t
    case Address(hex) => prefix + "address" + " 0x" + hex
    case Int(v) => prefix + "int    " + " " + Decimal(v)
    case Uint(v) => prefix + "uint   " + " " + Decimal(v)
    case String(s) => prefix + "string " + " " + s
    case Bool(b) => prefix + "bool   " + (if b then " true" else " false")
  }

  /** The line of the `k`-th piece of a byte string: only the first carries the tag and `0x`. */
  function ByteLine(prefix: string, k: nat, chunk: string): string
  {
    if k == 0 then prefix + "bytes  " + " 0x" + chunk
    else prefix + "       " + "   " + chunk
  }

  function ByteLines(prefix: string, chunks: seq<string>): seq<string>
  {
    if |chunks| == 0 then []
    else ByteLines(prefix, chunks[..|chunks| - 1]) + [ByteLine(prefix, |chunks| - 1, chunks[|chunks| - 1])]
  }

  /** The opening and closing brackets of a composite, `(`/`)` for a tuple and `[`/`]` for arrays. */
  function Open(t: Token): string
  {
    if t.Tuple? then "(" else "["
  }

  function Close(t: Token): string
  {
    if t.Tuple? then ")" else "]"
  }

  /** The lines of one value. */
  function RenderToken(t: Token, prefix: string): seq<string>
    decreases t, 1
  {
    match t
    case FixedBytes(hex) => ByteLines(prefix, Chunks(hex, BytesWidth))
    case Bytes(hex) => ByteLines(prefix, Chunks(hex, BytesWidth))
    case FixedArray(elems) => CompositeLines(t, elems, prefix)
    case Array(elems) => CompositeLines(t, elems, prefix)
    case Tuple(elems) => CompositeLines(t, elems, prefix)
    case _ => [ScalarLine(t, prefix)]
  }

  /** An empty composite on one line; otherwise an opening line, the elements one level in, a closing line. */
  function CompositeLines(t: Token, elems: seq<Token>, prefix: string): seq<string>
    requires IsComposite(t) && elems == t.elems
    decreases t, 0
  {
    if |elems| == 0 then [prefix + Open(t) + Close(t)]
    else [prefix + Open(t)] + Render(elems, prefix + Indent) + [prefix + Close(t)]
  }

  /** The lines of a list of values, one value after another. */
  function Render(ts: seq<Token>, prefix: string): seq<string>
    decreases ts
  {
    if |ts| == 0 then []
    else Render(ts[..|ts| - 1], prefix) + RenderToken(ts[|ts| - 1], prefix)
  }

  /** `display(inputs, prefix)`. */
  method Display(inputs: seq<Token>, prefix: string) returns (output: seq<string>)
    ensures output == Render(inputs, prefix)
    decreases inputs
  {
    output := [];
    for i := 0 to |inputs|
      invariant output == Render(inputs[..i], prefix)
    {
      var input := inputs[i];
      ghost var before := output;
      assert inputs[..i + 1][..i] == inputs[..i];
      if input.FixedBytes? || input.Bytes? {
        var bytes := Chunks(input.hex, BytesWidth);
        for k := 0 to |bytes|
          invariant output == Render(inputs[..i], prefix) + ByteLines(prefix, bytes[..k])
        {
          assert bytes[..k + 1][..k] == bytes[..k];
          if k == 0 {
            output := output + [prefix + "bytes  " + " 0x" + bytes[k]];
          } else {
            output := output + [prefix + "       " + "   " + bytes[k]];
          }
        }
        assert bytes[..|bytes|] == bytes;
        assert output == before + RenderToken(input, prefix);
      } else if IsComposite(input) {
        if |input.elems| == 0 {
          output := output + [prefix + Open(input) + Close(input)];
        } else {
          output := output + [prefix + Open(input)];
          var inner := Display(input.elems, prefix + Indent);
          output := output + inner;
          output := output + [prefix + Close(input)];
        }
        assert output == before + CompositeLines(input, input.elems, prefix);
      } else {
        match input {
          case Address(hex) => output := output + [prefix + "address" + " 0x" + hex];
          case Int(v) => output := output + [prefix + "int    " + " " + Decimal(v)];
          case Uint(v) => output := output + [prefix + "uint   " + " " + Decimal(v)];
          case String(s) => output := output + [prefix + "string " + " " + s];
          case Bool(b) =>
            if b {
              output := output + [prefix + "bool   " + " true"];
            } else {
              output := output + [prefix + "bool   " + " false"];
            }
        }
        assert output == before + [ScalarLine(input, prefix)];
      }
    }
    assert inputs[..|inputs|] == inputs;
  }

  // ---------------------------------------------------------------------------
  // Byte strings

  /** The pieces written one after another. */
  function Flatten(pieces: seq<string>): string
  {
    if |pieces| == 0 then "" else pieces[0] + Flatten(pieces[1..])
  }

  /** The pieces give the text back, in order. */
  lemma {:induction false} ChunksFlatten(s: string, width: nat)
    requires width > 0
    ensures Flatten(Chunks(s, width)) == s
    decreases |s|
  {
    if |s| > width {
      ChunksFlatten(s[width..], width);
      assert ([s[..width]] + Chunks(s[width..], width))[1..] == Chunks(s[width..], width);
      assert s == s[..width] + s[width..];
    }
  }

  /** No piece is empty or longer than `width`, and all but the last are exactly `width` long. */
  lemma {:induction false} ChunksSizes(s: string, width: nat)
    requires width > 0
    ensures forall k :: 0 <= k < |Chunks(s, width)| ==> 0 < |Chunks(s, width)[k]| <= width
    ensures forall k :: 0 <= k < |Chunks(s, width)| - 1 ==> |Chunks(s, width)[k]| == width
    decreases |s|
  {
    if |s| > width {
      ChunksSizes(s[width..], width);
      var rest := Chunks(s[width..], width);
      assert forall k :: 1 <= k < |rest| + 1 ==> ([s[..width]] + rest)[k] == rest[k - 1];
    }
  }

  /** A text of `n` characters is cut into ceil(n / 64) pieces of 64. */
  lemma {:induction false} ChunksCount(s: string)
    ensures |Chunks(s, BytesWidth)| == (|s| + BytesWidth - 1) / BytesWidth
    decreases |s|
  {
    if |s| > BytesWidth {
      ChunksCount(s[BytesWidth..]);
    }
  }

  /** One line per piece: the first tagged `bytes` with `0x`, the others only indented to match. */
  lemma {:induction false} ByteLinesEach(prefix: string, chunks: seq<string>)
    ensures |ByteLines(prefix, chunks)| == |chunks|
    ensures forall k :: 0 <= k < |chunks| ==> ByteLines(prefix, chunks)[k] == ByteLine(prefix, k, chunks[k])
    decreases |chunks|
  {
    if |chunks| > 0 {
      ByteLinesEach(prefix, chunks[..|chunks| - 1]);
    }
  }

  /**
   A byte string gives ceil(|hex| / 64) lines, none for an empty one. The
   `k`-th line shows the `k`-th piece of 64 characters. Only the first line
   carries the `bytes` tag and `0x`. The pieces, in order, give the whole text.
   */
  lemma BytesLines(t: Token, prefix: string)
    requires t.Bytes? || t.FixedBytes?
    ensures |RenderToken(t, prefix)| == |Chunks(t.hex, BytesWidth)| == (|t.hex| + BytesWidth - 1) / BytesWidth
    ensures Flatten(Chunks(t.hex, BytesWidth)) == t.hex
    ensures forall k :: 0 <= k < |Chunks(t.hex, BytesWidth)| ==>
              RenderToken(t, prefix)[k] == ByteLine(prefix, k, Chunks(t.hex, BytesWidth)[k])
              && 0 < |Chunks(t.hex, BytesWidth)[k]| <= BytesWidth
  {
    ChunksFlatten(t.hex, BytesWidth);
    ChunksSizes(t.hex, BytesWidth);
    ChunksCount(t.hex);
    ByteLinesEach(prefix, Chunks(t.hex, BytesWidth));
  }

  // ---------------------------------------------------------------------------
  // Order and indentation

  /**
   A scalar takes one line; an empty array is `prefix[]` and an empty tuple
   `prefix()`; a list of values gives their lines one value after another.
   */
  lemma OneLineValues(t: Token, prefix: string)
    ensures IsScalar(t) ==> RenderToken(t, prefix) == [ScalarLine(t, prefix)]
    ensures IsComposite(t) && |t.elems| == 0 ==>
              RenderToken(t, prefix) == [prefix + (if t.Tuple? then "()" else "[]")]
    ensures Render([t], prefix) == RenderToken(t, prefix)
  {
    assert [t][..0] == [];
    if IsComposite(t) && |t.elems| == 0 {
      CompositeToken(t, prefix);
      assert Open(t) + Close(t) == (if t.Tuple? then "()" else "[]");
      assert prefix + Open(t) + Close(t) == prefix + (Open(t) + Close(t));
    }
  }

  /** The values of `a` and then of `b` give the lines of `a` and then those of `b`. */
  lemma {:induction false} RenderAppend(a: seq<Token>, b: seq<Token>, prefix: string)
    ensures Render(a + b, prefix) == Render(a, prefix) + Render(b, prefix)
    decreases |b|
  {
    if |b| > 0 {
      var n := |b| - 1;
      assert (a + b)[..|a + b| - 1] == a + b[..n];
      assert (a + b)[|a + b| - 1] == b[n];
      RenderAppend(a, b[..n], prefix);
    } else {
      assert a + b == a;
    }
  }

  /** `prefix` put in front of every line. */
  function Indented(prefix: string, lines: seq<string>): (r: seq<string>)
    ensures |r| == |lines|
    ensures forall k :: 0 <= k < |lines| ==> r[k] == prefix + lines[k]
  {
    if |lines| == 0 then []
    else Indented(prefix, lines[..|lines| - 1]) + [prefix + lines[|lines| - 1]]
  }

  lemma IndentedAppend(prefix: string, a: seq<string>, b: seq<string>)
    ensures Indented(prefix, a + b) == Indented(prefix, a) + Indented(prefix, b)
  {
  }

  lemma IndentedTwice(p: string, q: string, lines: seq<string>)
    ensures Indented(p, Indented(q, lines)) == Indented(p + q, lines)
  {
    forall k | 0 <= k < |lines| ensures p + (q + lines[k]) == (p + q) + lines[k] {
    }
  }

  /** Putting `p` in front of a line of three parts. */
  lemma Shifted(p: string, a: string, b: string, c: string)
    ensures p + a + b + c == p + ("" + a + b + c)
  {
  }

  lemma ScalarShift(t: Token, prefix: string)
    requires IsScalar(t)
    ensures ScalarLine(t, prefix) == prefix + ScalarLine(t, "")
  {
    match t
    case Address(hex) => Shifted(prefix, "address", " 0x", hex);
    case Int(v) => Shifted(prefix, "int    ", " ", Decimal(v));
    case Uint(v) => Shifted(prefix, "uint   ", " ", Decimal(v));
    case String(s) => Shifted(prefix, "string ", " ", s);
    case Bool(b) =>
      var word := if b then " true" else " false";
      Shifted(prefix, "bool   ", word, "");
      assert prefix + "bool   " + word + "" == prefix + "bool   " + word;
      assert "" + "bool   " + word + "" == "" + "bool   " + word;
  }

  lemma ByteLineShift(prefix: string, k: nat, chunk: string)
    ensures ByteLine(prefix, k, chunk) == prefix + ByteLine("", k, chunk)
  {
    if k == 0 {
      Shifted(prefix, "bytes  ", " 0x", chunk);
    } else {
      Shifted(prefix, "       ", "   ", chunk);
    }
  }

  lemma {:induction false} ByteLinesShift(prefix: string, chunks: seq<string>)
    ensures ByteLines(prefix, chunks) == Indented(prefix, ByteLines("", chunks))
  {
    ByteLinesEach(prefix, chunks);
    ByteLinesEach("", chunks);
    forall k | 0 <= k < |chunks|
      ensures ByteLines(prefix, chunks)[k] == prefix + ByteLines("", chunks)[k]
    {
      ByteLineShift(prefix, k, chunks[k]);
    }
  }

  /** Prefixing a framed block prefixes its frame and its body. */
  lemma IndentedFrame(p: string, a: string, body: seq<string>, b: string)
    ensures Indented(p, [a] + body + [b]) == [p + a] + Indented(p, body) + [p + b]
  {
    IndentedAppend(p, [a] + body, [b]);
    IndentedAppend(p, [a], body);
  }

  /** The lines of a composite value. */
  lemma CompositeToken(t: Token, prefix: string)
    requires IsComposite(t)
    ensures RenderToken(t, prefix) == CompositeLines(t, t.elems, prefix)
  {
  }

  lemma CompositeShift(t: Token, prefix: string)
    requires IsComposite(t) && |t.elems| > 0
    requires Render(t.elems, prefix + Indent) == Indented(prefix + Indent, Render(t.elems, ""))
    requires Render(t.elems, Indent) == Indented(Indent, Render(t.elems, ""))
    ensures CompositeLines(t, t.elems, prefix) == Indented(prefix, CompositeLines(t, t.elems, ""))
  {
    var inner := Render(t.elems, "");
    var o, c := Open(t), Close(t);
    assert "" + Indent == Indent && "" + o == o && "" + c == c;
    assert CompositeLines(t, t.elems, "") == [o] + Indented(Indent, inner) + [c];
    IndentedTwice(prefix, Indent, inner);
    IndentedFrame(prefix, o, Indented(Indent, inner), c);
  }

  /**
   Every value is laid out the same way whatever the prefix: its lines at
   `prefix` are its lines at no prefix with `prefix` put in front. Hence every
   line starts with `prefix`, and nesting only adds indentation.
   */
  lemma {:induction false} RenderShift(ts: seq<Token>, prefix: string)
    ensures Render(ts, prefix) == Indented(prefix, Render(ts, ""))
    decreases ts, 0
  {
    if |ts| > 0 {
      var n := |ts| - 1;
      RenderShift(ts[..n], prefix);
      RenderTokenShift(ts[n], prefix);
      IndentedAppend(prefix, Render(ts[..n], ""), RenderToken(ts[n], ""));
    }
  }

  lemma {:induction false} RenderTokenShift(t: Token, prefix: string)
    ensures RenderToken(t, prefix) == Indented(prefix, RenderToken(t, ""))
    decreases t, 1
  {
    if IsScalar(t) {
      ScalarShift(t, prefix);
    } else if t.Bytes? || t.FixedBytes? {
      ByteLinesShift(prefix, Chunks(t.hex, BytesWidth));
    } else if |t.elems| == 0 {
      CompositeToken(t, prefix);
      CompositeToken(t, "");
      assert "" + Open(t) + Close(t) == Open(t) + Close(t);
      assert prefix + Open(t) + Close(t) == prefix + (Open(t) + Close(t));
    } else {
      RenderShift(t.elems, prefix + Indent);
      RenderShift(t.elems, Indent);
      CompositeShift(t, prefix);
      CompositeToken(t, prefix);
      CompositeToken(t, "");
    }
  }

  /** Every line of `display(inputs, prefix)` starts with `prefix`. */
  lemma EveryLinePrefixed(ts: seq<Token>, prefix: string)
    ensures forall k :: 0 <= k < |Render(ts, prefix)| ==> StartsWith(Render(ts, prefix)[k], prefix)
  {
    RenderShift(ts, prefix);
    forall k | 0 <= k < |Render(ts, prefix)| ensures StartsWith(Render(ts, prefix)[k], prefix) {
      assert (prefix + Render(ts, "")[k])[..|prefix|] == prefix;
    }
  }

  // ---------------------------------------------------------------------------
  // Line counts

  /** How many lines a value takes: one per scalar, one per piece of a byte string, two around a composite. */
  function LineCount(t: Token): nat
    decreases t, 1
  {
    match t
    case FixedBytes(hex) => (|hex| + BytesWidth - 1) / BytesWidth
    case Bytes(hex) => (|hex| + BytesWidth - 1) / BytesWidth
    case FixedArray(elems) => if |elems| == 0 then 1 else 2 + LineCounts(elems)
    case Array(elems) => if |elems| == 0 then 1 else 2 + LineCounts(elems)
    case Tuple(elems) => if |elems| == 0 then 1 else 2 + LineCounts(elems)
    case _ => 1
  }

  function LineCounts(ts: seq<Token>): nat
    decreases ts, 0
  {
    if |ts| == 0 then 0 else LineCounts(ts[..|ts| - 1]) + LineCount(ts[|ts| - 1])
  }

  /** The lines of a list of values number as the counts say, whatever the prefix. */
  lemma {:induction false} RenderCount(ts: seq<Token>, prefix: string)
    ensures |Render(ts, prefix)| == LineCounts(ts)
    decreases ts, 0
  {
    if |ts| > 0 {
      RenderCount(ts[..|ts| - 1], prefix);
      RenderTokenCount(ts[|ts| - 1], prefix);
    }
  }

  lemma {:induction false} RenderTokenCount(t: Token, prefix: string)
    ensures |RenderToken(t, prefix)| == LineCount(t)
    decreases t, 1
  {
    if t.Bytes? || t.FixedBytes? {
      BytesLines(t, prefix);
    } else if IsComposite(t) && |t.elems| > 0 {
      RenderCount(t.elems, prefix + Indent);
      CompositeToken(t, prefix);
    }
  }

  /**
   A non-empty composite is framed by its own brackets at `prefix`, with its
   elements' lines, each one indentation level deeper, in between.
   */
  lemma CompositeFrame(t: Token, prefix: string)
    requires IsComposite(t) && |t.elems| > 0
    ensures |RenderToken(t, prefix)| == LineCounts(t.elems) + 2
    ensures RenderToken(t, prefix)[0] == prefix + Open(t)
    ensures RenderToken(t, prefix)[|RenderToken(t, prefix)| - 1] == prefix + Close(t)
    ensures forall k :: 1 <= k < |RenderToken(t, prefix)| - 1 ==>
              StartsWith(RenderToken(t, prefix)[k], prefix + Indent)
  {
    RenderCount(t.elems, prefix + Indent);
    EveryLinePrefixed(t.elems, prefix + Indent);
    CompositeToken(t, prefix);
    var lines := RenderToken(t, prefix);
    var inner := Render(t.elems, prefix + Indent);
    assert lines == [prefix + Open(t)] + inner + [prefix + Close(t)];
    forall k | 1 <= k < |lines| - 1 ensures StartsWith(lines[k], prefix + Indent) {
      assert lines[k] == inner[k - 1];
    }
  }
}
