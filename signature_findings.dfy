/**
 Three families of signatures that `parse_function_parameters` gets wrong,
 each shown for the code as written and proved right for the corrected
 variant of the parser:
 - a fixed-size array `T[n]`, on which the parser never stops recursing;
 - a nested dynamic array `T[][]`, which loses a dimension;
 - a tuple nested at the edge of another, as in `(a,(b,c))`, whose closing
   `))` lowers the depth by one only, so the whole parameter is lost.
 */
module SignatureFindings {

  import opened Wrappers
  import opened Strings
  import opened AbiTypes
  import opened SignatureParser
  import opened SignatureProofs
  import opened SignatureShapes

  /** `name(t)` has the one token `t` when `t` holds no bracket and no comma. */
  lemma CallOneToken(name: string, t: string, variant: Variant)
    requires '(' !in name && '(' !in t && ',' !in t
    ensures Tokens(Call(name, [t]), variant) == [t]
  {
    assert Call(name, [t]) == name + "(" + t + ")";
    CallBody(name, t);
    IndexOfFirst(t, ',');
  }

  /** The answer for `name(t)` is the answer for its one token. */
  lemma CallOneParse(name: string, t: string, fuel: nat, variant: Variant)
    requires '(' !in name && '(' !in t && ',' !in t
    ensures Parse(Call(name, [t]), fuel, variant) ==
      match Classify(t, fuel, variant)
      case Exhausted => Exhausted
      case Done(None) => Done(None)
      case Done(Some(p)) => Done(Some([p]))
  {
    CallOneToken(name, t, variant);
    ClassifyAllSingle(t, fuel, variant);
  }

  /** A token without brackets or commas is a signature whose one token is itself. */
  lemma BareParse(t: string, fuel: nat, variant: Variant)
    requires '(' !in t && ')' !in t && ',' !in t
    ensures Parse(t, fuel, variant) ==
      match Classify(t, fuel, variant)
      case Exhausted => Exhausted
      case Done(None) => Done(None)
      case Done(Some(p)) => Done(Some([p]))
  {
    SingleToken(t, variant);
    ClassifyAllSingle(t, fuel, variant);
  }

  /** A token ending in `[]` that is not an exact name is handed to the dynamic-array rule. */
  lemma ArrayRule(t: string, fuel: nat, variant: Variant, sub: Outcome<Option<seq<ParamType>>>)
    requires EndsWith(t, "[]") && ExactType(t).None? && fuel >= 1
    requires Parse(ArrayElementText(t, variant), fuel - 1, variant) == sub
    ensures Classify(t, fuel, variant) == Nested(sub, AsArray)
  {
    assert t[|t| - 2..][1] == t[|t| - 1];
    assert !IsTupleToken(t);
  }

  /** A token ending in `]` but not `[]` whose size reads is handed to the fixed-array rule. */
  lemma FixedRule(t: string, size: nat, fuel: nat, variant: Variant, sub: Outcome<Option<seq<ParamType>>>)
    requires EndsWith(t, "]") && !EndsWith(t, "[]") && ExactType(t).None?
    requires FixedArraySize(t, variant) == Some(size) && fuel >= 1
    requires Parse(FixedElementText(t, variant), fuel - 1, variant) == sub
    ensures Classify(t, fuel, variant) == Nested(sub, AsFixedArray(size))
  {
    assert !IsTupleToken(t);
  }

  // ---------------------------------------------------------------------------
  // Fixed-size arrays: `T[n]`

  /** `w[n]`: a scalar name with one fixed dimension. */
  function FixedText(w: string, n: nat): string
  {
    w + "[" + Decimal(n) + "]"
  }

  lemma DigitsPlain(d: string)
    requires AllDigits(d)
    ensures PlainName(d)
  {
    forall c | c in d ensures IsDigit(c) {
      var i :| 0 <= i < |d| && d[i] == c;
    }
  }

  /** `w[n]` holds no `[]`: its only `[` is followed by a digit. */
  lemma FixedTextNoPair(w: string, n: nat)
    requires PlainName(w)
    ensures !Contains(FixedText(w, n), "[]")
  {
    var t, d := FixedText(w, n), Decimal(n);
    forall i: nat | i + 2 <= |t| ensures Window(t, i, 2) != "[]" {
      if i < |w| {
        assert Window(t, i, 2)[0] == w[i];
      } else if i == |w| {
        assert Window(t, i, 2)[1] == d[0];
      } else {
        assert Window(t, i, 2)[0] == d[i - |w| - 1];
      }
    }
    NowhereNotContained(t, "[]");
  }

  /** The shape of `w[n]` as the classification chain sees it. */
  lemma FixedTextShape(w: string, n: nat)
    requires PlainName(w)
    ensures '(' !in FixedText(w, n) && ')' !in FixedText(w, n) && ',' !in FixedText(w, n)
    ensures EndsWith(FixedText(w, n), "]") && !EndsWith(FixedText(w, n), "[]")
    ensures !StartsWith(FixedText(w, n), "(") && ExactType(FixedText(w, n)).None?
  {
    var t, d := FixedText(w, n), Decimal(n);
    DigitsPlain(d);
    assert t[|t| - 1] == ']' && t[|t| - 2] == d[|d| - 1];
    assert t[|t| - 1..] == "]";
    assert t[|t| - 2..][0] == t[|t| - 2];
    if |w| > 0 {
      assert t[..1][0] == w[0];
    } else {
      assert t[..1][0] == '[';
    }
  }

  /** Removing the `]`s from the size text of `w[n]` leaves the digits of `n`. */
  lemma SizeDigits(n: nat)
    ensures ReplaceAll(Decimal(n) + "]", "]", "") == Decimal(n)
  {
    var d := Decimal(n);
    DigitsPlain(d);
    ReplaceAfterPlain(d, "]", "]", "");
    assert ReplaceAll("]", "]", "") == "" + ReplaceAll("", "]", "");
    assert d + "" == d;
  }

  /** The size text of `w[n]`: `n` followed by the closing `]`. */
  lemma FixedTextParts(w: string, n: nat)
    requires PlainName(w)
    ensures FixedText(w, n) == w + ['['] + (Decimal(n) + "]")
    ensures '[' !in Decimal(n) + "]"
    ensures n <= USIZE_MAX ==> ParseUsize(ReplaceAll(Decimal(n) + "]", "]", "")) == Some(n)
  {
    DigitsPlain(Decimal(n));
    SizeDigits(n);
    if n <= USIZE_MAX {
      DecimalRoundTrip(n);
    }
  }

  /** As written, the size of `w[n]` is read after the first `[`. */
  lemma FixedSizeAsWritten(w: string, n: nat)
    requires PlainName(w) && n <= USIZE_MAX
    ensures FixedArraySize(FixedText(w, n), AsWritten) == Some(n)
  {
    var t, r := FixedText(w, n), Decimal(n) + "]";
    FixedTextParts(w, n);
    IndexOfAfter(w, '[', r);
    assert t[..|w|] == w && t[|w| + 1..] == r;
    IndexOfFirst(r, '[');
    assert SplitOn(r, '[') == [r];
    assert SplitOn(t, '[') == [w] + [r];
  }

  /** Corrected, the size of `w[n]` is read after the last `[`, and the element is `w`. */
  lemma FixedSizeCorrected(w: string, n: nat)
    requires PlainName(w) && n <= USIZE_MAX
    ensures FixedArraySize(FixedText(w, n), Corrected) == Some(n)
    ensures FixedElementText(FixedText(w, n), Corrected) == w
  {
    var t, r := FixedText(w, n), Decimal(n) + "]";
    FixedTextParts(w, n);
    LastIndexOfBefore(w, '[', r);
    assert t[|w| + 1..] == r && t[..|w|] == w;
  }

  /**
   As written, a signature with one fixed-size array parameter `w[n]` (the
   size fits a `usize`, so the size check lets it through) is still recursing
   on `w[n]` whatever the fuel: the source never returns.
   */
  lemma FixedArrayAsWritten(name: string, w: string, n: nat, fuel: nat)
    requires '(' !in name && PlainName(w) && n <= USIZE_MAX
    ensures Classify(FixedText(w, n), fuel, AsWritten) == Exhausted
    ensures Parse(Call(name, [FixedText(w, n)]), fuel, AsWritten) == Exhausted
  {
    FixedTextShape(w, n);
    FixedTextNoPair(w, n);
    FixedSizeAsWritten(w, n);
    FixedArrayDiverges(FixedText(w, n), fuel);
    CallOneParse(name, FixedText(w, n), fuel, AsWritten);
  }

  /** A scalar name on its own parses to its one descriptor. */
  lemma ScalarParse(w: string, p: ParamType, fuel: nat, variant: Variant)
    ensures PlainName(w) && ScalarType(w) == Some(p) ==> Parse(w, fuel, variant) == Done(Some([p]))
  {
    if PlainName(w) && ScalarType(w) == Some(p) {
      LeafParse(w, fuel, variant);
      KeptOne(Some(p));
    }
  }

  /** A one-element parse collapses to its element. */
  lemma CollapseOne(p: ParamType)
    ensures Collapse([p]) == p
  {
  }

  /** Corrected, the token `w[n]` is the fixed array of `n` elements of the scalar `w` names. */
  lemma FixedClassifyCorrected(w: string, n: nat, p: ParamType, fuel: nat)
    requires PlainName(w) && n <= USIZE_MAX && ScalarType(w) == Some(p) && fuel >= 1
    ensures Classify(FixedText(w, n), fuel, Corrected) == Done(Some(FixedArray(p, n)))
  {
    FixedTokenCorrected(w, n, fuel);
    ScalarParse(w, p, fuel - 1, Corrected);
    CollapseOne(p);
  }

  /** Corrected, the token `w[n]` goes to the fixed-array rule with size `n` and element text `w`. */
  lemma FixedTokenCorrected(w: string, n: nat, fuel: nat)
    ensures PlainName(w) && n <= USIZE_MAX && fuel >= 1 ==>
      Classify(FixedText(w, n), fuel, Corrected) == Nested(Parse(w, fuel - 1, Corrected), AsFixedArray(n))
  {
    if PlainName(w) && n <= USIZE_MAX && fuel >= 1 {
      FixedTextShape(w, n);
      FixedSizeCorrected(w, n);
      FixedRule(FixedText(w, n), n, fuel, Corrected, Parse(w, fuel - 1, Corrected));
    }
  }

  /**
   Corrected, `name(w[n])` is the fixed array of `n` elements of the scalar
   `w` names, given one level of nesting.
   */
  lemma FixedArrayCorrected(name: string, w: string, n: nat, p: ParamType, fuel: nat)
    requires '(' !in name && PlainName(w) && n <= USIZE_MAX
    requires ScalarType(w) == Some(p) && fuel >= 1
    ensures Parse(Call(name, [FixedText(w, n)]), fuel, Corrected) == Done(Some([FixedArray(p, n)]))
  {
    FixedClassifyCorrected(w, n, p, fuel);
    FixedTextShape(w, n);
    CallOneParse(name, FixedText(w, n), fuel, Corrected);
  }

  /** `f(uint256[3])`: never finishes as written, `[FixedArray(Uint(256), 3)]` corrected. */
  lemma FixedArrayExample(name: string, fuel: nat)
    requires '(' !in name
    ensures Parse(Call(name, ["uint256[3]"]), fuel, AsWritten) == Exhausted
    ensures fuel >= 1 ==> Parse(Call(name, ["uint256[3]"]), fuel, Corrected) == Done(Some([FixedArray(Uint(256), 3)]))
  {
    TableUint256();
    assert FixedText("uint256", 3) == "uint256[3]";
    FixedArrayAsWritten(name, "uint256", 3, fuel);
    if fuel >= 1 {
      FixedArrayCorrected(name, "uint256", 3, Uint(256), fuel);
    }
  }

  // ---------------------------------------------------------------------------
  // Nested dynamic arrays: `T[][]`

  /** `w[][]` is an array token whose element text, as written, is `w` with both dimensions gone. */
  lemma DoubleArrayShape(w: string)
    requires PlainName(w)
    ensures '(' !in w + "[][]" && ')' !in w + "[][]" && ',' !in w + "[][]"
    ensures EndsWith(w + "[][]", "[]") && !StartsWith(w + "[][]", "(") && ExactType(w + "[][]").None?
    ensures ArrayElementText(w + "[][]", AsWritten) == w
    ensures ArrayElementText(w + "[][]", Corrected) == w + "[]"
  {
    var t := w + "[][]";
    assert t[|t| - 1] == ']';
    assert t[|t| - 2..] == "[]";
    if |w| > 0 {
      assert t[..1][0] == w[0];
    } else {
      assert t[..1][0] == '[';
    }
    ReplaceAfterPlain(w, "[][]", "[]", "");
    ReplaceLeading("[]", "[]", "");
    ReplaceLeading("", "[]", "");
    assert t[..|t| - 2] == w + "[]";
  }

  /** As written, the token `w[][]` is a one-dimensional array: a dimension is lost. */
  lemma DoubleClassifyAsWritten(w: string, p: ParamType, fuel: nat)
    requires PlainName(w) && ScalarType(w) == Some(p) && fuel >= 1
    ensures Classify(w + "[][]", fuel, AsWritten) == Done(Some(Array(p)))
  {
    DoubleArrayShape(w);
    ScalarParse(w, p, fuel - 1, AsWritten);
    ArrayRule(w + "[][]", fuel, AsWritten, Done(Some([p])));
    assert Collapse([p]) == p;
  }

  /** As written, `name(w[][])` gives a one-dimensional array. */
  lemma DoubleArrayAsWritten(name: string, w: string, p: ParamType, fuel: nat)
    requires '(' !in name && PlainName(w) && ScalarType(w) == Some(p) && fuel >= 1
    ensures Parse(Call(name, [w + "[][]"]), fuel, AsWritten) == Done(Some([Array(p)]))
  {
    DoubleClassifyAsWritten(w, p, fuel);
    DoubleArrayShape(w);
    CallOneParse(name, w + "[][]", fuel, AsWritten);
  }

  /** `w[]` on its own parses to the one array of the scalar `w` names. */
  lemma ArrayParse(w: string, p: ParamType, fuel: nat, variant: Variant)
    requires PlainName(w) && ScalarType(w) == Some(p) && fuel >= 1
    ensures Parse(w + "[]", fuel, variant) == Done(Some([Array(p)]))
  {
    assert w + "[]" == Text(Leaf(w, true));
    LeafArray(w, fuel, variant);
    assert '(' !in w + "[]" && ')' !in w + "[]" && ',' !in w + "[]";
    BareParse(w + "[]", fuel, variant);
  }

  /** Corrected, the token `w[][]` is an array of arrays. */
  lemma DoubleClassifyCorrected(w: string, p: ParamType, fuel: nat)
    requires PlainName(w) && ScalarType(w) == Some(p) && fuel >= 2
    ensures Classify(w + "[][]", fuel, Corrected) == Done(Some(Array(Array(p))))
  {
    DoubleArrayShape(w);
    ArrayParse(w, p, fuel - 1, Corrected);
    ArrayRule(w + "[][]", fuel, Corrected, Done(Some([Array(p)])));
    assert Collapse([Array(p)]) == Array(p);
  }

  /** Corrected, `name(w[][])` gives an array of arrays, given two levels of nesting. */
  lemma DoubleArrayCorrected(name: string, w: string, p: ParamType, fuel: nat)
    requires '(' !in name && PlainName(w) && ScalarType(w) == Some(p) && fuel >= 2
    ensures Parse(Call(name, [w + "[][]"]), fuel, Corrected) == Done(Some([Array(Array(p))]))
  {
    DoubleClassifyCorrected(w, p, fuel);
    DoubleArrayShape(w);
    CallOneParse(name, w + "[][]", fuel, Corrected);
  }

  /** `f(uint256[][])`: `[Array(Uint(256))]` as written, `[Array(Array(Uint(256)))]` corrected. */
  lemma DoubleArrayExample(name: string, fuel: nat)
    requires '(' !in name
    ensures fuel >= 1 ==> Parse(Call(name, ["uint256[][]"]), fuel, AsWritten) == Done(Some([Array(Uint(256))]))
    ensures fuel >= 2 ==> Parse(Call(name, ["uint256[][]"]), fuel, Corrected) == Done(Some([Array(Array(Uint(256)))]))
  {
    TableUint256();
    assert "uint256" + "[][]" == "uint256[][]";
    if fuel >= 1 {
      DoubleArrayAsWritten(name, "uint256", Uint(256), fuel);
    }
    if fuel >= 2 {
      DoubleArrayCorrected(name, "uint256", Uint(256), fuel);
    }
  }

  // ---------------------------------------------------------------------------
  // A tuple nested at the edge of another: `(a,(b,c))`

  /** The text of `(a,(b,c))`. */
  function EdgeText(a: string, b: string, c: string): string
  {
    Paren([a, Paren([b, c])])
  }

  /** The comma-separated fragments of `(a,(b,c))`. */
  function EdgeFrags(a: string, b: string, c: string): seq<string>
  {
    ["(" + a, "(" + b, c + "))"]
  }

  lemma EdgeFragments(a: string, b: string, c: string)
    requires Plain(a) && Plain(b) && Plain(c)
    ensures JoinWith(EdgeFrags(a, b, c), ',') == EdgeText(a, b, c)
    ensures NoComma(EdgeFrags(a, b, c))
  {
    var ff := EdgeFrags(a, b, c);
    assert ff[1..] == ["(" + b, c + "))"];
    assert ff[1..][1..] == [c + "))"];
    assert JoinWith(ff[1..], ',') == ("(" + b) + [','] + (c + "))");
    assert JoinWith(ff, ',') == ("(" + a) + [','] + (("(" + b) + [','] + (c + "))"));
    assert JoinWith([b, c], ',') == b + [','] + c;
    assert JoinWith([a, Paren([b, c])], ',') == a + [','] + Paren([b, c]);
  }

  /** Both variants buffer the first two fragments, each opening a tuple. */
  lemma EdgeOpenings(a: string, b: string, c: string, variant: Variant)
    requires Plain(a) && Plain(b) && Plain(c)
    ensures MergeFold(MergeStart, EdgeFrags(a, b, c)[..2], variant) == MergeState(2, EdgeFrags(a, b, c)[..2], [])
  {
    var ff := EdgeFrags(a, b, c);
    FragCounts(a, "", variant);
    FragCounts(b, "", variant);
    assert ff[..2][..1] == [ff[0]];
    MergeOne(MergeStart, ff[0], variant);
    StepOpen(MergeStart, ff[0], variant);
    StepOpen(MergeState(1, [ff[0]], []), ff[1], variant);
    assert [ff[0]] + [ff[1]] == ff[..2];
  }

  /** As written, the closing `))` lowers the depth by one, so the group is never emitted. */
  lemma EdgeRemergeAsWritten(a: string, b: string, c: string)
    requires Plain(a) && Plain(b) && Plain(c)
    ensures Remerge(EdgeFrags(a, b, c), AsWritten) == []
  {
    var ff := EdgeFrags(a, b, c);
    EdgeOpenings(a, b, c, AsWritten);
    assert ff[..|ff| - 1] == ff[..2];
    assert '(' !in ff[2] && ')' in ff[2];
  }

  /** Corrected, the closing `))` lowers the depth by two and the group is emitted whole. */
  lemma EdgeRemergeCorrected(a: string, b: string, c: string)
    requires Plain(a) && Plain(b) && Plain(c)
    ensures Remerge(EdgeFrags(a, b, c), Corrected) == [EdgeText(a, b, c)]
  {
    var ff := EdgeFrags(a, b, c);
    EdgeOpenings(a, b, c, Corrected);
    assert ff[..|ff| - 1] == ff[..2];
    CountChar(ff[2], '(');
    CountChar(ff[2], ')');
    assert multiset(ff[2]) == multiset(c) + multiset{')', ')'};
    assert ff[..2] + [ff[2]] == ff;
    EdgeFragments(a, b, c);
  }

  /**
   As written, `name((a,(b,c)))` parses to no descriptor at all: the tuple is
   still buffered when the fragments run out.
   */
  lemma EdgeTupleAsWritten(name: string, a: string, b: string, c: string, fuel: nat)
    requires '(' !in name && Plain(a) && Plain(b) && Plain(c)
    ensures Parse(Call(name, [EdgeText(a, b, c)]), fuel, AsWritten) == Done(None)
  {
    var ff := EdgeFrags(a, b, c);
    EdgeFragments(a, b, c);
    EdgeRemergeAsWritten(a, b, c);
    assert JoinWith([EdgeText(a, b, c)], ',') == EdgeText(a, b, c);
    TokensOfFragments(name, EdgeText(a, b, c), ff, [], AsWritten);
  }

  lemma PairEntries(b: string, c: string, pb: ParamType, pc: ParamType, fuel: nat, variant: Variant)
    requires PlainName(b) && PlainName(c)
    requires ScalarType(b) == Some(pb) && ScalarType(c) == Some(pc)
    ensures Entries([Leaf(b, false), Leaf(c, false)], [b, c], [pb, pc], fuel, variant)
  {
    ScalarEntry(b, false, pb, fuel, variant);
    ScalarEntry(c, false, pc, fuel, variant);
    EntriesAppend([], [], [], fuel, variant, Leaf(b, false), b, pb);
    EntriesAppend([Leaf(b, false)], [b], [pb], fuel, variant, Leaf(c, false), c, pc);
  }

  lemma OneEntry(a: string, pa: ParamType, fuel: nat, variant: Variant)
    requires PlainName(a) && ScalarType(a) == Some(pa)
    ensures Entries([Leaf(a, false)], [a], [pa], fuel, variant)
  {
    ScalarEntry(a, false, pa, fuel, variant);
    EntriesAppend([], [], [], fuel, variant, Leaf(a, false), a, pa);
  }

  /** The parameter list `(a,(b,c))` read as a signature of its own. */
  lemma EdgeInnerParse(a: string, b: string, c: string, pa: ParamType, pb: ParamType, pc: ParamType, fuel: nat)
    requires PlainName(a) && PlainName(b) && PlainName(c) && fuel >= 1
    requires ScalarType(a) == Some(pa) && ScalarType(b) == Some(pb)
    requires ScalarType(c) == Some(pc)
    ensures Parse(EdgeText(a, b, c), fuel, Corrected) == Done(Some([pa, Tuple([pb, pc])]))
  {
    OneEntry(a, pa, fuel, Corrected);
    PairEntries(b, c, pb, pc, fuel - 1, Corrected);
    AppendTupleParse("", [Leaf(a, false)], [a], [pa], [Leaf(b, false), Leaf(c, false)], [b, c], [pb, pc], fuel, Corrected);
    assert Call("", [a] + [Paren([b, c])]) == EdgeText(a, b, c);
    assert [pa] + [Tuple([pb, pc])] == [pa, Tuple([pb, pc])];
  }

  /** `(a,(b,c))` as a tuple parameter of its own, for the corrected parser. */
  lemma EdgeTupleClassify(a: string, b: string, c: string, pa: ParamType, pb: ParamType, pc: ParamType, fuel: nat)
    requires PlainName(a) && PlainName(b) && PlainName(c) && fuel >= 2
    requires ScalarType(a) == Some(pa) && ScalarType(b) == Some(pb)
    requires ScalarType(c) == Some(pc)
    ensures Classify(EdgeText(a, b, c), fuel, Corrected) == Done(Some(Tuple([pa, Tuple([pb, pc])])))
  {
    EdgeInnerParse(a, b, c, pa, pb, pc, fuel - 1);
    var inner := JoinWith([a, Paren([b, c])], ',');
    assert EdgeText(a, b, c) == "(" + inner + ")";
    TupleToken(inner, fuel, Corrected, Done(Some([pa, Tuple([pb, pc])])));
  }

  /** Corrected, `name((a,(b,c)))` is the nested tuple, given two levels of nesting. */
  lemma EdgeTupleCorrected(name: string, a: string, b: string, c: string,
                           pa: ParamType, pb: ParamType, pc: ParamType, fuel: nat)
    requires '(' !in name && PlainName(a) && PlainName(b) && PlainName(c) && fuel >= 2
    requires ScalarType(a) == Some(pa) && ScalarType(b) == Some(pb)
    requires ScalarType(c) == Some(pc)
    ensures Parse(Call(name, [EdgeText(a, b, c)]), fuel, Corrected) == Done(Some([Tuple([pa, Tuple([pb, pc])])]))
  {
    var t := EdgeText(a, b, c);
    EdgeFragments(a, b, c);
    EdgeRemergeCorrected(a, b, c);
    assert JoinWith([t], ',') == t;
    TokensOfFragments(name, t, EdgeFrags(a, b, c), [t], Corrected);
    ClassifyAllSingle(t, fuel, Corrected);
    EdgeTupleClassify(a, b, c, pa, pb, pc, fuel);
  }

  /**
   `f((uint256,(bool,address)))`: no descriptor as written,
   `[Tuple([Uint(256), Tuple([Bool, Address])])]` corrected.
   */
  lemma EdgeTupleExample(name: string, fuel: nat)
    requires '(' !in name
    ensures Parse(Call(name, [EdgeText("uint256", "bool", "address")]), fuel, AsWritten) == Done(None)
    ensures fuel >= 2 ==> Parse(Call(name, [EdgeText("uint256", "bool", "address")]), fuel, Corrected)
                          == Done(Some([Tuple([Uint(256), Tuple([Bool, Address])])]))
  {
    TableUint256();
    TableBool();
    TableAddress();
    EdgeTupleAsWritten(name, "uint256", "bool", "address", fuel);
    if fuel >= 2 {
      EdgeTupleCorrected(name, "uint256", "bool", "address", Uint(256), Bool, Address, fuel);
    }
  }
}
