/**
 What `parse_function_parameters` guarantees: what the re-merge keeps, which
 recursive calls make progress, when fuel suffices, and the descriptors it
 gives for the signature shapes its tests exercise.
 */
module SignatureProofs {

  import opened Wrappers
  import opened Strings
  import opened AbiTypes
  import opened SignatureParser

  // ---------------------------------------------------------------------------
  // The parameter list and the re-merge

  /** The parameter list holds no character the signature lacks, and is shorter once there is a `(`. */
  lemma ParamBodyWithin(sig: string)
    ensures multiset(ParamBody(sig)) <= multiset(sig)
    ensures |ParamBody(sig)| <= |sig|
    ensures '(' in sig ==> |ParamBody(sig)| < |sig|
  {
    IndexOfFirst(sig, '(');
    match IndexOf(sig, '(')
    case Some(i) =>
      AfterOpenWithin(sig, i);
    case None =>
      RemoveLastWithin(sig, ')');
  }

  lemma AfterOpenWithin(sig: string, i: nat)
    requires i < |sig|
    ensures multiset(RemoveLast(sig[i + 1..], ')')) <= multiset(sig)
    ensures |RemoveLast(sig[i + 1..], ')')| < |sig|
  {
    RemoveLastWithin(sig[i + 1..], ')');
    SuffixWithin(sig, i + 1);
  }

  lemma RemoveLastWithin(s: string, c: char)
    ensures multiset(RemoveLast(s, c)) <= multiset(s) && |RemoveLast(s, c)| <= |s|
  {
    RemoveLastRemovesOne(s, c);
  }

  lemma SuffixWithin(s: string, j: nat)
    requires j <= |s|
    ensures multiset(s[j..]) <= multiset(s) && |s[j..]| == |s| - j
  {
    assert s == s[..j] + s[j..];
    assert multiset(s) == multiset(s[..j]) + multiset(s[j..]);
  }

  /** Joining `inner` first and then the outer list is the same as joining both lists at once. */
  lemma {:induction false} JoinConcat(a: seq<string>, b: seq<string>, sep: char)
    requires |a| > 0 && |b| > 0
    ensures JoinWith(a + b, sep) == JoinWith(a, sep) + [sep] + JoinWith(b, sep)
  {
    if |a| == 1 {
      assert (a + b)[1..] == b;
    } else {
      assert (a + b)[1..] == a[1..] + b;
      JoinConcat(a[1..], b, sep);
    }
  }

  lemma JoinFlatten(done: seq<string>, group: seq<string>, sep: char)
    requires |group| > 0
    ensures JoinWith(done + [JoinWith(group, sep)], sep) == JoinWith(done + group, sep)
  {
    if |done| > 0 {
      JoinAppend(done, JoinWith(group, sep), sep);
      JoinConcat(done, group, sep);
    } else {
      assert done + group == group;
    }
  }

  /** The re-merge state keeps every character of the fragments, in order, between tokens and buffer. */
  ghost predicate MergeKeeps(st: MergeState, frags: seq<string>) {
    && JoinWith(st.inputs + st.complex, ',') == JoinWith(frags, ',')
    && (|frags| > 0 ==> |st.inputs + st.complex| > 0)
    && (|frags| == 0 ==> st.inputs + st.complex == [])
    && (st.depth <= 0 ==> st.complex == [])
    && (st.depth > 0 ==> st.complex != [])
  }

  /**
   The re-merge never reorders or loses a character except by leaving
   fragments in the buffer: the tokens followed by the buffered fragments,
   joined with commas, are exactly the fragments joined with commas.
   */
  lemma {:induction false} MergeFoldKeeps(frags: seq<string>, variant: Variant)
    ensures MergeKeeps(MergeFold(MergeStart, frags, variant), frags)
  {
    if |frags| > 0 {
      var prev := frags[..|frags| - 1];
      assert frags == prev + [frags[|frags| - 1]];
      MergeFoldKeeps(prev, variant);
      MergeStepKeeps(MergeFold(MergeStart, prev, variant), prev, frags[|frags| - 1], variant);
    }
  }

  /** One step of the re-merge loop keeps the invariant. */
  lemma MergeStepKeeps(st: MergeState, prev: seq<string>, f: string, variant: Variant)
    requires MergeKeeps(st, prev)
    ensures MergeKeeps(MergeStep(st, f, variant), prev + [f])
  {
    var all := st.inputs + st.complex;
    JoinGrows(all, prev, f);
    var depth := st.depth + Opens(f, variant);
    var closes := Closes(f, variant);
    if depth > 0 {
      assert st.inputs + (st.complex + [f]) == all + [f];
      if closes > 0 && depth - closes <= 0 {
        JoinFlatten(st.inputs, st.complex + [f], ',');
        assert (st.inputs + [JoinWith(st.complex + [f], ',')]) + [] == st.inputs + [JoinWith(st.complex + [f], ',')];
      }
    } else {
      assert (st.inputs + [f]) + st.complex == all + [f];
    }
  }

  /** Both joins grow by `,f`, or become `f` on the first fragment. */
  lemma JoinGrows(all: seq<string>, prev: seq<string>, f: string)
    requires JoinWith(all, ',') == JoinWith(prev, ',')
    requires |prev| > 0 ==> |all| > 0
    requires |prev| == 0 ==> all == []
    ensures JoinWith(all + [f], ',') == JoinWith(prev + [f], ',')
  {
    if |prev| > 0 {
      JoinAppend(all, f, ',');
      JoinAppend(prev, f, ',');
    } else {
      assert all + [f] == prev + [f];
    }
  }

  /**
   When the brackets balance out (nothing is left buffered), the re-merged
   tokens joined with commas give back the parameter list: each tuple group
   becomes one token equal to its original text.
   */
  lemma RemergeLosesNothing(frags: seq<string>, variant: Variant)
    requires MergeFold(MergeStart, frags, variant).depth <= 0
    ensures JoinWith(Remerge(frags, variant), ',') == JoinWith(frags, ',')
  {
    MergeFoldKeeps(frags, variant);
    assert MergeFold(MergeStart, frags, variant).complex == [];
    assert Remerge(frags, variant) + [] == Remerge(frags, variant);
  }

  lemma TokenWithinBody(sig: string, variant: Variant, k: nat)
    requires k < |Tokens(sig, variant)|
    ensures multiset(Tokens(sig, variant)[k]) <= multiset(ParamBody(sig))
    ensures |Tokens(sig, variant)[k]| <= |ParamBody(sig)|
  {
    var body := ParamBody(sig);
    var frags := SplitOn(body, ',');
    SplitOnJoin(body, ',');
    if '(' in body {
      MergeFoldKeeps(frags, variant);
      var st := MergeFold(MergeStart, frags, variant);
      assert Tokens(sig, variant)[k] == (st.inputs + st.complex)[k];
      PartWithinJoin(st.inputs + st.complex, k, ',');
    } else {
      PartWithinJoin(frags, k, ',');
    }
  }

  /** Each top-level token is made of characters of the signature, and is no longer. */
  lemma TokenWithin(sig: string, variant: Variant, k: nat)
    requires k < |Tokens(sig, variant)|
    ensures multiset(Tokens(sig, variant)[k]) <= multiset(sig)
    ensures |Tokens(sig, variant)[k]| <= |sig|
    ensures StartsWith(Tokens(sig, variant)[k], "(") ==> |Tokens(sig, variant)[k]| < |sig|
  {
    TokenWithinBody(sig, variant, k);
    ParamBodyWithin(sig);
    SubWithin(sig, ParamBody(sig), Tokens(sig, variant)[k]);
  }

  /** A piece of a part of `s` is itself within `s`, and shorter when the part is. */
  lemma SubWithin(s: string, part: string, t: string)
    requires multiset(t) <= multiset(part) && |t| <= |part|
    requires multiset(part) <= multiset(s) && |part| <= |s|
    requires '(' in s ==> |part| < |s|
    ensures multiset(t) <= multiset(s)
    ensures |t| <= |s|
    ensures StartsWith(t, "(") ==> |t| < |s|
  {
    if StartsWith(t, "(") {
      assert t[0] == '(';
      assert '(' in multiset(t);
      assert '(' in multiset(s);
    }
  }

  // ---------------------------------------------------------------------------
  // Progress of the recursive calls

  /** The tuple arm recurses on the token itself, which is strictly shorter than the signature. */
  lemma TupleCallShrinks(sig: string, variant: Variant, k: nat)
    requires k < |Tokens(sig, variant)| && IsTupleToken(Tokens(sig, variant)[k])
    ensures |Tokens(sig, variant)[k]| < |sig|
  {
    TokenWithin(sig, variant, k);
  }

  /** The dynamic-array arm recurses on the token without its `[]`s, strictly shorter than the signature. */
  lemma ArrayCallShrinks(sig: string, variant: Variant, k: nat)
    requires k < |Tokens(sig, variant)| && EndsWith(Tokens(sig, variant)[k], "[]")
    ensures |ReplaceAll(Tokens(sig, variant)[k], "[]", "")| < |sig|
  {
    TokenWithin(sig, variant, k);
    EndsWithContains(Tokens(sig, variant)[k], "[]");
    ReplaceAllShrinks(Tokens(sig, variant)[k], "[]", "");
  }

  /**
   The fixed-array arm recurses on `replace("[]", "")` of its token, which is
   the token itself whenever the token holds no `[]` (as in `uint256[3]`):
   that call makes no progress.
   */
  lemma FixedArrayCallStalls(t: string)
    requires EndsWith(t, "]") && !Contains(t, "[]")
    ensures FixedElementText(t, AsWritten) == t
  {
    ReplaceAllShrinks(t, "[]", "");
  }

  /** A token without `(`, `)` or `,` parses as a signature whose only token is itself. */
  lemma SingleToken(t: string, variant: Variant)
    requires '(' !in t && ')' !in t && ',' !in t
    ensures ParamBody(t) == t
    ensures Tokens(t, variant) == [t]
  {
    IndexOfFirst(t, '(');
    RemoveLastRemovesOne(t, ')');
    IndexOfFirst(t, ',');
  }

  lemma ClassifyAllSingle(t: string, fuel: nat, variant: Variant)
    ensures ClassifyAll([t], fuel, variant) ==
      match Classify(t, fuel, variant)
      case Exhausted => Exhausted
      case Done(None) => Done([])
      case Done(Some(p)) => Done([p])
  {
    assert [t][..0] == [];
    assert ClassifyAll([t][..0], fuel, variant) == Done([]);
    var ps: seq<ParamType> := [];
    match Classify(t, fuel, variant)
    case Done(Some(p)) => assert ps + [p] == [p];
    case _ =>
  }

  /**
   As written, a fixed-array token such as `uint256[3]` (a size that parses,
   no `[]`, no tuple) is never resolved: whatever the fuel, the parse is
   still recursing on the same token when it runs out.
   */
  lemma {:induction false} FixedArrayDiverges(t: string, fuel: nat)
    requires '(' !in t && ')' !in t && ',' !in t
    requires EndsWith(t, "]") && !Contains(t, "[]") && FixedArraySize(t, AsWritten).Some?
    ensures Classify(t, fuel, AsWritten) == Exhausted
    ensures Parse(t, fuel, AsWritten) == Exhausted
    decreases fuel
  {
    assert t[|t| - 1] == ']';
    assert ExactType(t).None?;
    assert t[0] != '(';
    if EndsWith(t, "[]") {
      EndsWithContains(t, "[]");
    }
    if fuel > 0 {
      FixedArrayCallStalls(t);
      FixedArrayDiverges(t, fuel - 1);
    }
    SingleToken(t, AsWritten);
    ClassifyAllSingle(t, fuel, AsWritten);
  }

  // ---------------------------------------------------------------------------
  // Fuel: more never changes a finished parse, and the length of the signature suffices

  /** A parse that finished with some fuel finishes with the same result given more. */
  lemma {:induction false} ParseMore(sig: string, f: nat, g: nat, variant: Variant)
    requires f <= g && Parse(sig, f, variant).Done?
    ensures Parse(sig, g, variant) == Parse(sig, f, variant)
    decreases f, 2, 0
  {
    ClassifyAllMore(Tokens(sig, variant), f, g, variant);
  }

  lemma {:induction false} ClassifyAllMore(tokens: seq<string>, f: nat, g: nat, variant: Variant)
    requires f <= g && ClassifyAll(tokens, f, variant).Done?
    ensures ClassifyAll(tokens, g, variant) == ClassifyAll(tokens, f, variant)
    decreases f, 1, |tokens|
  {
    if |tokens| > 0 {
      ClassifyAllMore(tokens[..|tokens| - 1], f, g, variant);
      ClassifyMore(tokens[|tokens| - 1], f, g, variant);
    }
  }

  lemma {:induction false} ClassifyMore(t: string, f: nat, g: nat, variant: Variant)
    requires f <= g && Classify(t, f, variant).Done?
    ensures Classify(t, g, variant) == Classify(t, f, variant)
    decreases f, 0, 2
  {
    if ExactType(t).Some? {
    } else if IsTupleToken(t) {
      TupleMore(t, f, g, variant);
    } else if EndsWith(t, "[]") {
      ArrayMore(t, f, g, variant);
    } else if EndsWith(t, "]") {
      FixedArrayMore(t, f, g, variant);
    }
  }

  /** A nested parse that finished keeps its result with more fuel. */
  lemma {:induction false} NestedMore(e: string, f: nat, g: nat, variant: Variant, w: Wrapping)
    requires 1 <= f <= g && Nested(Parse(e, f - 1, variant), w).Done?
    ensures Nested(Parse(e, g - 1, variant), w) == Nested(Parse(e, f - 1, variant), w)
    decreases f, 0, 0
  {
    ParseMore(e, f - 1, g - 1, variant);
  }

  lemma {:induction false} TupleMore(t: string, f: nat, g: nat, variant: Variant)
    requires ExactType(t).None? && IsTupleToken(t)
    requires f <= g && Classify(t, f, variant).Done?
    ensures Classify(t, g, variant) == Classify(t, f, variant)
    decreases f, 0, 1
  {
    NestedMore(t, f, g, variant, AsTuple);
  }

  lemma {:induction false} ArrayMore(t: string, f: nat, g: nat, variant: Variant)
    requires ExactType(t).None? && !IsTupleToken(t) && EndsWith(t, "[]")
    requires f <= g && Classify(t, f, variant).Done?
    ensures Classify(t, g, variant) == Classify(t, f, variant)
    decreases f, 0, 1
  {
    NestedMore(ArrayElementText(t, variant), f, g, variant, AsArray);
  }

  lemma {:induction false} FixedArrayMore(t: string, f: nat, g: nat, variant: Variant)
    requires ExactType(t).None? && !IsTupleToken(t) && !EndsWith(t, "[]") && EndsWith(t, "]")
    requires f <= g && Classify(t, f, variant).Done?
    ensures Classify(t, g, variant) == Classify(t, f, variant)
    decreases f, 0, 1
  {
    match FixedArraySize(t, variant)
    case None =>
    case Some(size) =>
      NestedMore(FixedElementText(t, variant), f, g, variant, AsFixedArray(size));
  }

  /**
   Enough fuel for a token: its length, one more for a tuple (whose
   recursive call is on the token itself), and, as written, no `]` at all.
   */
  ghost predicate TokenFits(t: string, fuel: nat, variant: Variant) {
    && |t| <= fuel
    && (StartsWith(t, "(") ==> |t| < fuel)
    && (variant == Corrected || ']' !in t)
  }

  /** The dynamic-array arm's recursive call is on a strictly shorter text. */
  lemma ArrayElementShorter(t: string, variant: Variant)
    requires EndsWith(t, "[]")
    ensures |ArrayElementText(t, variant)| < |t|
  {
    if variant == AsWritten {
      EndsWithContains(t, "[]");
      ReplaceAllShrinks(t, "[]", "");
    }
  }

  /** With the corrected variant, the fixed-array arm's recursive call is on a strict prefix. */
  lemma LastDimensionShorter(t: string)
    requires FixedArraySize(t, Corrected).Some?
    ensures |FixedElementText(t, Corrected)| < |t|
  {
  }

  lemma NoSeparatorOnePiece(t: string, sep: char)
    requires sep !in t
    ensures SplitOn(t, sep) == [t]
  {
    IndexOfFirst(t, sep);
  }

  /**
   With the last dimension stripped, fuel equal to the signature's length
   always suffices; as written it suffices for a signature without `]`.
   */
  lemma {:induction false} ParseFinishes(sig: string, fuel: nat, variant: Variant)
    requires |sig| <= fuel
    requires variant == Corrected || ']' !in sig
    ensures Parse(sig, fuel, variant).Done?
    decreases fuel, 2, 0
  {
    var tokens := Tokens(sig, variant);
    forall k | 0 <= k < |tokens|
      ensures TokenFits(tokens[k], fuel, variant)
    {
      TokenWithin(sig, variant, k);
      if ']' in tokens[k] {
        assert ']' in multiset(tokens[k]);
      }
    }
    ClassifyAllFinishes(tokens, fuel, variant);
  }

  lemma {:induction false} ClassifyAllFinishes(tokens: seq<string>, fuel: nat, variant: Variant)
    requires forall k :: 0 <= k < |tokens| ==> TokenFits(tokens[k], fuel, variant)
    ensures ClassifyAll(tokens, fuel, variant).Done?
    decreases fuel, 1, |tokens|
  {
    if |tokens| > 0 {
      ClassifyAllFinishes(tokens[..|tokens| - 1], fuel, variant);
      ClassifyFinishes(tokens[|tokens| - 1], fuel, variant);
    }
  }

  lemma {:induction false} ClassifyFinishes(t: string, fuel: nat, variant: Variant)
    requires TokenFits(t, fuel, variant)
    ensures Classify(t, fuel, variant).Done?
    decreases fuel, 0, 2
  {
    if ExactType(t).Some? {
    } else if IsTupleToken(t) {
      TupleFinishes(t, fuel, variant);
    } else if EndsWith(t, "[]") {
      ArrayNeedsCorrected(t, fuel, variant);
      ArrayFinishes(t, fuel, variant);
    } else if EndsWith(t, "]") {
      FixedArrayFinishes(t, fuel, variant);
    }
  }

  /** A nested parse of a text that fits the fuel left finishes. */
  lemma {:induction false} NestedFinishes(e: string, fuel: nat, variant: Variant, w: Wrapping)
    requires 1 <= fuel && |e| <= fuel - 1 && (variant == Corrected || ']' !in e)
    ensures Nested(Parse(e, fuel - 1, variant), w).Done?
    decreases fuel, 0, 0
  {
    ParseFinishes(e, fuel - 1, variant);
  }

  lemma {:induction false} TupleFinishes(t: string, fuel: nat, variant: Variant)
    requires ExactType(t).None? && IsTupleToken(t)
    requires TokenFits(t, fuel, variant)
    ensures Classify(t, fuel, variant).Done?
    decreases fuel, 0, 1
  {
    NestedFinishes(t, fuel, variant, AsTuple);
  }

  /** As written, the length bound covers no array token. */
  lemma ArrayNeedsCorrected(t: string, fuel: nat, variant: Variant)
    requires TokenFits(t, fuel, variant) && EndsWith(t, "]")
    ensures variant == Corrected
  {
    assert t[|t| - 1] == ']';
  }

  lemma {:induction false} ArrayFinishes(t: string, fuel: nat, variant: Variant)
    requires ExactType(t).None? && !IsTupleToken(t) && EndsWith(t, "[]")
    requires TokenFits(t, fuel, Corrected) && variant == Corrected
    ensures Classify(t, fuel, variant).Done?
    decreases fuel, 0, 1
  {
    ArrayElementShorter(t, variant);
    NestedFinishes(ArrayElementText(t, variant), fuel, variant, AsArray);
  }

  lemma {:induction false} FixedArrayFinishes(t: string, fuel: nat, variant: Variant)
    requires ExactType(t).None? && !IsTupleToken(t) && !EndsWith(t, "[]") && EndsWith(t, "]")
    requires TokenFits(t, fuel, variant)
    ensures Classify(t, fuel, variant).Done?
    decreases fuel, 0, 1
  {
    ArrayNeedsCorrected(t, fuel, variant);
    match FixedArraySize(t, variant)
    case None =>
    case Some(size) =>
      LastDimensionShorter(t);
      NestedFinishes(FixedElementText(t, variant), fuel, variant, AsFixedArray(size));
  }

  // ---------------------------------------------------------------------------
  // Scalar tokens, against a table of rules tried in order

  datatype SizedKind = SignedInt | UnsignedInt | SizedBytes

  /** One row of the scalar table: a name matched exactly, or a prefix followed by an optional width. */
  datatype ScalarRule =
    | Exact(name: string, ty: ParamType)
    | Sized(prefix: string, kind: SizedKind, default: nat)

  /** The scalar rules in the order the parser tries them. */
  const ScalarRules: seq<ScalarRule> := [
    Exact("address", Address), Exact("bytes", Bytes), Exact("bool", Bool), Exact("string", String),
    Sized("int", SignedInt, 256), Sized("uint", UnsignedInt, 256), Sized("bytes", SizedBytes, 32)
  ]

  predicate Applies(r: ScalarRule, t: string) {
    match r
    case Exact(name, _) => t == name
    case Sized(prefix, _, _) => StartsWith(t, prefix)
  }

  function Build(r: ScalarRule, t: string): ParamType
    requires r.Sized? ==> |r.prefix| > 0
  {
    match r
    case Exact(_, ty) => ty
    case Sized(prefix, kind, default) =>
      var width := WidthOr(ReplaceAll(t, prefix, ""), default);
      match kind
      case SignedInt => Int(width)
      case UnsignedInt => Uint(width)
      case SizedBytes => FixedBytes(width)
  }

  /** The type the first applicable rule builds, if any rule applies. */
  function FirstMatch(rules: seq<ScalarRule>, t: string): Option<ParamType>
    requires forall k :: 0 <= k < |rules| && rules[k].Sized? ==> |rules[k].prefix| > 0
  {
    if |rules| == 0 then None
    else if Applies(rules[0], t) then Some(Build(rules[0], t))
    else FirstMatch(rules[1..], t)
  }

  /** The type the scalar table gives a token, if any rule applies. */
  function ScalarType(t: string): Option<ParamType>
  {
    FirstMatch(ScalarRules, t)
  }

  lemma FirstMatchStep(rules: seq<ScalarRule>, k: nat, t: string)
    requires forall k :: 0 <= k < |rules| && rules[k].Sized? ==> |rules[k].prefix| > 0
    requires k < |rules|
    ensures FirstMatch(rules[k..], t) ==
      if Applies(rules[k], t) then Some(Build(rules[k], t)) else FirstMatch(rules[k + 1..], t)
  {
    assert rules[k..][1..] == rules[k + 1..];
  }

  lemma ScalarChain(t: string, fuel: nat, variant: Variant)
    requires !StartsWith(t, "(") && !EndsWith(t, "]")
    ensures Classify(t, fuel, variant) == Done(if ExactType(t).Some? then ExactType(t) else WidthType(t))
  {
  }

  /** A token that is neither a tuple nor an array is typed by the first rule of the table that applies. */
  lemma ScalarByTable(t: string, fuel: nat, variant: Variant)
    requires !StartsWith(t, "(") && !EndsWith(t, "]")
    ensures Classify(t, fuel, variant) == Done(ScalarType(t))
  {
    ScalarChain(t, fuel, variant);
    TableMatchesChain(t);
  }

  /** The table gives what the exact names and then the width rules give. */
  lemma TableMatchesChain(t: string)
    ensures ScalarType(t) == if ExactType(t).Some? then ExactType(t) else WidthType(t)
  {
    var rs := ScalarRules;
    assert rs[0..] == rs;
    FirstMatchStep(rs, 0, t);
    FirstMatchStep(rs, 1, t);
    FirstMatchStep(rs, 2, t);
    FirstMatchStep(rs, 3, t);
    FirstMatchStep(rs, 4, t);
    FirstMatchStep(rs, 5, t);
    FirstMatchStep(rs, 6, t);
  }

  /** Every exactly matched name starts with `a`, `b` or `s`. */
  lemma ExactInitials(t: string)
    ensures ExactType(t).Some? ==> |t| > 0 && (t[0] == 'a' || t[0] == 'b' || t[0] == 's')
  {
  }

  /** A word followed by digits is neither a tuple nor an array. */
  lemma ScalarWithDigits(w: string, d: string)
    requires |w| > 0 && w[0] != '(' && |d| > 0 && AllDigits(d)
    ensures !StartsWith(w + d, "(") && !EndsWith(w + d, "]")
  {
    assert (w + d)[0] == w[0];
    assert (w + d)[|w + d| - 1] == d[|d| - 1];
  }

  /** `uintN` is an unsigned integer of width N, for every N that fits a `usize`. */
  lemma UintWidth(n: nat, fuel: nat, variant: Variant)
    requires n <= USIZE_MAX
    ensures Classify("uint" + Decimal(n), fuel, variant) == Done(Some(Uint(n)))
  {
    ScalarWithDigits("uint", Decimal(n));
    ScalarChain("uint" + Decimal(n), fuel, variant);
    UintWidthType(n);
  }

  lemma UintWidthType(n: nat)
    requires n <= USIZE_MAX
    ensures ExactType("uint" + Decimal(n)).None?
    ensures WidthType("uint" + Decimal(n)) == Some(Uint(n))
  {
    var t := "uint" + Decimal(n);
    assert t[0] == 'u';
    ExactInitials(t);
    assert !StartsWith(t, "int");
    assert StartsWith(t, "uint") by { assert t[..4] == "uint"; }
    StripWordFromDigits("uint", Decimal(n));
    DecimalRoundTrip(n);
  }

  /** `intN` is a signed integer of width N. */
  lemma IntWidth(n: nat, fuel: nat, variant: Variant)
    requires n <= USIZE_MAX
    ensures Classify("int" + Decimal(n), fuel, variant) == Done(Some(Int(n)))
  {
    ScalarWithDigits("int", Decimal(n));
    ScalarChain("int" + Decimal(n), fuel, variant);
    IntWidthType(n);
  }

  lemma IntWidthType(n: nat)
    requires n <= USIZE_MAX
    ensures ExactType("int" + Decimal(n)).None?
    ensures WidthType("int" + Decimal(n)) == Some(Int(n))
  {
    var t := "int" + Decimal(n);
    assert t[0] == 'i';
    ExactInitials(t);
    assert StartsWith(t, "int") by { assert t[..3] == "int"; }
    StripWordFromDigits("int", Decimal(n));
    DecimalRoundTrip(n);
  }

  /** `bytesN` is a fixed-size byte string of N bytes, while `bytes` alone is the dynamic one. */
  lemma BytesSize(n: nat, fuel: nat, variant: Variant)
    requires n <= USIZE_MAX
    ensures Classify("bytes" + Decimal(n), fuel, variant) == Done(Some(FixedBytes(n)))
    ensures Classify("bytes", fuel, variant) == Done(Some(Bytes))
  {
    ScalarWithDigits("bytes", Decimal(n));
    ScalarChain("bytes" + Decimal(n), fuel, variant);
    BytesSizeType(n);
    assert "bytes"[0] == 'b';
    ScalarChain("bytes", fuel, variant);
  }

  lemma BytesSizeType(n: nat)
    requires n <= USIZE_MAX
    ensures ExactType("bytes" + Decimal(n)).None?
    ensures WidthType("bytes" + Decimal(n)) == Some(FixedBytes(n))
  {
    var t := "bytes" + Decimal(n);
    BytesNotExact(Decimal(n));
    assert t[0] == 'b';
    assert !StartsWith(t, "int") && !StartsWith(t, "uint");
    assert StartsWith(t, "bytes") by { assert t[..5] == "bytes"; }
    StripWordFromDigits("bytes", Decimal(n));
    DecimalRoundTrip(n);
  }

  lemma BytesNotExact(d: string)
    requires |d| > 0
    ensures ExactType("bytes" + d).None?
  {
    var t := "bytes" + d;
    assert t[0] == 'b' && t[1] == 'y' && |t| > 5;
  }

  /**
   Without a width that parses, `int` and `uint` are 256 bits wide: bare, or
   followed by any text that is not a usize and holds no second `int`/`uint`.
  */
  lemma DefaultWidths(d: string, fuel: nat, variant: Variant)
    requires |d| == 0 || d[|d| - 1] != ']'
    requires ParseUsize(d).None?
    ensures !Contains(d, "uint") ==> Classify("uint" + d, fuel, variant) == Done(Some(Uint(256)))
    ensures !Contains(d, "int") ==> Classify("int" + d, fuel, variant) == Done(Some(Int(256)))
  {
    var u := "uint" + d;
    var i := "int" + d;
    if |d| > 0 {
      assert u[|u| - 1] == d[|d| - 1] && i[|i| - 1] == d[|d| - 1];
    } else {
      assert u[|u| - 1] == 't' && i[|i| - 1] == 't';
    }
    assert u[0] == 'u' && i[0] == 'i';
    ScalarChain(u, fuel, variant);
    ScalarChain(i, fuel, variant);
    UintDefaultType(d);
    IntDefaultType(d);
  }

  lemma UintDefaultType(d: string)
    requires ParseUsize(d).None?
    ensures ExactType("uint" + d).None?
    ensures !Contains(d, "uint") ==> WidthType("uint" + d) == Some(Uint(256))
  {
    var t := "uint" + d;
    assert t[0] == 'u';
    ExactInitials(t);
    assert !StartsWith(t, "int");
    assert StartsWith(t, "uint") by { assert t[..4] == "uint"; }
    ReplaceLeading(d, "uint", "");
    if !Contains(d, "uint") {
      ReplaceAllShrinks(d, "uint", "");
      assert ReplaceAll(t, "uint", "") == d;
    }
  }

  lemma IntDefaultType(d: string)
    requires ParseUsize(d).None?
    ensures ExactType("int" + d).None?
    ensures !Contains(d, "int") ==> WidthType("int" + d) == Some(Int(256))
  {
    var t := "int" + d;
    assert t[0] == 'i';
    ExactInitials(t);
    assert StartsWith(t, "int") by { assert t[..3] == "int"; }
    ReplaceLeading(d, "int", "");
    if !Contains(d, "int") {
      ReplaceAllShrinks(d, "int", "");
      assert ReplaceAll(t, "int", "") == d;
    }
  }

  /** A `bytes…` token whose rest is not a usize, and holds no second `bytes`, is 32 bytes wide. */
  lemma BytesDefault(d: string, fuel: nat, variant: Variant)
    requires |d| > 0 && d[|d| - 1] != ']' && !Contains(d, "bytes") && ParseUsize(d).None?
    ensures Classify("bytes" + d, fuel, variant) == Done(Some(FixedBytes(32)))
  {
    var t := "bytes" + d;
    assert t[0] == 'b' && t[|t| - 1] == d[|d| - 1];
    ScalarChain(t, fuel, variant);
    BytesDefaultType(d);
  }

  lemma BytesDefaultType(d: string)
    requires |d| > 0 && !Contains(d, "bytes") && ParseUsize(d).None?
    ensures ExactType("bytes" + d).None?
    ensures WidthType("bytes" + d) == Some(FixedBytes(32))
  {
    var t := "bytes" + d;
    BytesNotExact(d);
    assert t[0] == 'b';
    assert !StartsWith(t, "int") && !StartsWith(t, "uint");
    assert StartsWith(t, "bytes") by { assert t[..5] == "bytes"; }
    ReplaceLeading(d, "bytes", "");
    ReplaceAllShrinks(d, "bytes", "");
    assert ReplaceAll(t, "bytes", "") == d;
  }
}
