/**
 The descriptors `parse_function_parameters` gives for whole families of
 signatures: parameter lists written from scalar names, dynamic arrays and
 tuples nested inside one another, each described by a grammar-directed
 reference semantics (`TypeOf`) that the parse is proved to agree with.
 */
module SignatureShapes {

  import opened Wrappers
  import opened Strings
  import opened AbiTypes
  import opened SignatureParser
  import opened SignatureProofs

  /** `name(p1,p2,...)`. */
  function Call(name: string, params: seq<string>): string
  {
    name + "(" + JoinWith(params, ',') + ")"
  }

  /** The text of a tuple parameter `(p1,...,pk)`. */
  function Paren(params: seq<string>): string
  {
    "(" + JoinWith(params, ',') + ")"
  }

  /** The parameter list of `name(body)` is `body` when the name holds no `(`. */
  lemma CallBody(name: string, body: string)
    requires '(' !in name
    ensures ParamBody(name + "(" + body + ")") == body
  {
    var sig := name + "(" + body + ")";
    var rest := body + ")";
    assert sig == name + ['('] + rest;
    IndexOfAfter(name, '(', rest);
    assert sig[|name| + 1..] == rest;
    assert LastIndexOf(rest, ')') == Some(|body|);
    assert rest[..|body|] + rest[|body| + 1..] == body;
  }

  /** The recognised descriptors of a list of per-token results, in order. */
  function Kept(xs: seq<Option<ParamType>>): seq<ParamType>
  {
    if |xs| == 0 then []
    else Kept(xs[..|xs| - 1]) + (match xs[|xs| - 1] case None => [] case Some(p) => [p])
  }

  /** The parse's answer for a list of recognised descriptors: `None` when there is none. */
  function Answer(ps: seq<ParamType>): Option<seq<ParamType>>
  {
    if |ps| == 0 then None else Some(ps)
  }

  /** When every token is typed, the list is typed token by token, the dropped ones left out. */
  lemma {:induction false} ClassifyAllEach(ts: seq<string>, fuel: nat, variant: Variant, xs: seq<Option<ParamType>>)
    requires |xs| == |ts|
    requires forall i :: 0 <= i < |ts| ==> Classify(ts[i], fuel, variant) == Done(xs[i])
    ensures ClassifyAll(ts, fuel, variant) == Done(Kept(xs))
  {
    if |ts| > 0 {
      var n := |ts| - 1;
      ClassifyAllEach(ts[..n], fuel, variant, xs[..n]);
      assert Classify(ts[n], fuel, variant) == Done(xs[n]);
      match xs[n]
      case None =>
        assert xs[..n] == xs[..|xs| - 1];
        assert Kept(xs) == Kept(xs[..n]) + [];
        assert Kept(xs[..n]) + [] == Kept(xs[..n]);
        assert ClassifyAll(ts, fuel, variant) == Done(Kept(xs[..n]));
      case Some(p) =>
    }
  }

  // ---------------------------------------------------------------------------
  // Parameter lists written from scalars, dynamic arrays and tuples

  /**
   A parameter as written: a scalar name or a parenthesised list of
   parameters, either one optionally followed by `[]`.
   */
  datatype Item = Leaf(name: string, isArray: bool) | Group(items: seq<Item>, isArray: bool)

  function Suffix(isArray: bool): string
  {
    if isArray then "[]" else ""
  }

  /** The text of a parameter. */
  function Text(it: Item): string
    decreases it, 1
  {
    match it
    case Leaf(name, isArray) => name + Suffix(isArray)
    case Group(items, isArray) => "(" + JoinWith(Texts(items), ',') + ")" + Suffix(isArray)
  }

  function Texts(items: seq<Item>): (r: seq<string>)
    ensures |r| == |items|
    decreases items, 0
  {
    if |items| == 0 then [] else Texts(items[..|items| - 1]) + [Text(items[|items| - 1])]
  }

  /** A scalar name: no bracket of either kind and no comma. */
  predicate PlainName(name: string)
  {
    '(' !in name && ')' !in name && ',' !in name && '[' !in name && ']' !in name
  }

  /**
   The parameters this model describes: scalar names, and tuples that are
   not empty and whose first and last parameters are not tuples.
   */
  ghost predicate WellFormed(it: Item)
    decreases it
  {
    match it
    case Leaf(name, _) => PlainName(name)
    case Group(items, _) =>
      && |items| >= 1 && items[0].Leaf? && items[|items| - 1].Leaf?
      && forall i :: 0 <= i < |items| ==> WellFormed(items[i])
  }

  /** No `[]` anywhere inside. */
  ghost predicate NoArrays(it: Item)
    decreases it
  {
    match it
    case Leaf(_, isArray) => !isArray
    case Group(items, isArray) => !isArray && forall i :: 0 <= i < |items| ==> NoArrays(items[i])
  }

  /** As written, an array of tuples is read correctly only when nothing inside it is an array. */
  ghost predicate Supported(it: Item, variant: Variant)
    decreases it
  {
    match it
    case Leaf(_, _) => true
    case Group(items, isArray) =>
      && (variant == AsWritten && isArray ==> forall i :: 0 <= i < |items| ==> NoArrays(items[i]))
      && forall i :: 0 <= i < |items| ==> Supported(items[i], variant)
  }

  /** The descriptor a parameter stands for, by the Solidity grammar; `None` for an unknown scalar name. */
  function TypeOf(it: Item): Option<ParamType>
    decreases it, 1
  {
    match it
    case Leaf(name, isArray) =>
      (match ScalarType(name)
       case None => None
       case Some(p) => Some(if isArray then Array(p) else p))
    case Group(items, isArray) =>
      var ps := Kept(TypesOf(items));
      if |ps| == 0 then None
      else Some(if isArray then Array(Collapse(ps)) else Tuple(ps))
  }

  function TypesOf(items: seq<Item>): (r: seq<Option<ParamType>>)
    ensures |r| == |items|
    decreases items, 0
  {
    if |items| == 0 then [] else TypesOf(items[..|items| - 1]) + [TypeOf(items[|items| - 1])]
  }

  /** The nesting depth, which is the fuel the parse needs. */
  function Depth(it: Item): nat
    decreases it, 1
  {
    match it
    case Leaf(_, isArray) => if isArray then 1 else 0
    case Group(items, _) => 1 + MaxDepth(items)
  }

  function MaxDepth(items: seq<Item>): nat
    decreases items, 0
  {
    if |items| == 0 then 0
    else
      var d := Depth(items[|items| - 1]);
      var m := MaxDepth(items[..|items| - 1]);
      if d < m then m else d
  }

  lemma {:induction false} TextsIndex(items: seq<Item>, i: nat)
    requires i < |items|
    ensures Texts(items)[i] == Text(items[i])
    ensures TypesOf(items)[i] == TypeOf(items[i])
    ensures Depth(items[i]) <= MaxDepth(items)
  {
    if i < |items| - 1 {
      TextsIndex(items[..|items| - 1], i);
    }
  }

  // ---------------------------------------------------------------------------
  // How the split and the re-merge see such a list

  /** The comma-separated fragments of a parameter's text, in order. */
  function Frags(it: Item): seq<string>
    decreases it, 1
  {
    match it
    case Leaf(_, _) => [Text(it)]
    case Group(items, isArray) =>
      if |items| <= 1 then [Text(it)]
      else ["(" + Text(items[0])] + FlatFrags(items[1..|items| - 1]) + [Text(items[|items| - 1]) + ")" + Suffix(isArray)]
  }

  function FlatFrags(items: seq<Item>): seq<string>
    decreases items, 0
  {
    if |items| == 0 then [] else FlatFrags(items[..|items| - 1]) + Frags(items[|items| - 1])
  }

  lemma {:induction false} TextsConcat(a: seq<Item>, b: seq<Item>)
    ensures Texts(a + b) == Texts(a) + Texts(b)
    decreases |b|
  {
    if |b| == 0 {
      assert a + b == a;
    } else {
      assert (a + b)[..|a + b| - 1] == a + b[..|b| - 1];
      TextsConcat(a, b[..|b| - 1]);
    }
  }

  lemma SingleTexts(x: Item)
    ensures Texts([x]) == [Text(x)]
  {
    assert [x][..0] == [];
  }

  lemma SplitEnds<T>(s: seq<T>)
    requires |s| >= 2
    ensures s == [s[0]] + s[1..|s| - 1] + [s[|s| - 1]]
  {
    assert s[..|s| - 1] == [s[0]] + s[1..|s| - 1];
  }

  /** A group of two or more parameters splits at its first and last parameter. */
  lemma GroupShape(items: seq<Item>)
    requires |items| >= 2
    ensures Texts(items) == [Text(items[0])] + Texts(items[1..|items| - 1]) + [Text(items[|items| - 1])]
  {
    var n := |items|;
    var head, mid, tail := [items[0]], items[1..n - 1], [items[n - 1]];
    SplitEnds(items);
    TextsConcat(head + mid, tail);
    TextsConcat(head, mid);
    SingleTexts(items[0]);
    SingleTexts(items[n - 1]);
  }

  lemma JoinThree(a: string, mid: seq<string>, b: string, sep: char)
    requires |mid| > 0
    ensures JoinWith([a] + mid + [b], sep) == a + [sep] + JoinWith(mid, sep) + [sep] + b
  {
    assert ([a] + mid + [b])[1..] == mid + [b];
    JoinAppend(mid, b, sep);
  }

  lemma JoinTwo(a: string, b: string, sep: char)
    ensures JoinWith([a] + [b], sep) == a + [sep] + b
  {
    assert ([a] + [b])[1..] == [b];
  }

  /** Joining the fragments with commas gives back the text. */
  lemma {:induction false} JoinFrags(it: Item)
    requires WellFormed(it)
    ensures |Frags(it)| >= 1
    ensures JoinWith(Frags(it), ',') == Text(it)
    decreases it, 1
  {
    match it
    case Leaf(_, _) =>
    case Group(items, isArray) =>
      if |items| >= 2 {
        var mid := items[1..|items| - 1];
        forall i | 0 <= i < |mid| ensures WellFormed(mid[i]) {
          assert mid[i] == items[i + 1];
        }
        if |mid| > 0 {
          JoinFlatFrags(mid);
        }
        GroupJoin(items, isArray);
      }
  }

  /** The group case of `JoinFrags`, once the middle parameters are known to join back. */
  lemma GroupJoin(items: seq<Item>, isArray: bool)
    requires |items| >= 2
    requires |items| > 2 ==> JoinWith(FlatFrags(items[1..|items| - 1]), ',') == JoinWith(Texts(items[1..|items| - 1]), ',')
    requires |items| > 2 ==> |FlatFrags(items[1..|items| - 1])| >= 1
    ensures JoinWith(Frags(Group(items, isArray)), ',') == Text(Group(items, isArray))
  {
    var n := |items|;
    var a := "(" + Text(items[0]);
    var b := Text(items[n - 1]) + ")" + Suffix(isArray);
    assert Frags(Group(items, isArray)) == [a] + FlatFrags(items[1..n - 1]) + [b];
    GroupShape(items);
    if n == 2 {
      GroupJoinPair(items, isArray, a, b);
    } else {
      GroupJoinMore(items, isArray, a, b);
    }
  }

  lemma GroupJoinPair(items: seq<Item>, isArray: bool, a: string, b: string)
    requires |items| == 2
    requires a == "(" + Text(items[0]) && b == Text(items[1]) + ")" + Suffix(isArray)
    requires Texts(items) == [Text(items[0])] + Texts(items[1..1]) + [Text(items[1])]
    ensures JoinWith([a] + FlatFrags(items[1..1]) + [b], ',') == Text(Group(items, isArray))
  {
    var first, last := Text(items[0]), Text(items[1]);
    assert items[1..1] == [];
    assert [a] + FlatFrags(items[1..1]) + [b] == [a] + [b];
    assert Texts(items) == [first] + [last];
    JoinTwo(a, b, ',');
    JoinTwo(first, last, ',');
    RegroupTwo("(", first, last, ")", Suffix(isArray), ',');
  }

  lemma RegroupTwo(o: string, x: string, y: string, cl: string, sf: string, sep: char)
    ensures (o + x) + [sep] + (y + cl + sf) == o + (x + [sep] + y) + cl + sf
  {
  }

  lemma RegroupThree(o: string, x: string, m: string, y: string, cl: string, sf: string, sep: char)
    ensures (o + x) + [sep] + m + [sep] + (y + cl + sf) == o + (x + [sep] + m + [sep] + y) + cl + sf
  {
  }

  lemma GroupJoinMore(items: seq<Item>, isArray: bool, a: string, b: string)
    requires |items| > 2
    requires a == "(" + Text(items[0]) && b == Text(items[|items| - 1]) + ")" + Suffix(isArray)
    requires Texts(items) == [Text(items[0])] + Texts(items[1..|items| - 1]) + [Text(items[|items| - 1])]
    requires JoinWith(FlatFrags(items[1..|items| - 1]), ',') == JoinWith(Texts(items[1..|items| - 1]), ',')
    requires |FlatFrags(items[1..|items| - 1])| >= 1
    ensures JoinWith([a] + FlatFrags(items[1..|items| - 1]) + [b], ',') == Text(Group(items, isArray))
  {
    var mid := items[1..|items| - 1];
    var first, last := Text(items[0]), Text(items[|items| - 1]);
    JoinThree(a, FlatFrags(mid), b, ',');
    JoinThree(first, Texts(mid), last, ',');
    RegroupThree("(", first, JoinWith(Texts(mid), ','), last, ")", Suffix(isArray), ',');
  }

  lemma {:induction false} JoinFlatFrags(items: seq<Item>)
    requires |items| >= 1
    requires forall i :: 0 <= i < |items| ==> WellFormed(items[i])
    ensures |FlatFrags(items)| >= 1
    ensures JoinWith(FlatFrags(items), ',') == JoinWith(Texts(items), ',')
    decreases items, 0
  {
    var n := |items|;
    var last := items[n - 1];
    JoinFrags(last);
    if n == 1 {
      assert items[..0] == [];
      assert FlatFrags(items) == Frags(last);
    } else {
      var prefix := items[..n - 1];
      JoinFlatFrags(prefix);
      JoinConcat(FlatFrags(prefix), Frags(last), ',');
      JoinAppend(Texts(prefix), Text(last), ',');
    }
  }

  // ---------------------------------------------------------------------------
  // Counting brackets fragment by fragment

  /** No bracket of the tuple kind and no comma. */
  predicate Plain(s: string)
  {
    '(' !in s && ')' !in s && ',' !in s
  }

  lemma LeafPlain(it: Item)
    requires it.Leaf? && WellFormed(it)
    ensures Plain(Text(it))
  {
  }

  /** Both variants count the brackets of a fragment alike while it holds at most one of each. */
  lemma FragCounts(l: string, sfx: string, variant: Variant)
    requires Plain(l) && Plain(sfx)
    ensures Opens(l, variant) == 0 && Closes(l, variant) == 0
    ensures Opens("(" + l, variant) == 1 && Closes("(" + l, variant) == 0
    ensures Opens(l + ")" + sfx, variant) == 0 && Closes(l + ")" + sfx, variant) == 1
    ensures Opens("(" + l + ")" + sfx, variant) == 1 && Closes("(" + l + ")" + sfx, variant) == 1
  {
    assert multiset(l)['('] == 0 && multiset(l)[')'] == 0;
    assert multiset(sfx)['('] == 0 && multiset(sfx)[')'] == 0;
    CountChar(l, '(');
    CountChar(l, ')');
    CountChar("(" + l, '(');
    CountChar("(" + l, ')');
    CountChar(l + ")" + sfx, '(');
    CountChar(l + ")" + sfx, ')');
    CountChar("(" + l + ")" + sfx, '(');
    CountChar("(" + l + ")" + sfx, ')');
  }

  /** The text of a one-parameter group. */
  lemma OneItemText(items: seq<Item>, isArray: bool)
    requires |items| == 1
    ensures Text(Group(items, isArray)) == "(" + Text(items[0]) + ")" + Suffix(isArray)
  {
    assert items == [items[0]];
    SingleTexts(items[0]);
  }

  /** The fragments of a group of two or more parameters. */
  lemma GroupFrags(items: seq<Item>, isArray: bool)
    requires |items| >= 2
    ensures Frags(Group(items, isArray))
         == ["(" + Text(items[0])] + FlatFrags(items[1..|items| - 1]) + [Text(items[|items| - 1]) + ")" + Suffix(isArray)]
  {
  }

  lemma MiddleWellFormed(items: seq<Item>, mid: seq<Item>)
    requires |items| >= 2 && mid == items[1..|items| - 1]
    requires forall i :: 0 <= i < |items| ==> WellFormed(items[i])
    ensures forall i :: 0 <= i < |mid| ==> WellFormed(mid[i])
  {
    forall i | 0 <= i < |mid| ensures WellFormed(mid[i]) {
      assert mid[i] == items[i + 1];
    }
  }

  // ---------------------------------------------------------------------------
  // The re-merge loop over a laid-out list

  lemma {:induction false} MergeFoldConcat(st: MergeState, a: seq<string>, b: seq<string>, variant: Variant)
    ensures MergeFold(st, a + b, variant) == MergeFold(MergeFold(st, a, variant), b, variant)
    decreases |b|
  {
    if |b| == 0 {
      assert a + b == a;
    } else {
      assert (a + b)[..|a + b| - 1] == a + b[..|b| - 1];
      MergeFoldConcat(st, a, b[..|b| - 1], variant);
    }
  }

  lemma MergeOne(st: MergeState, f: string, variant: Variant)
    ensures MergeFold(st, [f], variant) == MergeStep(st, f, variant)
  {
    assert [f][..0] == [];
  }

  /** A fragment that opens a tuple, at any depth from zero up. */
  lemma StepOpen(st: MergeState, f: string, variant: Variant)
    requires st.depth >= 0 && Opens(f, variant) == 1 && Closes(f, variant) == 0
    ensures MergeStep(st, f, variant) == MergeState(st.depth + 1, st.complex + [f], st.inputs)
  {
  }

  /** A fragment without brackets inside an open tuple is buffered. */
  lemma StepInside(st: MergeState, f: string, variant: Variant)
    requires st.depth >= 1 && Opens(f, variant) == Closes(f, variant) <= 1
    ensures MergeStep(st, f, variant) == MergeState(st.depth, st.complex + [f], st.inputs)
  {
  }

  /** A fragment that closes a nested tuple is buffered too. */
  lemma StepCloseInner(st: MergeState, f: string, variant: Variant)
    requires st.depth >= 2 && Opens(f, variant) == 0 && Closes(f, variant) == 1
    ensures MergeStep(st, f, variant) == MergeState(st.depth - 1, st.complex + [f], st.inputs)
  {
  }

  /** A fragment that closes the outermost tuple emits the buffered fragments joined. */
  lemma StepCloseOuter(st: MergeState, f: string, variant: Variant)
    requires st.depth == 1 && Opens(f, variant) == 0 && Closes(f, variant) == 1
    ensures MergeStep(st, f, variant) == MergeState(0, [], st.inputs + [JoinWith(st.complex + [f], ',')])
  {
  }

  /** A fragment without brackets at the top level is emitted as it is. */
  lemma StepTop(st: MergeState, f: string, variant: Variant)
    requires st.depth == 0 && st.complex == [] && Opens(f, variant) == 0 && Closes(f, variant) == 0
    ensures MergeStep(st, f, variant) == MergeState(0, [], st.inputs + [f])
  {
  }

  /** A whole one-fragment tuple at the top level is emitted as it is. */
  lemma StepTopTuple(st: MergeState, f: string, variant: Variant)
    requires st.depth == 0 && st.complex == [] && Opens(f, variant) == 1 && Closes(f, variant) == 1
    ensures MergeStep(st, f, variant) == MergeState(0, [], st.inputs + [f])
  {
    assert JoinWith([] + [f], ',') == f;
  }

  /** Opening fragment, middle fragments, closing fragment: the shape of a group of two or more. */
  lemma GroupMerge(st: MergeState, a: string, ff: seq<string>, b: string, mid: MergeState, variant: Variant)
    requires st.depth >= 0 && Opens(a, variant) == 1 && Closes(a, variant) == 0
    requires Opens(b, variant) == 0 && Closes(b, variant) == 1
    requires MergeFold(MergeState(st.depth + 1, st.complex + [a], st.inputs), ff, variant) == mid
    requires mid == MergeState(st.depth + 1, st.complex + [a] + ff, st.inputs)
    ensures MergeFold(st, [a] + ff + [b], variant) == MergeStep(mid, b, variant)
  {
    MergeFoldConcat(st, [a] + ff, [b], variant);
    MergeFoldConcat(st, [a], ff, variant);
    MergeOne(st, a, variant);
    StepOpen(st, a, variant);
    MergeOne(MergeFold(st, [a] + ff, variant), b, variant);
  }

  /** The counts of a leaf, a one-parameter group, and the two ends of a larger group. */
  lemma ItemCounts(it: Item, variant: Variant)
    requires WellFormed(it)
    ensures it.Leaf? ==> Opens(Text(it), variant) == 0 && Closes(Text(it), variant) == 0
    ensures it.Group? && |it.items| == 1 ==> Opens(Text(it), variant) == 1 && Closes(Text(it), variant) == 1
    ensures it.Group? && |it.items| >= 2 ==>
      && Opens("(" + Text(it.items[0]), variant) == 1 && Closes("(" + Text(it.items[0]), variant) == 0
      && Opens(Text(it.items[|it.items| - 1]) + ")" + Suffix(it.isArray), variant) == 0
      && Closes(Text(it.items[|it.items| - 1]) + ")" + Suffix(it.isArray), variant) == 1
  {
    match it
    case Leaf(_, _) =>
      LeafPlain(it);
      FragCounts(Text(it), "", variant);
    case Group(items, isArray) =>
      var n := |items|;
      LeafPlain(items[0]);
      LeafPlain(items[n - 1]);
      FragCounts(Text(items[0]), Suffix(isArray), variant);
      FragCounts(Text(items[n - 1]), Suffix(isArray), variant);
      if n == 1 {
        OneItemText(items, isArray);
      }
  }

  /** Buffering two runs of fragments in turn buffers them together. */
  lemma BufferedConcat(st: MergeState, p: seq<string>, q: seq<string>, variant: Variant)
    requires MergeFold(st, p, variant) == MergeState(st.depth, st.complex + p, st.inputs)
    requires MergeFold(MergeState(st.depth, st.complex + p, st.inputs), q, variant)
          == MergeState(st.depth, st.complex + p + q, st.inputs)
    ensures MergeFold(st, p + q, variant) == MergeState(st.depth, st.complex + (p + q), st.inputs)
  {
    MergeFoldConcat(st, p, q, variant);
    assert st.complex + p + q == st.complex + (p + q);
  }

  /** `InsideItem` for a leaf or a one-parameter group: a single fragment. */
  lemma InsideSimple(it: Item, d: int, cx: seq<string>, ins: seq<string>, variant: Variant)
    requires WellFormed(it) && d >= 1 && (it.Leaf? || |it.items| == 1)
    ensures MergeFold(MergeState(d, cx, ins), Frags(it), variant) == MergeState(d, cx + Frags(it), ins)
  {
    var st := MergeState(d, cx, ins);
    ItemCounts(it, variant);
    assert Frags(it) == [Text(it)];
    MergeOne(st, Text(it), variant);
    StepInside(st, Text(it), variant);
  }

  /** `InsideItem` for a group of two or more, once its middle fragments are known to be buffered. */
  lemma InsideGroup(d: int, cx: seq<string>, ins: seq<string>, a: string, ff: seq<string>, b: string, variant: Variant)
    requires d >= 1
    requires Opens(a, variant) == 1 && Closes(a, variant) == 0
    requires Opens(b, variant) == 0 && Closes(b, variant) == 1
    requires MergeFold(MergeState(d + 1, cx + [a], ins), ff, variant) == MergeState(d + 1, cx + [a] + ff, ins)
    ensures MergeFold(MergeState(d, cx, ins), [a] + ff + [b], variant) == MergeState(d, cx + ([a] + ff + [b]), ins)
  {
    var m := MergeState(d + 1, cx + [a] + ff, ins);
    GroupMerge(MergeState(d, cx, ins), a, ff, b, m, variant);
    StepCloseInner(m, b, variant);
    assert cx + [a] + ff + [b] == cx + ([a] + ff + [b]);
  }

  /**
   Inside an open tuple (depth at least one) a well-formed parameter's
   fragments are only buffered, and the depth comes back to where it was.
   */
  lemma {:induction false} InsideItem(it: Item, d: int, cx: seq<string>, ins: seq<string>, variant: Variant)
    requires WellFormed(it) && d >= 1
    ensures MergeFold(MergeState(d, cx, ins), Frags(it), variant) == MergeState(d, cx + Frags(it), ins)
    decreases it, 1
  {
    if it.Leaf? || |it.items| == 1 {
      InsideSimple(it, d, cx, ins, variant);
    } else {
      InsideTuple(it, d, cx, ins, variant);
    }
  }

  /** The case of `InsideItem` for a tuple of two or more parameters. */
  lemma {:induction false} InsideTuple(it: Item, d: int, cx: seq<string>, ins: seq<string>, variant: Variant)
    requires WellFormed(it) && d >= 1 && it.Group? && |it.items| >= 2
    ensures MergeFold(MergeState(d, cx, ins), Frags(it), variant) == MergeState(d, cx + Frags(it), ins)
    decreases it, 0
  {
    InsideMiddle(it.items, d + 1, cx + ["(" + Text(it.items[0])], ins, variant);
    InsideEnds(it.items, it.isArray, d, cx, ins, variant);
  }

  /** `InsideTuple`, once the middle parameters are known to be buffered one level deeper. */
  lemma InsideEnds(items: seq<Item>, isArray: bool, d: int, cx: seq<string>, ins: seq<string>, variant: Variant)
    requires |items| >= 2 && items[0].Leaf? && items[|items| - 1].Leaf? && d >= 1
    requires forall i :: 0 <= i < |items| ==> WellFormed(items[i])
    requires var a, ff := "(" + Text(items[0]), FlatFrags(items[1..|items| - 1]);
      MergeFold(MergeState(d + 1, cx + [a], ins), ff, variant) == MergeState(d + 1, cx + [a] + ff, ins)
    ensures var fs := Frags(Group(items, isArray));
      MergeFold(MergeState(d, cx, ins), fs, variant) == MergeState(d, cx + fs, ins)
  {
    var a, b := "(" + Text(items[0]), Text(items[|items| - 1]) + ")" + Suffix(isArray);
    EndCounts(items, isArray, variant);
    GroupFrags(items, isArray);
    InsideGroup(d, cx, ins, a, FlatFrags(items[1..|items| - 1]), b, variant);
  }

  /** The middle parameters of a tuple, inside it, are only buffered. */
  lemma {:induction false} InsideMiddle(items: seq<Item>, d: int, cx: seq<string>, ins: seq<string>, variant: Variant)
    requires |items| >= 2 && d >= 1
    requires forall i :: 0 <= i < |items| ==> WellFormed(items[i])
    ensures var ff := FlatFrags(items[1..|items| - 1]);
      MergeFold(MergeState(d, cx, ins), ff, variant) == MergeState(d, cx + ff, ins)
    decreases items, 1
  {
    var mid := items[1..|items| - 1];
    MiddleWellFormed(items, mid);
    InsideItems(mid, d, cx, ins, variant);
  }

  /** The first fragment of a laid-out tuple opens one level, and its last closes one. */
  lemma EndCounts(items: seq<Item>, isArray: bool, variant: Variant)
    requires |items| >= 2 && items[0].Leaf? && items[|items| - 1].Leaf?
    requires forall i :: 0 <= i < |items| ==> WellFormed(items[i])
    ensures Opens("(" + Text(items[0]), variant) == 1 && Closes("(" + Text(items[0]), variant) == 0
    ensures Opens(Text(items[|items| - 1]) + ")" + Suffix(isArray), variant) == 0
    ensures Closes(Text(items[|items| - 1]) + ")" + Suffix(isArray), variant) == 1
  {
    LeafPlain(items[0]);
    LeafPlain(items[|items| - 1]);
    FragCounts(Text(items[0]), Suffix(isArray), variant);
    FragCounts(Text(items[|items| - 1]), Suffix(isArray), variant);
  }

  lemma {:induction false} InsideItems(items: seq<Item>, d: int, cx: seq<string>, ins: seq<string>, variant: Variant)
    requires d >= 1
    requires forall i :: 0 <= i < |items| ==> WellFormed(items[i])
    ensures MergeFold(MergeState(d, cx, ins), FlatFrags(items), variant) == MergeState(d, cx + FlatFrags(items), ins)
    decreases items, 0
  {
    if |items| == 0 {
      assert cx + [] == cx;
    } else {
      var n := |items|;
      var prefix, last := items[..n - 1], items[n - 1];
      var fp := FlatFrags(prefix);
      InsideItems(prefix, d, cx, ins, variant);
      InsideItem(last, d, cx + fp, ins, variant);
      BufferedConcat(MergeState(d, cx, ins), fp, Frags(last), variant);
    }
  }

  /** At the top level a well-formed parameter's fragments come out re-merged into its text. */
  lemma TopItem(it: Item, ins: seq<string>, variant: Variant)
    requires WellFormed(it)
    ensures MergeFold(MergeState(0, [], ins), Frags(it), variant) == MergeState(0, [], ins + [Text(it)])
  {
    if it.Leaf? || |it.items| == 1 {
      TopSingle(it, ins, variant);
    } else {
      TopGroup(it, ins, variant);
    }
  }

  /** A parameter laid out as one fragment. */
  lemma TopSingle(it: Item, ins: seq<string>, variant: Variant)
    requires WellFormed(it) && (it.Leaf? || |it.items| == 1)
    ensures MergeFold(MergeState(0, [], ins), Frags(it), variant) == MergeState(0, [], ins + [Text(it)])
  {
    var st := MergeState(0, [], ins);
    ItemCounts(it, variant);
    assert Frags(it) == [Text(it)];
    MergeOne(st, Text(it), variant);
    if it.Leaf? {
      StepTop(st, Text(it), variant);
    } else {
      StepTopTuple(st, Text(it), variant);
    }
  }

  /** A tuple of two or more parameters: the fragments are buffered from its `(` to its `)`. */
  lemma TopGroup(it: Item, ins: seq<string>, variant: Variant)
    requires WellFormed(it) && it.Group? && |it.items| >= 2
    ensures MergeFold(MergeState(0, [], ins), Frags(it), variant) == MergeState(0, [], ins + [Text(it)])
  {
    ItemCounts(it, variant);
    var items, n := it.items, |it.items|;
    var a, b := "(" + Text(items[0]), Text(items[n - 1]) + ")" + Suffix(it.isArray);
    var mid := items[1..n - 1];
    GroupFrags(items, it.isArray);
    MiddleWellFormed(items, mid);
    InsideItems(mid, 1, [a], ins, variant);
    GroupTopMerge(ins, a, FlatFrags(mid), b, variant);
    JoinFrags(it);
  }

  /** A group's first fragment opens, its middle stays buffered and its last closes: one joined token. */
  lemma GroupTopMerge(ins: seq<string>, a: string, ff: seq<string>, b: string, variant: Variant)
    requires Opens(a, variant) == 1 && Closes(a, variant) == 0 && Opens(b, variant) == 0 && Closes(b, variant) == 1
    requires MergeFold(MergeState(1, [a], ins), ff, variant) == MergeState(1, [a] + ff, ins)
    ensures MergeFold(MergeState(0, [], ins), [a] + ff + [b], variant) == MergeState(0, [], ins + [JoinWith([a] + ff + [b], ',')])
  {
    var st := MergeState(0, [], ins);
    assert st.complex + [a] == [a];
    var m := MergeState(1, [a] + ff, ins);
    GroupMerge(st, a, ff, b, m, variant);
    StepCloseOuter(m, b, variant);
  }

  /** The re-merge of a laid-out list gives back one token per parameter. */
  lemma {:induction false} TopItems(items: seq<Item>, variant: Variant)
    requires forall i :: 0 <= i < |items| ==> WellFormed(items[i])
    ensures MergeFold(MergeStart, FlatFrags(items), variant) == MergeState(0, [], Texts(items))
    decreases |items|
  {
    if |items| > 0 {
      var n := |items|;
      var prefix, last := items[..n - 1], items[n - 1];
      assert FlatFrags(items) == FlatFrags(prefix) + Frags(last);
      TopItems(prefix, variant);
      MergeFoldConcat(MergeStart, FlatFrags(prefix), Frags(last), variant);
      TopItem(last, Texts(prefix), variant);
    }
  }

  /** Without any `(`, the re-merge hands every fragment on as it is. */
  lemma {:induction false} NoOpenRemerge(frags: seq<string>, variant: Variant)
    requires forall i :: 0 <= i < |frags| ==> '(' !in frags[i]
    ensures MergeFold(MergeStart, frags, variant).depth <= 0
    ensures MergeFold(MergeStart, frags, variant).complex == []
    ensures Remerge(frags, variant) == frags
    decreases |frags|
  {
    if |frags| > 0 {
      var n := |frags|;
      NoOpenRemerge(frags[..n - 1], variant);
      NoOpenStep(MergeFold(MergeStart, frags[..n - 1], variant), frags[n - 1], variant);
      assert frags == frags[..n - 1] + [frags[n - 1]];
    }
  }

  /** A fragment without `(`, at depth zero or below with nothing buffered, is handed on as it is. */
  lemma NoOpenStep(st: MergeState, f: string, variant: Variant)
    requires st.depth <= 0 && st.complex == [] && '(' !in f
    ensures MergeStep(st, f, variant) == MergeState(st.depth - Closes(f, variant), [], st.inputs + [f])
  {
    CountChar(f, '(');
  }

  // ---------------------------------------------------------------------------
  // The tokens of a laid-out signature

  /** No fragment holds a comma. */
  predicate NoComma(frags: seq<string>)
  {
    forall i :: 0 <= i < |frags| ==> ',' !in frags[i]
  }

  lemma NoCommaConcat(p: seq<string>, q: seq<string>)
    requires NoComma(p) && NoComma(q)
    ensures NoComma(p + q)
  {
    forall i | 0 <= i < |p + q| ensures ',' !in (p + q)[i] {
      if i >= |p| {
        assert (p + q)[i] == q[i - |p|];
      }
    }
  }

  lemma {:induction false} FragsNoComma(it: Item)
    requires WellFormed(it)
    ensures NoComma(Frags(it))
    decreases it, 1
  {
    match it
    case Leaf(_, _) =>
      LeafPlain(it);
    case Group(items, isArray) =>
      var n := |items|;
      LeafPlain(items[0]);
      LeafPlain(items[n - 1]);
      if n == 1 {
        OneItemText(items, isArray);
        assert Frags(it) == ["(" + Text(items[0]) + ")" + Suffix(isArray)];
      } else {
        var mid := items[1..n - 1];
        MiddleWellFormed(items, mid);
        FlatNoComma(mid);
        GroupFrags(items, isArray);
        NoCommaConcat(["(" + Text(items[0])], FlatFrags(mid));
        NoCommaConcat(["(" + Text(items[0])] + FlatFrags(mid), [Text(items[n - 1]) + ")" + Suffix(isArray)]);
      }
  }

  lemma {:induction false} FlatNoComma(items: seq<Item>)
    requires forall i :: 0 <= i < |items| ==> WellFormed(items[i])
    ensures NoComma(FlatFrags(items))
    decreases items, 0
  {
    if |items| > 0 {
      var n := |items|;
      FlatNoComma(items[..n - 1]);
      FragsNoComma(items[n - 1]);
      NoCommaConcat(FlatFrags(items[..n - 1]), Frags(items[n - 1]));
    }
  }

  /** The tokens of `name(body)` when `body` is the comma-join of comma-free fragments that re-merge into `ts`. */
  lemma TokensOfFragments(name: string, body: string, ff: seq<string>, ts: seq<string>, variant: Variant)
    requires '(' !in name && |ff| >= 1 && NoComma(ff)
    requires body == JoinWith(ff, ',') && Remerge(ff, variant) == ts
    ensures Tokens(name + "(" + body + ")", variant) == ts
  {
    CallBody(name, body);
    SplitJoin(ff, ',');
    if '(' !in body {
      forall i | 0 <= i < |ff| ensures '(' !in ff[i] {
        PartWithinJoin(ff, i, ',');
        assert '(' !in multiset(body);
      }
      NoOpenRemerge(ff, variant);
    }
  }

  /**
   The split and the re-merge of `name(p1,...,pk)` give back the parameters
   `p1`, ..., `pk`, whatever the tuple nesting, in both variants.
   */
  lemma LayoutTokens(name: string, items: seq<Item>, variant: Variant)
    requires '(' !in name && |items| >= 1
    requires forall i :: 0 <= i < |items| ==> WellFormed(items[i])
    ensures Tokens(Call(name, Texts(items)), variant) == Texts(items)
  {
    JoinFlatFrags(items);
    FlatNoComma(items);
    TopItems(items, variant);
    TokensOfFragments(name, JoinWith(Texts(items), ','), FlatFrags(items), Texts(items), variant);
  }

  // ---------------------------------------------------------------------------
  // The descriptors of a laid-out signature

  lemma {:induction false} JoinFree(parts: seq<string>, sep: char, c: char)
    requires c != sep
    requires forall i :: 0 <= i < |parts| ==> c !in parts[i]
    ensures c !in JoinWith(parts, sep)
    decreases |parts|
  {
    if |parts| > 1 {
      JoinFree(parts[1..], sep, c);
    }
  }

  /** Without arrays inside, a parameter's text holds no `[`. */
  lemma {:induction false} NoBracketText(it: Item)
    requires WellFormed(it) && NoArrays(it)
    ensures '[' !in Text(it)
    decreases it
  {
    match it
    case Leaf(_, _) =>
    case Group(items, _) =>
      forall i | 0 <= i < |items| ensures '[' !in Texts(items)[i] {
        TextsIndex(items, i);
        NoBracketText(items[i]);
      }
      JoinFree(Texts(items), ',', '[');
  }

  /** A scalar name is typed by the table, and parses as a one-token signature. */
  lemma LeafParse(name: string, fuel: nat, variant: Variant)
    requires PlainName(name)
    ensures Classify(name, fuel, variant) == Done(ScalarType(name))
    ensures Parse(name, fuel, variant) == Done(Answer(Kept([ScalarType(name)])))
  {
    if |name| > 0 {
      assert name[..1][0] == name[0] != '(';
      assert name[|name| - 1..][0] == name[|name| - 1] != ']';
    }
    ScalarByTable(name, fuel, variant);
    SingleToken(name, variant);
    ClassifyAllSingle(name, fuel, variant);
    var xs := [ScalarType(name)];
    assert xs[..0] == [];
  }

  /** A `(...)` token is handed to the tuple rule. */
  lemma TupleToken(body: string, fuel: nat, variant: Variant, sub: Outcome<Option<seq<ParamType>>>)
    requires fuel >= 1 && Parse("(" + body + ")", fuel - 1, variant) == sub
    ensures Classify("(" + body + ")", fuel, variant) == Nested(sub, AsTuple)
  {
    var t := "(" + body + ")";
    assert t[0] == '(' && t[|t| - 1] == ')';
    assert t[..1] == "(";
    ExactInitials(t);
  }

  /**
   `s[]` is handed to the dynamic-array rule, which recurses on `s`: always
   when corrected, and as written when `s` holds no `[`.
   */
  lemma ArrayToken(s: string, fuel: nat, variant: Variant, sub: Outcome<Option<seq<ParamType>>>)
    requires fuel >= 1 && (variant == Corrected || '[' !in s) && Parse(s, fuel - 1, variant) == sub
    ensures Classify(s + "[]", fuel, variant) == Nested(sub, AsArray)
  {
    var t := s + "[]";
    assert t[|t| - 1] == ']';
    assert t[|t| - 2..] == "[]";
    assert t[..|t| - 2] == s;
    ExactInitials(t);
    assert ExactType(t).None?;
    assert !IsTupleToken(t);
    if variant == AsWritten {
      ReplaceAfterPlain(s, "[]", "[]", "");
      ReplaceLeading("", "[]", "");
    }
    assert ArrayElementText(t, variant) == s;
  }

  lemma KeptOne(x: Option<ParamType>)
    ensures Kept([x]) == match x case None => [] case Some(p) => [p]
  {
    assert [x][..0] == [];
  }

  /** A scalar parameter, or an array of one, gets the descriptor the grammar gives it. */
  lemma LeafClassify(it: Item, fuel: nat, variant: Variant)
    requires it.Leaf? && WellFormed(it) && fuel >= Depth(it)
    ensures Classify(Text(it), fuel, variant) == Done(TypeOf(it))
  {
    var name := it.name;
    if it.isArray {
      assert it == Leaf(name, true);
      LeafArray(name, fuel, variant);
    } else {
      assert it == Leaf(name, false);
      LeafScalar(name, fuel, variant);
    }
  }

  lemma LeafScalar(name: string, fuel: nat, variant: Variant)
    requires PlainName(name)
    ensures Classify(Text(Leaf(name, false)), fuel, variant) == Done(TypeOf(Leaf(name, false)))
  {
    assert Text(Leaf(name, false)) == name;
    LeafParse(name, fuel, variant);
    match ScalarType(name)
    case None =>
    case Some(p) =>
  }

  lemma LeafArray(name: string, fuel: nat, variant: Variant)
    requires PlainName(name) && fuel >= 1
    ensures Classify(Text(Leaf(name, true)), fuel, variant) == Done(TypeOf(Leaf(name, true)))
  {
    var sub := Done(Answer(Kept([ScalarType(name)])));
    LeafParse(name, fuel - 1, variant);
    ArrayToken(name, fuel, variant, sub);
    LeafArrayType(name);
  }

  /** What the dynamic-array rule makes of a scalar name's parse is the grammar's array of it. */
  lemma LeafArrayType(name: string)
    ensures Text(Leaf(name, true)) == name + "[]"
    ensures Nested(Done(Answer(Kept([ScalarType(name)]))), AsArray) == Done(TypeOf(Leaf(name, true)))
  {
    var x := ScalarType(name);
    KeptOne(x);
    match x
    case None =>
    case Some(p) => assert Collapse([p]) == p;
  }

  /** A group gets the descriptor the grammar gives it once its parameter list parses to the grammar's answer. */
  lemma GroupClassify(it: Item, fuel: nat, variant: Variant)
    requires it.Group? && WellFormed(it) && Supported(it, variant) && fuel >= 1
    requires Parse("(" + JoinWith(Texts(it.items), ',') + ")", fuel - 1, variant)
          == Done(Answer(Kept(TypesOf(it.items))))
    ensures Classify(Text(it), fuel, variant) == Done(TypeOf(it))
  {
    var body := JoinWith(Texts(it.items), ',');
    var sub := Done(Answer(Kept(TypesOf(it.items))));
    GroupText(it.items, it.isArray);
    if it.isArray {
      if variant == AsWritten {
        assert NoArrays(Group(it.items, false));
        NoBracketText(Group(it.items, false));
      }
      ArrayToken("(" + body + ")", fuel, variant, sub);
    } else {
      TupleToken(body, fuel, variant, sub);
    }
  }

  /** A group's text, and what the tuple and array rules make of its list's parse. */
  lemma GroupText(items: seq<Item>, isArray: bool)
    ensures Text(Group(items, isArray)) == "(" + JoinWith(Texts(items), ',') + ")" + Suffix(isArray)
    ensures Nested(Done(Answer(Kept(TypesOf(items)))), if isArray then AsArray else AsTuple)
         == Done(TypeOf(Group(items, isArray)))
    ensures !isArray ==> Text(Group(items, isArray)) == "(" + JoinWith(Texts(items), ',') + ")"
  {
  }

  /**
   The main property of the parser: a well-formed parameter (no array of a
   tuple holding an array, as written), given fuel for its nesting depth, gets
   exactly the descriptor the Solidity grammar gives it.
   */
  lemma {:induction false} ItemClassify(it: Item, fuel: nat, variant: Variant)
    requires WellFormed(it) && Supported(it, variant) && fuel >= Depth(it)
    ensures Classify(Text(it), fuel, variant) == Done(TypeOf(it))
    decreases it, 1
  {
    match it
    case Leaf(_, _) =>
      LeafClassify(it, fuel, variant);
    case Group(items, _) =>
      ListParse("", items, fuel - 1, variant);
      assert Call("", Texts(items)) == "(" + JoinWith(Texts(items), ',') + ")";
      GroupClassify(it, fuel, variant);
  }

  /**
   And a whole signature `name(p1,...,pk)` parses to the descriptors of its
   parameters, the unrecognised ones left out, `None` when none is left.
   */
  lemma {:induction false} ListParse(name: string, items: seq<Item>, fuel: nat, variant: Variant)
    requires '(' !in name && |items| >= 1
    requires forall i :: 0 <= i < |items| ==> WellFormed(items[i]) && Supported(items[i], variant)
    requires fuel >= MaxDepth(items)
    ensures Parse(Call(name, Texts(items)), fuel, variant) == Done(Answer(Kept(TypesOf(items))))
    decreases items, 0
  {
    var ts := Texts(items);
    LayoutTokens(name, items, variant);
    forall i | 0 <= i < |ts| ensures Classify(ts[i], fuel, variant) == Done(TypesOf(items)[i]) {
      TextsIndex(items, i);
      ItemClassify(items[i], fuel, variant);
    }
    ClassifyAllEach(ts, fuel, variant, TypesOf(items));
  }

  // ---------------------------------------------------------------------------
  // The signatures of the source's own examples

  lemma TableUint(n: nat)
    requires n <= USIZE_MAX
    ensures PlainName("uint" + Decimal(n))
    ensures ScalarType("uint" + Decimal(n)) == Some(Uint(n))
  {
    var d := Decimal(n);
    assert PlainName("uint");
    assert PlainName(d) by {
      forall i | 0 <= i < |d| ensures IsDigit(d[i]) {
      }
    }
    assert PlainName("uint" + d) by {
      assert multiset("uint" + d) == multiset("uint") + multiset(d);
    }
    TableMatchesChain("uint" + d);
    UintWidthType(n);
  }

  lemma TableAddress()
    ensures PlainName("address") && ScalarType("address") == Some(Address)
  {
    TableMatchesChain("address");
  }

  lemma TableString()
    ensures PlainName("string") && ScalarType("string") == Some(String)
  {
    TableMatchesChain("string");
  }

  lemma TableBool()
    ensures PlainName("bool") && ScalarType("bool") == Some(Bool)
  {
    TableMatchesChain("bool");
  }

  lemma TableUint256()
    ensures PlainName("uint256") && ScalarType("uint256") == Some(Uint(256))
  {
    assert Decimal(256) == "256";
    assert "uint" + "256" == "uint256";
    TableUint(256);
  }

  lemma TableUint160()
    ensures PlainName("uint160") && ScalarType("uint160") == Some(Uint(160))
  {
    assert Decimal(160) == "160";
    assert "uint" + "160" == "uint160";
    TableUint(160);
  }

  lemma TableUint24()
    ensures PlainName("uint24") && ScalarType("uint24") == Some(Uint(24))
  {
    assert Decimal(24) == "24";
    assert "uint" + "24" == "uint24";
    TableUint(24);
  }

  lemma {:induction false} KeptSomes(xs: seq<Option<ParamType>>, ps: seq<ParamType>)
    requires |xs| == |ps|
    requires forall i :: 0 <= i < |xs| ==> xs[i] == Some(ps[i])
    ensures Kept(xs) == ps
    decreases |xs|
  {
    if |xs| > 0 {
      var n := |xs|;
      KeptSomes(xs[..n - 1], ps[..n - 1]);
      assert ps == ps[..n - 1] + [ps[n - 1]];
    }
  }

  lemma {:induction false} MaxDepthBound(items: seq<Item>, d: nat)
    requires forall i :: 0 <= i < |items| ==> Depth(items[i]) <= d
    ensures MaxDepth(items) <= d
    decreases |items|
  {
    if |items| > 0 {
      MaxDepthBound(items[..|items| - 1], d);
    }
  }

  /** A parameter with the given text and descriptor, which the main theorem covers with `fuel`. */
  ghost predicate Entry(it: Item, text: string, p: ParamType, fuel: nat, variant: Variant)
  {
    && WellFormed(it) && Supported(it, variant) && Depth(it) <= fuel
    && Text(it) == text && TypeOf(it) == Some(p)
  }

  /** A list of such parameters. */
  ghost predicate Entries(items: seq<Item>, texts: seq<string>, ps: seq<ParamType>, fuel: nat, variant: Variant)
  {
    && |texts| == |items| && |ps| == |items|
    && forall i :: 0 <= i < |items| ==> Entry(items[i], texts[i], ps[i], fuel, variant)
  }

  lemma EntriesAppend(items: seq<Item>, texts: seq<string>, ps: seq<ParamType>, fuel: nat, variant: Variant,
                      it: Item, text: string, p: ParamType)
    requires Entries(items, texts, ps, fuel, variant) && Entry(it, text, p, fuel, variant)
    ensures Entries(items + [it], texts + [text], ps + [p], fuel, variant)
  {
  }

  lemma EntriesLists(items: seq<Item>, texts: seq<string>, ps: seq<ParamType>, fuel: nat, variant: Variant)
    requires Entries(items, texts, ps, fuel, variant)
    ensures Texts(items) == texts
    ensures Kept(TypesOf(items)) == ps
    ensures MaxDepth(items) <= fuel
  {
    forall i | 0 <= i < |items| ensures Texts(items)[i] == texts[i] && TypesOf(items)[i] == Some(ps[i]) {
      TextsIndex(items, i);
    }
    KeptSomes(TypesOf(items), ps);
    MaxDepthBound(items, fuel);
  }

  /** A scalar parameter, or an array of one, as an entry. */
  lemma ScalarEntry(name: string, isArray: bool, p: ParamType, fuel: nat, variant: Variant)
    requires PlainName(name) && ScalarType(name) == Some(p) && (isArray ==> fuel >= 1)
    ensures Entry(Leaf(name, isArray), name + Suffix(isArray), if isArray then Array(p) else p, fuel, variant)
  {
  }

  /** A group of entries as an entry, one level of fuel up. */
  lemma GroupEntry(items: seq<Item>, isArray: bool, texts: seq<string>, ps: seq<ParamType>, fuel: nat, variant: Variant)
    requires |items| >= 1 && items[0].Leaf? && items[|items| - 1].Leaf?
    requires fuel >= 1 && Entries(items, texts, ps, fuel - 1, variant)
    requires variant == AsWritten && isArray ==> forall i :: 0 <= i < |items| ==> NoArrays(items[i])
    ensures Entry(Group(items, isArray), if isArray then Paren(texts) + "[]" else Paren(texts),
                  if isArray then Array(Collapse(ps)) else Tuple(ps), fuel, variant)
  {
    EntriesLists(items, texts, ps, fuel - 1, variant);
  }

  /** A signature whose parameters are entries parses to their descriptors. */
  lemma EntriesParse(name: string, items: seq<Item>, texts: seq<string>, ps: seq<ParamType>, fuel: nat, variant: Variant)
    requires '(' !in name && |items| >= 1 && Entries(items, texts, ps, fuel, variant)
    ensures Parse(Call(name, texts), fuel, variant) == Done(Some(ps))
  {
    EntriesLists(items, texts, ps, fuel, variant);
    ListParse(name, items, fuel, variant);
  }

  /** `name(uint256)`, for any function name: one scalar. */
  lemma ExampleSimple(name: string, fuel: nat, variant: Variant)
    requires '(' !in name
    ensures Parse(Call(name, ["uint256"]), fuel, variant) == Done(Some([Uint(256)]))
  {
    var u := Leaf("uint256", false);
    TableUint256();
    ScalarEntry("uint256", false, Uint(256), fuel, variant);
    EntriesAppend([], [], [], fuel, variant, u, "uint256", Uint(256));
    EntriesParse(name, [u], ["uint256"], [Uint(256)], fuel, variant);
  }

  /** `name(uint256,string)`: two scalars. */
  lemma ExampleTwoScalars(name: string, fuel: nat, variant: Variant)
    requires '(' !in name
    ensures Parse(Call(name, ["uint256", "string"]), fuel, variant) == Done(Some([Uint(256), String]))
  {
    var u, s := Leaf("uint256", false), Leaf("string", false);
    TableUint256();
    TableString();
    ScalarEntry("uint256", false, Uint(256), fuel, variant);
    ScalarEntry("string", false, String, fuel, variant);
    EntriesAppend([], [], [], fuel, variant, u, "uint256", Uint(256));
    EntriesAppend([u], ["uint256"], [Uint(256)], fuel, variant, s, "string", String);
    EntriesParse(name, [u, s], ["uint256", "string"], [Uint(256), String], fuel, variant);
  }

  /** `name(uint256,string[],uint256)`: a dynamic array between two scalars. */
  lemma ExampleStringArray(name: string, fuel: nat, variant: Variant)
    requires '(' !in name && fuel >= 1
    ensures Parse(Call(name, ["uint256", "string[]", "uint256"]), fuel, variant)
         == Done(Some([Uint(256), Array(String), Uint(256)]))
  {
    var u, s := Leaf("uint256", false), Leaf("string", true);
    TableUint256();
    TableString();
    ScalarEntry("uint256", false, Uint(256), fuel, variant);
    ScalarEntry("string", true, String, fuel, variant);
    EntriesAppend([], [], [], fuel, variant, u, "uint256", Uint(256));
    EntriesAppend([u], ["uint256"], [Uint(256)], fuel, variant, s, "string[]", Array(String));
    EntriesAppend([u, s], ["uint256", "string[]"], [Uint(256), Array(String)], fuel, variant, u, "uint256", Uint(256));
    EntriesParse(name, [u, s, u], ["uint256", "string[]", "uint256"], [Uint(256), Array(String), Uint(256)], fuel, variant);
  }

  // The parameters of a swap, shared by the tuple examples.
  const Swap: seq<Item> := [
    Leaf("address", false), Leaf("address", false), Leaf("uint24", false), Leaf("address", false),
    Leaf("uint256", false), Leaf("uint256", false), Leaf("uint256", false), Leaf("uint160", false)]
  const SwapTexts: seq<string> := ["address", "address", "uint24", "address", "uint256", "uint256", "uint256", "uint160"]
  const SwapTypes: seq<ParamType> := [Address, Address, Uint(24), Address, Uint(256), Uint(256), Uint(256), Uint(160)]

  lemma SwapHeadEntries(fuel: nat, variant: Variant)
    ensures Entries(Swap[..4], SwapTexts[..4], SwapTypes[..4], fuel, variant)
  {
    var a, w := Leaf("address", false), Leaf("uint24", false);
    TableAddress();
    TableUint24();
    ScalarEntry("address", false, Address, fuel, variant);
    ScalarEntry("uint24", false, Uint(24), fuel, variant);
    EntriesAppend([], [], [], fuel, variant, a, "address", Address);
    EntriesAppend([a], ["address"], [Address], fuel, variant, a, "address", Address);
    EntriesAppend([a, a], ["address", "address"], [Address, Address], fuel, variant, w, "uint24", Uint(24));
    EntriesAppend([a, a, w], ["address", "address", "uint24"], [Address, Address, Uint(24)], fuel, variant,
                  a, "address", Address);
  }

  lemma SwapMidEntries(fuel: nat, variant: Variant)
    ensures Entries(Swap[..6], SwapTexts[..6], SwapTypes[..6], fuel, variant)
  {
    var u := Leaf("uint256", false);
    SwapHeadEntries(fuel, variant);
    TableUint256();
    ScalarEntry("uint256", false, Uint(256), fuel, variant);
    EntriesAppend(Swap[..4], SwapTexts[..4], SwapTypes[..4], fuel, variant, u, "uint256", Uint(256));
    assert Swap[..4] + [u] == Swap[..5];
    EntriesAppend(Swap[..5], SwapTexts[..5], SwapTypes[..5], fuel, variant, u, "uint256", Uint(256));
    assert Swap[..5] + [u] == Swap[..6];
  }

  lemma SwapEntries(fuel: nat, variant: Variant)
    ensures Entries(Swap, SwapTexts, SwapTypes, fuel, variant)
  {
    var u, v := Leaf("uint256", false), Leaf("uint160", false);
    SwapMidEntries(fuel, variant);
    TableUint256();
    TableUint160();
    ScalarEntry("uint256", false, Uint(256), fuel, variant);
    ScalarEntry("uint160", false, Uint(160), fuel, variant);
    EntriesAppend(Swap[..6], SwapTexts[..6], SwapTypes[..6], fuel, variant, u, "uint256", Uint(256));
    assert Swap[..6] + [u] == Swap[..7];
    EntriesAppend(Swap[..7], SwapTexts[..7], SwapTypes[..7], fuel, variant, v, "uint160", Uint(160));
    assert Swap[..7] + [v] == Swap;
  }

  /** A list of entries followed by a group of entries one level down is a list of entries. */
  lemma AppendGroupEntries(items0: seq<Item>, texts0: seq<string>, ps0: seq<ParamType>,
                           items: seq<Item>, texts: seq<string>, ps: seq<ParamType>, isArray: bool, fuel: nat, variant: Variant)
    requires |items| >= 1 && items[0].Leaf? && items[|items| - 1].Leaf?
    requires fuel >= 1 && Entries(items0, texts0, ps0, fuel, variant) && Entries(items, texts, ps, fuel - 1, variant)
    requires variant == AsWritten && isArray ==> forall i :: 0 <= i < |items| ==> NoArrays(items[i])
    ensures Entries(items0 + [Group(items, isArray)],
                    texts0 + [if isArray then Paren(texts) + "[]" else Paren(texts)],
                    ps0 + [if isArray then Array(Collapse(ps)) else Tuple(ps)], fuel, variant)
  {
    GroupEntry(items, isArray, texts, ps, fuel, variant);
    EntriesAppend(items0, texts0, ps0, fuel, variant, Group(items, isArray),
                  if isArray then Paren(texts) + "[]" else Paren(texts),
                  if isArray then Array(Collapse(ps)) else Tuple(ps));
  }

  /** A signature whose parameters are entries followed by one tuple of entries. */
  lemma AppendTupleParse(name: string, items0: seq<Item>, texts0: seq<string>, ps0: seq<ParamType>,
                         items: seq<Item>, texts: seq<string>, ps: seq<ParamType>, fuel: nat, variant: Variant)
    requires '(' !in name && |items| >= 1 && items[0].Leaf? && items[|items| - 1].Leaf?
    requires fuel >= 1 && Entries(items0, texts0, ps0, fuel, variant) && Entries(items, texts, ps, fuel - 1, variant)
    ensures Parse(Call(name, texts0 + [Paren(texts)]), fuel, variant) == Done(Some(ps0 + [Tuple(ps)]))
  {
    AppendGroupEntries(items0, texts0, ps0, items, texts, ps, false, fuel, variant);
    EntriesParse(name, items0 + [Group(items, false)], texts0 + [Paren(texts)], ps0 + [Tuple(ps)], fuel, variant);
  }

  lemma ScalarPairEntries(fuel: nat, variant: Variant)
    ensures Entries([Leaf("uint256", false), Leaf("string", false)], ["uint256", "string"], [Uint(256), String], fuel, variant)
  {
    var u, s := Leaf("uint256", false), Leaf("string", false);
    TableUint256();
    TableString();
    ScalarEntry("uint256", false, Uint(256), fuel, variant);
    ScalarEntry("string", false, String, fuel, variant);
    EntriesAppend([], [], [], fuel, variant, u, "uint256", Uint(256));
    EntriesAppend([u], ["uint256"], [Uint(256)], fuel, variant, s, "string", String);
  }

  // List shapes, stated generically so that the literal lists of the examples are not unfolded.
  lemma AppendFirst<X>(x: X)
    ensures [] + [x] == [x]
  {
  }

  lemma AppendThird<X>(a: X, b: X, c: X)
    ensures [a, b] + [c] == [a, b, c]
  {
  }

  /** Any list of entries followed by the swap tuple. */
  lemma SwapTupleParse(name: string, items0: seq<Item>, texts0: seq<string>, ps0: seq<ParamType>, fuel: nat, variant: Variant)
    requires '(' !in name && fuel >= 1 && Entries(items0, texts0, ps0, fuel, variant)
    ensures Parse(Call(name, texts0 + [Paren(SwapTexts)]), fuel, variant) == Done(Some(ps0 + [Tuple(SwapTypes)]))
  {
    SwapEntries(fuel - 1, variant);
    AppendTupleParse(name, items0, texts0, ps0, Swap, SwapTexts, SwapTypes, fuel, variant);
  }

  /** `name(uint256,string,(address,address,uint24,address,uint256,uint256,uint256,uint160))`. */
  lemma ExampleComplex(name: string, fuel: nat, variant: Variant)
    requires '(' !in name && fuel >= 1
    ensures Parse(Call(name, ["uint256", "string", Paren(SwapTexts)]), fuel, variant)
         == Done(Some([Uint(256), String, Tuple(SwapTypes)]))
  {
    ScalarPairEntries(fuel, variant);
    SwapTupleParse(name, [Leaf("uint256", false), Leaf("string", false)], ["uint256", "string"], [Uint(256), String], fuel, variant);
    AppendThird("uint256", "string", Paren(SwapTexts));
    AppendThird(Uint(256), String, Tuple(SwapTypes));
  }

  /** `name((address,address,uint24,address,uint256,uint256,uint256,uint160))`, as for `exactInputSingle`: one tuple parameter. */
  lemma ExampleTuple(name: string, fuel: nat, variant: Variant)
    requires '(' !in name && fuel >= 1
    ensures Parse(Call(name, [Paren(SwapTexts)]), fuel, variant) == Done(Some([Tuple(SwapTypes)]))
  {
    SwapTupleParse(name, [], [], [], fuel, variant);
    AppendFirst(Paren(SwapTexts));
    AppendFirst(Tuple(SwapTypes));
  }

  // The swap with an array of pairs in place of two of its amounts.
  const Hops: seq<Item> := [Leaf("uint256", false), Leaf("uint256", false)]
  const HopsTexts: seq<string> := ["uint256", "uint256"]
  const HopsTypes: seq<ParamType> := [Uint(256), Uint(256)]
  const Route: seq<Item> := Swap[..5] + [Group(Hops, true)] + [Leaf("uint160", false)]
  const RouteTexts: seq<string> := SwapTexts[..5] + [Paren(HopsTexts) + "[]"] + ["uint160"]
  const RouteTypes: seq<ParamType> := SwapTypes[..5] + [Array(Tuple(HopsTypes))] + [Uint(160)]

  lemma HopsEntries(fuel: nat, variant: Variant)
    ensures Entries(Hops, HopsTexts, HopsTypes, fuel, variant)
  {
    var u := Leaf("uint256", false);
    TableUint256();
    ScalarEntry("uint256", false, Uint(256), fuel, variant);
    EntriesAppend([], [], [], fuel, variant, u, "uint256", Uint(256));
    EntriesAppend([u], ["uint256"], [Uint(256)], fuel, variant, u, "uint256", Uint(256));
  }

  lemma SwapFiveEntries(fuel: nat, variant: Variant)
    ensures Entries(Swap[..5], SwapTexts[..5], SwapTypes[..5], fuel, variant)
  {
    SwapMidEntries(fuel, variant);
    assert Swap[..6][..5] == Swap[..5];
  }

  lemma RouteHeadEntries(fuel: nat, variant: Variant)
    requires fuel >= 1
    ensures Entries(Swap[..5] + [Group(Hops, true)], SwapTexts[..5] + [Paren(HopsTexts) + "[]"],
                    SwapTypes[..5] + [Array(Tuple(HopsTypes))], fuel, variant)
  {
    SwapFiveEntries(fuel, variant);
    HopsEntries(fuel - 1, variant);
    AppendGroupEntries(Swap[..5], SwapTexts[..5], SwapTypes[..5], Hops, HopsTexts, HopsTypes, true, fuel, variant);
  }

  lemma RouteEntries(fuel: nat, variant: Variant)
    requires fuel >= 1
    ensures Entries(Route, RouteTexts, RouteTypes, fuel, variant)
  {
    RouteHeadEntries(fuel, variant);
    TableUint160();
    ScalarEntry("uint160", false, Uint(160), fuel, variant);
    EntriesAppend(Swap[..5] + [Group(Hops, true)], SwapTexts[..5] + [Paren(HopsTexts) + "[]"],
                  SwapTypes[..5] + [Array(Tuple(HopsTypes))], fuel, variant, Leaf("uint160", false), "uint160", Uint(160));
  }

  /**
   `name((address,address,uint24,address,uint256,(uint256,uint256)[],uint160))`:
   a tuple holding an array of tuples, which needs fuel for two levels.
   */
  lemma ExampleNestedTuple(name: string, fuel: nat, variant: Variant)
    requires '(' !in name && fuel >= 2
    ensures Parse(Call(name, [Paren(RouteTexts)]), fuel, variant) == Done(Some([Tuple(RouteTypes)]))
  {
    RouteEntries(fuel - 1, variant);
    AppendTupleParse(name, [], [], [], Route, RouteTexts, RouteTypes, fuel, variant);
    AppendFirst(Paren(RouteTexts));
    AppendFirst(Tuple(RouteTypes));
  }

  /** `name()`: the one empty token matches no rule, so nothing is produced. */
  lemma NoParameters(name: string, fuel: nat, variant: Variant)
    requires '(' !in name
    ensures Parse(name + "()", fuel, variant) == Done(None)
  {
    CallBody(name, "");
    assert name + "()" == name + "(" + "" + ")";
    NoSeparatorOnePiece("", ',');
    assert Tokens(name + "()", variant) == [""];
    ScalarChain("", fuel, variant);
    ClassifyAllSingle("", fuel, variant);
  }

  /** A list of recognised scalar names: one descriptor per name, in the same order. */
  lemma ScalarList(name: string, names: seq<string>, ps: seq<ParamType>, fuel: nat, variant: Variant)
    requires '(' !in name && |names| >= 1 && |ps| == |names|
    requires forall i :: 0 <= i < |names| ==> PlainName(names[i]) && ScalarType(names[i]) == Some(ps[i])
    ensures Parse(Call(name, names), fuel, variant) == Done(Some(ps))
  {
    var items := seq(|names|, i requires 0 <= i < |names| => Leaf(names[i], false));
    forall i | 0 <= i < |items|
      ensures Texts(items)[i] == names[i] && TypesOf(items)[i] == Some(ps[i]) && Depth(items[i]) <= 0
    {
      TextsIndex(items, i);
    }
    assert Texts(items) == names;
    MaxDepthBound(items, 0);
    KeptSomes(TypesOf(items), ps);
    ListParse(name, items, fuel, variant);
  }
}
