/**
 * The file emitter of the struct generator: the include lines, every
 * struct's definition grouped into namespace blocks (structs stably sorted
 * by namespace), one closing brace, then every struct's reflection
 * descriptor in input order.
 *
 * The file is described as a sequence of chunks, each one `code +=` step of
 * the emitter; a chunk renders to its text or to the exception its
 * generator raises.
 */
module Codegen {
  import opened Wrappers
  import opened Strings
  import opened CxxTypes
  import opened CxxStructs

  const Includes := "#include <IO/Common.hpp>\n#include <Utils/Meta/Reflection.hpp>\n\n"

  // ---------------------------------------------------------------------------
  // Python's ordering of namespace strings and `sorted`

  /** Python's `a < b` on strings: lexicographic on code points. */
  predicate StrLt(a: string, b: string)
  {
    if a == [] then b != []
    else b != [] && (a[0] < b[0] || (a[0] == b[0] && StrLt(a[1..], b[1..])))
  }

  lemma {:induction false} StrLtIrreflexive(a: string)
    ensures !StrLt(a, a)
  {
    if a != [] {
      StrLtIrreflexive(a[1..]);
    }
  }

  lemma {:induction false} StrLtAsymmetric(a: string, b: string)
    ensures StrLt(a, b) ==> !StrLt(b, a)
  {
    if a != [] && b != [] && a[0] == b[0] {
      StrLtAsymmetric(a[1..], b[1..]);
    }
  }

  lemma {:induction false} StrLtTransitive(a: string, b: string, c: string)
    ensures StrLt(a, b) && StrLt(b, c) ==> StrLt(a, c)
  {
    if a != [] && b != [] && c != [] && a[0] == b[0] && b[0] == c[0] {
      StrLtTransitive(a[1..], b[1..], c[1..]);
    }
  }

  lemma {:induction false} StrLtTotal(a: string, b: string)
    ensures a == b || StrLt(a, b) || StrLt(b, a)
  {
    if a != [] && b != [] && a[0] == b[0] {
      StrLtTotal(a[1..], b[1..]);
      if a[1..] == b[1..] {
        assert a == [a[0]] + a[1..] && b == [b[0]] + b[1..];
      }
    }
  }

  /** `sorted(structs, key=namespace)` places no struct after one with a larger namespace. */
  predicate SortedByNamespace(ss: seq<CxxStruct>)
  {
    forall i, j :: 0 <= i < j < |ss| ==> !StrLt(ss[j].namespace, ss[i].namespace)
  }

  /** Places `x` before the first struct whose namespace is not smaller than its own. */
  function Insert(x: CxxStruct, ss: seq<CxxStruct>): seq<CxxStruct>
  {
    if ss == [] || !StrLt(ss[0].namespace, x.namespace) then [x] + ss
    else [ss[0]] + Insert(x, ss[1..])
  }

  /** Python's `sorted` with the namespace as key: a stable sort. */
  function SortByNamespace(ss: seq<CxxStruct>): seq<CxxStruct>
  {
    if ss == [] then [] else Insert(ss[0], SortByNamespace(ss[1..]))
  }

  /** The structs of `ss` in namespace `n`, in order. */
  function InNamespace(ss: seq<CxxStruct>, n: string): seq<CxxStruct>
  {
    if ss == [] then []
    else (if ss[0].namespace == n then [ss[0]] else []) + InNamespace(ss[1..], n)
  }

  lemma {:induction false} InsertHead(x: CxxStruct, ss: seq<CxxStruct>)
    ensures |Insert(x, ss)| == |ss| + 1
    ensures Insert(x, ss)[0] == x || (ss != [] && Insert(x, ss)[0] == ss[0])
    ensures multiset(Insert(x, ss)) == multiset(ss) + multiset{x}
  {
    if ss != [] && StrLt(ss[0].namespace, x.namespace) {
      InsertHead(x, ss[1..]);
      assert ss == [ss[0]] + ss[1..];
    }
  }

  /** A struct placed in front of a sorted list stays sorted when nothing in the list is below it. */
  lemma ConsSorted(y: CxxStruct, t: seq<CxxStruct>)
    requires SortedByNamespace(t)
    requires forall k | 0 <= k < |t| :: !StrLt(t[k].namespace, y.namespace)
    ensures SortedByNamespace([y] + t)
  {
    var r := [y] + t;
    forall i, j | 0 <= i < j < |r| ensures !StrLt(r[j].namespace, r[i].namespace) {
      assert r[j] == t[j - 1];
      if i > 0 {
        assert r[i] == t[i - 1];
      }
    }
  }

  /** Nothing in a sorted list is below its first element. */
  lemma FirstIsLeast(ss: seq<CxxStruct>, k: nat)
    requires SortedByNamespace(ss) && k < |ss|
    ensures !StrLt(ss[k].namespace, ss[0].namespace)
  {
    if k == 0 {
      StrLtIrreflexive(ss[0].namespace);
    }
  }

  lemma {:induction false} InsertSorted(x: CxxStruct, ss: seq<CxxStruct>)
    requires SortedByNamespace(ss)
    ensures SortedByNamespace(Insert(x, ss))
  {
    if ss == [] || !StrLt(ss[0].namespace, x.namespace) {
      InsertFrontSorted(x, ss);
    } else {
      InsertSorted(x, ss[1..]);
      InsertLaterSorted(x, ss);
    }
  }

  /** `x` goes first: everything after it is at least the old first struct, itself not below `x`. */
  lemma InsertFrontSorted(x: CxxStruct, ss: seq<CxxStruct>)
    requires SortedByNamespace(ss)
    requires ss == [] || !StrLt(ss[0].namespace, x.namespace)
    ensures SortedByNamespace([x] + ss)
  {
    forall k | 0 <= k < |ss| ensures !StrLt(ss[k].namespace, x.namespace) {
      FirstIsLeast(ss, k);
      StrLtTotal(ss[0].namespace, x.namespace);
      StrLtTransitive(ss[k].namespace, x.namespace, ss[0].namespace);
    }
    ConsSorted(x, ss);
  }

  /** `x` goes later: the old first struct stays first, not above `x` nor any later struct. */
  lemma InsertLaterSorted(x: CxxStruct, ss: seq<CxxStruct>)
    requires SortedByNamespace(ss) && ss != [] && StrLt(ss[0].namespace, x.namespace)
    requires SortedByNamespace(Insert(x, ss[1..]))
    ensures SortedByNamespace(Insert(x, ss))
  {
    var t := Insert(x, ss[1..]);
    InsertHead(x, ss[1..]);
    forall k | 0 <= k < |t| ensures !StrLt(t[k].namespace, ss[0].namespace) {
      assert t[k] in multiset(t);
      assert t[k] == x || t[k] in ss[1..];
      if t[k] == x {
        StrLtAsymmetric(ss[0].namespace, x.namespace);
      } else {
        var m :| 0 <= m < |ss[1..]| && ss[1..][m] == t[k];
        assert ss[m + 1] == t[k];
        FirstIsLeast(ss, m + 1);
      }
    }
    ConsSorted(ss[0], t);
  }

  lemma {:induction false} InsertKeepsNamespaces(x: CxxStruct, ss: seq<CxxStruct>, n: string)
    ensures InNamespace(Insert(x, ss), n) == InNamespace([x] + ss, n)
  {
    if ss != [] && StrLt(ss[0].namespace, x.namespace) {
      InsertKeepsNamespaces(x, ss[1..], n);
      assert ([x] + ss)[1..] == ss;
      assert ([x] + ss[1..])[1..] == ss[1..];
      if ss[0].namespace == n {
        StrLtIrreflexive(n);
      }
    }
  }

  /**
   * `sorted` orders the structs by namespace, keeps every struct exactly as
   * often as it was given, and keeps the input order among the structs of
   * one namespace.
   */
  lemma {:induction false} SortByNamespaceCorrect(ss: seq<CxxStruct>)
    ensures SortedByNamespace(SortByNamespace(ss))
    ensures multiset(SortByNamespace(ss)) == multiset(ss)
    ensures forall n :: InNamespace(SortByNamespace(ss), n) == InNamespace(ss, n)
  {
    if ss != [] {
      var t := SortByNamespace(ss[1..]);
      SortByNamespaceCorrect(ss[1..]);
      InsertSorted(ss[0], t);
      SortStepMultiset(ss, t);
      forall n ensures InNamespace(SortByNamespace(ss), n) == InNamespace(ss, n) {
        SortStepNamespaces(ss, t, n);
      }
    }
  }

  lemma SortStepMultiset(ss: seq<CxxStruct>, t: seq<CxxStruct>)
    requires ss != [] && t == SortByNamespace(ss[1..]) && multiset(t) == multiset(ss[1..])
    ensures multiset(SortByNamespace(ss)) == multiset(ss)
  {
    InsertHead(ss[0], t);
    assert ss == [ss[0]] + ss[1..];
  }

  lemma SortStepNamespaces(ss: seq<CxxStruct>, t: seq<CxxStruct>, n: string)
    requires ss != [] && t == SortByNamespace(ss[1..]) && InNamespace(t, n) == InNamespace(ss[1..], n)
    ensures InNamespace(SortByNamespace(ss), n) == InNamespace(ss, n)
  {
    InsertKeepsNamespaces(ss[0], t, n);
    assert ([ss[0]] + t)[1..] == t;
  }

  // ---------------------------------------------------------------------------
  // The file as chunks

  /** One `code +=` step of `generate_file`. */
  datatype Chunk =
    | Preamble
    | OpenNamespace(name: string)
    | SwitchNamespace(name: string)
    | CloseNamespace(name: string)
    | Definition(s: CxxStruct)
    | Descriptor(s: CxxStruct)

  function Render(c: Chunk): Piece
  {
    match c
    case Preamble => Ok(Includes)
    case OpenNamespace(n) => Ok("namespace " + n + "\n{\n\n")
    case SwitchNamespace(n) => Ok("}\n\nnamespace " + n + " {\n")
    case CloseNamespace(n) => Ok("} // namespace " + n + "\n\n")
    case Definition(s) => StructCode(s)
    case Descriptor(s) => ReflectionCode(s)
  }

  function RenderAll(cs: seq<Chunk>): seq<Piece>
  {
    seq(|cs|, i requires 0 <= i < |cs| => Render(cs[i]))
  }

  /** Python's `str` of the `cur_namespace` variable, which starts as `None`. */
  function PyStr(cur: Option<string>): string
  {
    match cur
    case None => "None"
    case Some(n) => n
  }

  /** The value of `cur_namespace` when the loop reaches struct `k`. */
  function Previous(ss: seq<CxxStruct>, k: nat): Option<string>
    requires k <= |ss|
  {
    if k == 0 then None else Some(ss[k - 1].namespace)
  }

  /** The namespace chunk written before a struct, as `generate_file` writes it. */
  function Header(cur: Option<string>, n: string): seq<Chunk>
  {
    match cur
    case None => [OpenNamespace(n)]
    case Some(p) => if p != n then [SwitchNamespace(p)] else []
  }

  /** The chunks written for sorted struct `i`: its namespace chunk, if any, then its definition. */
  function Segment(ss: seq<CxxStruct>, i: nat): seq<Chunk>
    requires i < |ss|
  {
    Header(Previous(ss, i), ss[i].namespace) + [Definition(ss[i])]
  }

  /** The chunks written for sorted structs `k` to `n - 1`. */
  function Segments(ss: seq<CxxStruct>, k: nat, n: nat): seq<Chunk>
    requires k <= n <= |ss|
    decreases n - k
  {
    if k == n then [] else Segments(ss, k, n - 1) + Segment(ss, n - 1)
  }

  /** The chunks written for the first `k` sorted structs. */
  function Body(ss: seq<CxxStruct>, k: nat): seq<Chunk>
    requires k <= |ss|
  {
    Segments(ss, 0, k)
  }

  function Descriptors(ss: seq<CxxStruct>): seq<Chunk>
  {
    seq(|ss|, i requires 0 <= i < |ss| => Descriptor(ss[i]))
  }

  /** The chunks of `generate_file(structs)`. */
  function FileChunks(structs: seq<CxxStruct>): seq<Chunk>
  {
    var ss := SortByNamespace(structs);
    [Preamble] + Body(ss, |ss|) + [CloseNamespace(PyStr(Previous(ss, |ss|)))] + Descriptors(structs)
  }

  /** `generate_file(structs)`: its text, or the first exception a generator raises. */
  function FileText(structs: seq<CxxStruct>): Piece
  {
    Collect(RenderAll(FileChunks(structs)))
  }

  // ---------------------------------------------------------------------------
  // What the file holds

  /** The structs whose definition the chunks hold, in order. */
  function Defined(cs: seq<Chunk>): seq<CxxStruct>
  {
    if cs == [] then [] else DefinedBy(cs[0]) + Defined(cs[1..])
  }

  /** The structs whose reflection descriptor the chunks hold, in order. */
  function Described(cs: seq<Chunk>): seq<CxxStruct>
  {
    if cs == [] then [] else DescribedBy(cs[0]) + Described(cs[1..])
  }

  function DefinedBy(c: Chunk): seq<CxxStruct>
  {
    if c.Definition? then [c.s] else []
  }

  function DescribedBy(c: Chunk): seq<CxxStruct>
  {
    if c.Descriptor? then [c.s] else []
  }

  lemma {:induction false} DefinedAppend(a: seq<Chunk>, b: seq<Chunk>)
    ensures Defined(a + b) == Defined(a) + Defined(b)
  {
    if a == [] {
      assert a + b == b;
    } else {
      assert (a + b)[0] == a[0];
      assert (a + b)[1..] == a[1..] + b;
      DefinedAppend(a[1..], b);
    }
  }

  lemma {:induction false} DescribedAppend(a: seq<Chunk>, b: seq<Chunk>)
    ensures Described(a + b) == Described(a) + Described(b)
  {
    if a == [] {
      assert a + b == b;
    } else {
      assert (a + b)[0] == a[0];
      assert (a + b)[1..] == a[1..] + b;
      DescribedAppend(a[1..], b);
    }
  }

  lemma SegmentProjections(ss: seq<CxxStruct>, i: nat)
    requires i < |ss|
    ensures Defined(Segment(ss, i)) == [ss[i]]
    ensures Described(Segment(ss, i)) == []
  {
    var seg := Segment(ss, i);
    var d: seq<Chunk> := [Definition(ss[i])];
    assert Defined(d) == [ss[i]] + Defined([]) by {
      assert d[1..] == [];
    }
    assert Described(d) == [] + Described([]) by {
      assert d[1..] == [];
    }
    if seg != d {
      assert !seg[0].Definition? && !seg[0].Descriptor?;
      assert seg[1..] == d;
      assert Defined(seg) == [] + Defined(d);
      assert Described(seg) == [] + Described(d);
    }
  }

  lemma DefinedSnoc(front: seq<Chunk>, seg: seq<Chunk>, ss: seq<CxxStruct>, i: nat)
    requires i < |ss|
    requires Defined(front) == ss[..i] && Defined(seg) == [ss[i]]
    ensures Defined(front + seg) == ss[..i + 1]
  {
    DefinedAppend(front, seg);
    assert ss[..i + 1] == ss[..i] + [ss[i]];
  }

  lemma BodySnoc(ss: seq<CxxStruct>, i: nat)
    requires i < |ss|
    ensures Body(ss, i + 1) == Body(ss, i) + Segment(ss, i)
  {
  }

  lemma {:induction false} BodyDefines(ss: seq<CxxStruct>, k: nat)
    requires k <= |ss|
    ensures Defined(Body(ss, k)) == ss[..k]
  {
    if k > 0 {
      BodyDefines(ss, k - 1);
      BodyDefinesStep(ss, k - 1);
    }
  }

  lemma BodyDefinesStep(ss: seq<CxxStruct>, i: nat)
    requires i < |ss|
    requires Defined(Body(ss, i)) == ss[..i]
    ensures Defined(Body(ss, i + 1)) == ss[..i + 1]
  {
    BodySnoc(ss, i);
    SegmentProjections(ss, i);
    DefinedSnoc(Body(ss, i), Segment(ss, i), ss, i);
  }

  lemma {:induction false} BodyDescribesNothing(ss: seq<CxxStruct>, k: nat)
    requires k <= |ss|
    ensures Described(Body(ss, k)) == []
  {
    if k > 0 {
      BodyDescribesNothing(ss, k - 1);
      BodyDescribesNothingStep(ss, k - 1);
    }
  }

  lemma BodyDescribesNothingStep(ss: seq<CxxStruct>, i: nat)
    requires i < |ss|
    requires Described(Body(ss, i)) == []
    ensures Described(Body(ss, i + 1)) == []
  {
    BodySnoc(ss, i);
    SegmentProjections(ss, i);
    DescribedAppend(Body(ss, i), Segment(ss, i));
  }

  lemma {:induction false} DescriptorsProjections(ss: seq<CxxStruct>)
    ensures Defined(Descriptors(ss)) == []
    ensures Described(Descriptors(ss)) == ss
  {
    if ss != [] {
      DescriptorsProjections(ss[1..]);
      assert Descriptors(ss)[1..] == Descriptors(ss[1..]);
    }
  }

  /**
   * Every struct's definition appears exactly once, in the stable namespace
   * order, and every struct's reflection descriptor appears exactly once, in
   * input order.
   */
  lemma FileContents(structs: seq<CxxStruct>)
    ensures FileChunks(structs)[0] == Preamble
    ensures Defined(FileChunks(structs)) == SortByNamespace(structs)
    ensures Described(FileChunks(structs)) == structs
  {
    var ss := SortByNamespace(structs);
    var head: seq<Chunk> := [Preamble];
    var close: seq<Chunk> := [CloseNamespace(PyStr(Previous(ss, |ss|)))];
    assert head[1..] == [] && close[1..] == [];
    BodyDefines(ss, |ss|);
    BodyDescribesNothing(ss, |ss|);
    DescriptorsProjections(structs);
    DefinedAppend(head, Body(ss, |ss|));
    DefinedAppend(head + Body(ss, |ss|), close);
    DefinedAppend(head + Body(ss, |ss|) + close, Descriptors(structs));
    DescribedAppend(head, Body(ss, |ss|));
    DescribedAppend(head + Body(ss, |ss|), close);
    DescribedAppend(head + Body(ss, |ss|) + close, Descriptors(structs));
    assert ss[..|ss|] == ss;
  }

  /** The output starts with the two include lines. */
  lemma FileStartsWithIncludes(structs: seq<CxxStruct>)
    ensures FileText(structs).Ok? ==>
              |Includes| <= |FileText(structs).value| && FileText(structs).value[..|Includes|] == Includes
  {
    var cs := FileChunks(structs);
    assert cs == [Preamble] + cs[1..];
    RenderAllAppend([Preamble], cs[1..]);
    assert RenderAll([Preamble]) == [Ok(Includes)];
    assert RenderAll(cs) == [Ok(Includes)] + RenderAll(cs[1..]);
    CollectStartsWith(Includes, RenderAll(cs[1..]));
  }

  /** Text gathered after a first piece starts with that piece. */
  lemma CollectStartsWith(first: string, rest: seq<Piece>)
    ensures Collect([Ok(first)] + rest).Ok? ==>
              |first| <= |Collect([Ok(first)] + rest).value| && Collect([Ok(first)] + rest).value[..|first|] == first
  {
    CollectAppend([Ok(first)], rest);
    var one: seq<Piece> := [Ok(first)];
    assert one[..0] == [];
    assert Collect(one) == Ok("" + first);
    if Collect(rest).Ok? {
      assert (first + Collect(rest).value)[..|first|] == first;
    }
  }

  // ---------------------------------------------------------------------------
  // Namespace blocks

  /** The namespace the last opening chunk names: the block a following definition sits in. */
  function Enclosing(cs: seq<Chunk>): Option<string>
  {
    if cs == [] then None
    else
      match cs[|cs| - 1]
      case OpenNamespace(n) => Some(n)
      case SwitchNamespace(n) => Some(n)
      case _ => Enclosing(cs[..|cs| - 1])
  }

  /** The nesting depth the chunks leave: `{` of an opening chunk against `}` of the closing one. */
  function Depth(cs: seq<Chunk>): int
  {
    if cs == [] then 0
    else (match cs[0] case OpenNamespace(_) => 1 case CloseNamespace(_) => -1 case _ => 0) + Depth(cs[1..])
  }

  lemma {:induction false} DepthAppend(a: seq<Chunk>, b: seq<Chunk>)
    ensures Depth(a + b) == Depth(a) + Depth(b)
  {
    if a == [] {
      assert a + b == b;
    } else {
      assert (a + b)[0] == a[0];
      assert (a + b)[1..] == a[1..] + b;
      DepthAppend(a[1..], b);
    }
  }

  lemma SegmentDepth(ss: seq<CxxStruct>, i: nat)
    requires i < |ss|
    ensures Depth(Segment(ss, i)) == if i == 0 then 1 else 0
  {
    var seg := Segment(ss, i);
    var d: seq<Chunk> := [Definition(ss[i])];
    assert Depth(d) == 0 + Depth([]) by {
      assert d[1..] == [];
    }
    if seg != d {
      assert seg[1..] == d;
      assert Depth(seg) == (if i == 0 then 1 else 0) + Depth(d);
    }
  }

  lemma {:induction false} BodyDepth(ss: seq<CxxStruct>, k: nat)
    requires k <= |ss|
    ensures Depth(Body(ss, k)) == if k == 0 then 0 else 1
  {
    if k > 0 {
      BodyDepth(ss, k - 1);
      BodyDepthStep(ss, k - 1);
    }
  }

  lemma BodyDepthStep(ss: seq<CxxStruct>, i: nat)
    requires i < |ss|
    requires Depth(Body(ss, i)) == if i == 0 then 0 else 1
    ensures Depth(Body(ss, i + 1)) == 1
  {
    BodySnoc(ss, i);
    SegmentDepth(ss, i);
    DepthAppend(Body(ss, i), Segment(ss, i));
  }

  lemma DescriptorsDepth(ss: seq<CxxStruct>)
    ensures Depth(Descriptors(ss)) == 0
  {
    if ss != [] {
      assert Descriptors(ss)[1..] == Descriptors(ss[1..]);
      DescriptorsDepth(ss[1..]);
    }
  }

  /**
   * As written, the braces balance once there is a struct; with no struct
   * the closing brace has no opening one.
   */
  lemma FileDepth(structs: seq<CxxStruct>)
    ensures Depth(FileChunks(structs)) == if structs == [] then -1 else 0
  {
    var ss := SortByNamespace(structs);
    SortByNamespaceCorrect(structs);
    assert |ss| == |structs| by {
      assert |multiset(ss)| == |multiset(structs)|;
    }
    var close := [CloseNamespace(PyStr(Previous(ss, |ss|)))];
    BodyDepth(ss, |ss|);
    DescriptorsDepth(structs);
    DepthAppend([Preamble], Body(ss, |ss|));
    DepthAppend([Preamble] + Body(ss, |ss|), close);
    DepthAppend([Preamble] + Body(ss, |ss|) + close, Descriptors(structs));
    assert Depth([Preamble]) == 0 + Depth([]);
    assert Depth(close) == -1 + Depth([]);
  }

  /** With no structs the file holds a lone `} // namespace None`. */
  lemma EmptyInputClosesNone()
    ensures FileChunks([]) == [Preamble, CloseNamespace("None")]
    ensures FileText([]) == Ok(Includes + "} // namespace None\n\n")
  {
    assert Descriptors([]) == [];
    ChunkStep([], Preamble);
    assert [] + [Preamble] == [Preamble];
    assert RenderAll([]) == [];
    assert "" + Includes == Includes;
    ChunkStep([Preamble], CloseNamespace("None"));
    assert "} // namespace " + "None" + "\n\n" == "} // namespace None\n\n";
    assert [Preamble] + [CloseNamespace("None")] == [Preamble, CloseNamespace("None")];
  }

  function ExampleStruct(n: string, ns: string): CxxStruct
  {
    CxxStruct(n, Unversioned, [], ns, "")
  }

  /**
   * As written, the block reopened at a namespace change is named after the
   * namespace being left: a struct in "B" after one in "A" sits in a second
   * block named "A".
   */
  lemma ReopenedBlockNamesPreviousNamespace()
    ensures var ss := [ExampleStruct("X", "A"), ExampleStruct("Y", "B")];
            && SortByNamespace(ss) == ss
            && Body(ss, 2) == [OpenNamespace("A"), Definition(ss[0]), SwitchNamespace("A"), Definition(ss[1])]
            && Enclosing(Body(ss, 2)) == Some("A")
            && ss[1].namespace == "B"
  {
    var ss := [ExampleStruct("X", "A"), ExampleStruct("Y", "B")];
    assert StrLt("A", "B");
    assert ss[1..] == [ss[1]];
    assert SortByNamespace([ss[1]]) == [ss[1]];
    var b := Body(ss, 2);
    assert b[..|b| - 1] == [OpenNamespace("A"), Definition(ss[0]), SwitchNamespace("A")];
  }

  // ---------------------------------------------------------------------------
  // The layout evidently intended

  /** The namespace chunk written before a struct, naming the namespace entered. */
  function CorrectedHeader(cur: Option<string>, n: string): seq<Chunk>
  {
    match cur
    case None => [OpenNamespace(n)]
    case Some(p) => if p != n then [SwitchNamespace(n)] else []
  }

  function CorrectedBody(ss: seq<CxxStruct>, k: nat): seq<Chunk>
    requires k <= |ss|
  {
    if k == 0 then []
    else CorrectedBody(ss, k - 1) + CorrectedHeader(Previous(ss, k - 1), ss[k - 1].namespace) + [Definition(ss[k - 1])]
  }

  /** The file with each block named after its own namespace and no block at all for no structs. */
  function CorrectedFileChunks(structs: seq<CxxStruct>): seq<Chunk>
  {
    var ss := SortByNamespace(structs);
    [Preamble] + CorrectedBody(ss, |ss|)
    + (if ss == [] then [] else [CloseNamespace(ss[|ss| - 1].namespace)])
    + Descriptors(structs)
  }

  lemma EnclosingStep(a: seq<Chunk>, h: seq<Chunk>, s: CxxStruct)
    requires |h| <= 1
    ensures Enclosing(a + h + [Definition(s)])
         == if h != [] && (h[0].OpenNamespace? || h[0].SwitchNamespace?) then Some(h[0].name) else Enclosing(a)
  {
    var c := a + h + [Definition(s)];
    assert c[..|c| - 1] == a + h;
    if h != [] {
      assert (a + h)[..|a + h| - 1] == a;
    } else {
      assert a + h == a;
    }
  }

  /** In the corrected layout, every definition sits in the block of its own namespace. */
  lemma {:induction false} CorrectedDefinitionsInOwnNamespace(ss: seq<CxxStruct>, i: nat)
    requires i < |ss|
    ensures Enclosing(CorrectedBody(ss, i + 1)) == Some(ss[i].namespace)
  {
    CorrectedEnclosingStep(ss, i);
    if i > 0 && ss[i - 1].namespace == ss[i].namespace {
      var j := i - 1;
      CorrectedDefinitionsInOwnNamespace(ss, j);
      assert j + 1 == i;
    }
  }

  /** The block enclosing struct `i`: the one its header opens, or else the one open before it. */
  lemma CorrectedEnclosingStep(ss: seq<CxxStruct>, i: nat)
    requires i < |ss|
    ensures Enclosing(CorrectedBody(ss, i + 1))
         == if i == 0 || ss[i - 1].namespace != ss[i].namespace then Some(ss[i].namespace)
            else Enclosing(CorrectedBody(ss, i))
  {
    var h := CorrectedHeader(Previous(ss, i), ss[i].namespace);
    assert CorrectedBody(ss, i + 1) == CorrectedBody(ss, i) + h + [Definition(ss[i])];
    EnclosingStep(CorrectedBody(ss, i), h, ss[i]);
  }

  lemma {:induction false} CorrectedBodyDepth(ss: seq<CxxStruct>, k: nat)
    requires k <= |ss|
    ensures Depth(CorrectedBody(ss, k)) == if k == 0 then 0 else 1
  {
    if k > 0 {
      CorrectedBodyDepth(ss, k - 1);
      CorrectedBodyDepthStep(ss, k - 1);
    }
  }

  lemma CorrectedBodyDepthStep(ss: seq<CxxStruct>, i: nat)
    requires i < |ss|
    requires Depth(CorrectedBody(ss, i)) == if i == 0 then 0 else 1
    ensures Depth(CorrectedBody(ss, i + 1)) == 1
  {
    var h := CorrectedHeader(Previous(ss, i), ss[i].namespace);
    assert CorrectedBody(ss, i + 1) == CorrectedBody(ss, i) + h + [Definition(ss[i])];
    DepthAppend(CorrectedBody(ss, i), h);
    DepthAppend(CorrectedBody(ss, i) + h, [Definition(ss[i])]);
    assert Depth([Definition(ss[i])]) == 0 + Depth([]);
    if h != [] {
      assert h[1..] == [];
    }
  }

  /** In the corrected layout the braces balance for every input, the empty one included. */
  lemma CorrectedFileBalanced(structs: seq<CxxStruct>)
    ensures Depth(CorrectedFileChunks(structs)) == 0
  {
    var ss := SortByNamespace(structs);
    var close := if ss == [] then [] else [CloseNamespace(ss[|ss| - 1].namespace)];
    CorrectedBodyDepth(ss, |ss|);
    DescriptorsDepth(structs);
    DepthAppend([Preamble], CorrectedBody(ss, |ss|));
    DepthAppend([Preamble] + CorrectedBody(ss, |ss|), close);
    DepthAppend([Preamble] + CorrectedBody(ss, |ss|) + close, Descriptors(structs));
    assert Depth([Preamble]) == 0 + Depth([]);
    if ss != [] {
      assert Depth(close) == -1 + Depth([]);
    }
  }

  // ---------------------------------------------------------------------------
  // The emitter

  lemma RenderAllAppend(a: seq<Chunk>, b: seq<Chunk>)
    ensures RenderAll(a + b) == RenderAll(a) + RenderAll(b)
  {
    var l, r := RenderAll(a + b), RenderAll(a) + RenderAll(b);
    assert |l| == |r|;
    forall i | 0 <= i < |l| ensures l[i] == r[i] {
      if i < |a| {
        assert (a + b)[i] == a[i];
      } else {
        assert (a + b)[i] == b[i - |a|];
      }
    }
  }

  /** Writing one more chunk appends its text, or raises its exception. */
  lemma ChunkStep(a: seq<Chunk>, c: Chunk)
    ensures Collect(RenderAll(a + [c])) == Then(Collect(RenderAll(a)), Render(c))
  {
    assert RenderAll(a + [c]) == RenderAll(a) + [Render(c)];
    assert (RenderAll(a) + [Render(c)])[..|RenderAll(a)|] == RenderAll(a);
  }

  /** An exception in the chunks written so far is the exception of the whole file. */
  lemma FailurePropagates(a: seq<Chunk>, b: seq<Chunk>, e: PyError)
    requires Collect(RenderAll(a)) == Err(e)
    ensures Collect(RenderAll(a + b)) == Err(e)
  {
    RenderAllAppend(a, b);
    CollectAppend(RenderAll(a), RenderAll(b));
  }

  lemma {:induction false} SegmentsSplit(ss: seq<CxxStruct>, k: nat, m: nat, n: nat)
    requires k <= m <= n <= |ss|
    ensures Segments(ss, k, n) == Segments(ss, k, m) + Segments(ss, m, n)
    decreases n - m
  {
    if m < n {
      SegmentsSplit(ss, k, m, n - 1);
    }
  }

  lemma Regroup(a: seq<Chunk>, b: seq<Chunk>, c: seq<Chunk>)
    ensures a + (b + c) == a + b + c
  {
  }

  /** An exception raised for sorted struct `k` is the exception of the whole struct loop. */
  lemma BodyFails(ss: seq<CxxStruct>, k: nat, e: PyError)
    requires k < |ss|
    requires Collect(RenderAll([Preamble] + Body(ss, k + 1))) == Err(e)
    ensures Collect(RenderAll([Preamble] + Body(ss, |ss|))) == Err(e)
  {
    SegmentsSplit(ss, 0, k + 1, |ss|);
    Regroup([Preamble], Body(ss, k + 1), Segments(ss, k + 1, |ss|));
    FailurePropagates([Preamble] + Body(ss, k + 1), Segments(ss, k + 1, |ss|), e);
  }

  /** The text of the namespace chunk written before a struct in namespace `n`. */
  function HeaderText(cur: Option<string>, n: string): string
  {
    match cur
    case None => "namespace " + n + "\n{\n\n"
    case Some(p) => if p != n then "}\n\nnamespace " + p + " {\n" else ""
  }

  /** A step of the struct loop: the namespace text, then the struct's code. */
  lemma DefinitionStep(ss: seq<CxxStruct>, k: nat, code: string)
    requires k < |ss| && Collect(RenderAll([Preamble] + Body(ss, k))) == Ok(code)
    ensures Collect(RenderAll([Preamble] + Body(ss, k + 1)))
         == Then(Ok(code + HeaderText(Previous(ss, k), ss[k].namespace)), StructCode(ss[k]))
  {
    var a := [Preamble] + Body(ss, k);
    var h := Header(Previous(ss, k), ss[k].namespace);
    BodySnoc(ss, k);
    Regroup([Preamble], Body(ss, k), Segment(ss, k));
    Regroup(a, h, [Definition(ss[k])]);
    ChunkStep(a + h, Definition(ss[k]));
    HeaderStep(a, Previous(ss, k), ss[k].namespace, code);
  }

  /** The namespace chunk adds the header text to what was written. */
  lemma HeaderStep(a: seq<Chunk>, cur: Option<string>, n: string, code: string)
    requires Collect(RenderAll(a)) == Ok(code)
    ensures Collect(RenderAll(a + Header(cur, n))) == Ok(code + HeaderText(cur, n))
  {
    var h := Header(cur, n);
    if h == [] {
      assert a + h == a;
      assert code + HeaderText(cur, n) == code;
    } else {
      assert h == [h[0]];
      ChunkStep(a, h[0]);
    }
  }

  /**
   * The namespace branch of the struct loop: the first struct opens a block
   * with its own namespace; a change of namespace closes the block and opens
   * one written with `cur_namespace` before it is updated.
   */
  method EnterNamespace(cur: Option<string>, n: string) returns (text: string, next: Option<string>)
    ensures text == HeaderText(cur, n)
    ensures next == Some(n)
  {
    var current := cur;
    text := "";
    if current.None? {
      current := Some(n);
      text := text + ("namespace " + current.value + "\n{\n\n");
    } else if current.value != n {
      text := text + ("}\n\nnamespace " + current.value + " {\n");
      current := Some(n);
    }
    next := current;
  }

  /** The struct loop of `generate_file`, over the sorted structs; `cur` is the last namespace seen. */
  method EmitDefinitions(ss: seq<CxxStruct>) returns (r: Piece, cur: Option<string>)
    ensures r == Collect(RenderAll([Preamble] + Body(ss, |ss|)))
    ensures r.Ok? ==> cur == Previous(ss, |ss|)
  {
    var code := Includes;
    ChunkStep([], Preamble);
    assert [] + [Preamble] == [Preamble] + Body(ss, 0);
    assert RenderAll([]) == [];
    assert "" + Includes == Includes;
    cur := None;
    var k := 0;
    while k < |ss|
      invariant 0 <= k <= |ss|
      invariant cur == Previous(ss, k)
      invariant Collect(RenderAll([Preamble] + Body(ss, k))) == Ok(code)
    {
      var s := ss[k];
      DefinitionStep(ss, k, code);
      var text;
      text, cur := EnterNamespace(cur, s.namespace);
      code := code + text;
      var c := GenerateCode(s);
      if c.Err? {
        BodyFails(ss, k, c.error);
        return Err(c.error), cur;
      }
      code := code + c.value;
      k := k + 1;
    }
    r := Ok(code);
  }

  lemma DescriptorsAppend(a: seq<CxxStruct>, b: seq<CxxStruct>)
    ensures Descriptors(a + b) == Descriptors(a) + Descriptors(b)
  {
    assert forall i | 0 <= i < |a + b| :: Descriptors(a + b)[i] == (Descriptors(a) + Descriptors(b))[i];
  }

  lemma DescriptorsSnoc(head: seq<Chunk>, structs: seq<CxxStruct>, j: nat)
    requires j < |structs|
    ensures head + Descriptors(structs[..j + 1]) == head + Descriptors(structs[..j]) + [Descriptor(structs[j])]
  {
    assert structs[..j + 1] == structs[..j] + [structs[j]];
    DescriptorsAppend(structs[..j], [structs[j]]);
  }

  lemma DescriptorsRest(head: seq<Chunk>, structs: seq<CxxStruct>, j: nat)
    requires j < |structs|
    ensures head + Descriptors(structs) == head + Descriptors(structs[..j + 1]) + Descriptors(structs[j + 1..])
  {
    assert structs == structs[..j + 1] + structs[j + 1..];
    DescriptorsAppend(structs[..j + 1], structs[j + 1..]);
  }

  /** The reflection loop of `generate_file`, over the structs in input order, after the text `code0` of `head`. */
  method EmitDescriptors(structs: seq<CxxStruct>, ghost head: seq<Chunk>, code0: string) returns (r: Piece)
    requires Collect(RenderAll(head)) == Ok(code0)
    ensures r == Collect(RenderAll(head + Descriptors(structs)))
  {
    var code := code0;
    ghost var done := head;
    assert head + Descriptors(structs[..0]) == head;
    var j := 0;
    while j < |structs|
      invariant 0 <= j <= |structs|
      invariant done == head + Descriptors(structs[..j])
      invariant Collect(RenderAll(done)) == Ok(code)
    {
      DescriptorsSnoc(head, structs, j);
      ChunkStep(done, Descriptor(structs[j]));
      done := done + [Descriptor(structs[j])];
      var d := GenerateReflectionCode(structs[j]);
      if d.Err? {
        DescriptorsRest(head, structs, j);
        FailurePropagates(done, Descriptors(structs[j + 1..]), d.error);
        return Err(d.error);
      }
      code := code + d.value;
      j := j + 1;
    }
    assert structs[..j] == structs;
    return Ok(code);
  }

  /** `generate_file`. */
  method GenerateFile(structs: seq<CxxStruct>) returns (r: Piece)
    ensures r == FileText(structs)
  {
    var ss := SortByNamespace(structs);
    ghost var body := [Preamble] + Body(ss, |ss|);
    ghost var close := CloseNamespace(PyStr(Previous(ss, |ss|)));
    assert FileChunks(structs) == body + [close] + Descriptors(structs);
    var definitions, cur := EmitDefinitions(ss);
    if definitions.Err? {
      FailurePropagates(body, [close] + Descriptors(structs), definitions.error);
      Regroup(body, [close], Descriptors(structs));
      return definitions;
    }
    ChunkStep(body, close);
    assert Render(close) == Ok("} // namespace " + PyStr(cur) + "\n\n");
    var code := definitions.value + ("} // namespace " + PyStr(cur) + "\n\n");
    r := EmitDescriptors(structs, body + [close], code);
  }
}
