/**
 * Type descriptors of the struct generator: a C++ type's name, namespace,
 * required headers and template arguments, with the two derivations the
 * generator offers (array-of-T via `t[dim]`, template specialisation via
 * `t << args`) and the numeric descriptor's bounds check.
 * Every operation returns a new descriptor; none changes its operand.
 */
module CxxTypes {
  import opened Wrappers
  import opened Strings

  /** The exceptions the generator raises. */
  datatype PyError =
    | ArityError(typename: string, expected: nat, got: nat)  // RuntimeError "Wrong number of template arguments"
    | KindMismatch                                           // AssertionError: min and max of different kinds
    | RangeIndexError                                        // IndexError: indexing the default `()` version range
    | JoinTypeError                                          // TypeError: joining a tuple default that holds a non-str
    | MissingFullTypename                                    // AttributeError: a str value type has no `full_typename`

  datatype CxxType = CxxType(
    name: string,
    namespace: string,
    headers: set<string>,
    isTemplate: bool,
    templateArgs: seq<string>,
    nTemplateArgs: nat)

  /** Default namespace and headers of the constructor. */
  const DefaultNamespace: string := "std"
  const DefaultHeaders: set<string> := {"cstdint"}

  /** The invariant the constructor establishes: the declared arity is the stored arity. */
  predicate WellFormed(t: CxxType)
  {
    && t.isTemplate == (t.templateArgs != [])
    && t.nTemplateArgs == |t.templateArgs|
  }

  /** The constructor: `CxxType(name, namespace, headers, template_args)`. */
  function NewType(name: string, namespace: string, headers: set<string>, templateArgs: seq<string>): (t: CxxType)
    ensures WellFormed(t)
    ensures t.isTemplate <==> |templateArgs| > 0
    ensures t.nTemplateArgs == |templateArgs|
    ensures t.name == name && t.namespace == namespace && t.headers == headers && t.templateArgs == templateArgs
  {
    CxxType(name, namespace, headers, |templateArgs| > 0, templateArgs, |templateArgs|)
  }

  /** "namespace::name", or the bare name when the namespace is empty. */
  function QualifiedName(t: CxxType): string
  {
    if t.namespace != "" then t.namespace + "::" + t.name else t.name
  }

  /** The `full_typename` property. */
  function FullTypename(t: CxxType): (r: Result<string, PyError>)
    ensures r.Err? <==> t.isTemplate && |t.templateArgs| != t.nTemplateArgs
    ensures r.Err? ==> r.error == ArityError(QualifiedName(t), t.nTemplateArgs, |t.templateArgs|)
    ensures WellFormed(t) ==> r.Ok?
    ensures r.Ok? ==> |QualifiedName(t)| <= |r.value| && r.value[..|QualifiedName(t)|] == QualifiedName(t)
  {
    var typename := QualifiedName(t);
    if t.isTemplate then
      if |t.templateArgs| != t.nTemplateArgs then
        Err(ArityError(typename, t.nTemplateArgs, |t.templateArgs|))
      else
        Ok(typename + "<" + Join(t.templateArgs, ", ") + ">")
    else
      Ok(typename)
  }

  /** The qualified name alone is rendered for a type that is not a template. */
  lemma FullTypenamePlain(t: CxxType)
    requires !t.isTemplate
    ensures FullTypename(t) == Ok(QualifiedName(t))
    ensures t.namespace == "" ==> FullTypename(t) == Ok(t.name)
    ensures t.namespace != "" ==> FullTypename(t) == Ok(t.namespace + "::" + t.name)
  {
  }

  /** A template argument of `<<`: a literal string or another descriptor. */
  datatype TemplateArg = Literal(text: string) | TypeArg(t: CxxType)

  /** The right operand of `<<`: one argument, or a tuple of them. */
  datatype ShiftOperand = Single(arg: TemplateArg) | Tuple(args: seq<TemplateArg>)

  /** An argument's text: a literal as is, a descriptor by its `full_typename`. */
  function RenderArg(a: TemplateArg): Result<string, PyError>
  {
    match a
    case Literal(s) => Ok(s)
    case TypeArg(t) => FullTypename(t)
  }

  predicate ArgWellFormed(a: TemplateArg)
  {
    a.TypeArg? ==> WellFormed(a.t)
  }

  /** The list comprehension rendering the arguments in order; the first failure propagates. */
  function RenderArgs(args: seq<TemplateArg>): (r: Result<seq<string>, PyError>)
    ensures r.Ok? ==> |r.value| == |args|
    ensures r.Ok? ==> forall i :: 0 <= i < |args| ==> RenderArg(args[i]) == Ok(r.value[i])
    ensures (forall i :: 0 <= i < |args| ==> ArgWellFormed(args[i])) ==> r.Ok?
  {
    if args == [] then Ok([])
    else
      match RenderArg(args[0])
      case Err(e) => Err(e)
      case Ok(s) =>
        (match RenderArgs(args[1..])
         case Err(e) => Err(e)
         case Ok(rest) => Ok([s] + rest))
  }

  /** The headers contributed by the descriptor arguments. */
  function ArgHeaders(args: seq<TemplateArg>): set<string>
  {
    if args == [] then {}
    else (if args[0].TypeArg? then args[0].t.headers else {}) + ArgHeaders(args[1..])
  }

  lemma {:induction false} ArgHeadersMembership(args: seq<TemplateArg>, h: string)
    ensures h in ArgHeaders(args) <==> exists i :: 0 <= i < |args| && args[i].TypeArg? && h in args[i].t.headers
  {
    if args != [] {
      ArgHeadersMembership(args[1..], h);
      if h in ArgHeaders(args[1..]) {
        var i :| 0 <= i < |args[1..]| && args[1..][i].TypeArg? && h in args[1..][i].t.headers;
        assert args[i + 1] == args[1..][i];
      }
      if exists i :: 0 <= i < |args| && args[i].TypeArg? && h in args[i].t.headers {
        var i :| 0 <= i < |args| && args[i].TypeArg? && h in args[i].t.headers;
        if i > 0 {
          assert args[1..][i - 1] == args[i];
        }
      }
    }
  }

  /** `t << args`: the template specialisation operator. */
  function Specialize(t: CxxType, operand: ShiftOperand): (r: Result<CxxType, PyError>)
    ensures operand.Tuple? && |operand.args| != t.nTemplateArgs ==>
              r == Err(ArityError(QualifiedName(t), t.nTemplateArgs, |operand.args|))
    ensures r.Ok? ==> r.value.name == t.name && r.value.namespace == t.namespace && WellFormed(r.value)
  {
    match operand
    case Tuple(args) =>
      if t.nTemplateArgs != |args| then
        Err(ArityError(QualifiedName(t), t.nTemplateArgs, |args|))
      else
        (match RenderArgs(args)
         case Err(e) => Err(e)
         case Ok(rendered) => Ok(NewType(t.name, t.namespace, t.headers + ArgHeaders(args), rendered)))
    case Single(arg) =>
      match RenderArg(arg)
      case Err(e) => Err(e)
      case Ok(s) => Ok(NewType(t.name, t.namespace, t.headers + ArgHeaders([arg]), [s]))
  }

  /**
   * A tuple operand of well-formed arguments is refused exactly when its length
   * differs from the declared arity; otherwise the new descriptor carries the
   * rendered arguments in order and the union of the headers.
   */
  lemma SpecializeTuple(t: CxxType, args: seq<TemplateArg>)
    requires forall i :: 0 <= i < |args| ==> ArgWellFormed(args[i])
    ensures Specialize(t, Tuple(args)).Err? <==> |args| != t.nTemplateArgs
    ensures Specialize(t, Tuple(args)).Ok? ==>
              var u := Specialize(t, Tuple(args)).value;
              && u.isTemplate == (args != [])
              && u.nTemplateArgs == |args|
              && u.templateArgs == RenderArgs(args).value
              && u.headers == t.headers + ArgHeaders(args)
  {
  }

  /** A single operand is never checked against the declared arity. */
  lemma SpecializeSingleUnchecked(t: CxxType, arg: TemplateArg)
    requires ArgWellFormed(arg)
    ensures Specialize(t, Single(arg)).Ok?
    ensures Specialize(t, Single(arg)).value.templateArgs == [RenderArg(arg).value]
    ensures Specialize(t, Single(arg)).value.headers == t.headers + (if arg.TypeArg? then arg.t.headers else {})
  {
    assert ArgHeaders([arg]) == (if arg.TypeArg? then arg.t.headers else {}) + ArgHeaders([]);
  }

  /** Specialising and then naming yields "ns::name<a1, a2, ...>" in argument order. */
  lemma SpecializeThenName(t: CxxType, args: seq<TemplateArg>)
    requires forall i :: 0 <= i < |args| ==> ArgWellFormed(args[i])
    requires |args| == t.nTemplateArgs && args != []
    ensures FullTypename(Specialize(t, Tuple(args)).value)
            == Ok(QualifiedName(t) + "<" + Join(RenderArgs(args).value, ", ") + ">")
  {
  }

  /** `t[dim]`: the descriptor of `std::array<t, dim>`. */
  function ArrayOf(t: CxxType, dim: int): (r: Result<CxxType, PyError>)
    ensures r.Err? <==> FullTypename(t).Err?
    ensures r.Ok? ==> && r.value.name == "array" && r.value.namespace == DefaultNamespace
                      && r.value.headers == t.headers + {"array"}
                      && r.value.templateArgs == [FullTypename(t).value, IntToString(dim)]
                      && WellFormed(r.value)
  {
    var newHeaders := t.headers + {"array"};
    match FullTypename(t)
    case Err(e) => Err(e)
    case Ok(elem) => Ok(NewType("array", DefaultNamespace, newHeaders, [elem, IntToString(dim)]))
  }

  /** The array descriptor of a well-formed type names "std::array<T, dim>". */
  lemma ArrayOfName(t: CxxType, dim: int)
    requires WellFormed(t)
    ensures ArrayOf(t, dim).Ok?
    ensures FullTypename(ArrayOf(t, dim).value)
            == Ok("std::array<" + FullTypename(t).value + ", " + IntToString(dim) + ">")
  {
    var elem := FullTypename(t).value;
    var args := [elem, IntToString(dim)];
    assert args[1..] == [IntToString(dim)];
    assert Join(args, ", ") == elem + ", " + IntToString(dim);
    var u := ArrayOf(t, dim).value;
    assert QualifiedName(u) == "std::array";
    assert u.isTemplate && |u.templateArgs| == u.nTemplateArgs && u.templateArgs == args;
    assert FullTypename(u) == Ok("std::array" + "<" + Join(args, ", ") + ">");
    calc {
      "std::array" + "<" + Join(args, ", ") + ">";
      "std::array<" + (elem + ", " + IntToString(dim)) + ">";
      "std::array<" + elem + ", " + IntToString(dim) + ">";
    }
  }

  /** The value kinds a bound or a candidate can have. */
  datatype PyNumber = PyInt(i: int) | PyFloat(f: real)

  datatype CxxNumericType = CxxNumericType(base: CxxType, min: PyNumber, max: PyNumber, isIntegral: bool)

  /** What the constructor guarantees: both bounds of the kind `isIntegral` names. */
  predicate KindsAgree(n: CxxNumericType)
  {
    n.min.PyInt? == n.isIntegral && n.max.PyInt? == n.isIntegral
  }

  /** `CxxNumericType(...)`: asserts that both bounds have the same kind. */
  function NewNumericType(name: string, minVal: PyNumber, maxVal: PyNumber, namespace: string,
                          headers: set<string>, templateArgs: seq<string>): (r: Result<CxxNumericType, PyError>)
    ensures r.Err? <==> minVal.PyInt? != maxVal.PyInt?
    ensures r.Ok? ==> KindsAgree(r.value) && r.value.min == minVal && r.value.max == maxVal
  {
    if minVal.PyInt? != maxVal.PyInt? then Err(KindMismatch)
    else Ok(CxxNumericType(NewType(name, namespace, headers, templateArgs), minVal, maxVal, minVal.PyInt?))
  }

  /** `check_value_bounds`. */
  function CheckValueBounds(n: CxxNumericType, val: PyNumber): bool
    requires KindsAgree(n)
  {
    if n.isIntegral then
      if !val.PyInt? then false
      else n.min.i <= val.i < n.max.i + 1
    else
      if !val.PyFloat? then false
      else n.min.f < val.f <= n.max.f
  }

  /**
   * A value of the other kind is never accepted; integral descriptors accept
   * the closed interval [min, max], floating ones the interval (min, max].
   */
  lemma BoundsInterval(n: CxxNumericType, val: PyNumber)
    requires KindsAgree(n)
    ensures val.PyInt? != n.isIntegral ==> !CheckValueBounds(n, val)
    ensures n.isIntegral && val.PyInt? ==> (CheckValueBounds(n, val) <==> n.min.i <= val.i <= n.max.i)
    ensures !n.isIntegral && val.PyFloat? ==> (CheckValueBounds(n, val) <==> n.min.f < val.f <= n.max.f)
    ensures !n.isIntegral ==> !CheckValueBounds(n, n.min)
  {
  }

  /** The u8 and f32 boundary cases, with the limits taken as given. */
  lemma BoundsExamples(f32Min: real, f32Max: real)
    requires f32Min < f32Max
    ensures var u8 := NewNumericType("uint8_t", PyInt(0), PyInt(255), "std", DefaultHeaders, []).value;
            && CheckValueBounds(u8, PyInt(0)) && CheckValueBounds(u8, PyInt(255))
            && !CheckValueBounds(u8, PyInt(256)) && !CheckValueBounds(u8, PyInt(-1))
            && !CheckValueBounds(u8, PyFloat(1.0))
    ensures var f32 := NewNumericType("float", PyFloat(f32Min), PyFloat(f32Max), "", {}, []).value;
            && !CheckValueBounds(f32, PyFloat(f32Min)) && CheckValueBounds(f32, PyFloat(f32Max))
            && !CheckValueBounds(f32, PyInt(0))
  {
  }
}
