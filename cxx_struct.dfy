/**
 * Struct descriptors of the generator: fields, version-gated blocks of
 * fields, and the structs built from them, with the emitters that turn a
 * struct into C++ source text (the definition or one specialisation per
 * enabled client version, a `DefaultInit` factory, and a reflection
 * descriptor).
 *
 * Emitted text is described as a sequence of pieces, each the text of one
 * `code +=` step or the exception that step raises; `Collect` joins them
 * and stops at the first exception, as running the emitter does.
 */
module CxxStructs {
  import opened Wrappers
  import opened Strings
  import opened Config
  import opened CxxTypes

  /** A field's value type: a type descriptor, or a bare string. */
  datatype ValueType = Described(t: CxxType) | Spelled(s: string)

  /** An element of a tuple default; joining the tuple needs every element to be a string. */
  datatype DefaultItem = StrItem(s: string) | NumItem(repr: string)

  /** A field default: none, a single number (by its `str`), or a tuple. */
  datatype Default = NoDefault | Scalar(repr: string) | TupleDefault(items: seq<DefaultItem>)

  datatype Field = Field(valueType: ValueType, name: string, bit: Option<int>, default: Default, comment: string)

  /**
   * An entry of a struct or block: a field, or a nested block of entries
   * generated only for versions from `lo` to `hi`.
   */
  datatype Entry =
    | FieldEntry(field: Field)
    | BlockEntry(lo: ClientVersions, hi: ClientVersions, entries: seq<Entry>)

  /** A `VersionedBlock`. */
  type VersionedBlock = e: Entry | e.BlockEntry? witness BlockEntry(CLASSIC, CLASSIC, [])

  // ---------------------------------------------------------------------------
  // Pieces of emitted text

  type Piece = Result<string, PyError>

  /** The text of all pieces in order, or the first exception among them. */
  function Collect(ps: seq<Piece>): Piece
  {
    if ps == [] then Ok("")
    else
      match Collect(ps[..|ps| - 1])
      case Err(e) => Err(e)
      case Ok(x) =>
        (match ps[|ps| - 1]
         case Err(e) => Err(e)
         case Ok(y) => Ok(x + y))
  }

  /** Running two pieces of text one after the other. */
  function Then(a: Piece, b: Piece): Piece
  {
    match a
    case Err(e) => Err(e)
    case Ok(x) =>
      (match b
       case Err(e) => Err(e)
       case Ok(y) => Ok(x + y))
  }

  lemma {:induction false} CollectAppend(a: seq<Piece>, b: seq<Piece>)
    ensures Collect(a + b) == Then(Collect(a), Collect(b))
    decreases |b|
  {
    if b == [] {
      assert a + b == a;
      if Collect(a).Ok? {
        assert Collect(a).value + "" == Collect(a).value;
      }
    } else {
      var b' := b[..|b| - 1];
      assert (a + b)[..|a + b| - 1] == a + b';
      assert (a + b)[|a + b| - 1] == b[|b| - 1];
      CollectAppend(a, b');
      match Collect(a)
      case Err(_) =>
      case Ok(x) =>
        match Collect(b')
        case Err(_) =>
        case Ok(y) =>
          match b[|b| - 1]
          case Err(_) =>
          case Ok(z) =>
            assert x + y + z == x + (y + z);
    }
  }

  /** The first exception raised is the result, whatever follows it. */
  lemma CollectFirstError(a: seq<Piece>, e: PyError, b: seq<Piece>)
    requires Collect(a).Ok?
    ensures Collect(a + [Err(e)] + b) == Err(e)
  {
    CollectAppend(a, [Err(e)]);
    var one: seq<Piece> := [Err(e)];
    assert one[..0] == [];
    CollectAppend(a + [Err(e)], b);
  }

  /** Prefixing an indentation to a piece's text. */
  function Indented(pad: string, p: Piece): (r: Piece)
    ensures r.Ok? <==> p.Ok?
    ensures r.Ok? ==> r.value == pad + p.value
  {
    match p
    case Err(e) => Err(e)
    case Ok(s) => Ok(pad + s)
  }

  // ---------------------------------------------------------------------------
  // Field.generate_code and Field.generate_default_init_code

  /** The field type's `full_typename`; a bare string has none. */
  function TypeText(vt: ValueType): Piece
  {
    match vt
    case Described(t) => FullTypename(t)
    case Spelled(_) => Err(MissingFullTypename)
  }

  predicate AllStrings(items: seq<DefaultItem>)
  {
    forall i :: 0 <= i < |items| ==> items[i].StrItem?
  }

  function ItemTexts(items: seq<DefaultItem>): seq<string>
  {
    seq(|items|, i requires 0 <= i < |items| => if items[i].StrItem? then items[i].s else items[i].repr)
  }

  /** `", ".join(val for val in default)`: a non-string element raises a TypeError. */
  function JoinItems(items: seq<DefaultItem>): (r: Piece)
    ensures r.Err? <==> !AllStrings(items)
    ensures r.Err? ==> r.error == JoinTypeError
    ensures r.Ok? ==> r.value == Join(ItemTexts(items), ", ")
  {
    if AllStrings(items) then Ok(Join(ItemTexts(items), ", ")) else Err(JoinTypeError)
  }

  /** The optional bit-width part of a member declaration. */
  function BitPart(bit: Option<int>): string
  {
    match bit
    case None => ""
    case Some(n) => ": " + IntToString(n) + " "
  }

  /** The optional in-class initializer of a member declaration. */
  function InitializerPart(d: Default): Piece
  {
    match d
    case NoDefault => Ok("")
    case Scalar(repr) => Ok("= " + repr)
    case TupleDefault(items) =>
      (match JoinItems(items)
       case Err(e) => Err(e)
       case Ok(value) => Ok("= { " + value + " }"))
  }

  function CommentPart(comment: string): string
  {
    if comment != "" then "///> " + comment else ""
  }

  /** `Field.generate_code`: one member declaration line. */
  function FieldCode(f: Field): (r: Piece)
    ensures r.Err? <==> TypeText(f.valueType).Err? || (f.default.TupleDefault? && !AllStrings(f.default.items))
    ensures r.Ok? ==>
              var head := TypeText(f.valueType).value + " " + f.name + " ";
              && |head| < |r.value| && r.value[..|head|] == head
              && r.value[|r.value| - 1] == '\n'
  {
    match TypeText(f.valueType)
    case Err(e) => Err(e)
    case Ok(tn) =>
      (match InitializerPart(f.default)
       case Err(e) => Err(e)
       case Ok(init) =>
         var line := tn + " " + f.name + " " + BitPart(f.bit) + init + "; " + CommentPart(f.comment) + "\n";
         assert line[..|tn + " " + f.name + " "|] == tn + " " + f.name + " ";
         Ok(line))
  }

  /**
   * The layout of a member declaration line, part by part: the type and
   * name, `: n ` for a bitfield, `= { a, b }` for a tuple default or `= x`
   * for any other default, then `; `, `///> c` for a comment, and a newline.
   */
  lemma FieldCodeLayout(f: Field, tn: string)
    requires TypeText(f.valueType) == Ok(tn)
    requires f.default.TupleDefault? ==> AllStrings(f.default.items)
    ensures var bitText := if f.bit.Some? then ": " + IntToString(f.bit.value) + " " else "";
            var initText := match f.default
              case NoDefault => ""
              case Scalar(x) => "= " + x
              case TupleDefault(items) => "= { " + JoinItems(items).value + " }";
            var commentText := if f.comment != "" then "///> " + f.comment else "";
            FieldCode(f) == Ok(tn + " " + f.name + " " + bitText + initText + "; " + commentText + "\n")
    ensures f.bit.None? && f.default.NoDefault? && f.comment == "" ==> FieldCode(f) == Ok(tn + " " + f.name + " ; \n")
  {
    if f.bit.None? && f.default.NoDefault? && f.comment == "" {
      assert tn + " " + f.name + " " + "" + "" + "; " + "" + "\n" == tn + " " + f.name + " ; \n";
    }
  }

  /** `Field.generate_default_init_code`: None for a field without default. */
  function DefaultInitCode(f: Field): (r: Result<Option<string>, PyError>)
    ensures r.Ok? && r.value.None? <==> f.default.NoDefault?
    ensures r.Err? <==> f.default.TupleDefault? && !AllStrings(f.default.items)
    ensures r.Ok? && r.value.Some? ==>
              var head := "ret." + f.name + " = ";
              && |head| + 2 <= |r.value.value| && r.value.value[..|head|] == head
              && r.value.value[|r.value.value| - 2..] == ";\n"
  {
    var head := "ret." + f.name + " = ";
    match f.default
    case NoDefault => Ok(None)
    case Scalar(repr) =>
      var line := head + repr + ";\n";
      assert line[..|head|] == head && line[|line| - 2..] == ";\n";
      Ok(Some(line))
    case TupleDefault(items) =>
      (match JoinItems(items)
       case Err(e) => Err(e)
       case Ok(value) =>
         var line := head + "{ " + value + " }" + ";\n";
         assert line[..|head|] == head && line[|line| - 2..] == ";\n";
         Ok(Some(line)))
  }

  /**
   * `DefaultInit` assigns a field the same value its member declaration
   * initializes it with.
   */
  lemma DefaultInitAgreesWithInitializer(f: Field)
    requires !f.default.NoDefault?
    requires DefaultInitCode(f).Ok?
    ensures exists value: string ::
              && InitializerPart(f.default) == Ok("= " + value)
              && DefaultInitCode(f) == Ok(Some("ret." + f.name + " = " + value + ";\n"))
  {
    match f.default
    case Scalar(repr) =>
      assert InitializerPart(f.default) == Ok("= " + repr);
    case TupleDefault(items) =>
      var value := "{ " + JoinItems(items).value + " }";
      assert "= { " + JoinItems(items).value + " }" == "= " + value;
      assert InitializerPart(f.default) == Ok("= " + value);
      assert "ret." + f.name + " = " + "{ " + JoinItems(items).value + " }" + ";\n"
          == "ret." + f.name + " = " + value + ";\n";
  }

  // ---------------------------------------------------------------------------
  // VersionedBlock.get_fields

  /** The fields a block contributes for version `v`. */
  function BlockFields(b: VersionedBlock, v: ClientVersions): seq<Field>
    decreases b
  {
    if !InRange(v, b.lo, b.hi) then [] else EntriesFields(b.entries, v)
  }

  /** The fields a sequence of entries contributes, blocks resolved depth first. */
  function EntriesFields(es: seq<Entry>, v: ClientVersions): seq<Field>
    decreases es
  {
    if es == [] then []
    else
      (match es[0]
       case FieldEntry(f) => [f]
       case BlockEntry(lo, hi, inner) => if !InRange(v, lo, hi) then [] else EntriesFields(inner, v))
      + EntriesFields(es[1..], v)
  }

  /** The fields an entry contributes. */
  function EntryFields(e: Entry, v: ClientVersions): seq<Field>
  {
    match e
    case FieldEntry(f) => [f]
    case BlockEntry(_, _, _) => BlockFields(e, v)
  }

  lemma {:induction false} EntriesFieldsAppend(a: seq<Entry>, b: seq<Entry>, v: ClientVersions)
    ensures EntriesFields(a + b, v) == EntriesFields(a, v) + EntriesFields(b, v)
  {
    if a == [] {
      assert a + b == b;
    } else {
      assert (a + b)[0] == a[0];
      assert (a + b)[1..] == a[1..] + b;
      EntriesFieldsAppend(a[1..], b, v);
    }
  }

  lemma EntriesFieldsLast(es: seq<Entry>, v: ClientVersions)
    requires es != []
    ensures EntriesFields(es, v) == EntriesFields(es[..|es| - 1], v) + EntryFields(es[|es| - 1], v)
  {
    var n := |es| - 1;
    assert es == es[..n] + [es[n]];
    EntriesFieldsAppend(es[..n], [es[n]], v);
    assert [es[n]][1..] == [];
  }

  /** `get_fields`: the empty tuple outside the block's range, else the entries flattened in order. */
  method GetFields(b: VersionedBlock, v: ClientVersions) returns (fields: seq<Field>)
    ensures fields == BlockFields(b, v)
    decreases b
  {
    if !InRange(v, b.lo, b.hi) {
      return [];
    }
    fields := [];
    var i := 0;
    while i < |b.entries|
      invariant 0 <= i <= |b.entries|
      invariant fields == EntriesFields(b.entries[..i], v)
      decreases |b.entries| - i
    {
      assert b.entries[..i + 1][..i] == b.entries[..i];
      EntriesFieldsLast(b.entries[..i + 1], v);
      match b.entries[i] {
        case FieldEntry(f) =>
          fields := fields + [f];
        case BlockEntry(_, _, _) =>
          var more := GetFields(b.entries[i], v);
          fields := fields + more;
      }
      i := i + 1;
    }
    assert b.entries[..i] == b.entries;
  }

  /** A block outside its range contributes nothing, whatever it nests. */
  lemma BlockOutOfRange(b: VersionedBlock, v: ClientVersions)
    requires Ordinal(v) < Ordinal(b.lo) || Ordinal(v) > Ordinal(b.hi)
    ensures BlockFields(b, v) == []
  {
  }

  /** The fields of the entries with every range taken as enabled. */
  function AllFields(es: seq<Entry>): seq<Field>
    decreases es
  {
    if es == [] then []
    else
      (match es[0]
       case FieldEntry(f) => [f]
       case BlockEntry(_, _, inner) => AllFields(inner))
      + AllFields(es[1..])
  }

  /** Every field produced for some version is declared in the entries. */
  lemma {:induction false} EntriesFieldsDeclared(es: seq<Entry>, v: ClientVersions, f: Field)
    requires f in EntriesFields(es, v)
    ensures f in AllFields(es)
    decreases es
  {
    if f in EntriesFields(es[1..], v) {
      EntriesFieldsDeclared(es[1..], v, f);
    } else {
      match es[0]
      case FieldEntry(_) =>
      case BlockEntry(_, _, inner) =>
        EntriesFieldsDeclared(inner, v, f);
    }
  }

  /** A field declared directly in the entries is produced for every version. */
  lemma DirectFieldKept(es: seq<Entry>, i: nat, v: ClientVersions)
    requires i < |es| && es[i].FieldEntry?
    ensures es[i].field in EntriesFields(es, v)
  {
    assert es == es[..i] + es[i..];
    EntriesFieldsAppend(es[..i], es[i..], v);
  }

  /** When every block's range holds `v`, flattening keeps every field. */
  predicate AllRangesHold(es: seq<Entry>, v: ClientVersions)
    decreases es
  {
    forall i :: 0 <= i < |es| ==>
      match es[i]
      case FieldEntry(_) => true
      case BlockEntry(lo, hi, inner) => InRange(v, lo, hi) && AllRangesHold(inner, v)
  }

  lemma {:induction false} EntriesFieldsAllEnabled(es: seq<Entry>, v: ClientVersions)
    requires AllRangesHold(es, v)
    ensures EntriesFields(es, v) == AllFields(es)
    decreases es
  {
    if es != [] {
      assert forall i :: 0 <= i < |es[1..]| ==> es[1..][i] == es[i + 1];
      EntriesFieldsAllEnabled(es[1..], v);
      match es[0]
      case FieldEntry(_) =>
      case BlockEntry(_, _, inner) =>
        EntriesFieldsAllEnabled(inner, v);
    }
  }

  // ---------------------------------------------------------------------------
  // CxxStruct

  /** `__cxx_version_range__`: the inherited default `()`, None, or a pair of versions. */
  datatype VersionRange = Unset | Unversioned | Range(lo: ClientVersions, hi: ClientVersions)

  /** A struct description: the class name and the class attributes. */
  datatype CxxStruct = CxxStruct(
    name: string,
    versionRange: VersionRange,
    entries: seq<Entry>,
    namespace: string,
    docstring: string)

  predicate HasBlock(es: seq<Entry>)
  {
    exists i :: 0 <= i < |es| && es[i].BlockEntry?
  }

  /** `is_versioned`: the range is a non-empty tuple, or some entry is a block. */
  predicate IsVersioned(s: CxxStruct)
  {
    s.versionRange.Range? || HasBlock(s.entries)
  }

  /** The struct as a type descriptor: its class name in its namespace, default headers. */
  function StructType(s: CxxStruct): (t: CxxType)
    ensures FullTypename(t) == Ok(QualifiedName(t))
  {
    NewType(s.name, s.namespace, DefaultHeaders, [])
  }

  /** The range test without the exception: a `()` range is never consulted when it holds. */
  predicate EnabledIn(r: VersionRange, v: ClientVersions)
  {
    match r
    case Unset => false
    case Unversioned => true
    case Range(lo, hi) => InRange(v, lo, hi)
  }

  /** `is_version_enabled`: indexing the default `()` range raises an IndexError. */
  function IsVersionEnabled(s: CxxStruct, v: ClientVersions): (r: Result<bool, PyError>)
    ensures r.Err? <==> s.versionRange.Unset?
    ensures r.Err? ==> r.error == RangeIndexError
    ensures s.versionRange.Unversioned? ==> r == Ok(true)
    ensures s.versionRange.Range? ==>
              (r == Ok(true) <==> Ordinal(s.versionRange.lo) <= Ordinal(v) <= Ordinal(s.versionRange.hi))
  {
    if s.versionRange.Unset? then Err(RangeIndexError) else Ok(EnabledIn(s.versionRange, v))
  }

  /** The versions, among `vs` and in their order, a range enables. */
  function Enabled(r: VersionRange, vs: seq<ClientVersions>): seq<ClientVersions>
  {
    if vs == [] then []
    else (if EnabledIn(r, vs[0]) then [vs[0]] else []) + Enabled(r, vs[1..])
  }

  lemma {:induction false} EnabledAppend(r: VersionRange, a: seq<ClientVersions>, b: seq<ClientVersions>)
    ensures Enabled(r, a + b) == Enabled(r, a) + Enabled(r, b)
  {
    if a == [] {
      assert a + b == b;
    } else {
      assert (a + b)[0] == a[0];
      assert (a + b)[1..] == a[1..] + b;
      EnabledAppend(r, a[1..], b);
    }
  }

  lemma {:induction false} EnabledMembership(r: VersionRange, vs: seq<ClientVersions>, v: ClientVersions)
    ensures v in Enabled(r, vs) <==> v in vs && EnabledIn(r, v)
  {
    if vs != [] {
      EnabledMembership(r, vs[1..], v);
      assert vs == [vs[0]] + vs[1..];
    }
  }

  /** The versions a struct is emitted for, in enumeration order. */
  function EnabledVersions(s: CxxStruct): seq<ClientVersions>
  {
    Enabled(s.versionRange, Members)
  }

  /**
   * A struct is specialised exactly for the versions its range enables,
   * each once, in declaration order (not ordinal order).
   */
  lemma EnabledVersionsExact(s: CxxStruct, v: ClientVersions)
    ensures v in EnabledVersions(s) <==> EnabledIn(s.versionRange, v)
    ensures s.versionRange.Unversioned? ==> EnabledVersions(s) == Members
    ensures s.versionRange.Unset? ==> EnabledVersions(s) == []
  {
    MembersEnumerateAll();
    EnabledMembership(s.versionRange, Members, v);
    if !s.versionRange.Range? {
      EnabledAllOrNone(s.versionRange, Members);
    }
  }

  lemma {:induction false} EnabledAllOrNone(r: VersionRange, vs: seq<ClientVersions>)
    requires !r.Range?
    ensures r.Unversioned? ==> Enabled(r, vs) == vs
    ensures r.Unset? ==> Enabled(r, vs) == []
  {
    if vs != [] {
      EnabledAllOrNone(r, vs[1..]);
      assert vs == [vs[0]] + vs[1..];
    }
  }

  lemma EnabledStep(r: VersionRange, vs: seq<ClientVersions>, k: nat)
    requires k < |vs|
    ensures Enabled(r, vs[k..]) == (if EnabledIn(r, vs[k]) then [vs[k]] else []) + Enabled(r, vs[k + 1..])
  {
    assert vs[k..][0] == vs[k];
    assert vs[k..][1..] == vs[k + 1..];
  }

  /** From DF on, a range from BFA to SL enables only CLASSIC_NEW. */
  lemma EnabledBfaToSlFromDf()
    ensures Enabled(Range(BFA, SL), Members[9..]) == [CLASSIC_NEW]
  {
    var r := Range(BFA, SL);
    assert Members[14..] == [];
    assert Enabled(r, Members[13..]) == [] by { EnabledStep(r, Members, 13); }
    assert Enabled(r, Members[12..]) == [] by { EnabledStep(r, Members, 12); }
    assert Enabled(r, Members[11..]) == [] by { EnabledStep(r, Members, 11); }
    assert Enabled(r, Members[10..]) == [CLASSIC_NEW] by { EnabledStep(r, Members, 10); }
    assert Enabled(r, Members[9..]) == [CLASSIC_NEW] by { EnabledStep(r, Members, 9); }
  }

  /** From MOP on, it enables BFA, SL and CLASSIC_NEW. */
  lemma EnabledBfaToSlFromMop()
    ensures Enabled(Range(BFA, SL), Members[4..]) == [BFA, SL, CLASSIC_NEW]
  {
    var r := Range(BFA, SL);
    EnabledBfaToSlFromDf();
    assert Enabled(r, Members[8..]) == [SL, CLASSIC_NEW] by { EnabledStep(r, Members, 8); }
    assert Enabled(r, Members[7..]) == [BFA, SL, CLASSIC_NEW] by { EnabledStep(r, Members, 7); }
    assert Enabled(r, Members[6..]) == [BFA, SL, CLASSIC_NEW] by { EnabledStep(r, Members, 6); }
    assert Enabled(r, Members[5..]) == [BFA, SL, CLASSIC_NEW] by { EnabledStep(r, Members, 5); }
    assert Enabled(r, Members[4..]) == [BFA, SL, CLASSIC_NEW] by { EnabledStep(r, Members, 4); }
  }

  /** A range from BFA to SL also takes in CLASSIC_NEW (ordinal 71), after SL: declaration order. */
  lemma EnabledBfaToSl()
    ensures Enabled(Range(BFA, SL), Members) == [BFA, SL, CLASSIC_NEW]
  {
    var r := Range(BFA, SL);
    assert Members[0..] == Members;
    EnabledBfaToSlFromMop();
    assert Enabled(r, Members[3..]) == [BFA, SL, CLASSIC_NEW] by { EnabledStep(r, Members, 3); }
    assert Enabled(r, Members[2..]) == [BFA, SL, CLASSIC_NEW] by { EnabledStep(r, Members, 2); }
    assert Enabled(r, Members[1..]) == [BFA, SL, CLASSIC_NEW] by { EnabledStep(r, Members, 1); }
    assert Enabled(r, Members[0..]) == [BFA, SL, CLASSIC_NEW] by { EnabledStep(r, Members, 0); }
  }

  // -- pieces of a definition

  /** The member declaration lines. */
  function FieldLines(fs: seq<Field>): seq<Piece>
  {
    seq(|fs|, i requires 0 <= i < |fs| => Indented("  ", FieldCode(fs[i])))
  }

  /** The fields `DefaultInit` assigns: those with a default, in order. */
  function WithDefaults(fs: seq<Field>): seq<Field>
  {
    if fs == [] then []
    else (if fs[0].default.NoDefault? then [] else [fs[0]]) + WithDefaults(fs[1..])
  }

  lemma {:induction false} WithDefaultsAppend(a: seq<Field>, b: seq<Field>)
    ensures WithDefaults(a + b) == WithDefaults(a) + WithDefaults(b)
  {
    if a == [] {
      assert a + b == b;
    } else {
      assert (a + b)[0] == a[0];
      assert (a + b)[1..] == a[1..] + b;
      WithDefaultsAppend(a[1..], b);
    }
  }

  lemma {:induction false} WithDefaultsMembership(fs: seq<Field>, f: Field)
    ensures f in WithDefaults(fs) <==> f in fs && !f.default.NoDefault?
  {
    if fs != [] {
      WithDefaultsMembership(fs[1..], f);
      assert fs == [fs[0]] + fs[1..];
    }
  }

  /** The text `f"{...}"` makes of a `generate_default_init_code` result. */
  function InitText(f: Field): Piece
  {
    match DefaultInitCode(f)
    case Err(e) => Err(e)
    case Ok(None) => Ok("None")
    case Ok(Some(line)) => Ok(line)
  }

  /** The assignment lines of `DefaultInit`. */
  function InitLines(fs: seq<Field>): seq<Piece>
  {
    var w := WithDefaults(fs);
    seq(|w|, i requires 0 <= i < |w| => Indented("    ", InitText(w[i])))
  }

  /** The `DefaultInit` factory that closes a definition. */
  function InitPieces(name: string, fs: seq<Field>): seq<Piece>
  {
    [Ok("\n  static " + name + " DefaultInit()\n  {\n"), Ok("    auto ret = " + name + "{};\n")]
    + InitLines(fs)
    + [Ok("    return ret;\n"), Ok("  }\n};\n\n")]
  }

  /**
   * `DefaultInit` assigns exactly the fields that have a default, each once
   * and in field order: the k-th assignment line starts "    ret.<name> = "
   * for the k-th such field.
   */
  lemma DefaultInitAssignsDefaulted(fs: seq<Field>)
    ensures |InitLines(fs)| == |WithDefaults(fs)|
    ensures forall f :: f in WithDefaults(fs) <==> f in fs && !f.default.NoDefault?
    ensures forall k :: 0 <= k < |InitLines(fs)| && InitLines(fs)[k].Ok? ==>
              AssignsField(InitLines(fs)[k].value, WithDefaults(fs)[k])
  {
    forall f ensures f in WithDefaults(fs) <==> f in fs && !f.default.NoDefault? {
      WithDefaultsMembership(fs, f);
    }
    forall k | 0 <= k < |InitLines(fs)| && InitLines(fs)[k].Ok?
      ensures AssignsField(InitLines(fs)[k].value, WithDefaults(fs)[k])
    {
      InitLineAssigns(fs, k);
    }
  }

  /** A `DefaultInit` line that assigns field `f`. */
  predicate AssignsField(line: string, f: Field)
  {
    var head := "    ret." + f.name + " = ";
    |head| <= |line| && line[..|head|] == head
  }

  lemma InitLineAssigns(fs: seq<Field>, k: nat)
    requires k < |InitLines(fs)| && InitLines(fs)[k].Ok?
    ensures AssignsField(InitLines(fs)[k].value, WithDefaults(fs)[k])
  {
    var f := WithDefaults(fs)[k];
    WithDefaultsMembership(fs, f);
    var line := DefaultInitCode(f).value.value;
    var head := "ret." + f.name + " = ";
    assert InitLines(fs)[k].value == "    " + line;
    assert ("    " + line)[..|"    " + head|] == "    " + head;
    assert "    " + head == "    ret." + f.name + " = ";
  }

  /** The text of one specialisation for version `v`. */
  function SpecializationPieces(s: CxxStruct, v: ClientVersions): seq<Piece>
  {
    var fs := EntriesFields(s.entries, v);
    [Ok("template<>\nstruct " + s.name + "<IO::Common::ClientVersions::" + Name(v) + ">\n{\n")]
    + FieldLines(fs)
    + InitPieces(s.name, fs)
  }

  /** The specialisations for the versions `vs`, in order. */
  function SpecsPieces(s: CxxStruct, vs: seq<ClientVersions>): seq<Piece>
  {
    if vs == [] then [] else SpecializationPieces(s, vs[0]) + SpecsPieces(s, vs[1..])
  }

  lemma {:induction false} SpecsPiecesAppend(s: CxxStruct, a: seq<ClientVersions>, b: seq<ClientVersions>)
    ensures SpecsPieces(s, a + b) == SpecsPieces(s, a) + SpecsPieces(s, b)
  {
    if a == [] {
      assert a + b == b;
    } else {
      assert (a + b)[0] == a[0];
      assert (a + b)[1..] == a[1..] + b;
      SpecsPiecesAppend(s, a[1..], b);
    }
  }

  function DocText(s: CxxStruct): string
  {
    if s.docstring != "" then s.docstring + "\n" else ""
  }

  function TemplateDeclaration(s: CxxStruct): string
  {
    "template<IO::Common::ClientVersions client_version>\nstruct " + s.name + ";\n\n"
  }

  /** The direct fields of the entries. */
  function TopFields(es: seq<Entry>): seq<Field>
  {
    if es == [] then []
    else (if es[0].FieldEntry? then [es[0].field] else []) + TopFields(es[1..])
  }

  /** The pieces of `generate_code` once the versioned check is passed. */
  function VersionedPieces(s: CxxStruct): seq<Piece>
  {
    [Ok(DocText(s)), Ok(TemplateDeclaration(s))] + SpecsPieces(s, EnabledVersions(s))
  }

  function StaticPieces(s: CxxStruct): seq<Piece>
  {
    var fs := TopFields(s.entries);
    [Ok(DocText(s)), Ok("struct " + s.name + "{\n")] + FieldLines(fs) + InitPieces(s.name, fs)
  }

  /** `CxxStruct.generate_code`. */
  function StructCode(s: CxxStruct): Piece
  {
    if IsVersioned(s) then
      if s.versionRange.Unset? then Err(RangeIndexError) else Collect(VersionedPieces(s))
    else
      Collect(StaticPieces(s))
  }

  // -- emitters

  lemma CollectSnoc(a: seq<Piece>, p: Piece)
    ensures Collect(a + [p]) == Then(Collect(a), p)
  {
    assert (a + [p])[..|a + [p]| - 1] == a;
  }

  lemma ThenAssoc(a: Piece, b: Piece, c: Piece)
    ensures Then(Then(a, b), c) == Then(a, Then(b, c))
  {
    if a.Ok? && b.Ok? && c.Ok? {
      assert a.value + b.value + c.value == a.value + (b.value + c.value);
    }
  }

  lemma FieldLinesSplit(fs: seq<Field>, i: nat)
    requires i < |fs|
    ensures FieldLines(fs[..i + 1]) == FieldLines(fs[..i]) + [Indented("  ", FieldCode(fs[i]))]
    ensures FieldLines(fs) == FieldLines(fs[..i]) + [Indented("  ", FieldCode(fs[i]))] + FieldLines(fs[i + 1..])
  {
  }

  /** The member declaration loop: `code += f"  {field.generate_code()}"` for each field. */
  method EmitFieldLines(fs: seq<Field>) returns (r: Piece)
    ensures r == Collect(FieldLines(fs))
  {
    var code := "";
    var i := 0;
    while i < |fs|
      invariant 0 <= i <= |fs|
      invariant Collect(FieldLines(fs[..i])) == Ok(code)
    {
      var line := FieldCode(fs[i]);
      FieldLinesSplit(fs, i);
      if line.Err? {
        CollectFirstError(FieldLines(fs[..i]), line.error, FieldLines(fs[i + 1..]));
        return Err(line.error);
      }
      CollectSnoc(FieldLines(fs[..i]), Indented("  ", line));
      code := code + ("  " + line.value);
      i := i + 1;
    }
    assert fs[..i] == fs;
    return Ok(code);
  }

  lemma InitLinesAppend(a: seq<Field>, b: seq<Field>)
    ensures InitLines(a + b) == InitLines(a) + InitLines(b)
  {
    WithDefaultsAppend(a, b);
  }

  lemma InitLinesSplit(fs: seq<Field>, i: nat)
    requires i < |fs|
    ensures InitLines([fs[i]]) == if fs[i].default.NoDefault? then [] else [Indented("    ", InitText(fs[i]))]
    ensures InitLines(fs[..i + 1]) == InitLines(fs[..i]) + InitLines([fs[i]])
    ensures InitLines(fs) == InitLines(fs[..i]) + InitLines([fs[i]]) + InitLines(fs[i + 1..])
  {
    assert [fs[i]][1..] == [];
    assert WithDefaults([fs[i]]) == (if fs[i].default.NoDefault? then [] else [fs[i]]) + WithDefaults([]);
    assert fs[..i + 1] == fs[..i] + [fs[i]];
    InitLinesAppend(fs[..i], [fs[i]]);
    assert fs == fs[..i + 1] + fs[i + 1..];
    InitLinesAppend(fs[..i + 1], fs[i + 1..]);
  }

  lemma CollectTwo(a: string, b: string)
    ensures Collect([Ok(a), Ok(b)]) == Ok(a + b)
  {
    var ps: seq<Piece> := [Ok(a), Ok(b)];
    var first: seq<Piece> := [Ok(a)];
    assert ps[..1] == first;
    assert first[..0] == [];
    assert "" + a == a;
    assert Collect(first) == Ok(a);
    assert Collect(ps) == Then(Collect(first), Ok(b));
  }

  lemma CollectThree(a: seq<Piece>, b: seq<Piece>, c: seq<Piece>)
    ensures Collect(a + b + c) == Then(Then(Collect(a), Collect(b)), Collect(c))
  {
    CollectAppend(a, b);
    CollectAppend(a + b, c);
  }

  lemma InitStep(head: seq<Piece>, fs: seq<Field>, i: nat)
    requires i < |fs|
    ensures Collect(head + InitLines(fs[..i + 1]))
         == if fs[i].default.NoDefault? then Collect(head + InitLines(fs[..i]))
            else Then(Collect(head + InitLines(fs[..i])), Indented("    ", InitText(fs[i])))
  {
    InitLinesSplit(fs, i);
    if fs[i].default.NoDefault? {
      assert head + InitLines(fs[..i + 1]) == head + InitLines(fs[..i]);
    } else {
      assert head + InitLines(fs[..i + 1]) == (head + InitLines(fs[..i])) + [Indented("    ", InitText(fs[i]))];
      CollectSnoc(head + InitLines(fs[..i]), Indented("    ", InitText(fs[i])));
    }
  }

  lemma SplitAround<T>(h: seq<T>, a: seq<T>, x: seq<T>, b: seq<T>, t: seq<T>)
    ensures h + (a + x + b) + t == (h + a) + x + (b + t)
  {
  }

  lemma InitFailure(head: seq<Piece>, fs: seq<Field>, i: nat, tail: seq<Piece>, e: PyError)
    requires i < |fs| && !fs[i].default.NoDefault? && InitText(fs[i]) == Err(e)
    requires Collect(head + InitLines(fs[..i])).Ok?
    ensures Collect(head + InitLines(fs) + tail) == Err(e)
  {
    InitLinesSplit(fs, i);
    var before, after := head + InitLines(fs[..i]), InitLines(fs[i + 1..]) + tail;
    assert InitLines([fs[i]]) == [Err(e)];
    calc {
      head + InitLines(fs) + tail;
      head + (InitLines(fs[..i]) + [Err(e)] + InitLines(fs[i + 1..])) + tail;
      { SplitAround(head, InitLines(fs[..i]), [Err(e)], InitLines(fs[i + 1..]), tail); }
      before + [Err(e)] + after;
    }
    CollectFirstError(before, e, after);
  }

  /** The `DefaultInit` factory: one assignment per field with a default. */
  method EmitDefaultInit(name: string, fs: seq<Field>) returns (r: Piece)
    ensures r == Collect(InitPieces(name, fs))
  {
    var open := "\n  static " + name + " DefaultInit()\n  {\n";
    var declare := "    auto ret = " + name + "{};\n";
    ghost var head: seq<Piece> := [Ok(open), Ok(declare)];
    ghost var tail: seq<Piece> := [Ok("    return ret;\n"), Ok("  }\n};\n\n")];
    assert InitPieces(name, fs) == head + InitLines(fs) + tail;
    var code := open;
    code := code + declare;
    CollectTwo(open, declare);
    assert fs[..0] == [];
    assert head + InitLines(fs[..0]) == head;
    var i := 0;
    while i < |fs|
      invariant 0 <= i <= |fs|
      invariant Collect(head + InitLines(fs[..i])) == Ok(code)
    {
      InitStep(head, fs, i);
      if fs[i].default.NoDefault? {
        i := i + 1;
        continue;
      }
      var init := DefaultInitCode(fs[i]);
      match init {
        case Err(e) =>
          InitFailure(head, fs, i, tail, e);
          return Err(e);
        case Ok(None) =>
          code := code + "    None";
        case Ok(Some(line)) =>
          code := code + ("    " + line);
      }
      i := i + 1;
    }
    assert fs[..i] == fs;
    CollectThree(head, InitLines(fs), tail);
    CollectAppend(head, InitLines(fs));
    CollectTwo("    return ret;\n", "  }\n};\n\n");
    code := code + ("    return ret;\n" + "  }\n};\n\n");
    return Ok(code);
  }

  /** The fields the struct's own entries contribute for `v`, blocks through `get_fields`. */
  method CollectFields(es: seq<Entry>, v: ClientVersions) returns (fields: seq<Field>)
    ensures fields == EntriesFields(es, v)
  {
    fields := [];
    var j := 0;
    while j < |es|
      invariant 0 <= j <= |es|
      invariant fields == EntriesFields(es[..j], v)
    {
      assert es[..j + 1][..j] == es[..j];
      EntriesFieldsLast(es[..j + 1], v);
      match es[j] {
        case FieldEntry(f) =>
          fields := fields + [f];
        case BlockEntry(_, _, _) =>
          var more := GetFields(es[j], v);
          fields := fields + more;
      }
      j := j + 1;
    }
    assert es[..j] == es;
  }

  /** One specialisation: header, member declarations, `DefaultInit`. */
  method EmitSpecialization(s: CxxStruct, v: ClientVersions) returns (r: Piece)
    ensures r == Collect(SpecializationPieces(s, v))
  {
    var header := "template<>\nstruct " + s.name + "<IO::Common::ClientVersions::" + Name(v) + ">\n{\n";
    var fields := CollectFields(s.entries, v);
    ghost var one: seq<Piece> := [Ok(header)];
    assert one[..0] == [];
    assert Collect(one) == Ok("" + header);
    assert "" + header == header;
    CollectThree(one, FieldLines(fields), InitPieces(s.name, fields));
    var lines := EmitFieldLines(fields);
    if lines.Err? {
      return Err(lines.error);
    }
    var init := EmitDefaultInit(s.name, fields);
    if init.Err? {
      return Err(init.error);
    }
    return Ok(header + lines.value + init.value);
  }

  lemma VersionsStep(s: CxxStruct, k: nat)
    requires k < |Members|
    ensures SpecsPieces(s, Enabled(s.versionRange, Members[..k + 1]))
         == SpecsPieces(s, Enabled(s.versionRange, Members[..k]))
            + (if EnabledIn(s.versionRange, Members[k]) then SpecializationPieces(s, Members[k]) else [])
  {
    var r := s.versionRange;
    assert Members[..k + 1] == Members[..k] + [Members[k]];
    EnabledAppend(r, Members[..k], [Members[k]]);
    assert [Members[k]][1..] == [];
    SpecsPiecesAppend(s, Enabled(r, Members[..k]), Enabled(r, [Members[k]]));
    if EnabledIn(r, Members[k]) {
      assert SpecsPieces(s, [Members[k]]) == SpecializationPieces(s, Members[k]) + SpecsPieces(s, []);
    }
  }

  lemma VersionsSplit(s: CxxStruct, k: nat)
    requires k <= |Members|
    ensures SpecsPieces(s, EnabledVersions(s))
         == SpecsPieces(s, Enabled(s.versionRange, Members[..k])) + SpecsPieces(s, Enabled(s.versionRange, Members[k..]))
  {
    assert Members == Members[..k] + Members[k..];
    EnabledAppend(s.versionRange, Members[..k], Members[k..]);
    SpecsPiecesAppend(s, Enabled(s.versionRange, Members[..k]), Enabled(s.versionRange, Members[k..]));
  }

  lemma VersionedStep(s: CxxStruct, k: nat)
    requires k < |Members|
    ensures Collect(SpecsPieces(s, Enabled(s.versionRange, Members[..k + 1])))
         == if EnabledIn(s.versionRange, Members[k])
            then Then(Collect(SpecsPieces(s, Enabled(s.versionRange, Members[..k]))),
                      Collect(SpecializationPieces(s, Members[k])))
            else Collect(SpecsPieces(s, Enabled(s.versionRange, Members[..k])))
  {
    VersionsStep(s, k);
    var block := if EnabledIn(s.versionRange, Members[k]) then SpecializationPieces(s, Members[k]) else [];
    CollectAppend(SpecsPieces(s, Enabled(s.versionRange, Members[..k])), block);
    if !EnabledIn(s.versionRange, Members[k]) {
      assert SpecsPieces(s, Enabled(s.versionRange, Members[..k])) + block == SpecsPieces(s, Enabled(s.versionRange, Members[..k]));
    }
  }

  lemma VersionedFailure(s: CxxStruct, k: nat, e: PyError)
    requires k < |Members| && EnabledIn(s.versionRange, Members[k])
    requires Collect(SpecsPieces(s, Enabled(s.versionRange, Members[..k]))).Ok?
    requires Collect(SpecializationPieces(s, Members[k])) == Err(e)
    ensures Collect(SpecsPieces(s, EnabledVersions(s))) == Err(e)
  {
    VersionedStep(s, k);
    VersionsSplit(s, k + 1);
    CollectAppend(SpecsPieces(s, Enabled(s.versionRange, Members[..k + 1])),
                  SpecsPieces(s, Enabled(s.versionRange, Members[k + 1..])));
  }

  /** The specialisation loop of `generate_code`, over the versions in enumeration order. */
  method EmitSpecializations(s: CxxStruct) returns (r: Piece)
    ensures r == if s.versionRange.Unset? then Err(RangeIndexError) else Collect(SpecsPieces(s, EnabledVersions(s)))
  {
    var code := "";
    assert Members[..0] == [];
    var k := 0;
    while k < |Members|
      invariant 0 <= k <= |Members|
      invariant s.versionRange.Unset? ==> k == 0
      invariant Collect(SpecsPieces(s, Enabled(s.versionRange, Members[..k]))) == Ok(code)
    {
      var v := Members[k];
      var enabled := IsVersionEnabled(s, v);
      if enabled.Err? {
        return Err(enabled.error);
      }
      VersionedStep(s, k);
      if enabled.value {
        var spec := EmitSpecialization(s, v);
        if spec.Err? {
          VersionedFailure(s, k, spec.error);
          return Err(spec.error);
        }
        code := code + spec.value;
      }
      k := k + 1;
    }
    assert Members[..k] == Members;
    return Ok(code);
  }

  /** `CxxStruct.generate_code`. */
  method GenerateCode(s: CxxStruct) returns (r: Piece)
    ensures r == StructCode(s)
  {
    var code := "";
    if s.docstring != "" {
      code := code + s.docstring;
      code := code + "\n";
    }
    assert code == DocText(s);
    if s.versionRange.Range? || HasBlock(s.entries) {
      code := code + TemplateDeclaration(s);
      CollectTwo(DocText(s), TemplateDeclaration(s));
      CollectAppend([Ok(DocText(s)), Ok(TemplateDeclaration(s))], SpecsPieces(s, EnabledVersions(s)));
      var specs := EmitSpecializations(s);
      if specs.Err? {
        return Err(specs.error);
      }
      return Ok(code + specs.value);
    } else {
      var fields := TopFields(s.entries);
      ghost var head: seq<Piece> := [Ok(DocText(s)), Ok("struct " + s.name + "{\n")];
      code := code + ("struct " + s.name + "{\n");
      CollectTwo(DocText(s), "struct " + s.name + "{\n");
      CollectThree(head, FieldLines(fields), InitPieces(s.name, fields));
      var lines := EmitFieldLines(fields);
      if lines.Err? {
        return Err(lines.error);
      }
      var init := EmitDefaultInit(s.name, fields);
      if init.Err? {
        return Err(init.error);
      }
      return Ok(code + lines.value + init.value);
    }
  }

  // -- reflection descriptors

  function FieldNames(fs: seq<Field>): seq<string>
  {
    if fs == [] then [] else [fs[0].name] + FieldNames(fs[1..])
  }

  lemma {:induction false} FieldNamesAppend(a: seq<Field>, b: seq<Field>)
    ensures FieldNames(a + b) == FieldNames(a) + FieldNames(b)
  {
    if a == [] {
      assert a + b == b;
    } else {
      assert (a + b)[0] == a[0];
      assert (a + b)[1..] == a[1..] + b;
      FieldNamesAppend(a[1..], b);
    }
  }

  lemma {:induction false} FieldNamesIndex(fs: seq<Field>)
    ensures |FieldNames(fs)| == |fs|
    ensures forall k :: 0 <= k < |fs| ==> FieldNames(fs)[k] == fs[k].name
  {
    if fs != [] {
      FieldNamesIndex(fs[1..]);
    }
  }

  /** The names the reflection loop gathers for `v`: a field's own, a block's through `get_fields`. */
  function ReflectionNames(es: seq<Entry>, v: ClientVersions): seq<string>
  {
    if es == [] then []
    else
      (match es[0]
       case FieldEntry(f) => [f.name]
       case BlockEntry(_, _, _) => FieldNames(BlockFields(es[0], v)))
      + ReflectionNames(es[1..], v)
  }

  lemma ReflectionNamesLast(es: seq<Entry>, v: ClientVersions)
    requires es != []
    ensures ReflectionNames(es, v) == ReflectionNames(es[..|es| - 1], v) + FieldNames(EntryFields(es[|es| - 1], v))
  {
    ReflectionNamesAreFieldNames(es, v);
    ReflectionNamesAreFieldNames(es[..|es| - 1], v);
    EntriesFieldsLast(es, v);
    FieldNamesAppend(EntriesFields(es[..|es| - 1], v), EntryFields(es[|es| - 1], v));
  }

  /**
   * The reflection loop and the definition loop agree: the names reflected
   * for `v` are the names of the fields declared for `v`, in the same order.
   */
  lemma {:induction false} ReflectionNamesAreFieldNames(es: seq<Entry>, v: ClientVersions)
    ensures ReflectionNames(es, v) == FieldNames(EntriesFields(es, v))
  {
    if es != [] {
      ReflectionNamesAreFieldNames(es[1..], v);
      FieldNamesAppend(EntryFields(es[0], v), EntriesFields(es[1..], v));
      match es[0]
      case FieldEntry(f) =>
        assert FieldNames([f]) == [f.name] + FieldNames([]);
      case BlockEntry(_, _, _) =>
    }
  }

  /** A member line that declares field `f`. */
  predicate DeclaresField(line: string, f: Field)
  {
    TypeText(f.valueType).Ok? &&
    var head := "  " + TypeText(f.valueType).value + " " + f.name + " ";
    |head| <= |line| && line[..|head|] == head
  }

  /** The member line emitted for `f`, when it is emitted, declares `f`. */
  lemma FieldLineDeclares(f: Field)
    ensures Indented("  ", FieldCode(f)).Ok? ==> DeclaresField(Indented("  ", FieldCode(f)).value, f)
  {
    if FieldCode(f).Ok? {
      var code := FieldCode(f).value;
      var head := TypeText(f.valueType).value + " " + f.name + " ";
      assert code[..|head|] == head;
      assert ("  " + code)[..|"  " + head|] == "  " + head;
    }
  }

  /**
   * For every version, the k-th reflected name belongs to the field the k-th
   * member line of that version's specialisation declares.
   */
  lemma ReflectionMatchesDeclarations(s: CxxStruct, v: ClientVersions)
    ensures var fs := EntriesFields(s.entries, v);
            && |ReflectionNames(s.entries, v)| == |FieldLines(fs)|
            && forall k :: 0 <= k < |fs| ==>
                 ReflectionNames(s.entries, v)[k] == fs[k].name
                 && (FieldLines(fs)[k].Ok? ==> DeclaresField(FieldLines(fs)[k].value, fs[k]))
  {
    var fs := EntriesFields(s.entries, v);
    ReflectionNamesAreFieldNames(s.entries, v);
    FieldNamesIndex(fs);
    forall k | 0 <= k < |fs|
      ensures FieldLines(fs)[k].Ok? ==> DeclaresField(FieldLines(fs)[k].value, fs[k])
    {
      FieldLineDeclares(fs[k]);
    }
  }

  /** The descriptor of the specialisation for `v`. */
  function VersionReflection(s: CxxStruct, v: ClientVersions): string
  {
    "REFLECTION_DESCRIPTOR(\n  " + QualifiedName(StructType(s)) + "<IO::Common::ClientVersions::" + Name(v) + ">\n"
    + "  , " + Join(ReflectionNames(s.entries, v), "\n  , ") + "\n);\n\n"
  }

  function ReflectionTexts(s: CxxStruct, vs: seq<ClientVersions>): seq<string>
  {
    if vs == [] then [] else [VersionReflection(s, vs[0])] + ReflectionTexts(s, vs[1..])
  }

  lemma {:induction false} ReflectionTextsAppend(s: CxxStruct, a: seq<ClientVersions>, b: seq<ClientVersions>)
    ensures ReflectionTexts(s, a + b) == ReflectionTexts(s, a) + ReflectionTexts(s, b)
  {
    if a == [] {
      assert a + b == b;
    } else {
      assert (a + b)[0] == a[0];
      assert (a + b)[1..] == a[1..] + b;
      ReflectionTextsAppend(s, a[1..], b);
    }
  }

  /** `CxxStruct.generate_reflection_code`. */
  function ReflectionCode(s: CxxStruct): Piece
  {
    if IsVersioned(s) then
      if s.versionRange.Unset? then Err(RangeIndexError)
      else Ok(Concat(ReflectionTexts(s, EnabledVersions(s))))
    else
      Ok("REFLECTION_DESCRIPTOR(\n  " + QualifiedName(StructType(s)) + "\n, "
         + Join(FieldNames(TopFields(s.entries)), "  \n, ") + "\n);\n\n")
  }

  lemma ReflectionStep(s: CxxStruct, k: nat)
    requires k < |Members|
    ensures Concat(ReflectionTexts(s, Enabled(s.versionRange, Members[..k + 1])))
         == Concat(ReflectionTexts(s, Enabled(s.versionRange, Members[..k])))
            + (if EnabledIn(s.versionRange, Members[k]) then VersionReflection(s, Members[k]) else "")
  {
    var r := s.versionRange;
    assert Members[..k + 1] == Members[..k] + [Members[k]];
    EnabledAppend(r, Members[..k], [Members[k]]);
    assert [Members[k]][1..] == [];
    ReflectionTextsAppend(s, Enabled(r, Members[..k]), Enabled(r, [Members[k]]));
    ConcatAppend(ReflectionTexts(s, Enabled(r, Members[..k])), ReflectionTexts(s, Enabled(r, [Members[k]])));
    if EnabledIn(r, Members[k]) {
      assert ReflectionTexts(s, [Members[k]]) == [VersionReflection(s, Members[k])] + ReflectionTexts(s, []);
      assert Concat([VersionReflection(s, Members[k])]) == VersionReflection(s, Members[k]) + Concat([]);
    }
  }

  lemma GatherStep(es: seq<Entry>, j: nat, v: ClientVersions)
    requires j < |es|
    ensures ReflectionNames(es[..j + 1], v) == ReflectionNames(es[..j], v) + FieldNames(EntryFields(es[j], v))
    ensures es[j].FieldEntry? ==> FieldNames(EntryFields(es[j], v)) == [es[j].field.name]
  {
    assert es[..j + 1][..j] == es[..j];
    ReflectionNamesLast(es[..j + 1], v);
    if es[j].FieldEntry? {
      assert FieldNames([es[j].field]) == [es[j].field.name] + FieldNames([]);
    }
  }

  lemma FieldNamesSnoc(fs: seq<Field>, k: nat)
    requires k < |fs|
    ensures FieldNames(fs[..k + 1]) == FieldNames(fs[..k]) + [fs[k].name]
  {
    assert fs[..k + 1] == fs[..k] + [fs[k]];
    FieldNamesAppend(fs[..k], [fs[k]]);
    assert FieldNames([fs[k]]) == [fs[k].name] + FieldNames([]);
  }

  /** The names loop of `generate_reflection_code` for one version. */
  method GatherNames(es: seq<Entry>, v: ClientVersions) returns (names: seq<string>)
    ensures names == ReflectionNames(es, v)
  {
    names := [];
    var j := 0;
    while j < |es|
      invariant 0 <= j <= |es|
      invariant names == ReflectionNames(es[..j], v)
    {
      GatherStep(es, j, v);
      match es[j] {
        case FieldEntry(f) =>
          names := names + [f.name];
        case BlockEntry(_, _, _) =>
          var fields := GetFields(es[j], v);
          var k := 0;
          while k < |fields|
            invariant 0 <= k <= |fields|
            invariant names == ReflectionNames(es[..j], v) + FieldNames(fields[..k])
          {
            FieldNamesSnoc(fields, k);
            names := names + [fields[k].name];
            k := k + 1;
          }
          assert fields[..k] == fields;
      }
      j := j + 1;
    }
    assert es[..j] == es;
  }

  /** One descriptor of the versioned branch of `generate_reflection_code`. */
  method EmitVersionReflection(s: CxxStruct, v: ClientVersions) returns (text: string)
    ensures text == VersionReflection(s, v)
  {
    var names := GatherNames(s.entries, v);
    var fieldNames := Join(names, "\n  , ");
    text := "REFLECTION_DESCRIPTOR(\n  " + FullTypename(StructType(s)).value
            + "<IO::Common::ClientVersions::" + Name(v) + ">\n"
            + "  , " + fieldNames + "\n);\n\n";
  }

  /** The descriptor loop of `generate_reflection_code`, over the versions in enumeration order. */
  method EmitReflections(s: CxxStruct) returns (r: Piece)
    ensures r == if s.versionRange.Unset? then Err(RangeIndexError) else Ok(Concat(ReflectionTexts(s, EnabledVersions(s))))
  {
    var code := "";
    assert Members[..0] == [];
    var k := 0;
    while k < |Members|
      invariant 0 <= k <= |Members|
      invariant s.versionRange.Unset? ==> k == 0
      invariant code == Concat(ReflectionTexts(s, Enabled(s.versionRange, Members[..k])))
    {
      var v := Members[k];
      var enabled := IsVersionEnabled(s, v);
      if enabled.Err? {
        return Err(enabled.error);
      }
      ReflectionStep(s, k);
      if enabled.value {
        var text := EmitVersionReflection(s, v);
        code := code + text;
      }
      k := k + 1;
    }
    assert Members[..k] == Members;
    return Ok(code);
  }

  /** `CxxStruct.generate_reflection_code`. */
  method GenerateReflectionCode(s: CxxStruct) returns (r: Piece)
    ensures r == ReflectionCode(s)
  {
    if s.versionRange.Range? || HasBlock(s.entries) {
      r := EmitReflections(s);
    } else {
      var fieldNames := Join(FieldNames(TopFields(s.entries)), "  \n, ");
      r := Ok("REFLECTION_DESCRIPTOR(\n  " + FullTypename(StructType(s)).value + "\n, " + fieldNames + "\n);\n\n");
    }
  }
}
