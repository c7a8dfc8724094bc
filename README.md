# WoWLib core, modelled in Dafny

WoWLib reads and writes World of Warcraft client data. This project models two parts of it.

**The struct code generator** (`codegen/structures`), written in Python:

- **Type descriptors** (`CxxType`, `CxxNumericType`): qualified names, template specialisation with its arity check, `std::array` types and numeric bound checks.
- **Field descriptors and version-gated blocks** (`Field`, `VersionedBlock`), and the struct descriptor (`CxxStruct`). From these it emits:
  - a C++ struct definition, or one template specialisation per enabled client version;
  - a `DefaultInit` factory;
  - a reflection descriptor.
- **The file emitter** (`generate_file`): groups struct definitions by namespace and appends the reflection descriptors.
- **The `ClientVersions` enumeration**: the declared order and the ordinals of the versions.

**The self-contained algorithmic parts of the C++ library:**

- `ByteBuffer`: a byte buffer with a cursor.
- MCAL: alpha-map decoding (raw, run-length encoded and 4-bit lowres), with its edge fix-up and rounding helpers.
- MCSH: the shadow-map bit packing.
- FourCC packing and printing.
- Path normalisation.
- `Listfile`: the FileDataID/path association.
- The archive-name templates of `MPQLoader`.
- The archive priority search of `BaseLoader`.
- `ConstrainedArray`.
- `ste::unordered_bimap`: a one-to-one map.

**How the Python side is modelled.** The Python side is a set of pure functions over immutable descriptor datatypes. Its emitter loops are methods proved equal to those functions. A piece of emitted text is modelled as a `Result`: either the text of one `code +=` step, or the exception that step raises. This lets the model keep the generator's error paths:

- `RuntimeError` on an arity mismatch;
- `IndexError` on a struct whose version range is left as `()`;
- `TypeError` on a tuple default that holds numbers.

**How the C++ side is modelled.** Classes whose methods change fields in place become Dafny classes with `modifies` clauses. Fixed-size maps decoded in place are arrays. Each method is proved against a specification function.

The contract macros of the library (`Require`, `Ensure`, `Invariant`) abort the program. They are preconditions here. Integers are unbounded, except where the source's widths matter:

- `std::size_t` overflow checks, against `SIZE_MAX` = 2^64 − 1;
- 8-bit and 32-bit truncation, in FourCC and `NormalizeHighresAlpha`.

Files:

| file | models |
|---|---|
| `wrappers.dfy`, `strings.dfy` | `Option`/`Result`, and the string helpers shared by the modules (`std::string::find` and `replace`, `str.join`, decimal digits) |
| `config.dfy` | `ClientVersions` |
| `cxx_type.dfy` | `CxxType`, `CxxNumericType` |
| `cxx_struct.dfy` | `Field`, `VersionedBlock`, `CxxStruct` |
| `codegen.dfy` | `generate_file` |
| `byte_buffer.dfy` | `ByteBuffer` |
| `mcal.dfy` | MCAL |
| `mcsh.dfy` | MCSH |
| `common.dfy` | FourCC, `ClientVersion` |
| `templates.dfy` | `ConstrainedArray` |
| `path_utils.dfy` | path normalisation |
| `listfile.dfy` | `Listfile` |
| `mpq_loader.dfy` | `MPQLoader` |
| `base_loader.dfy` | `BaseLoader` |
| `unordered_bimap.dfy` | `unordered_bimap` |

## Model

| member | source | states |
|---|---|---|
| Config.MembersEnumerateAll | codegen/structures/config.py:4-18 | Iterating the enumeration visits every member exactly once. |
| Config.LookupName | codegen/structures/config.py:4-18 | Looking a member up by its name gives that member back, so every member has its own name. |
| Config.NamesDistinct | codegen/structures/config.py:4-18 | No two members share a name, so the emitted specialisations `ClientVersions::<name>` never collide. |
| Config.DeclaredOrderIsNotOrdinalOrder | codegen/structures/config.py:14-15 | Iteration follows declaration order, not ordinal order: CLASSIC_NEW (71) comes right after DF (90). |
| Config.MainlineStepsOfTen | codegen/structures/config.py:5-14 | The ordinals of CLASSIC through DF start at 0 and grow in steps of ten. |
| Config.AnyIsMaximal | codegen/structures/config.py:18 | ANY exceeds every other member and is itself iterated, last. |
| Config.ClassicNewInsideBfaSl | codegen/structures/config.py:12-15 | Range gates compare ordinals, so CLASSIC_NEW lies inside [BFA, SL] but not inside [CLASSIC, CLASSIC]. |
| CxxTypes.NewType | codegen/structures/cxx_type.py:35-53 | The descriptor keeps its name, namespace, headers and arguments. It is a template iff it has arguments, and its declared arity is the argument count. |
| CxxTypes.FullTypename | codegen/structures/cxx_type.py:102-122 | It raises exactly when a template's argument count differs from its declared arity, and never for a descriptor built by the constructor. Otherwise the result starts with the qualified name. |
| CxxTypes.FullTypenamePlain | codegen/structures/cxx_type.py:110-113 | A non-template type is named "namespace::name", or just "name" when the namespace is empty. |
| CxxTypes.RenderArgs | codegen/structures/cxx_type.py:91-92 | Arguments render in order, each a string or the argument type's `full_typename`. Rendering succeeds whenever every argument type is well formed. |
| CxxTypes.ArgHeadersMembership | codegen/structures/cxx_type.py:86-89 | The argument headers are exactly the headers of the arguments that are types. |
| CxxTypes.Specialize | codegen/structures/cxx_type.py:66-100 | A tuple whose length differs from the declared arity raises the arity error. Any result keeps the name and namespace and is well formed. |
| CxxTypes.SpecializeTuple | codegen/structures/cxx_type.py:75-92 | For well-formed arguments, `<<` with a tuple fails iff the length differs from the arity. Otherwise the new descriptor carries the rendered arguments in order and the union of its own and the argument types' headers. |
| CxxTypes.SpecializeSingleUnchecked | codegen/structures/cxx_type.py:93-100 | A single operand is never arity-checked: it always gives one rendered argument and adds that argument's headers. |
| CxxTypes.SpecializeThenName | codegen/structures/cxx_type.py:115-120 | A specialised type is named "ns::name<a1, a2, …>", its arguments joined by ", " in order. |
| CxxTypes.ArrayOf | codegen/structures/cxx_type.py:55-64 | `t[dim]` is "array" in namespace "std", with arguments [t's full name, str(dim)] and headers t.headers ∪ {"array"}. It fails exactly when t's own name does. |
| CxxTypes.ArrayOfName | codegen/structures/cxx_type.py:55-64 | The array descriptor of a well-formed type is named "std::array<T, dim>". |
| CxxTypes.NewNumericType | codegen/structures/cxx_type.py:144-168 | The assertion fails exactly when the two bounds are of different kinds. Otherwise the descriptor keeps both bounds and is integral iff they are ints. |
| CxxTypes.BoundsInterval | codegen/structures/cxx_type.py:170-186 | A value of the other kind is rejected. Integral types accept the closed interval [min, max], floating types the half-open (min, max], so the float minimum itself is rejected. |
| CxxTypes.BoundsExamples | codegen/structures/cxx_type.py:170-186 | uint8_t accepts 0 and 255 and rejects 256, -1 and 1.0. float rejects its minimum and an int, and accepts its maximum. |
| CxxStructs.CollectFirstError | codegen/structures/cxx_struct.py:180-248 | The first exception raised while emitting is the result, whatever follows it. |
| CxxStructs.JoinItems | codegen/structures/cxx_struct.py:66 | `", ".join` over a tuple default raises TypeError exactly when some element is not a string. Otherwise it joins the element texts with ", ". |
| CxxStructs.FieldCode | codegen/structures/cxx_struct.py:52-78 | The line fails exactly when the value type cannot be named or a tuple default holds a non-string. Otherwise it starts with "T name " and ends with a newline. |
| CxxStructs.FieldCodeLayout | codegen/structures/cxx_struct.py:58-78 | The whole line, part by part: "T name ", then ": n " for a bitfield, "= { a, b }" (the `JoinItems` text) for a tuple default or "= x" for another default, then "; ", "///> c" for a comment, and a newline. A field with none of these is "T name ; \n". |
| CxxStructs.DefaultInitCode | codegen/structures/cxx_struct.py:80-99 | None exactly for a field without a default. A tuple default of non-strings raises. Otherwise the line is "ret.name = value;\n". |
| CxxStructs.DefaultInitAgreesWithInitializer | codegen/structures/cxx_struct.py:63-97 | `DefaultInit` assigns a field the same value that its member declaration initialises it with. |
| CxxStructs.GetFields | codegen/structures/cxx_struct.py:126-143 | `get_fields` computes the block's flattened fields for the version: nothing outside the range, else direct fields and nested blocks' fields in order. |
| CxxStructs.BlockOutOfRange | codegen/structures/cxx_struct.py:133-134 | A block whose range excludes the version contributes nothing, whatever it nests. |
| CxxStructs.EntriesFieldsDeclared | codegen/structures/cxx_struct.py:136-143 | Every field produced for a version is declared somewhere in the entries. |
| CxxStructs.DirectFieldKept | codegen/structures/cxx_struct.py:137-139 | A field declared directly in the entries is produced for every version. |
| CxxStructs.EntriesFieldsAllEnabled | codegen/structures/cxx_struct.py:136-143 | When every nested range admits the version, flattening yields all declared fields in order. |
| CxxStructs.StructType | codegen/structures/cxx_struct.py:166-167 | The struct as a type is its class name in its namespace, and is never a template. |
| CxxStructs.IsVersionEnabled | codegen/structures/cxx_struct.py:152-178 | True for a None range, else lo ≤ v ≤ hi on ordinals. It raises IndexError exactly for the default `()` range. |
| CxxStructs.EnabledVersionsExact | codegen/structures/cxx_struct.py:198-200 | A struct is specialised exactly for the versions its range enables, in declaration order: every version for None, none for `()`. |
| CxxStructs.EnabledBfaToSl | codegen/structures/cxx_struct.py:198-200 | A range from BFA to SL yields the specialisations BFA, SL and CLASSIC_NEW, in that order. |
| CxxStructs.WithDefaultsMembership | codegen/structures/cxx_struct.py:218-220 | The fields `DefaultInit` visits are those in the list whose default is not None. |
| CxxStructs.DefaultInitAssignsDefaulted | codegen/structures/cxx_struct.py:218-244 | `DefaultInit` assigns exactly the fields that have a default, each once and in field order. |
| CxxStructs.InitLineAssigns | codegen/structures/cxx_struct.py:222-242 | The k-th assignment line starts "    ret.<name> = " for the k-th field with a default. |
| CxxStructs.EmitFieldLines | codegen/structures/cxx_struct.py:212-233 | The member-declaration loop produces the indented lines of the fields in order, or the first exception. |
| CxxStructs.EmitDefaultInit | codegen/structures/cxx_struct.py:216-246 | The `DefaultInit` loop produces its header, one assignment per defaulted field and the closing lines, or the first exception. |
| CxxStructs.CollectFields | codegen/structures/cxx_struct.py:205-210 | The field loop of one specialisation gives the entries' fields for that version, blocks flattened through `get_fields`. |
| CxxStructs.EmitSpecialization | codegen/structures/cxx_struct.py:202-226 | One specialisation is its header, its member lines and its `DefaultInit`. |
| CxxStructs.VersionedFailure | codegen/structures/cxx_struct.py:198-226 | An exception in the specialisation of an enabled version is the exception of the whole emitter. |
| CxxStructs.EmitSpecializations | codegen/structures/cxx_struct.py:198-226 | The version loop emits one specialisation per enabled version, in enumeration order. A `()` range raises IndexError. |
| CxxStructs.GenerateCode | codegen/structures/cxx_struct.py:180-248 | `generate_code` gives the docstring, then either the template declaration and the specialisations (versioned: the range is a pair, or some entry is a block) or the plain struct. |
| CxxStructs.FieldNamesIndex | codegen/structures/cxx_struct.py:261-269 | The name list has one name per field: the k-th is the k-th field's name. |
| CxxStructs.ReflectionNamesAreFieldNames | codegen/structures/cxx_struct.py:205-267 | The names reflected for a version are the names of the fields declared for it, in the same order. |
| CxxStructs.FieldLineDeclares | codegen/structures/cxx_struct.py:58 | The member line emitted for a field, when it is emitted, declares that field. |
| CxxStructs.ReflectionMatchesDeclarations | codegen/structures/cxx_struct.py:205-271 | For every version, the k-th reflected name is the name of the field that the k-th member line of the specialisation declares. |
| CxxStructs.GatherNames | codegen/structures/cxx_struct.py:261-267 | The name loop of one version gives the reflected names of the entries. |
| CxxStructs.EmitVersionReflection | codegen/structures/cxx_struct.py:269-271 | One descriptor names the specialisation and lists its field names joined by "\n  , ". |
| CxxStructs.EmitReflections | codegen/structures/cxx_struct.py:255-273 | One descriptor per enabled version, in enumeration order. A `()` range raises IndexError. |
| CxxStructs.GenerateReflectionCode | codegen/structures/cxx_struct.py:250-277 | `generate_reflection_code` gives per-version descriptors for a versioned struct, else one descriptor of the direct fields. |
| Codegen.StrLtTransitive | codegen/structures/codegen.py:13 | The namespace order that `sorted` uses is transitive (irreflexivity, asymmetry and totality are proved beside it). |
| Codegen.InsertSorted | codegen/structures/codegen.py:13 | Inserting a struct into a list sorted by namespace keeps it sorted. |
| Codegen.SortByNamespaceCorrect | codegen/structures/codegen.py:13 | The sort orders the structs by namespace and keeps each struct as often as it was given. Within one namespace it keeps the input order (stability). |
| Codegen.FileContents | codegen/structures/codegen.py:6-32 | The file starts with the includes. Each struct's definition appears exactly once, in the stable namespace order. Each reflection descriptor appears exactly once, in input order. |
| Codegen.FileStartsWithIncludes | codegen/structures/codegen.py:10 | Generated text starts with the two include lines. |
| Codegen.FileDepth | codegen/structures/codegen.py:14-25 | As written, the namespace braces balance once there is a struct. With no struct, the closing brace has no opening one. |
| Codegen.EmptyInputClosesNone | codegen/structures/codegen.py:12-25 | With no structs the file is the includes plus a lone "} // namespace None". |
| Codegen.ReopenedBlockNamesPreviousNamespace | codegen/structures/codegen.py:18-21 | As written, a struct in "B" after one in "A" is emitted inside a second block named "A". |
| Codegen.CorrectedDefinitionsInOwnNamespace | codegen/structures/codegen.py:14-23 | With the name updated before it is written, every definition sits in the block of its own namespace. |
| Codegen.CorrectedFileBalanced | codegen/structures/codegen.py:14-25 | In the corrected layout the braces balance for every input, the empty one included. |
| Codegen.BodyFails | codegen/structures/codegen.py:13-23 | An exception raised by a struct's `generate_code` is the exception of the whole file. |
| Codegen.EnterNamespace | codegen/structures/codegen.py:14-21 | The first struct opens a block with its own namespace. A change closes the block and opens one named with the old name. The tracked name becomes the struct's. |
| Codegen.EmitDefinitions | codegen/structures/codegen.py:13-23 | The struct loop produces the namespace texts and struct codes of the sorted structs, or the first exception, and ends on the last namespace. |
| Codegen.EmitDescriptors | codegen/structures/codegen.py:29-30 | The reflection loop appends each struct's descriptor in input order, or stops at the first exception. |
| Codegen.GenerateFile | codegen/structures/codegen.py:6-32 | `generate_file` computes the text of the chunk list whose properties the lemmas above state. |
| ByteBuffers.ByteBuffer.FromBytes | src/IO/ByteBuffer.cpp:5-23 | A buffer over a non-empty byte block, owned or borrowed, holds those bytes with the cursor at 0. |
| ByteBuffers.ByteBuffer.Sized | src/IO/ByteBuffer.cpp:49-56 | A buffer of n owned bytes with the cursor at 0. |
| ByteBuffers.ByteBuffer.IsEof | src/IO/ByteBuffer.cpp:87-91 | End of file iff the cursor equals the size. The cursor never passes the size (class invariant). |
| ByteBuffers.ByteBuffer.Seek | src/IO/ByteBuffer.inl:9-38 | Absolute seeks set the cursor to offset (forward) or size − offset (backwards). Relative seeks add or subtract offset. Each requires the bound that the source checks. Only the cursor changes. |
| ByteBuffers.ByteBuffer.ReadAt | src/IO/ByteBuffer.cpp:93-99 | Given offset + n ≤ size, it returns the n bytes at offset and leaves the cursor alone. |
| ByteBuffers.ByteBuffer.ReadHere | src/IO/ByteBuffer.cpp:101-107 | Given pos + n ≤ size, it returns the n bytes at the cursor and leaves the cursor alone. |
| ByteBuffers.ByteBuffer.Peek | src/IO/ByteBuffer.inl:40-46 | It checks pos + offset + width ≤ size, returns the bytes at the absolute offset, and moves nothing. |
| ByteBuffers.ByteBuffer.Read | src/IO/ByteBuffer.inl:48-82 | `ReadView`, `Read<T>()` and `Read(T&)` return the width bytes at the cursor and advance it by width. |
| ByteBuffers.ByteBuffer.ReadValueAt | src/IO/ByteBuffer.inl:84-90 | `Read(T&, offset)` returns the width bytes at offset and leaves the cursor alone. |
| ByteBuffers.ByteBuffer.Reserve | src/IO/ByteBuffer.inl:120-137 | The strict policy adds n to the size. It reallocates exactly size + n bytes when the capacity is short, keeps the old bytes, and requires an owned buffer. |
| ByteBuffers.ByteBuffer.ReserveDouble | src/IO/ByteBuffer.inl:138-158 | The double policy adds n to the size and keeps the old bytes. It reallocates only when short, to the old capacity added repeatedly until the new size fits. It requires that no round trips the overflow check (`Ensure` at line 147). |
| ByteBuffers.GrownCapacity | src/IO/ByteBuffer.inl:142-149 | The growth loop ends at the first multiple-step sum ≥ the required size, within `SIZE_MAX`, and never overshoots by a whole old capacity. It requires that no round trips the overflow check. |
| ByteBuffers.ByteBuffer.WriteAt | src/IO/ByteBuffer.cpp:109-120 | The bytes land at offset, and the size grows to offset + n when needed. Every other byte and the cursor are unchanged. |
| ByteBuffers.ByteBuffer.Write | src/IO/ByteBuffer.cpp:122-135 | The bytes land at the cursor, the size grows when needed, and the cursor advances by their length (also `Write<T>`, src/IO/ByteBuffer.inl:105-118). |
| ByteBuffers.ByteBuffer.ReadString | src/IO/ByteBuffer.cpp:165-182 | It returns the bytes up to the next NUL within the data and advances the cursor past the NUL. With no NUL within the data it returns None and leaves the cursor. |
| ByteBuffers.ByteBuffer.Equals | src/IO/ByteBuffer.cpp:184-198 | Equal iff the sizes agree and the bytes in use agree byte for byte. |
| ByteBuffers.Overwrite | src/IO/ByteBuffer.cpp:114-119 | The written range holds the source bytes, every other byte is kept, and the length grows only to cover the write. |
| ByteBuffers.ReadChecksAdmitOverrun | src/IO/ByteBuffer.cpp:96-104 | The bound checks of both `Read` overloads accept offset 3, n 2 on a 4-byte buffer, which reads past the end. |
| ByteBuffers.ReadStringPassesEnd | src/IO/ByteBuffer.cpp:171-180 | The scan reads a byte before checking it is in bounds. So, with a zero just past the data, it returns the whole tail and leaves the cursor past the end. |
| ByteBuffers.GrowFromZeroNeverEnds | src/IO/ByteBuffer.inl:145-149 | From a zero capacity (a buffer built with size 0), the doubling loop as written never ends. |
| ByteBuffers.GrowFromPositiveEnds | src/IO/ByteBuffer.inl:145-149 | From a positive capacity, the loop ends: either with enough room or on the overflow check. |
| ByteBuffers.GrowPastSizeMaxAborts | src/IO/ByteBuffer.inl:145-148 | Growing a capacity of 2^63 to hold 2^63 + 1 bytes trips the overflow check instead of reaching 2^64. |
| AlphaMaps.RleRun | src/IO/ADT/Tex/MCAL.cpp:60-76 | A run is read from its control byte. FILL gives `count` copies of the next byte. COPY gives the next `count` bytes. It fails on a truncated buffer or on a run past pixel 4096. |
| AlphaMaps.Rle | src/IO/ADT/Tex/MCAL.cpp:56-78 | Decoding from a pixel produces exactly the pixels up to 4096 and the position after the stream. |
| AlphaMaps.DecodeRle | src/IO/ADT/Tex/MCAL.cpp:54-78 | The in-place decoding loop fills the map from its runs until exactly 4096 pixels are done. |
| AlphaMaps.ApplyRun | src/IO/ADT/Tex/MCAL.cpp:60-76 | One pass of the loop writes the run's pixels after those already decoded and returns the new position and pixel count. |
| AlphaMaps.FillPixels | src/IO/ADT/Tex/MCAL.cpp:73 | `std::fill` writes `count` copies of the byte from `pixel` on and keeps the pixels before it. |
| AlphaMaps.CopyPixels | src/IO/ADT/Tex/MCAL.cpp:66 | The copy writes the bytes from `pixel` on and keeps the pixels before it. |
| AlphaMaps.RleDecodesEncoding | src/IO/ADT/Tex/MCAL.cpp:56-78 | Decoding inverts encoding: a stream of well-formed runs covering the rest of the map decodes to exactly those pixels and ends right after the stream. |
| AlphaMaps.RleAsWrittenOverruns | src/IO/ADT/Tex/MCAL.cpp:58-75 | The loop tests `pixel != 4096`. On 33 FILL runs of 127, the counter goes 0, 127, …, 4064, 4191 and the last run writes past the map. The checked decoder rejects this stream. |
| AlphaMaps.RleStopsOnLongFills | src/IO/ADT/Tex/MCAL.cpp:56-78 | From every run boundary of that stream, the checked decoder ends in an overrun error. |
| AlphaMaps.LowresPixel | src/IO/ADT/Tex/MCAL.cpp:99-100 | A 4-bit value is widened by repeating it in both nibbles (value × 17): the low nibble first, then the high one. |
| AlphaMaps.NibblesKeepBytes | src/IO/ADT/Tex/MCAL.cpp:95-103 | Unpacking loses nothing: each packed byte is recovered from its two pixels. |
| AlphaMaps.DecodeLowres | src/IO/ADT/Tex/MCAL.cpp:90-122 | The lowres loop unpacks 2048 bytes row by row, fixing edges when asked, and moves the cursor by 2048. |
| AlphaMaps.DecodeLowresRow | src/IO/ADT/Tex/MCAL.cpp:97-102 | Row i unpacks its 32 bytes into pixels i*64 … i*64+63 and keeps the rows before it. |
| AlphaMaps.LowresMap | src/IO/ADT/Tex/MCAL.cpp:90-104 | It succeeds iff 2048 bytes remain, and then consumes exactly 2048. |
| AlphaMaps.FixedCopiesEdges | src/IO/ADT/Tex/MCAL.cpp:107-122 | After the fix-up, column 63 repeats column 62 and row 63 repeats row 62. Every other pixel is the one decoded. |
| AlphaMaps.FixAlpha | src/IO/ADT/Tex/MCAL.cpp:107-122 | The in-place loop, copying both edges in one pass and then the corner, gives the fixed map. |
| AlphaMaps.FixEdgePixels | src/IO/ADT/Tex/MCAL.cpp:112-118 | Pass i sets pixel (i, 63) from (i, 62) and then (63, i) from (62, i). |
| AlphaMaps.FixCorner | src/IO/ADT/Tex/MCAL.cpp:119-121 | Re-copying the corner (62, 63) changes nothing and completes the fixed map. |
| AlphaMaps.DecodeLayer | src/IO/ADT/Tex/MCAL.cpp:38-104 | A highres uncompressed layer is the next 4096 bytes verbatim. A compressed one is RLE-decoded. A lowres layer flagged compressed is an error. |
| AlphaMaps.DecodeLayers | src/IO/ADT/Tex/MCAL.cpp:40-85 | One map per layer flag, in order, and no lowres layer may be compressed. |
| AlphaMaps.ReadLayer | src/IO/ADT/Tex/MCAL.cpp:42-104 | One pass of the layer loop decodes that layer's map. |
| AlphaMaps.Mcal.constructor | src/IO/ADT/Tex/MCAL.hpp:56 | A new MCAL holds no alpha maps. |
| AlphaMaps.Mcal.Read | src/IO/ADT/Tex/MCAL.cpp:16-123 | It requires between one and three layer parameters, and fix-up only for lowres. It appends one map per layer after the first and returns the cursor after them; on an error it appends nothing. |
| AlphaMaps.Mcal.Add | src/IO/ADT/Tex/MCAL.cpp:315-323 | It requires fewer than 3 maps and appends an all-zero map. The returned `Alphamap&` is modelled by its index; writes through it are `Mcal.Set`. |
| AlphaMaps.Mcal.At | src/IO/ADT/Tex/MCAL.cpp:325-335 | `At` and the subscript operator require index < size and return one of the maps (read side; writes through the reference are `Mcal.Set`). |
| AlphaMaps.Mcal.Set | src/IO/ADT/Tex/MCAL.cpp:325-353 | A write through the mutable `Alphamap&` of `At` and `operator[]`: the map at index becomes the new one, and the others are kept. |
| AlphaMaps.Mcal.Remove | src/IO/ADT/Tex/MCAL.cpp:337-341 | It requires index < size, erases that map, and keeps the others in order. |
| AlphaMaps.AddThenRemove | src/IO/ADT/Tex/MCAL.cpp:315-341 | A map just added reads back as all zeros; removing it restores the others. |
| AlphaMaps.AddThenSet | src/IO/ADT/Tex/MCAL.cpp:315-323 | Adding a map and filling it through the returned reference appends the filled map. |
| AlphaMaps.NormalizeLowresAlpha | src/IO/ADT/Tex/MCAL.hpp:67-70 | For a byte, alpha/255 rounded is 1 iff alpha ≥ 128, so the result is at most 1. |
| AlphaMaps.NormalizeHighresAlpha | src/IO/ADT/Tex/MCAL.hpp:72-75 | alpha/div rounded half down, truncated to 8 bits. It requires a positive divisor. |
| AlphaMaps.HighresQuotientNearest | src/IO/ADT/Tex/MCAL.hpp:72-75 | Before truncation, the quotient is an integer nearest to alpha/div. |
| AlphaMaps.HighresExactMultiple | src/IO/ADT/Tex/MCAL.hpp:72-75 | An exact multiple k·div comes back as k (mod 256). |
| ShadowMaps.Bits | src/IO/ADT/Tex/MCSH.cpp:22-27 | The eight bits of a byte, least significant first, as `std::bitset<8>` indexes them. |
| ShadowMaps.PackByte | src/IO/ADT/Tex/MCSH.cpp:52-59 | The byte whose bits are the eight given pixels, the first in the least significant bit. |
| ShadowMaps.PackBits | src/IO/ADT/Tex/MCSH.cpp:52-59 | Packing a byte's own bits gives the byte back. |
| ShadowMaps.BitsDetermine | src/IO/ADT/Tex/MCSH.cpp:22-27 | A byte is determined by its eight bits. |
| ShadowMaps.Unpack | src/IO/ADT/Tex/MCSH.cpp:20-28 | Pixel i*8+j is bit j of byte i. |
| ShadowMaps.Pack | src/IO/ADT/Tex/MCSH.cpp:50-60 | 512 bytes, byte i packing pixels i*8 … i*8+7 least significant first. |
| ShadowMaps.PackUnpack | src/IO/ADT/Tex/MCSH.cpp:17-60 | Writing a map read without the fix-up reproduces the bytes read. |
| ShadowMaps.UnpackPack | src/IO/ADT/Tex/MCSH.cpp:17-60 | Reading the bytes a map was written as gives the map back. |
| ShadowMaps.FixRow | src/IO/ADT/Tex/MCSH.cpp:33-36 | Row 63 becomes row 62; every other pixel is kept. |
| ShadowMaps.FixColumn | src/IO/ADT/Tex/MCSH.cpp:39-42 | Column 63 becomes column 62 in every row; every other pixel is kept. |
| ShadowMaps.Fixed | src/IO/ADT/Tex/MCSH.cpp:30-43 | Row then column fix-up. The corner comes from (62, 62), the rest of the map is kept, and afterwards the last row and column repeat their neighbours. |
| ShadowMaps.FixedIdempotent | src/IO/ADT/Tex/MCSH.cpp:30-43 | Fixing a fixed map changes nothing. |
| ShadowMaps.Mcsh.constructor | src/IO/ADT/Tex/MCSH.cpp:8-11 | All 4096 shadow bits start clear. |
| ShadowMaps.Mcsh.Read | src/IO/ADT/Tex/MCSH.cpp:13-44 | It consumes 512 bytes and sets the map to their bits, then to the fixed map when asked. A buffer too short is an error that changes nothing. |
| ShadowMaps.Mcsh.SetByte | src/IO/ADT/Tex/MCSH.cpp:22-27 | The inner loop sets pixels i*8 … i*8+7 to the bits of byte i and keeps the pixels before them. |
| ShadowMaps.Mcsh.FixLastRow | src/IO/ADT/Tex/MCSH.cpp:33-36 | The row loop, in place, gives the row-fixed map. |
| ShadowMaps.Mcsh.FixLastColumn | src/IO/ADT/Tex/MCSH.cpp:39-42 | The column loop, in place, gives the column-fixed map. |
| ShadowMaps.Mcsh.Write | src/IO/ADT/Tex/MCSH.cpp:46-62 | It emits the 512 packed bytes of the map, unchanged. |
| ShadowMaps.Mcsh.PackPixels | src/IO/ADT/Tex/MCSH.cpp:52-59 | One pass of the write loop gives byte i of the packed map. |
| FourCCs.FourCC | src/IO/Common.hpp:41-43 | The unsigned (intended) packing: LITTLE puts the first character in the high byte, and BIG puts it in the low byte. The template as written is `FourCCAsWritten`, which sign-extends (Findings). |
| FourCCs.BigIsReversedLittle | src/IO/Common.hpp:41-43 | BIG packing of a text is LITTLE packing of the reversed text. |
| FourCCs.HighToLowInjective | src/IO/Common.hpp:55-58 | A 32-bit value is determined by its four bytes. |
| FourCCs.PromotedChar | src/IO/Common.hpp:42-43 | A signed `char` promoted to `int` sign-extends from 0x80 on. |
| FourCCs.AsWrittenAgreesOnAscii | src/IO/Common.hpp:41-43 | On ASCII literals the template as written packs as intended. |
| FourCCs.AsWrittenSignExtends | src/IO/Common.hpp:42-43 | A last character of 0x80 floods the other three bytes with 0xFF. |
| FourCCs.FourCCStr | src/IO/Common.hpp:45-51 | The five chars are the bytes in the order the endianness packed them, then NUL. |
| FourCCs.FourCCStrMatchesToStr | src/IO/Common.hpp:45-63 | `FourCCStr` and `FourCCToStr` fill in the same characters for both orders. |
| FourCCs.UpToNul | src/IO/Common.hpp:62 | A C string ends at its first NUL. |
| FourCCs.FourCCToStr | src/IO/Common.hpp:53-63 | The string is the filled characters up to the first NUL: at most 4, and exactly 4 iff no byte is zero. |
| FourCCs.LittleRoundTrip | src/IO/Common.hpp:41-63 | `FourCCToStr(x, false)` inverts LITTLE packing of a NUL-free literal. |
| FourCCs.BigRoundTrip | src/IO/Common.hpp:41-63 | `FourCCToStr(x, true)` inverts BIG packing of a NUL-free literal. |
| FourCCs.ZeroPrintsEmpty | src/IO/Common.hpp:53-63 | A code of 0 prints as the empty string. |
| FourCCs.VersionsOrdered | src/IO/Common.hpp:72-88 | Declaration order is value order and each version is declared once. Exactly CLASSIC, TBC and WOTLK compare at or below WOTLK: the re-released clients compare above every original one. |
| FourCCs.OrdinalAt | src/IO/Common.hpp:72-88 | The values are 0 … 9 for the originals and 100 … 102 for the re-released clients. |
| ConstrainedArrays.StorageFor | src/Utils/Meta/Templates.hpp:130-131 | The storage is a fixed `std::array` of size_max elements iff size_min == size_max < SIZE_MAX, else a vector. `DataArrayChunk` uses the same rule (src/IO/Common.hpp:135-136). |
| ConstrainedArrays.DefaultBoundsAreDynamic | src/Utils/Meta/Templates.hpp:130-131 | The default bounds select a vector. |
| ConstrainedArrays.ConstrainedArray.constructor | src/Utils/Meta/Templates.hpp:130-131 | A vector starts empty; a fixed array starts with its size_max elements. |
| ConstrainedArrays.ConstrainedArray.Add | src/Utils/Meta/Templates.inl:16-25 | It requires size < size_max and appends a zeroed element at the end. The returned `T&` is modelled by its index; writes through it are `ConstrainedArray.Set`. |
| ConstrainedArrays.ConstrainedArray.Remove | src/Utils/Meta/Templates.inl:33-53 | It requires index < size, erases that element, and keeps the others in order. |
| ConstrainedArrays.ConstrainedArray.At | src/Utils/Meta/Templates.inl:61-101 | `At` and [] require index < size and return element `index` (read side; writes through the reference are `ConstrainedArray.Set`). |
| ConstrainedArrays.ConstrainedArray.Set | src/Utils/Meta/Templates.inl:61-87 | A write through the mutable `T&` of `At` and []: element index becomes the value, and the others and the bounds are kept. |
| ConstrainedArrays.ConstrainedArray.Clear | src/Utils/Meta/Templates.inl:109-114 | The array is left empty. |
| ConstrainedArrays.AddThenSet | src/Utils/Meta/Templates.inl:16-25 | `Add` followed by a write through the returned reference appends the written value, and the others stay where they were. |
| ConstrainedArrays.RemoveShifts | src/Utils/Meta/Templates.inl:33-39 | After `Remove(i)`, the elements before i stay put and those after i move down by one; none is lost or duplicated. |
| PathUtils.MapGame | src/Utils/PathUtils.cpp:30-34 | Each character is upper-cased and '/' becomes '\\'; the length is kept. |
| PathUtils.MapUnix | src/Utils/PathUtils.cpp:43-46 | Each '\\' becomes '/'; the rest, case included, is kept. |
| PathUtils.MapUnixLower | src/Utils/PathUtils.cpp:55-59 | Each character is lower-cased and '\\' becomes '/'. |
| PathUtils.RemoveInconsistentNaming | src/Utils/PathUtils.cpp:6-24 | A string not ending in ".mdx"/".mdl" is returned unchanged. One that does ends in ".m2", every match of the regex being replaced. |
| PathUtils.ReplaceWithoutMatch | src/Utils/PathUtils.cpp:12-16 | A string without a regex match is left alone. |
| PathUtils.ReplaceRewritesSuffix | src/Utils/PathUtils.cpp:10-17 | A string ending in "." + tail comes out ending in ".m2". |
| PathUtils.RewriteMatchesInside | src/Utils/PathUtils.cpp:12-16 | The regex '.' matches any character, so an inner "xmdl" is rewritten too: "xmdl.mdl" becomes ".m2.m2". |
| PathUtils.NormalizeFilepathGame | src/Utils/PathUtils.cpp:26-37 | Upper case with '\\' separators; the output has no '/'. |
| PathUtils.GameKeepsModelSuffix | src/Utils/PathUtils.cpp:30-36 | The ".mdx" rewrite is tested after upper-casing, so it never fires: "a/b.mdx" becomes "A\\B.MDX". |
| PathUtils.NormalizeFilepathUnix | src/Utils/PathUtils.cpp:39-49 | There is no '\\' in the output and the case is kept. Model names are rewritten to ".m2"; other paths only change separators. |
| PathUtils.UnixRewritesModelSuffix | src/Utils/PathUtils.cpp:39-49 | "a\\b.mdx" becomes "a/b.m2". |
| PathUtils.NormalizeFilepathUnixLower | src/Utils/PathUtils.cpp:51-62 | There is no '\\' and no upper case in the output, and model names of any case end in ".m2". |
| PathUtils.UnixLowerIdempotent | src/Utils/PathUtils.cpp:51-62 | Normalising twice equals normalising once. |
| Listfiles.Insert | src/IO/Storage/Listfile.cpp:60 | The bimap's insert refuses a pair whose ID or path is present and otherwise adds it, keeping both views inverse to each other. |
| Listfiles.StripCR | src/IO/Storage/Listfile.cpp:54-57 | Every '\r' is dropped. |
| Listfiles.LinesOfBuffer | src/IO/Storage/Listfile.cpp:50-72 | The lines read hold neither '\n' nor '\r' and, joined back with '\n', spell out the buffer without its '\r's. |
| Listfiles.InsertLines | src/IO/Storage/Listfile.cpp:60-71 | Every line takes the next ID, even one whose path is already present and so not inserted. |
| Listfiles.GamePaths | src/IO/Storage/Listfile.cpp:60-71 | Each stored path is the line in game form. |
| Listfiles.LinesGetIds | src/IO/Storage/Listfile.cpp:44-74 | The lines get IDs 1 … n. ID k can hold only line k's path, and every path is found under the ID of its first occurrence. |
| Listfiles.InsertLinesBounded | src/IO/Storage/Listfile.cpp:44-74 | The buffer constructor leaves no stored ID above the largest. |
| Listfiles.Listfile.FromBuffer | src/IO/Storage/Listfile.cpp:44-74 | The map and largest ID are those of inserting the game-form lines, a non-empty tail included; the policy is internal. |
| Listfiles.AddPath | src/IO/Storage/Listfile.cpp:76-87 | A known path gives its ID. Otherwise the ID is max + 1, the new largest. |
| Listfiles.AddPathNamesPath | src/IO/Storage/Listfile.cpp:76-87 | While no ID exceeds the largest, the ID returned names the path. |
| Listfiles.Listfile.GetOrAddFileDataID | src/IO/Storage/Listfile.cpp:76-87 | It returns the existing ID or inserts the path under max + 1. The returned ID names the path. That guarantee rests on the class invariant that no ID exceeds the largest, which holds only because `GetOrGenerateFilepath` is modelled as corrected (see Findings). |
| Listfiles.Decimal | src/IO/Storage/Listfile.cpp:98 | `std::to_string`: non-empty decimal digits, a single one iff n < 10. |
| Listfiles.Placeholder | src/IO/Storage/Listfile.cpp:98 | The placeholder path starts "UNKNOWN\\". |
| Listfiles.GenerateAsWritten | src/IO/Storage/Listfile.cpp:89-100 | As written, an unknown ID gets its placeholder and the largest ID stays where it was. |
| Listfiles.AddAfterGenerateAsWritten | src/IO/Storage/Listfile.cpp:76-100 | As written, generating ID 1 in an empty listfile and then adding "X" returns ID 1, which still names the placeholder, and "X" is not stored. |
| Listfiles.Generate | src/IO/Storage/Listfile.cpp:89-100 | A known ID gives its path. An unknown one gives "UNKNOWN\\<id>", inserted when no ID holds it, and raises the largest ID to cover it. |
| Listfiles.GenerateKeepsBounded | src/IO/Storage/Listfile.cpp:89-100 | The corrected generation keeps every ID at or below the largest. |
| Listfiles.Listfile.GetOrGenerateFilepath | src/IO/Storage/Listfile.cpp:89-100 | The stored path, or the placeholder per the corrected generation, keeping the class invariant. |
| Listfiles.Listfile.GetFileDataIdForFilepath | src/IO/Storage/Listfile.cpp:121-126 | The ID naming the path, or 0 when the path is absent. |
| Listfiles.Listfile.Exists | src/IO/Storage/Listfile.cpp:128-131 | True iff the ID is stored. |
| MpqLoaders.LocaleReplaced | src/IO/Storage/ClientLoaders/MPQLoader.cpp:49-61 | For a locale without '{', the result holds no "{locale}", and a path without one is unchanged. |
| Strings.Find | src/IO/Storage/ClientLoaders/MPQLoader.cpp:55 | `std::string::find`: the first index at which the pattern occurs, or none iff it does not occur. |
| MpqLoaders.ReplaceLocaleShrinks | src/IO/Storage/ClientLoaders/MPQLoader.cpp:53-60 | Each replacement removes a '{', so the loop ends. |
| MpqLoaders.EveryLocaleReplaced | src/IO/Storage/ClientLoaders/MPQLoader.cpp:53-60 | A template whose only '{' are those of its "{locale}"s gets every one replaced by the locale. |
| MpqLoaders.MpqLoader.ReplaceLocale | src/IO/Storage/ClientLoaders/MPQLoader.cpp:49-61 | The do-while loop, in place, computes the fully replaced path. |
| MpqLoaders.MpqLoader.constructor | src/IO/Storage/ClientLoaders/MPQLoader.cpp:11-14 | A new loader has loaded no archives yet. |
| MpqLoaders.MpqLoader.LoadedOfExactly | src/IO/Storage/ClientLoaders/MPQLoader.cpp:18 | Exactly the paths that exist and are not the project path are loaded. |
| MpqLoaders.MpqLoader.LoadArchive | src/IO/Storage/ClientLoaders/MPQLoader.cpp:16-30 | An archive is appended iff its path exists on disk and is not the project path. |
| MpqLoaders.Substituted | src/IO/Storage/ClientLoaders/MPQLoader.cpp:68-89 | The placeholder is replaced by one character; what is before and after it is kept. |
| MpqLoaders.Variants | src/IO/Storage/ClientLoaders/MPQLoader.cpp:69-91 | One path per character from first to last, ascending. |
| MpqLoaders.MpqLoader.LoadVariants | src/IO/Storage/ClientLoaders/MPQLoader.cpp:68-91 | It loads each variant in ascending order and leaves the last one in the path. |
| MpqLoaders.MpqLoader.LoadNumberedPatches | src/IO/Storage/ClientLoaders/MPQLoader.cpp:63-79 | It returns true iff the path has "{number}". Then it loads '2'…'9' in order and leaves '9' in the path. Otherwise the path and archives are unchanged. |
| MpqLoaders.MpqLoader.LoadCharacterNumberedPatches | src/IO/Storage/ClientLoaders/MPQLoader.cpp:81-97 | The same with 'a'…'z' for "{character}". |
| MpqLoaders.NumberedVariants | src/IO/Storage/ClientLoaders/MPQLoader.cpp:69-73 | The numbered variants are the eight paths with '2' … '9'. |
| MpqLoaders.CharacterVariants | src/IO/Storage/ClientLoaders/MPQLoader.cpp:87-91 | The character variants are the 26 paths with 'a' … 'z'. |
| BaseLoaders.NotFoundWhenAllMiss | src/IO/Storage/ClientLoaders/BaseLoader.cpp:9-23 | The answer is FILE_NOT_FOUND iff every archive misses, including when there are none. |
| BaseLoaders.LastHitDecides | src/IO/Storage/ClientLoaders/BaseLoader.cpp:9-20 | The last archive that does not miss decides. |
| BaseLoaders.LatestArchiveWins | src/IO/Storage/ClientLoaders/BaseLoader.cpp:9-20 | An archive loaded after the others that has the file decides. |
| BaseLoaders.MissesDoNotMatter | src/IO/Storage/ClientLoaders/BaseLoader.cpp:13-16 | Archives without the file can be loaded on top without changing the answer. |
| BaseLoaders.ReadFile | src/IO/Storage/ClientLoaders/BaseLoader.cpp:7-24 | It asks the archives from last to first and returns the first status that is not FILE_NOT_FOUND. It asks all of them when all miss. |
| BaseLoaders.Exists | src/IO/Storage/ClientLoaders/BaseLoader.cpp:26-37 | True iff some archive reports the file. |
| UnorderedBimaps.FirstClash | external/ste-unordered_bimap/unordered_bimap.hpp:86-107 | The map's look-up finds the first entry with the same key or the same value, or none. |
| UnorderedBimaps.AppendKeepsOneToOne | external/ste-unordered_bimap/unordered_bimap.hpp:96-268 | Adding an entry that clashes with none keeps keys and values unique. |
| UnorderedBimaps.WithoutKeepsOneToOne | external/ste-unordered_bimap/unordered_bimap.hpp:341-344 | Erasing an entry keeps keys and values unique. |
| UnorderedBimaps.UnorderedBimap.constructor | external/ste-unordered_bimap/unordered_bimap.hpp:126 | A default-constructed map is empty and one-to-one. |
| UnorderedBimaps.UnorderedBimap.Size | external/ste-unordered_bimap/unordered_bimap.hpp:247-250 | The number of pairs stored. |
| UnorderedBimaps.UnorderedBimap.Insert | external/ste-unordered_bimap/unordered_bimap.hpp:265-268 | It succeeds iff neither the key nor the value is present, and then appends the pair. Otherwise nothing changes and the clashing entry is returned. |
| UnorderedBimaps.UnorderedBimap.FindKey | external/ste-unordered_bimap/unordered_bimap.hpp:473-482 | The first entry with the key, or the end iff there is none. |
| UnorderedBimaps.UnorderedBimap.FindValue | external/ste-unordered_bimap/unordered_bimap.hpp:484-493 | The first entry with the value, or the end iff there is none. |
| UnorderedBimaps.UnorderedBimap.ContainsKey | external/ste-unordered_bimap/unordered_bimap.hpp:495-498 | True iff some entry has the key. |
| UnorderedBimaps.UnorderedBimap.AtKey | external/ste-unordered_bimap/unordered_bimap.hpp:419-427 | It returns the entry with the key, or `out_of_range` iff there is none. |
| UnorderedBimaps.UnorderedBimap.EraseKey | external/ste-unordered_bimap/unordered_bimap.hpp:346-357 | It returns 1 and removes that one entry iff the key is present, else returns 0 and changes nothing. Afterwards no entry has the key. |
| UnorderedBimaps.UnorderedBimap.EraseValue | external/ste-unordered_bimap/unordered_bimap.hpp:359-370 | The same for values. |
| UnorderedBimaps.AssignValueAsWrittenLosesKey | external/ste-unordered_bimap/unordered_bimap.hpp:373-381 | As written, giving key 1 the value held by key 2 erases key 1 and then fails to insert, so key 1 is gone. |
| UnorderedBimaps.AssignedValueKeepsKey | external/ste-unordered_bimap/unordered_bimap.hpp:372-381 | The intended assignment keeps the map one-to-one and its size, and does nothing for an absent key. A present key ends up with the value, or keeps its own when another key holds it. |
| UnorderedBimaps.UnorderedBimap.AssignValue | external/ste-unordered_bimap/unordered_bimap.hpp:372-381 | It performs the intended assignment and keeps the map one-to-one. |
| UnorderedBimaps.Kept | external/ste-unordered_bimap/unordered_bimap.hpp:628-638 | The entries `erase_if` keeps form a subsequence. |
| UnorderedBimaps.KeptExactly | external/ste-unordered_bimap/unordered_bimap.hpp:628-640 | The kept entries are exactly those the predicate rejects, and kept plus matching add up to the old size. |
| UnorderedBimaps.KeptKeepsOneToOne | external/ste-unordered_bimap/unordered_bimap.hpp:628-638 | Erasing by predicate keeps the map one-to-one. |
| UnorderedBimaps.EraseIf | external/ste-unordered_bimap/unordered_bimap.hpp:621-641 | It removes every accepted entry, keeps the others in order, and returns old size − new size, the number of accepted entries. |
| UnorderedBimaps.EraseIfStep | external/ste-unordered_bimap/unordered_bimap.hpp:630-637 | One iteration erases the visited entry when accepted, else steps past it. |

## Left out

- CxxTypes.CheckValueBounds: Python floats are modelled as reals, so NaN and the infinities are not modelled. Python's `bool` is a subclass of `int`, so `check_value_bounds(True)` on an integral type compares 1 against the bounds; the model has no booleans among its numbers.
- Strings: a C++ `std::string` byte and a Python character are both modelled as one Dafny `char`. Paths are taken to be ASCII. `::toupper`, `::tolower` and the regex `.` act per byte in the source, so a multi-byte UTF-8 character is not modelled.
- `CxxStruct.type_headers`: the property uses `+=` on sets, which raises on every call. `builtin_types.py`, `utils.py` and `test.py` are not part of this model. Numeric limits are taken as given values.
- Python's `sorted` is modelled as a stable insertion sort keyed on the namespace, with the code-point order of strings.
- `ByteBuffer`: the stream constructors, `Flush`, and copy/move construction and destruction are I/O and ownership, so they are not modelled. A null `data` pointer cannot occur in the model, so `operator==`'s null test is not modelled.
- `ByteBuffer::WriteString` is not modelled. It writes the NUL over the first data byte and advances the cursor twice.
- `ByteBuffer`: the iterator-range `Read`/`Write` overloads are modelled as reads and writes of n bytes at the cursor.
- ByteBuffers.ByteBuffer.ReadAt: requires offset + n ≤ size, stronger than the check as written (see Findings).
- ByteBuffers.ByteBuffer.ReadHere: requires pos + n ≤ size, stronger than the check as written (see Findings).
- ByteBuffers.ByteBuffer.ReadString: returns None instead of reading past the data (see Findings).
- ByteBuffers.ByteBuffer.ReserveDouble: grows a zero capacity straight to the required size, where the loop as written never ends (see Findings).
- ByteBuffers.ByteBuffer.FromBytes: a borrowed buffer is modelled as a copy. Aliasing with the caller's memory, where a write through the buffer changes the caller's bytes and the reverse, is not modelled.
- MCAL:
  - `MCAL::Write` is not modelled.
  - The lowres normalisation loop after decoding is not modelled.
  - The `size` argument is only logged.
  - The `CompressedAlphaByte` layout is assumed: the count in the low seven bits, FILL in the high bit.
- AlphaMaps.Mcal.At: states that the result is one of the maps (membership), not which one.
- References: the `Alphamap&` of `MCAL::Add`/`At`/`operator[]` and the `T&` of `ConstrainedArray::Add`/`At`/`operator[]` are modelled by the index they designate. A write through one is the explicit `Set` method. A reference kept across a later `Add` or `Remove` is not modelled, and neither is its invalidation when the vector reallocates.
- MCSH: the `size` argument is only logged.
- `ClientVersion::ANY` of the compile-time traits is not part of this model.
- `Listfile`: the CSV file constructor, `Save` and the default constructor are file I/O and not modelled. `boost::bimap` is modelled only through its documented `insert`. `uint32` wrap-around of the largest ID is not modelled. The path policy `REAL` is never set by the modelled operations.
- `MPQLoader`:
  - `LoadArchive` is modelled over a given set of existing paths.
  - `fs::equivalent` is approximated by string equality with the project path.
  - Archive open failures are not modelled.
  - `DetermineLocale`, `GetListfile` and the loaders built on it are not part of this model.
- Listfiles.Listfile.GetOrGenerateFilepath: models the intended generation, which raises the largest ID to a generated one. As written, the largest ID stays where it was (GenerateAsWritten, see Findings). The class invariant and the naming guarantee of `GetOrAddFileDataID` depend on this correction.
- MpqLoaders.MpqLoader.ReplaceLocale: requires a locale without '{'. With a locale containing "{locale}" the loop as written never ends.
- `BaseLoader`: each archive is represented by the status its own `ReadFile` returns or by its `Exists` answer. What an archive writes into `buf` is not modelled.
- The `FileReadStatus` enumeration is declared in FileKey.hpp, which is not part of this model. Its members are taken from `BaseLoader`'s uses and the library's storage code.
- `unordered_bimap`:
  - The iteration order of `std::unordered_map` is unspecified; the model appends new entries at the end.
  - `assign_key`, `at_value`, `count`, `contains_value`, `clear`, the iterator-based erase overloads and the constructors other than the default one are not modelled.
- UnorderedBimaps.UnorderedBimap.AssignValue: models the intended assignment; the as-written behaviour is AssignValueAsWritten (see Findings).

## Findings

| source | as written | input that shows it | evidently intended | confidence | as-written member | corrected member |
|---|---|---|---|---|---|---|
| codegen/structures/codegen.py:18-21 | The block opened at a namespace change is written with `cur_namespace` before it is updated, so it is named after the namespace being left. | Structs X in "A" then Y in "B": Y is emitted inside `namespace A {`. | Each block is named after the namespace of the structs inside it. | high, not executed | Codegen.ReopenedBlockNamesPreviousNamespace | Codegen.CorrectedDefinitionsInOwnNamespace |
| codegen/structures/codegen.py:12-25 | The closing brace is written even when no block was opened. | No structs: the file holds "} // namespace None" with no opening brace. | Braces balance for every input. | high, not executed | Codegen.EmptyInputClosesNone | Codegen.CorrectedFileBalanced |
| src/IO/ByteBuffer.cpp:96-104 | The read checks bound offset and n separately, not their sum. | A 4-byte buffer, offset 3, n 2: accepted, reads past the end. | offset + n ≤ size (pos + n ≤ size). | high, not executed | ByteBuffers.ReadChecksAdmitOverrun | ByteBuffers.ByteBuffer.ReadAt |
| src/IO/ByteBuffer.cpp:171-180 | Each byte is read before its bound is checked, and the check admits pos + len == size. | Data [65] with a 0 just past it: returns "A" and leaves the cursor at 2 > size 1. | The scan stops at the end of the data and the cursor stays within it. | medium, not executed | ByteBuffers.ReadStringPassesEnd | ByteBuffers.ByteBuffer.ReadString |
| src/IO/ByteBuffer.inl:142-149 | The double policy adds the old capacity until it fits. `Reserve<ReservePolicy::Double>` is never instantiated in the library, and its `memcpy` from the `std::unique_ptr` at line 152 would not compile, so the hang is latent. | A buffer built with size 0, `Reserve<Double>(1)`: the loop never ends. | A zero capacity grows to the required size. | medium, not executed | ByteBuffers.GrowFromZeroNeverEnds | ByteBuffers.GrownCapacity |
| src/IO/ADT/Tex/MCAL.cpp:58-75 | The loop only stops at exactly 4096 pixels and writes each run without a bound. | 33 FILL runs of 127: the counter goes past 4096 and the map is overrun. | Reject a run that does not fit in the map. | high, not executed | AlphaMaps.RleAsWrittenOverruns | AlphaMaps.DecodeRle |
| src/IO/Common.hpp:42-43 | Each `char` is promoted to a signed `int` before shifting and OR-ing. | "AAA\x80" (LITTLE): the last byte sign-extends and sets the upper three bytes to 0xFF. | Each character packed as an unsigned byte. | medium, not executed | FourCCs.AsWrittenSignExtends | FourCCs.LittleRoundTrip |
| src/IO/Storage/Listfile.cpp:89-100 | A generated placeholder is inserted under an ID above the largest without raising the largest. | An empty listfile: `GetOrGenerateFilepath(1)`, then `GetOrAddFileDataID("X")` returns 1, which names the placeholder. | The largest ID covers every stored ID. | medium, not executed | Listfiles.AddAfterGenerateAsWritten | Listfiles.AddPathNamesPath |
| external/ste-unordered_bimap/unordered_bimap.hpp:383-392 | The entry is erased before the new pair is inserted through `insert(k, t)` (lines 265-268), and the insert fails when another key holds the value. The `const&` overload at 373-381 has the same order. | {1→10, 2→20}, `assign_value(1, 20)`: key 1 is lost. | A present key is never lost. | medium, not executed | UnorderedBimaps.AssignValueAsWrittenLosesKey | UnorderedBimaps.AssignedValueKeepsKey |
