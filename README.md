# ComputeSharp shader loader: resource binding and body post-processing

This project models the load-time half of ComputeSharp's shader translation,
`ShaderLoader` in `src/ComputeSharp.Shaders/Translation/ShaderLoader.cs`. A
shader is a closure over a `ThreadIds` parameter. Loading it does three things:

- It walks the fields of the closure type in declaration order. It rejects the
  type if any field is static. It reserves constant-buffer register 0 for the
  implicit buffer of captured scalars and vectors. Then it sorts each field into
  constant buffer, read-only buffer, read-write buffer, scalar/vector or
  unsupported. Each buffer takes the next register of its own kind and gets one
  descriptor range, one entry in `_BufferFields` and one in `_BuffersList`.
- It appends the static fields that the syntax rewriter found to the
  scalar/vector lists. It takes the name of the thread-ids parameter. It
  rewrites the body text three times: it strips `f`/`F`/`d`/`D` literal
  suffixes, trims trailing newlines, carriage returns and spaces, and renames
  `vector` to `_vector`.
- It gives each dispatch its buffers and variables by index. It derives one
  root parameter per descriptor range and caches that array.

The model has these modules:

- `Results`: the exceptions, as `LoadError`, plus the `Result`/`Outcome` wrappers.
- `Hlsl`: the host-type table, which is a parameter.
- `Direct3D`: descriptor ranges and root parameters.
- `Fields`: reflection field records and captured-field records.
- `FieldLoading`: the field loop as the function `Scan`, and its invariants.
- `BodyRewrites`: the three text rewrites as character scanners, each paired
  with a declarative reference definition.
- `Translation`: the whole load as the function `Translate`, and the binding
  guarantees of its result.
- `ShaderLoading`: the `ShaderLoader` class. Its methods append to its lists in
  place. Each method's postcondition ties the new state to `Scan`,
  `Translate` or `ProcessBody`.

In a few places the code does something other than its names and comments suggest. The model follows
the code:

- Descriptor ranges follow field declaration order, so the buffer kinds are
  interleaved, not grouped by kind.
- Static captures from the rewriter are not classified. They are appended to
  the scalar/vector lists whatever their type, and they never add a range or a
  buffer.
- A closure type with a static field is rejected with the message "Empty shader
  body".
- The lookbehind in the `vector` rename pattern, `(?<!A-Za-z)`, has no brackets.
  It therefore rules out only the literal six characters `A-Za-z`, not a
  preceding letter. So `myvector` becomes `my_vector`, and renaming twice turns
  `vector` into `__vector`.

## Model

| member | source | states |
|---|---|---|
| `Direct3D.RootParametersOf` | src/ComputeSharp.Shaders/Translation/ShaderLoader.cs:54 | exactly one root parameter per descriptor range, in the same order, each visible to all shader stages and holding that range |
| `FieldLoading.StaticFieldRejects` | src/ComputeSharp.Shaders/Translation/ShaderLoader.cs:123-124 | a static field anywhere in the closure type makes field loading fail with `InvalidOperation("Empty shader body")`, whatever the other fields are |
| `FieldLoading.ScanErrorPersists` | src/ComputeSharp.Shaders/Translation/ShaderLoader.cs:134-179 | once the field loop has thrown on some prefix of the fields, the later fields do not change the outcome |
| `FieldLoading.ScanFailure` | src/ComputeSharp.Shaders/Translation/ShaderLoader.cs:134-179 | the field loop succeeds if and only if no field is rejected; when it fails, the exception is that of the first rejected field in declaration order (`NotSupported` naming the type's full name, or `IndexOutOfRange` for a constant buffer type without a generic argument) |
| `FieldLoading.AddBufferConsistent` | src/ComputeSharp.Shaders/Translation/ShaderLoader.cs:140-170 | recording a buffer field keeps every loop invariant: the new range and the new buffer entry describe the field, and the register is the first free one of its kind |
| `FieldLoading.AddFieldConsistent` | src/ComputeSharp.Shaders/Translation/ShaderLoader.cs:139-179 | every successful iteration of the field loop keeps the loop invariants |
| `FieldLoading.ScanConsistent` | src/ComputeSharp.Shaders/Translation/ShaderLoader.cs:126-180 | after the loop, `DescriptorRanges` has one more entry than `_BufferFields`. Range 0 is the reserved constant buffer view at register 0, and range `i + 1` binds buffer `i`. `_BufferFields` and `_BuffersList` have the same length, and entry `i` of `_BuffersList` describes field `i` of `_BufferFields`. The same holds for `_VariableFields` and `_FieldsList`. Each buffer's register is the first register of its kind (1 for constant buffers, 0 otherwise) plus the number of earlier buffers of that kind, and each counter is the next free register |
| `FieldLoading.ScanOrder` | src/ComputeSharp.Shaders/Translation/ShaderLoader.cs:134-177 | `_BufferFields` is exactly the buffer-typed fields and `_VariableFields` exactly the scalar/vector fields of the closure type, each in declaration order |
| `FieldLoading.DistinctRegisters` | src/ComputeSharp.Shaders/Translation/ShaderLoader.cs:126-170 | no two descriptor ranges of the same type share a register. Registers of one type increase strictly along the list, so only the reserved range has constant-buffer register 0 |
| `BodyRewrites.StripFromKeeps` | src/ComputeSharp.Shaders/Translation/ShaderLoader.cs:208 | from any point where no literal is left open, the left-to-right replacement of `(?<=\W)(\d+)[fFdD]` by its digits equals deleting exactly the suffix letters that end a digit run preceded by a non-word character |
| `BodyRewrites.StripNumericSuffixesRemovesSuffixes` | src/ComputeSharp.Shaders/Translation/ShaderLoader.cs:208 | stripping deletes exactly the `f`/`F`/`d`/`D` letters that end a digit run preceded by a non-word character, and keeps every other character in order |
| `BodyRewrites.StripNumericSuffixesExamples` | src/ComputeSharp.Shaders/Translation/ShaderLoader.cs:208 | `x = 1.5f;` becomes `x = 1.5;`, ` 10D` becomes ` 10`, and `x1f` is unchanged because a word character precedes its digits |
| `BodyRewrites.TrimEnd` | src/ComputeSharp.Shaders/Translation/ShaderLoader.cs:209 | the result is a prefix of the body, and only newlines, carriage returns and spaces were removed. It is empty or does not end in one of those three characters |
| `BodyRewrites.TrimEndUnique` | src/ComputeSharp.Shaders/Translation/ShaderLoader.cs:209 | those three properties determine the trimmed text |
| `BodyRewrites.RenameVectorMarksMatches` | src/ComputeSharp.Shaders/Translation/ShaderLoader.cs:210 | the left-to-right replacement of `(?<!A-Za-z)vector(?!\w)` by `_vector` inserts one `_` before each position where the pattern matches and changes nothing else |
| `BodyRewrites.RenameVectorInsideIdentifier` | src/ComputeSharp.Shaders/Translation/ShaderLoader.cs:210 | `myvector` becomes `my_vector`, because the lookbehind is the literal text `A-Za-z` |
| `BodyRewrites.RenameVectorKeepsBeforeWordChar` | src/ComputeSharp.Shaders/Translation/ShaderLoader.cs:210 | a `vector` followed by a word character (`vector2`) is left as it is |
| `BodyRewrites.RenameVectorKeepsAfterLookbehind` | src/ComputeSharp.Shaders/Translation/ShaderLoader.cs:210 | a `vector` preceded by the text `A-Za-z` is left as it is |
| `BodyRewrites.RenameVectorTwice` | src/ComputeSharp.Shaders/Translation/ShaderLoader.cs:210 | `vector` becomes `_vector`, and renaming again gives `__vector`, so the rename is not idempotent |
| `BodyRewrites.ProcessBodyEndsTrimmed` | src/ComputeSharp.Shaders/Translation/ShaderLoader.cs:208-210 | the body after all three rewrites never ends in a newline, carriage return or space |
| `Translation.TranslateOutcome` | src/ComputeSharp.Shaders/Translation/ShaderLoader.cs:121-204 | loading succeeds if and only if the closure type has no static field, no field is rejected, and the shader method has a parameter. A static field gives "Empty shader body" whatever the method is. Otherwise the error is that of the first rejected field |
| `Translation.TranslateBindings` | src/ComputeSharp.Shaders/Translation/ShaderLoader.cs:126-171 | for a loaded shader, range 0 is reserved and range `i + 1` binds buffer `i`. The buffers are the closure's buffer fields in declaration order, with kinds interleaved. Each kind numbers its registers contiguously from its first free register, and no two ranges of one type share a register |
| `Translation.TranslateVariables` | src/ComputeSharp.Shaders/Translation/ShaderLoader.cs:172-201 | `_VariableFields` holds the closure's scalar/vector fields in declaration order, followed by the static captures in the rewriter's order. Each `_FieldsList` entry describes the field at the same position, under the field's own name or under the name the rewriter gave it |
| `Translation.StaticCapturesLeaveBindings` | src/ComputeSharp.Shaders/Translation/ShaderLoader.cs:196-201 | the static captures change neither the descriptor ranges nor the buffer lists |
| `Translation.ReadOnlyAndReadWriteBuffers` | src/ComputeSharp.Shaders/Translation/ShaderLoader.cs:126-171 | a closure with one read-only buffer `input` and one read-write buffer `output` is bound as [reserved constant buffer view 0, shader resource view 0, unordered access view 0], and its buffer list records both at register 0 |
| `ShaderLoading.ShaderLoader.constructor` | src/ComputeSharp.Shaders/Translation/ShaderLoader.cs:33-37 | a new loader has the closure's fields and the type table, and nothing recorded yet |
| `ShaderLoading.ShaderLoader.Load` | src/ComputeSharp.Shaders/Translation/ShaderLoader.cs:108-116 | `Load` returns a fresh loader exactly when `Translate` succeeds, and the loader exposes `Translate`'s result. Otherwise it fails with `Translate`'s exception. The root parameter cache starts empty |
| `ShaderLoading.ShaderLoader.LoadFieldsInfo` | src/ComputeSharp.Shaders/Translation/ShaderLoader.cs:121-181 | the loop appends in place, and its result equals `LoadFields`: it passes exactly when `LoadFields` succeeds and then leaves the lists `LoadFields` computes, or it fails with the same exception. A static field leaves every list empty |
| `ShaderLoading.ShaderLoader.LoadMethodSource` | src/ComputeSharp.Shaders/Translation/ShaderLoader.cs:186-211 | appends the static captures to `_VariableFields`/`_FieldsList` in the rewriter's order. With no parameter it fails with `ArgumentOutOfRange`, since the syntax list's own `First()` indexes element 0. Otherwise it sets the thread-ids name to the first parameter and the body to the three rewrites applied in order |
| `ShaderLoading.ShaderLoader.RootParameters` | src/ComputeSharp.Shaders/Translation/ShaderLoader.cs:49-54 | returns one root parameter per descriptor range. The first call fills the cache, and later calls return the cached array unchanged |
| `ShaderLoading.ShaderLoader.GetBuffers` | src/ComputeSharp.Shaders/Translation/ShaderLoader.cs:65 | pairs buffer field `i`'s value with root parameter index `i + 1`. When the ranges match the buffers, that index is never 0 and addresses the range recorded for that buffer |
| `ShaderLoading.ShaderLoader.GetVariables` | src/ComputeSharp.Shaders/Translation/ShaderLoader.cs:76 | returns one value per entry of `_VariableFields`, in that order |

## Left out

- The method behind an `Action<ThreadIds>` always has a parameter, so the `ArgumentOutOfRange` failure of `LoadMethodSource` models an input the loader never sees in practice; it is kept so that the step is total.
- Decompiling the shader method and rewriting its syntax tree (`MethodDecompiler`, `ShaderSyntaxRewriter`) are not part of this model. Their results are an input, `RewrittenMethod`: the parameter names, the body text and the static fields found.
- Reflection is not modelled. The closure type's fields are a sequence of `FieldInfo`, assumed to be in declaration order. Reading a field of a closure instance is a function parameter `target`. The cast of buffer values to `GraphicsResource` is not modelled.
- The contents of `HlslKnownTypes` (which types are buffers, scalars or vectors, and their HLSL names) are a parameter, `KnownTypes`.
- The regular expressions are modelled over ASCII only. .NET's `\d` and `\w` also match other Unicode digits and letters.
- `LoadFieldsInfo`: when a field throws partway through the loop, the contract does not describe the lists that are left partly filled. `Load` passes the exception on and never returns that loader.
- `RootParameters`: the `??=` cache is modelled as sequential code. Two threads racing on the first call are not modelled.
- The Direct3D types (`DescriptorRange`, `RootParameter`, `ShaderVisibility`) are plain values. Their native layout is not modelled.
- `src/ComputeSharp/Core/Primitives/Bool/BoolMxN.g.cs` is not part of this model. It is generated matrix placeholder types whose members only throw.
- `src/ComputeSharp/Graphics/Helpers/DeviceHelper.ID3D12InfoQueue.cs` is not part of this model. It is Direct3D 12 debug-message interop.
