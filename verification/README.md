# cs2j CommonWalker helpers, modelled in Dafny

This project models the pure helpers of `CommonWalker`, the base class of
the tree walkers in the cs2j C#-to-Java translator. It covers:

- the generic-arity alias codec (`mkGenericTypeAlias`, `formatTyargs`) and
  namespace prefixing (`NSPrefix`);
- the Java naming-convention rewrites (`toJavaConvention`,
  `rewriteMethodName`, `rewriteImportLocation`);
- code-fragment template substitution (`rewriteCodeFragment` with
  `MethodMapper.RewriteMethod`);
- the import-set accumulator (`AddToImports`, both overloads);
- the starting state of a partial-type descriptor
  (`ClassDescriptorSerialized(name)`).

Strings are `seq<char>`. A Dafny `char` is a Unicode scalar value, while a
C# string is a sequence of UTF-16 code units. Every pattern the code matches
is ASCII, so using Unicode scalar values instead of UTF-16 code units changes
no result on well-formed text; a string holding a lone surrogate cannot be
represented. The ASCII-only `Char.ToLower` and `\w` are a separate
restriction, listed under "Left out". A C# reference that may be `null` is a
`Wrappers.Option`. The configuration is the record `Settings.CS2JSettings`.
It holds the `translatorMakeJavaNamingConventions` flag, the only setting
the modelled code reads.

Modules:
- `Wrappers` (file `wrappers.dfy`): `Option`.
- `DotNetText` (file `dotnet_text.dfy`): the .NET primitives the helpers
  call: `Int32.ToString`, `String.Replace`, `String.LastIndexOf`,
  `Char.ToLower`, the regex class `\w`, and comma-joined lists. Each comes
  with lemmas.
- `Settings`, `Naming`, `TypeAlias`, `CodeFragment`, `Imports` and
  `ClassDescriptor`: one module per group of walker members.

The code-fragment model works at two levels. `CodeFragment.RewriteCodeFragment`
processes arbitrary text as the walker does, up to the restrictions listed
under "Left out" (ASCII-only `\w`, invariant-culture ASCII `Char.ToLower`, no null code or null
arguments). Over a template
datatype (`Piece`: literal code, type variable, `@m{..}` marker),
`CodeFragment.ExpandTemplate` proves what that processing yields. For a
well-formed template it is `Expand`: each covered type variable becomes its
argument, each uncovered one stays a placeholder, and each marker becomes
its rewritten identifier.

Three consequences of the code are worth stating:
- Only `rewriteMethodName` exempts the reserved names `main`, `notify`,
  `notifyAll` and `wait`. The `@m{..}` path calls `toJavaConvention`
  directly, so with the naming flag on `@m{Wait}` becomes `wait`
  (`CodeFragment.MarkerIgnoresReservedNames`).
- Placeholders need not all disappear. For a well-formed template with
  plain arguments every covered placeholder is replaced
  (`CodeFragment.ExpansionIsPlain`). An argument that itself contains
  `${T}` leaves that placeholder in the output
  (`CodeFragment.PlaceholderInArgumentSurvives`).
- `mkGenericTypeAlias(name, int)` maps every non-positive count to `name`.
  So aliases tell arities apart only among non-negative counts; list sizes
  are never negative.

## Model

| member | source | states |
|---|---|---|
| `TypeAlias.MkGenericTypeAlias` | CSharpTranslator/src/CS2JTranslator/CS2JTransform/CommonWalker.cs:123-125 | a non-positive count gives the bare name; a count k > 0 gives the name, then `'`, then a digit string without a leading zero that reads back as k |
| `TypeAlias.MkGenericTypeAliasForArgs` | CSharpTranslator/src/CS2JTranslator/CS2JTransform/CommonWalker.cs:119-121 | the alias is the bare name exactly when the list is null or empty; otherwise it is the alias for the list's length |
| `TypeAlias.DecodeGenericTypeAliasRoundTrip` | CSharpTranslator/src/CS2JTranslator/CS2JTransform/CommonWalker.cs:117-125 | the base name (without `'`) and the arity are recovered from the alias |
| `TypeAlias.AliasArityInjective` | CSharpTranslator/src/CS2JTranslator/CS2JTransform/CommonWalker.cs:117-125 | for one base name, different non-negative arities give different aliases |
| `TypeAlias.AliasInjective` | CSharpTranslator/src/CS2JTranslator/CS2JTransform/CommonWalker.cs:117-125 | for names without `'`, equal aliases mean equal names and equal arities |
| `TypeAlias.DictionaryAliases` | CSharpTranslator/src/CS2JTranslator/CS2JTransform/CommonWalker.cs:117-121 | `Dictionary` keys as `Dictionary`, `Dictionary<K,V>` as `Dictionary'2`, and the two differ |
| `TypeAlias.FormatTyargs` | CSharpTranslator/src/CS2JTranslator/CS2JTransform/CommonWalker.cs:127-140 | `""` for no arguments; otherwise `<`, the arguments joined by `,` with no trailing comma, then `>` |
| `TypeAlias.FormatTyargsRoundTrip` | CSharpTranslator/src/CS2JTranslator/CS2JTransform/CommonWalker.cs:127-140 | when no argument holds a comma, the formatted text parses back to the argument list |
| `TypeAlias.NSPrefix` | CSharpTranslator/src/CS2JTranslator/CS2JTransform/CommonWalker.cs:142-145 | empty exactly for a null or empty namespace; otherwise the namespace followed by `.` |
| `Naming.ToJavaConvention` | CSharpTranslator/src/CS2JTranslator/CS2JTransform/CommonWalker.cs:407-425 | empty for a null or empty name; otherwise same length, first character lower-cased, the rest untouched |
| `Naming.ToJavaConventionFollowsConvention` | CSharpTranslator/src/CS2JTranslator/CS2JTransform/CommonWalker.cs:418-422 | a rewritten method name never starts with an upper-case letter |
| `Naming.ToJavaConventionFixedPoints` | CSharpTranslator/src/CS2JTranslator/CS2JTransform/CommonWalker.cs:418-422 | a non-empty name is unchanged exactly when it does not start with an upper-case letter |
| `Naming.ToJavaConventionIdempotent` | CSharpTranslator/src/CS2JTranslator/CS2JTransform/CommonWalker.cs:407-425 | rewriting twice equals rewriting once |
| `Naming.RewriteMethodName` | CSharpTranslator/src/CS2JTranslator/CS2JTransform/CommonWalker.cs:428-439 | identity for null or empty names or with the flag off; with the flag on, the original when the lower-cased form is `main`/`notify`/`notifyAll`/`wait`, else the lower-cased form |
| `Naming.RewriteMethodNameNeverIntroducesReserved` | CSharpTranslator/src/CS2JTranslator/CS2JTransform/CommonWalker.cs:433-435 | a reserved name comes out only if it went in unchanged |
| `Naming.RewriteMethodNameChanges` | CSharpTranslator/src/CS2JTranslator/CS2JTransform/CommonWalker.cs:428-439 | the name changes exactly when the flag is on, the name starts upper-case, and its lower-cased form is not reserved |
| `Naming.RewriteMethodNameIdempotent` | CSharpTranslator/src/CS2JTranslator/CS2JTransform/CommonWalker.cs:428-439 | rewriting a method name twice equals rewriting it once |
| `Naming.RewriteMethodNameExamples` | CSharpTranslator/src/CS2JTranslator/CS2JTransform/CommonWalker.cs:431-436 | with the flag on, `GetValue` becomes `getValue`, while `Notify` and `Wait` are kept |
| `Naming.RewriteImportLocation` | CSharpTranslator/src/CS2JTranslator/CS2JTransform/CommonWalker.cs:441-451 | identity for null, empty or dot-free locations or with the flag off; otherwise 4 characters longer, the text before the last `.` kept, `.LCC.` in place of that `.`, the dot-free tail kept |
| `Naming.ImportLocationRoundTrip` | CSharpTranslator/src/CS2JTranslator/CS2JTransform/CommonWalker.cs:444-448 | with the flag on, dropping the `.LCC` before the last `.` gives the original location back |
| `Naming.ImportLocationNotIdempotent` | CSharpTranslator/src/CS2JTranslator/CS2JTransform/CommonWalker.cs:444-448 | a second rewrite inserts a second `.LCC` (`a.B`, then `a.LCC.B`, then `a.LCC.LCC.B`) |
| `CodeFragment.Placeholder` | CSharpTranslator/src/CS2JTranslator/CS2JTransform/CommonWalker.cs:187 | the placeholder starts with `${T` and ends with its only `}`; it is `${T}` exactly for index 0; for k > 0 the text between `${T` and `}` is a decimal numeral without a leading zero that reads back as k; its only `$` is the first character; it holds no `@` |
| `CodeFragment.PlaceholderPrefixFree` | CSharpTranslator/src/CS2JTranslator/CS2JTransform/CommonWalker.cs:184-190 | no placeholder starts with a different placeholder, so replacing one never touches another |
| `CodeFragment.RewriteMethodMarker` | CSharpTranslator/src/CS2JTranslator/CS2JTransform/CommonWalker.cs:163-170 | with the flag off the identifier is kept; with it on, same length, first character lower-cased, rest kept; word characters stay word characters |
| `CodeFragment.MarkerAgreesWithRewriteMethodName` | CSharpTranslator/src/CS2JTranslator/CS2JTransform/CommonWalker.cs:163-170 | the marker rewrite differs from `rewriteMethodName` exactly on names whose lower-cased form is reserved and differs from them |
| `CodeFragment.ExpandTemplate` | CSharpTranslator/src/CS2JTranslator/CS2JTransform/CommonWalker.cs:177-196 | a well-formed template with plain arguments expands to `Expand`: each `${Tk}` with k below the argument count becomes argument k, each other one stays, each `@m{w}` becomes the rewritten `w` |
| `CodeFragment.ExpandTemplateWithoutTyArgs` | CSharpTranslator/src/CS2JTranslator/CS2JTransform/CommonWalker.cs:182-193 | with a null argument list only the markers are rewritten |
| `CodeFragment.ExpansionIsPlain` | CSharpTranslator/src/CS2JTranslator/CS2JTransform/CommonWalker.cs:182-193 | when the arguments cover every type variable, the expansion holds no `$` and no `@`, so no placeholder or marker remains |
| `CodeFragment.RewriteCodeFragmentIgnoresTyArgs` | CSharpTranslator/src/CS2JTranslator/CS2JTransform/CommonWalker.cs:177-196 | for code without `$` the result is the same for every type-argument list, including null |
| `CodeFragment.RewriteCodeFragmentPlainText` | CSharpTranslator/src/CS2JTranslator/CS2JTransform/CommonWalker.cs:177-196 | code without `$` and `@` is returned unchanged, whatever the arguments |
| `CodeFragment.SubstituteFromPlain` | CSharpTranslator/src/CS2JTranslator/CS2JTransform/CommonWalker.cs:184-190 | the substitution loop leaves code without `$` unchanged |
| `CodeFragment.ReplaceStep` | CSharpTranslator/src/CS2JTranslator/CS2JTransform/CommonWalker.cs:187-188 | in a rendered template whose first k type variables are substituted, replacing placeholder k substitutes the first k + 1 |
| `CodeFragment.SubstituteFromTemplate` | CSharpTranslator/src/CS2JTranslator/CS2JTransform/CommonWalker.cs:184-190 | the loop from index k on, applied to a rendered template whose first k type variables are substituted, substitutes every type variable below the argument count |
| `CodeFragment.MarkerIdentLength` | CSharpTranslator/src/CS2JTranslator/CS2JTransform/CommonWalker.cs:193 | a positive length n means the text starts with `@m{`, then n word characters, then `}` |
| `CodeFragment.NoMarkerAt` | CSharpTranslator/src/CS2JTranslator/CS2JTransform/CommonWalker.cs:193 | when no marker is found at the start, no `@m{`, run of word characters and `}` starts there |
| `CodeFragment.MarkerIdentLengthAt` | CSharpTranslator/src/CS2JTranslator/CS2JTransform/CommonWalker.cs:193 | `@m{w}` with a non-empty run of word characters `w` is matched, with the length of `w` as identifier length, whatever follows |
| `CodeFragment.RewriteMarkersAtMarker` | CSharpTranslator/src/CS2JTranslator/CS2JTransform/CommonWalker.cs:193 | the marker rewrite replaces a leading `@m{w}` by the rewritten `w` and continues after the `}` |
| `CodeFragment.RewriteMarkersSkips` | CSharpTranslator/src/CS2JTranslator/CS2JTransform/CommonWalker.cs:193 | the marker rewrite copies a leading text without `@` and continues after it |
| `CodeFragment.RewriteMarkersPlain` | CSharpTranslator/src/CS2JTranslator/CS2JTransform/CommonWalker.cs:193 | the marker rewrite returns text without `@` unchanged |
| `CodeFragment.ExpandTwice` | CSharpTranslator/src/CS2JTranslator/CS2JTransform/CommonWalker.cs:177-196 | expanding the output of a fully covered template again changes nothing |
| `CodeFragment.PlaceholderInArgumentSurvives` | CSharpTranslator/src/CS2JTranslator/CS2JTransform/CommonWalker.cs:184-190 | `${T1}` with arguments `A`, `${T}` gives `${T}`: placeholders can survive |
| `CodeFragment.MarkerIgnoresReservedNames` | CSharpTranslator/src/CS2JTranslator/CS2JTransform/CommonWalker.cs:192-193 | with the flag on, `@m{Wait}` becomes `wait`, while `rewriteMethodName` keeps `Wait` |
| `DotNetText.NatToString` | CSharpTranslator/src/CS2JTranslator/CS2JTransform/CommonWalker.cs:124 | the decimal rendering is a non-empty digit string that starts with `0` only for zero |
| `DotNetText.ParseNatToString` | CSharpTranslator/src/CS2JTranslator/CS2JTransform/CommonWalker.cs:124 | reading the decimal rendering of n gives n |
| `DotNetText.LastIndexOf` | CSharpTranslator/src/CS2JTranslator/CS2JTransform/CommonWalker.cs:445 | -1 when the character is absent; otherwise an index holding it with no occurrence after it |
| `DotNetText.ToLower` | CSharpTranslator/src/CS2JTranslator/CS2JTransform/CommonWalker.cs:419 | `Char.ToLower` under the invariant culture, on ASCII: the result is not upper-case; ASCII upper-case letters move 32 code points up, to their lower-case forms; other characters are kept |
| `DotNetText.Replace` | CSharpTranslator/src/CS2JTranslator/CS2JTransform/CommonWalker.cs:188 | replacing a pattern by itself changes nothing; what `String.Replace` computes (every non-overlapping occurrence replaced, left to right, inserted text never rescanned) is stated by `ReplaceLeftmost` and `ReplaceNoOccurrence`, which together determine the result |
| `DotNetText.ReplaceLeftmost` | CSharpTranslator/src/CS2JTranslator/CS2JTransform/CommonWalker.cs:188 | when the first occurrence of the pattern starts right after `a`, the result is `a`, the replacement, then the replacement applied to the rest |
| `DotNetText.ReplaceNoOccurrence` | CSharpTranslator/src/CS2JTranslator/CS2JTransform/CommonWalker.cs:188 | text in which the pattern starts at no index is returned unchanged |
| `DotNetText.ReplaceAbsent` | CSharpTranslator/src/CS2JTranslator/CS2JTransform/CommonWalker.cs:188 | text without the pattern's first character is left unchanged |
| `DotNetText.ReplaceSkips` | CSharpTranslator/src/CS2JTranslator/CS2JTransform/CommonWalker.cs:188 | text without the pattern's first character is copied and replacement continues after it |
| `DotNetText.WordPrefixLength` | CSharpTranslator/src/CS2JTranslator/CS2JTransform/CommonWalker.cs:193 | the longest prefix of word characters, which is what a greedy `\w+` consumes |
| `DotNetText.TerminatedIsJoinPlusSeparator` | CSharpTranslator/src/CS2JTranslator/CS2JTransform/CommonWalker.cs:134-137 | appending each argument plus `,` and then dropping the last character gives the comma-joined list |
| `DotNetText.SplitJoin` | CSharpTranslator/src/CS2JTranslator/CS2JTransform/CommonWalker.cs:134-137 | splitting a joined list at the separator gives the list back when no element holds it |
| `Imports.AddToImports` | CSharpTranslator/src/CS2JTranslator/CS2JTransform/CommonWalker.cs:304-309 | a null or empty name leaves the set unchanged; any other name is added to it |
| `Imports.AddToImportsIdempotent` | CSharpTranslator/src/CS2JTranslator/CS2JTransform/CommonWalker.cs:304-309 | adding a name twice equals adding it once |
| `Imports.AddToImportsCommutes` | CSharpTranslator/src/CS2JTranslator/CS2JTransform/CommonWalker.cs:304-309 | the order of two additions does not matter |
| `Imports.AddAllToImports` | CSharpTranslator/src/CS2JTranslator/CS2JTransform/CommonWalker.cs:311-317 | a null sequence leaves the set unchanged |
| `Imports.AddEachToImports` | CSharpTranslator/src/CS2JTranslator/CS2JTransform/CommonWalker.cs:313-315 | adding a sequence one name at a time equals the union with its non-null, non-empty names |
| `Imports.AddAllToImportsContents` | CSharpTranslator/src/CS2JTranslator/CS2JTransform/CommonWalker.cs:311-317 | a name is in the result exactly when it was already there or is a non-empty element of the (non-null) sequence |
| `Imports.AddEachConcat` | CSharpTranslator/src/CS2JTranslator/CS2JTransform/CommonWalker.cs:311-317 | adding two sequences in turn equals adding their concatenation |
| `Imports.AddEachOrderIrrelevant` | CSharpTranslator/src/CS2JTranslator/CS2JTransform/CommonWalker.cs:311-317 | sequences with the same elements, in any order or multiplicity, add the same names |
| `ClassDescriptor.NewClassDescriptor` | CSharpTranslator/src/CS2JTranslator/CS2JTransform/CommonWalker.cs:506-522 | the new descriptor has identifier `name` and kind `"class"`; all its texts are `""`, and its lists and nested-type map are empty |
| `ClassDescriptor.NewClassDescriptorUnique` | CSharpTranslator/src/CS2JTranslator/CS2JTransform/CommonWalker.cs:506-522 | every blank class descriptor named `name` is the constructor's result |

## Left out

- `parseString`, `InitParser`, `IsJavaish`: the grammar, the parser and the later tree walkers are driven by reflection. That code (`csParser`, `JavaMaker`, `NetMaker`) is not part of this model. Only its import merging is modelled, through `Imports.AddAllToImports`.
- `Error`, `Warning`, `WarningAssert`, `WarningFailedResolve`, `Debug`, `DebugDetail`: console output and exceptions. The settings that gate them only affect output, so `Settings` leaves them out.
- `javaDocXslt` and `JdXslTrans`: an XSLT stylesheet and the .NET XSLT engine.
- `AppEnv`, `CUnit`, `MAX_DUMMY_ENUMS`, `Cfg`, `Filename`: the environment's types and resolution logic are declared elsewhere. `CUnit` is only a record of fields.
- The partial-declaration merger and the resolution environment: their logic lives outside `CommonWalker`. Only the descriptor's starting state is modelled.
- `DotNetText.ToLower`: models `Char.ToLower` under the invariant culture, on ASCII only. Under a Turkic current culture `I` lowers to `ı` (so `Invoke` becomes `ınvoke` at CommonWalker.cs:419), and the lowering of non-ASCII letters is not modelled.
- `DotNetText.IsWordChar`: models the regex class `\w` on ASCII letters, digits and `_` only. The Unicode categories .NET adds are not modelled.
- `TypeAlias.MkGenericTypeAlias`: arity is an unbounded `int`. The 32-bit range of C# `int` is not modelled, since every count is a list size or a small literal.
- `TypeAlias.MkGenericTypeAlias`: a null `name` is not an input. C# concatenation would treat it as `""` (CommonWalker.cs:124).
- `TypeAlias.FormatTyargs`: a null list is not an input. The walker dereferences it and would throw.
- `TypeAlias.FormatTyargs`: null elements of the list are not modelled. C# concatenation would turn a null `t` into `","` (CommonWalker.cs:135).
- `CodeFragment.ExpandTemplate`: states the expansion only for well-formed templates. Literal code must hold no `$` or `@`, and arguments must hold neither. Templates with other `@` characters, such as Java annotations, are processed by `RewriteCodeFragment` but are not covered by the theorem.
- `CodeFragment.RewriteCodeFragment`: null type arguments inside a non-null list are not modelled. `String.Replace` would delete the placeholder.
- `CodeFragment.RewriteCodeFragment`: a null `code` is not an input. The walker throws on it: in `ret.Replace` (CommonWalker.cs:188) when there are type arguments, otherwise in `Regex.Replace` (CommonWalker.cs:193).
- `Imports.AddToImports`: the method is virtual. Subclass overrides are not part of this model. The walker's `Set<string>` is a mathematical set here.
- `ClassDescriptor.NewClassDescriptor`: a null `name` is not modelled.
