# Marcel MIME-type resolution, modelled in Dafny

This project models `Marcel::MimeType` from the `marcel` Ruby gem: the decision
procedure that picks one content type for a piece of data from four signals —
the type a content sniffer (libmagic) reports, a declared type (typically an
HTTP `Content-Type`), a file name and a bare extension.

The class-level tables `@ext_overrides` and `@parents` become one immutable
`Registry.Catalog` value, and `extend` becomes a function from catalog to
catalog. The MiniMime database is an abstract `Registry.Database` (a lookup by
extension and a lookup by content type). The sniffer's answer is an
`Option<string>` argument. `nil` is `Option.None`.

Modules:

- `Options` – `Option`, with `Or` for Ruby's `a || b`.
- `Seqs` – `Uniq` (`Array#uniq`) and `Union` (`Array#|`).
- `Strings` – ASCII `downcase`, the regular-expression class `[;,\s]`, a simplified `File.extname`.
- `Registry` – the catalog, the MiniMime database, and `extend` (`Extend`).
- `Hierarchy` – `root_types` (`RootTypes`) and `most_specific_type` (`MostSpecific`).
  The parent graph is required to be acyclic. A ghost rank map is the witness: `Ranked(parents, rank)`.
- `Resolver` – `parse_media_type`, `for_declared_type`, `for_extension`, `for_name`,
  the empty-data filter of `for_data`, the fallback chain, and `for`.
- `Scenarios` – worked examples on small concrete tables.

The model follows the code in two places where a looser reading of the gem might suggest otherwise:

- `root_types` returns only the parentless ancestors of a type, not its whole ancestor closure. A type with parents is never in its own result.
- `root_types` follows parent links with no record of the types already visited, and its recursion is not a tail call. On a parent cycle reachable from either the sniffed or the fallback type, `most_specific_type` therefore exhausts the stack and `for` raises `SystemStackError`. The model does not model that exception: `For` requires acyclicity (`Ranked`) when there is sniffed content, the one case in which `most_specific_type` and `root_types` run, and so excludes this path.

## Model

| member | source | states |
|---|---|---|
| Registry.RegisteredInfo | lib/marcel/mime_type.rb:20-25 | The stored info carries MiniMime's content type when MiniMime knows the type, and the registered type itself (`OverrideInfo.new(type)`) when it does not |
| Registry.RegisteredExtensions | lib/marcel/mime_type.rb:20-23 | The extensions written are exactly those given plus MiniMime's default extension for the type, when there is one |
| Registry.AssignAll | lib/marcel/mime_type.rb:27-29 | Every listed key maps to the info afterwards; no other key is added, removed or changed |
| Registry.Extend | lib/marcel/mime_type.rb:19-37 | Every given extension and the default extension map to the registered info, and all other override keys are unchanged. Only the parent entry of `type` can change. With no parents it does not change; otherwise it becomes the old list united with `parents`, duplicate-free, with a duplicate-free old list (every list `extend` builds is one) kept as a prefix |
| Registry.ExtendWellFormed | lib/marcel/mime_type.rb:31-36 | Every parent list stays non-empty and duplicate-free |
| Registry.ExtendOverwrites | lib/marcel/mime_type.rb:27-29 | When two registrations list the same extension, the later one wins |
| Registry.ExtendUnitesParents | lib/marcel/mime_type.rb:33-36 | Registering parents for a type twice keeps the parents from both calls |
| Registry.ExtendParentsOrder | lib/marcel/mime_type.rb:33-36 | The united parent list keeps the old parents first and adds the new ones in the order they were given, each at its first occurrence |
| Registry.ExtendIdempotent | lib/marcel/mime_type.rb:19-37 | Repeating an identical `extend` call leaves the catalog unchanged |
| Seqs.Uniq | lib/marcel/mime_type.rb:110 | `uniq` returns a duplicate-free list with exactly the input's elements |
| Seqs.UniqOrder | lib/marcel/mime_type.rb:110 | The elements of `uniq` come in the order of their first occurrences in the input |
| Seqs.UniqAppendKeepsPrefix | lib/marcel/mime_type.rb:35 | Appending elements never changes the `uniq` of what came before |
| Seqs.Union | lib/marcel/mime_type.rb:35 | The array union of `a` and `b` is duplicate-free and holds the elements of both. It keeps a duplicate-free `a` as a prefix, and leaves it unchanged when `b` adds nothing new |
| Seqs.UnionOrder | lib/marcel/mime_type.rb:35 | The union lists its elements in the order of their first occurrences in `a` followed by `b`: `a`'s first, then `b`'s new ones in `b`'s order |
| Hierarchy.RootTypes | lib/marcel/mime_type.rb:108-114 | On an acyclic parent table, `root_types` is never empty, has no duplicates, and holds only types without registered parents |
| Hierarchy.RootTypesAreRoots | lib/marcel/mime_type.rb:108-114 | A type is in `root_types(t)` exactly when it has no parents and is reachable from `t` along parent links |
| Hierarchy.RootTypesSound | lib/marcel/mime_type.rb:108-114 | Every element of `root_types(t)` is a parentless type reachable from `t` along parent links |
| Hierarchy.RootTypesComplete | lib/marcel/mime_type.rb:108-114 | Every parentless type at the end of a parent chain from `t` is in `root_types(t)` |
| Hierarchy.RootTypesSelf | lib/marcel/mime_type.rb:109-112 | `root_types(t) == [t]` exactly when `t` has no registered parents or an empty parent list |
| Hierarchy.RootsOfAncestor | lib/marcel/mime_type.rb:108-114 | The roots of an ancestor are among the roots of its descendant |
| Hierarchy.RankedIsAcyclic | lib/marcel/mime_type.rb:108-114 | Under the rank precondition no type is its own ancestor, so the recursion of `root_types` ends |
| Hierarchy.MostSpecific | lib/marcel/mime_type.rb:100-106 | The result is always one of the two arguments: the fallback when the root lists overlap, the sniffed type otherwise |
| Hierarchy.OverlapIsSameFamily | lib/marcel/mime_type.rb:101 | The two root lists overlap exactly when the two types have a common ancestor (either type may be it) |
| Hierarchy.MostSpecificByFamily | lib/marcel/mime_type.rb:100-106 | The fallback wins exactly when sniffed and fallback types have a common ancestor; otherwise the sniffed type wins |
| Hierarchy.MostSpecificAncestry | lib/marcel/mime_type.rb:100-106 | A fallback that is an ancestor or a descendant of the sniffed type wins |
| Hierarchy.MostSpecificSame | lib/marcel/mime_type.rb:100-106 | `most_specific_type(t, t) == t` |
| Strings.Downcase | lib/marcel/mime_type.rb:95 | `downcase` keeps the length, leaves no upper-case letter, and changes no character that is not an upper-case letter |
| Strings.DowncaseIdempotent | lib/marcel/mime_type.rb:89 | Downcasing twice is the same as downcasing once, so the second `downcase` in `for_declared_type` changes nothing |
| Strings.FirstSeparator | lib/marcel/mime_type.rb:95 | The split point is the first `;`, `,` or white-space character, or the end of the string |
| Strings.ExtName | lib/marcel/mime_type.rb:69 | The extension is empty, or it is a dot followed by at least one character and no further dot |
| Strings.StripTrailingSlashes | lib/marcel/mime_type.rb:69 | The path loses exactly its trailing `/` characters: the result is a prefix that does not end in `/`, and everything removed is `/` |
| Strings.ExtNameIgnoresTrailingSlash | lib/marcel/mime_type.rb:69 | A trailing `/` does not change the extension, so `a.png/` has the extension `.png` |
| Strings.ExtNameOfName | lib/marcel/mime_type.rb:69 | For `base.ext`, where the base does not end in `.` or `/` and `ext` contains neither, the extension is `.ext` |
| Resolver.ParseMediaType | lib/marcel/mime_type.rb:93-98 | Gives nil for nil. Otherwise it gives nil exactly when no `/` comes before the first separator. A non-nil result is the longest separator-free prefix of the downcased input; it is lower-case and contains `/` |
| Resolver.ParametersDropped | lib/marcel/mime_type.rb:93-98 | A type containing `/` and no separator, followed by a separator and anything else, parses to the downcased type: the parameters are dropped |
| Resolver.ParseMediaTypeAt | lib/marcel/mime_type.rb:93-98 | A lower-case type containing `/`, followed by a separator or by nothing, parses to itself |
| Resolver.ForDeclaredType | lib/marcel/mime_type.rb:85-91 | Non-nil exactly when the parsed type exists and is not `application/octet-stream`. Then it equals the parsed type, is lower-case and contains `/` |
| Resolver.NormalizeExtension | lib/marcel/mime_type.rb:77 | The lookup key is lower-case, with at most one leading dot removed |
| Resolver.NormalizeStripsOneDot | lib/marcel/mime_type.rb:77 | Exactly one leading dot is removed, so `..x` is looked up as `.x` |
| Resolver.ForExtension | lib/marcel/mime_type.rb:75-83 | nil for nil. An override entry for the normalised key takes precedence over MiniMime. The result is nil only when neither source knows the key, and a non-nil result is lower-case |
| Resolver.ExtensionNormalisation | lib/marcel/mime_type.rb:75-83 | `for_extension(".X") == for_extension("X")` when `X` does not itself start with `.` (only one dot is removed), and the letter case of the extension does not matter |
| Resolver.ForName | lib/marcel/mime_type.rb:67-73 | nil for a nil name or a name without an extension. Otherwise it is `for_extension` of the name's extension |
| Resolver.ForNameUsesExtension | lib/marcel/mime_type.rb:67-73 | `for_name("base.ext") == for_extension("ext")` when the base is non-empty and does not end in `.` or `/`, and `ext` is non-empty and contains neither |
| Resolver.ForData | lib/marcel/mime_type.rb:64 | The sniffer's `application/x-empty` counts as no answer, and every other answer is kept |
| Resolver.Fallback | lib/marcel/mime_type.rb:41 | The first non-nil of the declared type, the name type and the extension type, else `application/octet-stream` |
| Resolver.FallbackBinary | lib/marcel/mime_type.rb:88 | A fallback of `application/octet-stream` means the declared type was unusable |
| Resolver.For | lib/marcel/mime_type.rb:39-48 | Without sniffed data the result is the fallback, on any parent graph. It is always either the fallback or the sniffed type |
| Resolver.DeclaredTypeWins | lib/marcel/mime_type.rb:41-47 | With no content, a usable declared type is the answer, whatever the name and extension say |
| Resolver.NameThenExtension | lib/marcel/mime_type.rb:41-47 | With no content and no usable declared type, the name decides, then the extension, then `application/octet-stream` |
| Resolver.EmptyDataIgnored | lib/marcel/mime_type.rb:43-47 | A sniffed `application/x-empty` gives the same result as no content |
| Resolver.SniffedAgainstFallback | lib/marcel/mime_type.rb:39-48 | With real sniffed content, the fallback wins exactly when it shares an ancestor with the sniffed type; otherwise the sniffed type wins |
| Resolver.ExtendThenForExtension | lib/marcel/mime_type.rb:27-29 | After `extend`, every registered lower-case extension without a leading dot resolves to the downcased registered content type |
| Resolver.ExtendKeepsRanked | lib/marcel/mime_type.rb:31-36 | On a ranked table, registering parents that rank below the type keeps the parent graph ranked (hence acyclic), provided the type also ranks below every type that already lists it as a parent |
| Scenarios.RegisteredExtensionResolves | lib/marcel/mime_type.rb:75-83 | After `extend "application/json", extensions: ["json"]`, `for(extension: "json")` is `application/json` |
| Scenarios.DeclaredParametersDropped | lib/marcel/mime_type.rb:93-98 | `for(declared_type: "text/html; charset=utf-8")` is `text/html` |
| Scenarios.NothingKnownIsBinary | lib/marcel/mime_type.rb:41 | With no signal, or only empty content, the answer is `application/octet-stream` |
| Scenarios.BinaryDeclarationIsNone | lib/marcel/mime_type.rb:88 | A declared `application/octet-stream` is treated as no declaration |
| Scenarios.BinaryDeclarationIgnored | lib/marcel/mime_type.rb:39-48 | With a declared `application/octet-stream`, PNG content and extension `png`, the answer is `image/png` |
| Scenarios.DiamondRoots | lib/marcel/mime_type.rb:108-114 | A type whose two parents share one root has exactly that root, listed once |
| Scenarios.SniffedParentLoses | lib/marcel/mime_type.rb:100-106 | A sniffed `text/plain` does not override a declared `application/json` registered with parent `text/plain` |
| Scenarios.UnrelatedSniffWins | lib/marcel/mime_type.rb:100-106 | A sniffed `image/png` overrides an unrelated declared `text/plain` |

## Left out

- Content sniffing (`for_data`'s dispatch on Pathname, String and IO, and libmagic itself) is foreign-library I/O. Only its result is modelled, as the `sniffed` argument. The `application/x-empty` filter is modelled.
- The contents of the MiniMime database are external static data. The database is an abstract pair of maps, and the model does not say how MiniMime normalises its keys.
- `lib/marcel/mime_type/definitions` is not part of this model. It is a list of `extend` calls.
- The `magic:` keyword of `extend` is ignored by the code and is not modelled.
- Process-wide mutable class state and thread safety are left out: the catalog is an explicit value.
- `Array(extensions)` and `Array(parents)` also accept `nil` or a single string. The model takes sequences only.
- `extend` appends the default extension to the caller's own array (`extensions <<`). This aliasing side effect is not modelled.
- Cyclic parent graphs: on a cycle reachable from the sniffed or the fallback type, `for` raises `SystemStackError`. This exception path is not modelled: with sniffed content, `For` requires the whole parent graph to be acyclic (`Ranked`), which is more than the code needs to return normally. Without sniffed content nothing is required.
- Strings.Downcase: lower-cases ASCII letters only. Ruby's `downcase` applies full Unicode case mapping.
- Strings are sequences of valid characters. A string with an invalid encoding, on which Ruby's `downcase`, `split` and `gsub` raise `ArgumentError`, is not modelled, so `for` is never shown to raise.
- Strings.ExtName: a simplified `File.extname`. It drops trailing `/`s, takes the basename after the last remaining `/`, skips the basename's leading dots, and returns the suffix from the last remaining dot, or `""` when that dot is the last character. Ruby versions disagree on a trailing dot, and Windows separators are not modelled. Its contract does not say that the result is a suffix of the path.
- Hierarchy.RootTypes: the contract and `RootTypesAreRoots` describe the elements of the result, not their order. The body keeps the code's order (`flat_map` then `uniq`), but no proof depends on it, and `most_specific_type` only tests overlap.
