# MimeType entry — a Dafny model

This project models `MimeType`, the value type of the MimeUtils library that
records one MIME-type entry: a name, a description, an ordered list of file
extensions, an ordered list of content types, a category and a "primary" flag.
It models the defaulting `Name`/`Description` getters, the validating
`FileExts`/`ContentTypes` setters, the "dominant" `FileExt`/`ContentType`
accessors, and `IComparable.CompareTo`.

Files:

- `wrappers.dfy` (module `Wrappers`): `Option` (a reference that may be null)
  and `Result` (a call that may throw).
- `string_order.dfy` (module `StringOrder`): ordinal lexicographic string
  comparison, the stand-in for .NET `String.CompareTo`, with its order laws.
- `mime_type.dfy` (module `MimeUtils`): the record, getters, setters and
  sequences of property assignments.
- `mime_comparison.dfy` (module `MimeComparison`): `CompareTo` as written, with
  its two faults as error results, and the corrected total comparison
  `CompareEntries`.

The class is mutable; here it is an immutable datatype. A property assignment
is a function from the old record to the new one. The two validating setters
return a `Result` whose `Failure` is the `FormatException`. Because the store
comes after the validation loop, a failed assignment produces no new record
and the caller keeps the old one. `Execute` runs a script of assignments with
exception semantics: the first exception stops the script, and the state is
what the earlier assignments made it.

A field that the constructor never assigns is `None`. The two array fields are
`Option<seq<string>>`: `None` is null, and `Some([])` is the empty array that
assigning null stores. A setter's argument is `Option<seq<Option<string>>>`,
because both the array and its elements may be null.

A fresh instance's `FileExts` and `ContentTypes` are null, not empty. Nothing
assigns the fields at construction (MimeUtils/MimeUtils/MimeType.cs:53-54), and
the getters return the raw field (lines 96 and 120), so `New()` has
`fileExts == None` and `contentTypes == None`.

## Model

| member | source | states |
|---|---|---|
| MimeUtils.New | MimeUtils/MimeUtils/MimeType.cs:45-56 | a fresh instance (and `Empty`) reads "" for name, description and both dominant accessors; its arrays are null; category is `Unknown`, not primary; it satisfies the delimiter invariant |
| MimeUtils.NameRoundTrip | MimeUtils/MimeUtils/MimeType.cs:64-75 | `Name` reads back the assigned string verbatim, or "" after assigning null; the assignment changes no other field (category and primary included) |
| MimeUtils.DescriptionRoundTrip | MimeUtils/MimeUtils/MimeType.cs:79-90 | `Description` reads back the assigned string verbatim, or "" after assigning null; the assignment changes no other field (category and primary included) |
| MimeUtils.FirstMalformed | MimeUtils/MimeUtils/MimeType.cs:104-110 | the loop throws iff some element is null or lacks the delimiter; the reported position is the first such element, and every earlier element passed |
| MimeUtils.Validate | MimeUtils/MimeUtils/MimeType.cs:99-111 | null normalises to empty; success iff every element passes; on success the array to store equals the input element by element, each containing the delimiter; on failure the error names a malformed element of the input |
| MimeUtils.SetFileExts | MimeUtils/MimeUtils/MimeType.cs:97-113 | succeeds iff every element is non-null and contains '.'; success stores exactly the input, in order, and changes nothing else; null stores an empty list; a bad element gives a format error naming it, with no store |
| MimeUtils.SetContentTypes | MimeUtils/MimeUtils/MimeType.cs:121-137 | the same contract as `SetFileExts` with '/' as the delimiter |
| MimeUtils.ContentType | MimeUtils/MimeUtils/MimeType.cs:163-170 | total: the first content type when the list is set and non-empty, "" otherwise |
| MimeUtils.FileExt | MimeUtils/MimeUtils/MimeType.cs:179-186 | total: the first extension when the list is set and non-empty, "" otherwise |
| MimeUtils.DominantWellFormed | MimeUtils/MimeUtils/MimeType.cs:163-186 | on a valid entry a dominant value is "" exactly when its list is null or empty, and otherwise contains the delimiter |
| MimeUtils.DominantAfterSet | MimeUtils/MimeUtils/MimeType.cs:97-186 | after a successful assignment the dominant value is the first element assigned, or "" when an empty or null array was assigned |
| MimeUtils.AssignPreservesValid | MimeUtils/MimeUtils/MimeType.cs:97-137 | no single property assignment breaks the delimiter invariant |
| MimeUtils.ExecutePreservesValid | MimeUtils/MimeUtils/MimeType.cs:104-136 | after any sequence of assignments, whether or not one threw, every stored extension contains '.' and every stored content type contains '/' |
| MimeUtils.ExecuteKeepsListsSet | MimeUtils/MimeUtils/MimeType.cs:99-136 | once an array property has been assigned, no later assignment makes it null again |
| MimeUtils.FreshInstanceStaysValid | MimeUtils/MimeUtils/MimeType.cs:45-137 | every script run on a fresh instance leaves a valid instance |
| StringOrder.Compare | MimeUtils/MimeUtils/MimeType.cs:204-207 | string comparison yields -1, 0 or 1, and 0 exactly for equal strings |
| StringOrder.Antisymmetric | MimeUtils/MimeUtils/MimeType.cs:204-207 | swapping the strings negates the comparison |
| StringOrder.Transitive | MimeUtils/MimeUtils/MimeType.cs:204-207 | "sorts no later than" on strings is transitive |
| MimeComparison.CompareTo | MimeUtils/MimeUtils/MimeType.cs:193-208 | 1 for a non-`MimeType` argument; defined iff both extension lists are set and both or neither are empty; null-reference fault iff a list is null, index fault iff exactly one is empty; otherwise the result is the string comparison of this entry's name (both lists empty) or first extension against the other's, in that operand order; 0 means equal names (no extensions) or equal first extensions |
| MimeComparison.CompareToAntisymmetric | MimeUtils/MimeUtils/MimeType.cs:201-207 | where defined, swapping the operands is defined too and negates the result |
| MimeComparison.CompareToTransitive | MimeUtils/MimeUtils/MimeType.cs:201-207 | where defined, "sorts no later than" is transitive, and the outer pair is comparable |
| MimeComparison.CompareToIgnoresOtherFields | MimeUtils/MimeUtils/MimeType.cs:193-208 | the comparison depends only on the names and extension lists; never on description, content types, category or `Primary` |
| MimeComparison.FreshInstanceFaults | MimeUtils/MimeUtils/MimeType.cs:201-202 | comparing a fresh instance with any instance, in either order, is a null-reference fault |
| MimeComparison.OneSidedEmptyFaults | MimeUtils/MimeUtils/MimeType.cs:207 | comparing `[]` with `[".txt"]`, in either order, is an index fault |
| MimeComparison.CompareEntries | MimeUtils/MimeUtils/MimeType.cs:193-208 | corrected comparison: total, agrees with `CompareTo` wherever that is defined, sorts an entry without extensions before every entry with extensions |
| MimeComparison.CompareEntriesZero | MimeUtils/MimeUtils/MimeType.cs:201-207 | two entries compare equal exactly when their sort keys (name when no extensions, else first extension) are equal |
| MimeComparison.CompareEntriesAntisymmetric | MimeUtils/MimeUtils/MimeType.cs:201-207 | the corrected comparison is antisymmetric on all pairs |
| MimeComparison.CompareEntriesTransitive | MimeUtils/MimeUtils/MimeType.cs:201-207 | the corrected comparison is transitive on all triples |
| MimeComparison.CompareEntriesOnFreshInstances | MimeUtils/MimeUtils/MimeType.cs:201-207 | a fresh instance, which `CompareTo` cannot compare, sorts no later than any entry under the corrected comparison |
| MimeComparison.OrderingExamples | MimeUtils/MimeUtils/MimeType.cs:201-207 | "alpha" sorts before "beta" when neither has extensions; ".jpg" sorts before ".png" |

## Left out

- XML serialisation attributes (`Serializable`, `XmlElement`, `XmlAttribute`, `DefaultValue`): they drive a framework serializer outside this class, so the serialisation round trip is not modelled.
- StringOrder.Compare: models .NET's culture-sensitive `String.CompareTo` as ordinal lexicographic order on characters with results -1/0/1. The order laws are proved for this abstraction only, and only the sign of the result carries meaning.
- `MimeCategory`: the enumeration's declaration is not part of this model. It is a datatype with an `Unknown` member, taken to be the field's zero value, plus an opaque `Other(code)`.
- The shared `Empty` singleton (line 45): it is modelled as the value `New()`. That it is one mutable object shared by all callers is left out. So is any concurrency.
- Aliasing: the setters store the caller's array itself, so a caller who later writes a bad element into that array breaks the invariant. Values here are immutable, so this is not modelled.
- Exception message text (lines 108 and 132): only the failing property and the offending element are kept.
- `Category`/`Primary` getters and setters: they store and return the field verbatim. They appear only as the `AssignCategory`/`AssignPrimary` assignments.

## Findings

| source | as written | input that shows it | evidently intended | confidence | as-written member | corrected member |
|---|---|---|---|---|---|---|
| MimeUtils/MimeUtils/MimeType.cs:201-202 | `CompareTo` reads `FileExts.Length` directly. The constructor never assigns the field and the getter returns it raw, so an instance whose extensions were never assigned throws a null-reference exception | a fresh `new MimeType()` compared with any instance | treat an unassigned extension list as empty, as the dominant accessors at lines 181-185 do | high (not executed) | MimeComparison.FreshInstanceFaults | MimeComparison.CompareEntriesOnFreshInstances |
| MimeUtils/MimeUtils/MimeType.cs:207 | when exactly one side has no extensions, `FileExts[0]` is read from the empty side and throws an index-out-of-range exception | an entry with `FileExts = []` compared with one with `FileExts = [".txt"]` | an entry without extensions sorts before every entry with extensions, giving a total order | high (not executed) | MimeComparison.OneSidedEmptyFaults | MimeComparison.CompareEntriesTransitive |
