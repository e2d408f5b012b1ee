/** One MIME-type entry (the `MimeType` class of MimeUtils) as an immutable
    record. Property setters become functions returning the updated record;
    the two validating setters return a `Result` whose `Failure` is the
    `FormatException` the class throws. */
module MimeUtils {
  import opened Wrappers

  /** The category enumeration; only its default member matters to this class. */
  datatype MimeCategory = Unknown | Other(code: int)

  /** A .NET `string[]` as a property setter receives it: the array itself may
      be null, and so may each of its elements. */
  type NullableArray = Option<seq<Option<string>>>

  /** The six private fields. `None` is a field that is still null: the
      constructor assigns none of them. Stored arrays hold no null element,
      because the only way to store one is through a validating setter. */
  datatype MimeType = MimeType(
    name: Option<string>,
    description: Option<string>,
    fileExts: Option<seq<string>>,
    contentTypes: Option<seq<string>>,
    category: MimeCategory,
    primary: bool)

  /** Which setter rejected its input. */
  datatype Field = FileExtField | ContentTypeField

  /** The `FormatException`: the setter and the first element that failed. */
  datatype FormatError = FormatError(field: Field, offending: Option<string>)

  const ExtDelimiter: char := '.'
  const ContentTypeDelimiter: char := '/'

  /** A freshly constructed instance (and the shared `Empty` value): every
      reference field null, the category at its zero value, not primary. */
  function New(): (m: MimeType)
    ensures Name(m) == "" && Description(m) == ""
    ensures FileExt(m) == "" && ContentType(m) == ""
    ensures m.fileExts.None? && m.contentTypes.None?
    ensures m.category == Unknown && !m.primary
    ensures Valid(m)
  {
    MimeType(None, None, None, None, Unknown, false)
  }

  // ----- Name and Description: defaulting getters, unchecked setters -----

  function Name(m: MimeType): string {
    m.name.GetOr("")
  }

  function SetName(m: MimeType, value: Option<string>): MimeType {
    m.(name := value)
  }

  function Description(m: MimeType): string {
    m.description.GetOr("")
  }

  function SetDescription(m: MimeType, value: Option<string>): MimeType {
    m.(description := value)
  }

  /** Reading `Name` back gives what was assigned, or "" for null; no other
      property is affected. */
  lemma NameRoundTrip(m: MimeType, value: Option<string>)
    ensures value.Some? ==> Name(SetName(m, value)) == value.value
    ensures value.None? ==> Name(SetName(m, value)) == ""
    ensures SetName(m, value) == m.(name := value)
  {
  }

  /** Reading `Description` back gives what was assigned, or "" for null; no
      other property is affected. */
  lemma DescriptionRoundTrip(m: MimeType, value: Option<string>)
    ensures value.Some? ==> Description(SetDescription(m, value)) == value.value
    ensures value.None? ==> Description(SetDescription(m, value)) == ""
    ensures SetDescription(m, value) == m.(description := value)
  {
  }

  // ----- validation shared by the FileExts and ContentTypes setters -----

  /** An element passes when it is not null and contains the delimiter. */
  predicate WellFormed(element: Option<string>, delimiter: char) {
    element.Some? && delimiter in element.value
  }

  predicate AllWellFormed(values: seq<Option<string>>, delimiter: char) {
    forall i :: 0 <= i < |values| ==> WellFormed(values[i], delimiter)
  }

  /** The setters' first step: a null array is replaced by an empty one. */
  function Normalize(value: NullableArray): seq<Option<string>> {
    value.GetOr([])
  }

  /** The position at which the `foreach` over `values` throws, if any: the
      first element that is null or lacks the delimiter. */
  function FirstMalformed(values: seq<Option<string>>, delimiter: char): (r: Option<nat>)
    ensures r.None? <==> AllWellFormed(values, delimiter)
    ensures r.Some? ==> r.value < |values| && !WellFormed(values[r.value], delimiter)
    ensures r.Some? ==> forall i :: 0 <= i < r.value ==> WellFormed(values[i], delimiter)
    decreases |values|
  {
    if |values| == 0 then None
    else if !WellFormed(values[0], delimiter) then Some(0)
    else match FirstMalformed(values[1..], delimiter)
      case None => None
      case Some(k) => Some(k + 1)
  }

  /** Strips the (absent) nulls from an array that passed validation. */
  function Unwrap(values: seq<Option<string>>): (r: seq<string>)
    requires forall i :: 0 <= i < |values| ==> values[i].Some?
    ensures |r| == |values|
    ensures forall i :: 0 <= i < |values| ==> values[i] == Some(r[i])
  {
    seq(|values|, i requires 0 <= i < |values| => values[i].value)
  }

  /** The whole validating setter body apart from the final store: either every
      element passes and the array is returned for storing, in order, or the
      first bad element is reported. */
  function Validate(value: NullableArray, delimiter: char, field: Field): (r: Result<seq<string>, FormatError>)
    ensures r.Success? <==> AllWellFormed(Normalize(value), delimiter)
    ensures r.Success? ==> |r.value| == |Normalize(value)|
    ensures r.Success? ==> forall i :: 0 <= i < |r.value| ==> Normalize(value)[i] == Some(r.value[i])
    ensures r.Success? ==> forall i :: 0 <= i < |r.value| ==> delimiter in r.value[i]
    ensures r.Failure? ==> r.error.field == field
    ensures r.Failure? ==> !WellFormed(r.error.offending, delimiter) && r.error.offending in Normalize(value)
  {
    var values := Normalize(value);
    match FirstMalformed(values, delimiter)
    case Some(k) => Failure(FormatError(field, values[k]))
    case None => Success(Unwrap(values))
  }

  // ----- the validating setters -----

  /** Assigning the `FileExts` property. On success exactly the given
      extensions are stored, in order, and nothing else changes; a null array
      stores an empty one. On a bad element the setter throws before the
      store, so the caller keeps `m` as it was. */
  function SetFileExts(m: MimeType, value: NullableArray): (r: Result<MimeType, FormatError>)
    ensures r.Success? <==> AllWellFormed(Normalize(value), ExtDelimiter)
    ensures value.None? ==> r == Success(m.(fileExts := Some([])))
    ensures r.Success? ==> r.value.fileExts.Some? && |r.value.fileExts.value| == |Normalize(value)|
    ensures r.Success? ==> forall i :: 0 <= i < |Normalize(value)| ==> Normalize(value)[i] == Some(r.value.fileExts.value[i])
    ensures r.Success? ==> r.value.(fileExts := m.fileExts) == m
    ensures r.Failure? ==> r.error.field == FileExtField
    ensures r.Failure? ==> !WellFormed(r.error.offending, ExtDelimiter) && r.error.offending in Normalize(value)
  {
    match Validate(value, ExtDelimiter, FileExtField)
    case Success(exts) => Success(m.(fileExts := Some(exts)))
    case Failure(e) => Failure(e)
  }

  /** Assigning the `ContentTypes` property: the same contract as `SetFileExts`
      with '/' as the required delimiter. */
  function SetContentTypes(m: MimeType, value: NullableArray): (r: Result<MimeType, FormatError>)
    ensures r.Success? <==> AllWellFormed(Normalize(value), ContentTypeDelimiter)
    ensures value.None? ==> r == Success(m.(contentTypes := Some([])))
    ensures r.Success? ==> r.value.contentTypes.Some? && |r.value.contentTypes.value| == |Normalize(value)|
    ensures r.Success? ==> forall i :: 0 <= i < |Normalize(value)| ==> Normalize(value)[i] == Some(r.value.contentTypes.value[i])
    ensures r.Success? ==> r.value.(contentTypes := m.contentTypes) == m
    ensures r.Failure? ==> r.error.field == ContentTypeField
    ensures r.Failure? ==> !WellFormed(r.error.offending, ContentTypeDelimiter) && r.error.offending in Normalize(value)
  {
    match Validate(value, ContentTypeDelimiter, ContentTypeField)
    case Success(types) => Success(m.(contentTypes := Some(types)))
    case Failure(e) => Failure(e)
  }

  /** Every stored extension contains '.' and every stored content type
      contains '/'; an unassigned (null) list satisfies this vacuously. */
  predicate AllContain(stored: Option<seq<string>>, delimiter: char) {
    stored.Some? ==> forall i :: 0 <= i < |stored.value| ==> delimiter in stored.value[i]
  }

  predicate Valid(m: MimeType) {
    AllContain(m.fileExts, ExtDelimiter) && AllContain(m.contentTypes, ContentTypeDelimiter)
  }

  // ----- the dominant accessors -----

  /** The dominant content type: the first stored one, or "" when the list is
      null or empty. Never fails. */
  function ContentType(m: MimeType): (r: string)
    ensures m.contentTypes.Some? && |m.contentTypes.value| > 0 ==> r == m.contentTypes.value[0]
    ensures m.contentTypes.None? || |m.contentTypes.value| == 0 ==> r == ""
  {
    if m.contentTypes.None? || |m.contentTypes.value| < 1 then "" else m.contentTypes.value[0]
  }

  /** The dominant file extension: the first stored one, or "" when the list
      is null or empty. Never fails. */
  function FileExt(m: MimeType): (r: string)
    ensures m.fileExts.Some? && |m.fileExts.value| > 0 ==> r == m.fileExts.value[0]
    ensures m.fileExts.None? || |m.fileExts.value| == 0 ==> r == ""
  {
    if m.fileExts.None? || |m.fileExts.value| < 1 then "" else m.fileExts.value[0]
  }

  /** On a valid entry the dominant extension is "" exactly when there is no
      extension, and otherwise contains '.'; likewise for content types with '/'. */
  lemma DominantWellFormed(m: MimeType)
    requires Valid(m)
    ensures FileExt(m) == "" <==> m.fileExts.None? || |m.fileExts.value| == 0
    ensures FileExt(m) != "" ==> ExtDelimiter in FileExt(m)
    ensures ContentType(m) == "" <==> m.contentTypes.None? || |m.contentTypes.value| == 0
    ensures ContentType(m) != "" ==> ContentTypeDelimiter in ContentType(m)
  {
  }

  /** After a successful assignment the dominant value is the first element
      assigned, or "" when an empty or null array was assigned. */
  lemma DominantAfterSet(m: MimeType, value: NullableArray)
    ensures SetFileExts(m, value).Success? && |Normalize(value)| > 0 ==>
      Some(FileExt(SetFileExts(m, value).value)) == Normalize(value)[0]
    ensures SetFileExts(m, value).Success? && |Normalize(value)| == 0 ==>
      FileExt(SetFileExts(m, value).value) == ""
    ensures SetContentTypes(m, value).Success? && |Normalize(value)| > 0 ==>
      Some(ContentType(SetContentTypes(m, value).value)) == Normalize(value)[0]
    ensures SetContentTypes(m, value).Success? && |Normalize(value)| == 0 ==>
      ContentType(SetContentTypes(m, value).value) == ""
  {
  }

  // ----- sequences of property assignments -----

  /** One property assignment statement on an instance. */
  datatype Assignment =
    | AssignName(name: Option<string>)
    | AssignDescription(description: Option<string>)
    | AssignFileExts(exts: NullableArray)
    | AssignContentTypes(types: NullableArray)
    | AssignCategory(category: MimeCategory)
    | AssignPrimary(primary: bool)

  function Assign(m: MimeType, a: Assignment): Result<MimeType, FormatError> {
    match a
    case AssignName(v) => Success(SetName(m, v))
    case AssignDescription(v) => Success(SetDescription(m, v))
    case AssignFileExts(v) => SetFileExts(m, v)
    case AssignContentTypes(v) => SetContentTypes(m, v)
    case AssignCategory(c) => Success(m.(category := c))
    case AssignPrimary(p) => Success(m.(primary := p))
  }

  /** The instance after running `script` in order, and the exception that
      stopped it, if any. An exception leaves the instance as the assignments
      before it made it. */
  datatype Run = Run(state: MimeType, thrown: Option<FormatError>)

  function Execute(m: MimeType, script: seq<Assignment>): Run
    decreases |script|
  {
    if |script| == 0 then Run(m, None)
    else match Assign(m, script[0])
      case Failure(e) => Run(m, Some(e))
      case Success(next) => Execute(next, script[1..])
  }

  /** A single assignment never breaks the delimiter invariant. (One that
      throws returns no record at all, so the caller keeps `m` by construction.) */
  lemma AssignPreservesValid(m: MimeType, a: Assignment)
    requires Valid(m)
    ensures Assign(m, a).Success? ==> Valid(Assign(m, a).value)
  {
  }

  /** Whatever assignments run, successful or not, every stored extension
      keeps its '.' and every stored content type its '/'. */
  lemma {:induction false} ExecutePreservesValid(m: MimeType, script: seq<Assignment>)
    requires Valid(m)
    ensures Valid(Execute(m, script).state)
    decreases |script|
  {
    if |script| > 0 {
      AssignPreservesValid(m, script[0]);
      if Assign(m, script[0]).Success? {
        ExecutePreservesValid(Assign(m, script[0]).value, script[1..]);
      }
    }
  }

  /** Once the extension or content-type list is assigned, no later
      assignment makes it null again. */
  lemma {:induction false} ExecuteKeepsListsSet(m: MimeType, script: seq<Assignment>)
    ensures m.fileExts.Some? ==> Execute(m, script).state.fileExts.Some?
    ensures m.contentTypes.Some? ==> Execute(m, script).state.contentTypes.Some?
    decreases |script|
  {
    if |script| > 0 && Assign(m, script[0]).Success? {
      ExecuteKeepsListsSet(Assign(m, script[0]).value, script[1..]);
    }
  }

  /** Starting from a fresh instance, any script leaves a valid instance. */
  lemma FreshInstanceStaysValid(script: seq<Assignment>)
    ensures Valid(Execute(New(), script).state)
  {
    ExecutePreservesValid(New(), script);
  }
}
