/** `IComparable.CompareTo` of `MimeType`, as written and as evidently
    intended. Names and extensions are compared with `StringOrder.Compare`. */
module MimeComparison {
  import opened Wrappers
  import StringOrder
  import opened MimeUtils

  /** The untyped argument after `obj as MimeType`: either an instance, or
      null (a null reference or an object of another type). */
  datatype Comparand = NotMimeType | Instance(that: MimeType)

  /** The runtime faults `CompareTo` can raise. */
  datatype Fault = NullReference | IndexOutOfRange

  /** Both extension lists are assigned, and either both are empty or both are
      not: exactly the pairs the method as written can compare. */
  predicate Comparable(a: MimeType, b: MimeType) {
    a.fileExts.Some? && b.fileExts.Some? && (|a.fileExts.value| == 0 <==> |b.fileExts.value| == 0)
  }

  /** `CompareTo` as written: by name when both extension lists are empty,
      otherwise by first extension. The `FileExts` getter returns the raw field,
      so an unassigned list is dereferenced as null, and the first extension is
      read on both sides even when only one side has one. */
  function CompareTo(m: MimeType, obj: Comparand): (r: Result<int, Fault>)
    ensures obj.NotMimeType? ==> r == Success(1)
    ensures r.Success? ==> -1 <= r.value <= 1
    ensures obj.Instance? ==> (r.Success? <==> Comparable(m, obj.that))
    ensures obj.Instance? ==>
      (r == Failure(NullReference) <==> m.fileExts.None? || obj.that.fileExts.None?)
    ensures r.Success? && obj.Instance? && |m.fileExts.value| == 0 ==>
      r.value == StringOrder.Compare(Name(m), Name(obj.that))
    ensures r.Success? && obj.Instance? && |m.fileExts.value| > 0 ==>
      r.value == StringOrder.Compare(FileExt(m), FileExt(obj.that))
    ensures r.Success? && obj.Instance? && |m.fileExts.value| == 0 ==>
      (r.value == 0 <==> Name(m) == Name(obj.that))
    ensures r.Success? && obj.Instance? && |m.fileExts.value| > 0 ==>
      (r.value == 0 <==> FileExt(m) == FileExt(obj.that))
  {
    match obj
    case NotMimeType => Success(1)
    case Instance(that) =>
      if m.fileExts.None? then Failure(NullReference)
      else if |m.fileExts.value| == 0 && that.fileExts.None? then Failure(NullReference)
      else if |m.fileExts.value| == 0 && |that.fileExts.value| == 0 then
        Success(StringOrder.Compare(Name(m), Name(that)))
      else if |m.fileExts.value| == 0 then Failure(IndexOutOfRange)
      else if that.fileExts.None? then Failure(NullReference)
      else if |that.fileExts.value| == 0 then Failure(IndexOutOfRange)
      else Success(StringOrder.Compare(m.fileExts.value[0], that.fileExts.value[0]))
  }

  /** Where it is defined, swapping the operands negates the result. */
  lemma CompareToAntisymmetric(a: MimeType, b: MimeType)
    requires Comparable(a, b)
    ensures CompareTo(b, Instance(a)).Success?
    ensures CompareTo(a, Instance(b)).value == -CompareTo(b, Instance(a)).value
  {
    StringOrder.Antisymmetric(Name(a), Name(b));
    if |a.fileExts.value| > 0 {
      StringOrder.Antisymmetric(a.fileExts.value[0], b.fileExts.value[0]);
    }
  }

  /** Where it is defined, "sorts no later than" is transitive. */
  lemma CompareToTransitive(a: MimeType, b: MimeType, c: MimeType)
    requires Comparable(a, b) && Comparable(b, c)
    requires CompareTo(a, Instance(b)).value <= 0 && CompareTo(b, Instance(c)).value <= 0
    ensures Comparable(a, c)
    ensures CompareTo(a, Instance(c)).value <= 0
  {
    if |a.fileExts.value| == 0 {
      StringOrder.Transitive(Name(a), Name(b), Name(c));
    } else {
      StringOrder.Transitive(a.fileExts.value[0], b.fileExts.value[0], c.fileExts.value[0]);
    }
  }

  /** The method reads only the names and the extension lists: description,
      content types, category and the primary flag never affect it. */
  lemma CompareToIgnoresOtherFields(a: MimeType, obj: Comparand, a': MimeType)
    requires a'.name == a.name && a'.fileExts == a.fileExts
    ensures CompareTo(a', obj) == CompareTo(a, obj)
    ensures obj.Instance? ==> CompareTo(obj.that, Instance(a')) == CompareTo(obj.that, Instance(a))
  {
  }

  /** A fresh instance cannot be compared with anything: its `FileExts` is null. */
  lemma FreshInstanceFaults(b: MimeType)
    ensures CompareTo(New(), Instance(b)) == Failure(NullReference)
    ensures CompareTo(b, Instance(New())) == Failure(NullReference)
  {
  }

  /** An instance with no extensions compared with one that has ".txt": the
      method reads element 0 of the empty list. */
  lemma OneSidedEmptyFaults()
    ensures CompareTo(New().(fileExts := Some([])), Instance(New().(fileExts := Some([".txt"]))))
      == Failure(IndexOutOfRange)
    ensures CompareTo(New().(fileExts := Some([".txt"])), Instance(New().(fileExts := Some([]))))
      == Failure(IndexOutOfRange)
  {
  }

  // ----- the comparison as evidently intended -----

  /** The extension list with null read as empty. */
  function ExtsOrEmpty(m: MimeType): seq<string> {
    m.fileExts.GetOr([])
  }

  /** Total comparison of two entries: an unassigned extension list counts as
      empty, entries without extensions sort by name before every entry with
      extensions, and the rest sort by first extension. */
  function CompareEntries(a: MimeType, b: MimeType): (r: int)
    ensures -1 <= r <= 1
    ensures Comparable(a, b) ==> CompareTo(a, Instance(b)) == Success(r)
    ensures |ExtsOrEmpty(a)| == 0 && |ExtsOrEmpty(b)| > 0 ==> r == -1
    ensures |ExtsOrEmpty(a)| > 0 && |ExtsOrEmpty(b)| == 0 ==> r == 1
  {
    var ea, eb := ExtsOrEmpty(a), ExtsOrEmpty(b);
    if |ea| == 0 && |eb| == 0 then StringOrder.Compare(Name(a), Name(b))
    else if |ea| == 0 then -1
    else if |eb| == 0 then 1
    else StringOrder.Compare(ea[0], eb[0])
  }

  /** What `CompareEntries` orders by: no extensions and the name, or the
      first extension. */
  datatype SortKey = ByName(name: string) | ByExt(ext: string)

  function KeyOf(m: MimeType): SortKey {
    if |ExtsOrEmpty(m)| == 0 then ByName(Name(m)) else ByExt(ExtsOrEmpty(m)[0])
  }

  /** Two entries compare equal exactly when they have the same sort key. */
  lemma CompareEntriesZero(a: MimeType, b: MimeType)
    ensures CompareEntries(a, b) == 0 <==> KeyOf(a) == KeyOf(b)
  {
  }

  lemma CompareEntriesAntisymmetric(a: MimeType, b: MimeType)
    ensures CompareEntries(a, b) == -CompareEntries(b, a)
  {
    StringOrder.Antisymmetric(Name(a), Name(b));
    if |ExtsOrEmpty(a)| > 0 && |ExtsOrEmpty(b)| > 0 {
      StringOrder.Antisymmetric(ExtsOrEmpty(a)[0], ExtsOrEmpty(b)[0]);
    }
  }

  lemma CompareEntriesTransitive(a: MimeType, b: MimeType, c: MimeType)
    requires CompareEntries(a, b) <= 0 && CompareEntries(b, c) <= 0
    ensures CompareEntries(a, c) <= 0
  {
    var ea, eb, ec := ExtsOrEmpty(a), ExtsOrEmpty(b), ExtsOrEmpty(c);
    if |ea| == 0 && |eb| == 0 && |ec| == 0 {
      StringOrder.Transitive(Name(a), Name(b), Name(c));
    } else if |ea| > 0 && |eb| > 0 && |ec| > 0 {
      StringOrder.Transitive(ea[0], eb[0], ec[0]);
    }
  }

  /** The corrected comparison is defined on fresh instances, where the
      method as written faults, and sorts them no later than any entry. */
  lemma CompareEntriesOnFreshInstances(b: MimeType)
    ensures CompareEntries(New(), b) <= 0
    ensures CompareEntries(New(), b) == 0 <==> KeyOf(b) == ByName("")
    ensures CompareTo(New(), Instance(b)).Failure?
  {
  }

  /** The ordering examples: "alpha" before "beta" when neither has an
      extension, ".jpg" before ".png" otherwise. */
  lemma OrderingExamples()
    ensures CompareTo(New().(name := Some("alpha"), fileExts := Some([])),
                      Instance(New().(name := Some("beta"), fileExts := Some([])))) == Success(-1)
    ensures CompareTo(New().(fileExts := Some([".jpg"])),
                      Instance(New().(fileExts := Some([".png"])))) == Success(-1)
  {
  }
}
