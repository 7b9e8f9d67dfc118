/**
 * ProfilePhotoField.tsx: the photo picker.  A selected file is checked for
 * an image type, then for its size, and only a file passing both is handed
 * to `onPhotoChange`; a rejected file raises an `alert`.  Remove hands
 * `null` to `onPhotoChange` and clears the file input.
 */
module ProfilePhotoField {
  import opened Wrappers
  import opened Backend
  import opened JsStrings

  /** 5 MiB. */
  const MaxPhotoBytes: nat := 5 * 1024 * 1024

  /** What a handler did: the alert it raised, the values it passed to `onPhotoChange` in order, and whether it cleared the input. */
  datatype Effect = Effect(alert: Option<string>, photoChanges: seq<Option<File>>, inputCleared: bool)

  /** `handleFileSelect` on the first selected file, if any. */
  function HandleFileSelect(file: Option<File>): (e: Effect)
    ensures !e.inputCleared
    ensures file.None? ==> e == Effect(None, [], false)
    ensures file.Some? && !StartsWith(file.value.mimeType, "image/") ==>
      e == Effect(Some("errors.invalidFileType"), [], false)
    ensures file.Some? && StartsWith(file.value.mimeType, "image/") && file.value.size > MaxPhotoBytes ==>
      e == Effect(Some("errors.fileTooLarge"), [], false)
    ensures e.photoChanges != [] <==>
      file.Some? && StartsWith(file.value.mimeType, "image/") && file.value.size <= MaxPhotoBytes
    ensures e.photoChanges != [] ==> e.photoChanges == [file] && e.alert.None?
  {
    match file
    case None => Effect(None, [], false)
    case Some(f) =>
      if !StartsWith(f.mimeType, "image/") then Effect(Some("errors.invalidFileType"), [], false)
      else if f.size > MaxPhotoBytes then Effect(Some("errors.fileTooLarge"), [], false)
      else Effect(None, [Some(f)], false)
  }

  /** `handleRemove`. */
  function HandleRemove(): (e: Effect)
    ensures e.alert.None? && e.photoChanges == [None] && e.inputCleared
  {
    Effect(None, [None], true)
  }

  /** A file of exactly 5 MiB is accepted; one byte more is refused. */
  lemma SizeBoundary(name: string, mimeType: string)
    requires StartsWith(mimeType, "image/")
    ensures HandleFileSelect(Some(File(name, mimeType, MaxPhotoBytes))).photoChanges == [Some(File(name, mimeType, MaxPhotoBytes))]
    ensures HandleFileSelect(Some(File(name, mimeType, MaxPhotoBytes + 1))).alert == Some("errors.fileTooLarge")
  {
  }

  /** The type is checked first: a large file that is not an image reports the type error. */
  lemma TypeCheckedFirst(f: File)
    requires !StartsWith(f.mimeType, "image/") && f.size > MaxPhotoBytes
    ensures HandleFileSelect(Some(f)).alert == Some("errors.invalidFileType")
  {
  }

  /** Each handler calls `onPhotoChange` at most once, and alerts and photo changes never come together. */
  lemma AtMostOneChange(file: Option<File>)
    ensures |HandleFileSelect(file).photoChanges| <= 1
    ensures HandleFileSelect(file).alert.Some? ==> HandleFileSelect(file).photoChanges == []
    ensures |HandleRemove().photoChanges| == 1
  {
  }
}
