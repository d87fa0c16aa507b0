/** The academic calendar document: an optional image whose fields are all
    optional, the uploader, the active flag and the creation time. */
module CalendarModel {
  import opened Common

  datatype Image = Image(fileName: Option<string>, filePath: Option<string>,
                         fileSize: Option<int>, mimeType: Option<string>)

  datatype Calendar = Calendar(id: Id, image: Option<Image>, uploadedBy: Id, isActive: bool, createdAt: nat)

  /** The file name GET needs: present only when the image and a non-empty
      `fileName` are (an empty string is falsy). */
  function ShownFileName(c: Calendar): (r: Option<string>)
    ensures r.Some? <==> c.image.Some? && c.image.value.fileName.Some? && c.image.value.fileName.value != ""
    ensures r.Some? ==> r.value == c.image.value.fileName.value
  {
    match c.image
    case None => None
    case Some(img) =>
      match img.fileName
      case None => None
      case Some(n) => if n == "" then None else Some(n)
  }

  /** The stored path the reclamation sweep looks at, `calendar.image?.filePath`
      when it is truthy. */
  function StoredPath(c: Calendar): (r: Option<string>)
    ensures r.Some? <==> c.image.Some? && c.image.value.filePath.Some? && c.image.value.filePath.value != ""
    ensures r.Some? ==> r.value == c.image.value.filePath.value
  {
    match c.image
    case None => None
    case Some(img) =>
      match img.filePath
      case None => None
      case Some(p) => if p == "" then None else Some(p)
  }

  /** The record an accepted upload inserts: every image field set from the
      upload, active, created now. */
  function NewCalendar(id: Id, upload: UploadMeta, uploader: Id, now: nat): Calendar {
    Calendar(id, Some(Image(Some(upload.fileName), Some(upload.path), Some(upload.size), Some(upload.mimeType))),
             uploader, true, now)
  }
}
