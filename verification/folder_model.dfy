/** The teacher folder document: its closed set of folder types, the embedded
    file records with their required fields, and what an upload delivers. */
module FolderModel {
  import opened Common

  datatype FolderType = Material | Administration | Event | Other

  const AllFolderTypes: set<FolderType> := {Material, Administration, Event, Other}

  lemma AllFolderTypesComplete(t: FolderType)
    ensures t in AllFolderTypes
  {
    match t
    case Material =>
    case Administration =>
    case Event =>
    case Other =>
  }

  function TypeName(t: FolderType): string {
    match t
    case Material => "material"
    case Administration => "administration"
    case Event => "event"
    case Other => "other"
  }

  /** The `validFolderTypes.includes` check and the schema's enum: only the
      four lower-case names pass. */
  function ParseFolderType(s: string): (r: Option<FolderType>)
    ensures r.Some? ==> TypeName(r.value) == s
    ensures r.None? ==> forall t: FolderType :: TypeName(t) != s
  {
    if s == "material" then Some(Material)
    else if s == "administration" then Some(Administration)
    else if s == "event" then Some(Event)
    else if s == "other" then Some(Other)
    else None
  }

  lemma TypeNamesRoundTrip(t: FolderType)
    ensures ParseFolderType(TypeName(t)) == Some(t)
  {
  }

  /** One stored file. `updatedAt` is absent on records saved before the
      sub-document timestamps existed. */
  datatype FileRecord = FileRecord(
    id: Id,
    fileName: string,
    originalName: string,
    filePath: string,
    fileSize: int,
    mimeType: string,
    uploadedAt: nat,
    createdAt: nat,
    updatedAt: Option<nat>)

  /** One folder: a teacher's files of one type, in upload order. */
  datatype Folder = Folder(
    id: Id,
    teacherId: Id,
    teacherName: string,
    folderType: FolderType,
    files: seq<FileRecord>,
    createdAt: nat,
    updatedAt: nat)

  /** The file record an upload stores: the five fields copied from the upload,
      every timestamp set to the save time. */
  function NewFile(id: Id, meta: UploadMeta, now: nat): FileRecord {
    FileRecord(id, meta.fileName, meta.originalName, meta.path, meta.size, meta.mimeType, now, now, Some(now))
  }

  /** The schema's `required` on the file's strings: an empty string fails. */
  predicate FileAccepted(f: FileRecord) {
    f.fileName != "" && f.originalName != "" && f.filePath != "" && f.mimeType != ""
  }
}
