/** The folder routes: one folder per (teacher, folder type), created on the
    first upload; files appended on upload and spliced out on delete; the
    grouped and by-type views; and the two recent-access lists a viewer's
    account keeps. The folder collection is the `folders` field of a
    FolderStore; the user collection is a UserStore. The physical upload
    directory is given as the set of paths that exist on disk. */
module Folders {
  import opened Common
  import opened Users
  import opened FolderModel

  // ---------------------------------------------------------------------------
  // Lookups

  /** Folder `f` belongs to `teacher` and has type `t`. */
  predicate Owns(f: Folder, teacher: Id, t: FolderType) {
    f.teacherId == teacher && f.folderType == t
  }

  /** `Folder.findOne({teacherId, folderType})`: the first such folder. */
  function FolderIndex(fs: seq<Folder>, teacher: Id, t: FolderType): (r: Option<nat>)
    ensures r.Some? ==> r.value < |fs| && Owns(fs[r.value], teacher, t)
    ensures r.Some? ==> forall k :: 0 <= k < r.value ==> !Owns(fs[k], teacher, t)
    ensures r.None? <==> forall k :: 0 <= k < |fs| ==> !Owns(fs[k], teacher, t)
  {
    if fs == [] then None
    else if Owns(fs[0], teacher, t) then Some(0)
    else match FolderIndex(fs[1..], teacher, t)
      case None => None
      case Some(k) => Some(k + 1)
  }

  /** `files.findIndex(f => f._id == fileId)`, and `files.find` as its element. */
  function FileIndex(files: seq<FileRecord>, id: Id): (r: Option<nat>)
    ensures r.Some? ==> r.value < |files| && files[r.value].id == id
    ensures r.Some? ==> forall k :: 0 <= k < r.value ==> files[k].id != id
    ensures r.None? <==> forall k :: 0 <= k < |files| ==> files[k].id != id
  {
    if files == [] then None
    else if files[0].id == id then Some(0)
    else match FileIndex(files[1..], id)
      case None => None
      case Some(k) => Some(k + 1)
  }

  /** The files of `teacher`'s folder of type `t`; none when there is no folder. */
  function FilesOf(fs: seq<Folder>, teacher: Id, t: FolderType): seq<FileRecord> {
    match FolderIndex(fs, teacher, t)
    case Some(i) => fs[i].files
    case None => []
  }

  /** The folder the delete and download routes address: the teacher is the
      caller unless a principal names one; the type is not validated, so an
      unknown type name simply matches no folder. The result is the folder's
      position and the file's position in it. */
  function Locate(fs: seq<Folder>, teacher: Id, typeText: string, fileId: Id): (r: Option<(nat, nat)>)
    ensures r.Some? ==>
              && ParseFolderType(typeText).Some?
              && FolderIndex(fs, teacher, ParseFolderType(typeText).value) == Some(r.value.0)
              && r.value.0 < |fs| && FileIndex(fs[r.value.0].files, fileId) == Some(r.value.1)
    ensures r.None? <==>
              || ParseFolderType(typeText).None?
              || FolderIndex(fs, teacher, ParseFolderType(typeText).value).None?
              || FileIndex(fs[FolderIndex(fs, teacher, ParseFolderType(typeText).value).value].files, fileId).None?
  {
    match ParseFolderType(typeText)
    case None => None
    case Some(t) =>
      match FolderIndex(fs, teacher, t)
      case None => None
      case Some(i) =>
        match FileIndex(fs[i].files, fileId)
        case None => None
        case Some(j) => Some((i, j))
  }

  /** The teacher a delete or download addresses. */
  function AddressedTeacher(caller: Caller, target: Option<Id>): Id {
    if caller.role == Principal && target.Some? then target.value else caller.id
  }

  // ---------------------------------------------------------------------------
  // The store invariant

  /** No two folders share a (teacher, type) pair. No index enforces this; the
      upload route's find-or-create keeps it. */
  predicate OneFolderPerSlot(fs: seq<Folder>) {
    forall i, j :: 0 <= i < j < |fs| ==>
      !(fs[i].teacherId == fs[j].teacherId && fs[i].folderType == fs[j].folderType)
  }

  predicate UniqueFileIds(files: seq<FileRecord>) {
    forall a, b :: 0 <= a < b < |files| ==> files[a].id != files[b].id
  }

  predicate FileIdsBelow(files: seq<FileRecord>, n: nat) {
    forall j :: 0 <= j < |files| ==> files[j].id < n
  }

  /** One folder per slot, file ids unique within each folder, and every id in
      use below the next fresh one. */
  predicate StoreInvariant(fs: seq<Folder>, next: nat) {
    OneFolderPerSlot(fs)
    && (forall k :: 0 <= k < |fs| ==> fs[k].id < next)
    && (forall k :: 0 <= k < |fs| ==> FileIdsBelow(fs[k].files, next))
    && (forall k :: 0 <= k < |fs| ==> UniqueFileIds(fs[k].files))
  }

  // ---------------------------------------------------------------------------
  // Upload: find or create, then append

  /** The folders after saving `file` for (owner, t): appended to the owner's
      folder of that type, or to a new folder created for it. */
  function Uploaded(fs: seq<Folder>, owner: Id, ownerName: string, t: FolderType,
                    file: FileRecord, folderId: Id, now: nat): seq<Folder>
  {
    match FolderIndex(fs, owner, t)
    case Some(i) => fs[i := fs[i].(files := fs[i].files + [file], updatedAt := now)]
    case None => fs + [Folder(folderId, owner, ownerName, t, [file], now, now)]
  }

  /** An upload adds the file at the end of its folder's list, creates a folder
      only when there was none, and leaves every other folder as it was. */
  lemma UploadedAppendsFile(fs: seq<Folder>, owner: Id, ownerName: string, t: FolderType,
                            file: FileRecord, folderId: Id, now: nat)
    ensures var r := Uploaded(fs, owner, ownerName, t, file, folderId, now);
      && FilesOf(r, owner, t) == FilesOf(fs, owner, t) + [file]
      && |r| == |fs| + (if FolderIndex(fs, owner, t).None? then 1 else 0)
      && (forall k :: 0 <= k < |fs| && !Owns(fs[k], owner, t) ==> r[k] == fs[k])
  {
    match FolderIndex(fs, owner, t)
    case Some(i) =>
      var f := fs[i].(files := fs[i].files + [file], updatedAt := now);
      IndexAfterReplace(fs, i, f, owner, t);
    case None =>
      IndexAfterAppend(fs, Folder(folderId, owner, ownerName, t, [file], now, now), owner, t);
  }

  lemma IndexAfterReplace(fs: seq<Folder>, i: nat, f: Folder, teacher: Id, t: FolderType)
    requires FolderIndex(fs, teacher, t) == Some(i) && Owns(f, teacher, t)
    ensures FolderIndex(fs[i := f], teacher, t) == Some(i)
  {
    var r := fs[i := f];
    assert forall k :: 0 <= k < i ==> r[k] == fs[k];
    assert Owns(r[i], teacher, t);
  }

  lemma IndexAfterAppend(fs: seq<Folder>, f: Folder, teacher: Id, t: FolderType)
    requires FolderIndex(fs, teacher, t).None? && Owns(f, teacher, t)
    ensures FolderIndex(fs + [f], teacher, t) == Some(|fs|)
  {
    var r := fs + [f];
    assert forall k :: 0 <= k < |fs| ==> r[k] == fs[k];
    assert Owns(r[|fs|], teacher, t);
  }

  /** Two uploads A then B to a (teacher, type) that had no folder leave one
      folder holding exactly [A, B]. */
  lemma TwoUploadsShareOneFolder(fs: seq<Folder>, owner: Id, ownerName: string, t: FolderType,
                                 a: FileRecord, b: FileRecord, idA: Id, idB: Id, now: nat, later: nat)
    requires FolderIndex(fs, owner, t).None?
    ensures var r := Uploaded(Uploaded(fs, owner, ownerName, t, a, idA, now), owner, ownerName, t, b, idB, later);
      FilesOf(r, owner, t) == [a, b] && |r| == |fs| + 1
  {
    var once := Uploaded(fs, owner, ownerName, t, a, idA, now);
    UploadedAppendsFile(fs, owner, ownerName, t, a, idA, now);
    UploadedAppendsFile(once, owner, ownerName, t, b, idB, later);
  }

  /** Saving a file with a fresh id under a fresh folder id keeps the store
      invariant, with the next fresh id moved past both. */
  lemma UploadedKeepsInvariant(fs: seq<Folder>, owner: Id, ownerName: string, t: FolderType,
                               file: FileRecord, next: nat, now: nat)
    requires StoreInvariant(fs, next) && file.id == next
    ensures StoreInvariant(Uploaded(fs, owner, ownerName, t, file, next + 1, now), next + 2)
  {
    var r := Uploaded(fs, owner, ownerName, t, file, next + 1, now);
    match FolderIndex(fs, owner, t)
    case Some(i) =>
      var files := fs[i].files + [file];
      assert r[i].files == files;
      forall a, b | 0 <= a < b < |files|
        ensures files[a].id != files[b].id
      {
        if b == |files| - 1 {
          assert files[a] == fs[i].files[a];
        } else {
          assert files[a] == fs[i].files[a] && files[b] == fs[i].files[b];
        }
      }
      forall k | 0 <= k < |r|
        ensures FileIdsBelow(r[k].files, next + 2)
      {
        if k != i {
          assert r[k] == fs[k];
        }
      }
    case None =>
      forall k | 0 <= k < |r|
        ensures FileIdsBelow(r[k].files, next + 2) && UniqueFileIds(r[k].files)
      {
        if k < |fs| {
          assert r[k] == fs[k];
        }
      }
      forall i, j | 0 <= i < j < |r|
        ensures !(r[i].teacherId == r[j].teacherId && r[i].folderType == r[j].folderType)
      {
        if j < |fs| {
          assert r[i] == fs[i] && r[j] == fs[j];
        } else {
          assert r[i] == fs[i] && !Owns(fs[i], owner, t);
        }
      }
  }

  /** The uploading target: a principal may name an existing user; otherwise
      the file goes into the caller's own folder. */
  function UploadOwner(caller: Caller, users: map<Id, User>, target: Option<Id>): (Id, string)
    requires caller.role == Principal && target.Some? ==> target.value in users
  {
    if caller.role == Principal && target.Some? then (target.value, users[target.value].name)
    else (caller.id, caller.name)
  }

  // ---------------------------------------------------------------------------
  // Delete: splice one file out

  /** `files.splice(index, 1)`. */
  function Removed(files: seq<FileRecord>, j: nat): (r: seq<FileRecord>)
    requires j < |files|
    ensures |r| == |files| - 1
    ensures forall k :: 0 <= k < j ==> r[k] == files[k]
    ensures forall k :: j <= k < |r| ==> r[k] == files[k + 1]
  {
    files[..j] + files[j + 1..]
  }

  /** With unique ids the removed file is gone for good, and the others stay
      unique. */
  lemma RemovedDropsOnlyThatId(files: seq<FileRecord>, j: nat)
    requires j < |files| && UniqueFileIds(files)
    ensures FileIndex(Removed(files, j), files[j].id).None?
    ensures UniqueFileIds(Removed(files, j))
    ensures forall k :: 0 <= k < |files| && k != j ==> files[k] in Removed(files, j)
  {
    var r := Removed(files, j);
    forall k | 0 <= k < |files| && k != j
      ensures files[k] in r
    {
      if k < j {
        assert r[k] == files[k];
      } else {
        assert r[k - 1] == files[k];
      }
    }
  }

  /** Splicing one file out of one folder keeps the store invariant. */
  lemma RemovedKeepsInvariant(fs: seq<Folder>, i: nat, j: nat, next: nat, now: nat)
    requires StoreInvariant(fs, next) && i < |fs| && j < |fs[i].files|
    ensures StoreInvariant(fs[i := fs[i].(files := Removed(fs[i].files, j), updatedAt := now)], next)
  {
    var r := fs[i := fs[i].(files := Removed(fs[i].files, j), updatedAt := now)];
    RemovedDropsOnlyThatId(fs[i].files, j);
    assert forall k :: 0 <= k < |r| && k != i ==> r[k] == fs[k];
    assert FileIdsBelow(r[i].files, next);
  }

  /** Deleting the file an upload just appended gives back the list before it. */
  lemma RemovingLastUploadRestores(files: seq<FileRecord>, file: FileRecord)
    ensures Removed(files + [file], |files|) == files
  {
    assert (files + [file])[..|files|] == files;
  }

  // ---------------------------------------------------------------------------
  // The views

  /** A folder the grouped listing may report under type `t`. */
  predicate Selected(f: Folder, teacher: Option<Id>, t: FolderType) {
    f.folderType == t && (teacher.None? || f.teacherId == teacher.value)
  }

  /** `g` is what the grouped listing reports for type `t` over `fs`: none
      when no folder is selected, otherwise a selected folder created no later
      than any other selected one. */
  predicate Oldest(fs: seq<Folder>, teacher: Option<Id>, t: FolderType, g: Option<Folder>) {
    && (g.None? <==> forall k :: 0 <= k < |fs| ==> !Selected(fs[k], teacher, t))
    && (g.Some? ==>
          && g.value in fs && Selected(g.value, teacher, t)
          && forall k :: 0 <= k < |fs| && Selected(fs[k], teacher, t) ==> g.value.createdAt <= fs[k].createdAt)
  }

  /** One step of `groupedFolders[folder.folderType] = folder` over the folders
      sorted by type and then newest first: a later visit of the same type is
      an older folder, so the one held is replaced by one created no later. */
  function Keep(g: Option<Folder>, f: Folder, teacher: Option<Id>, t: FolderType): Option<Folder> {
    if Selected(f, teacher, t) && (g.None? || f.createdAt <= g.value.createdAt) then Some(f) else g
  }

  lemma OldestStep(fs: seq<Folder>, f: Folder, teacher: Option<Id>, t: FolderType, g: Option<Folder>)
    requires Oldest(fs, teacher, t, g)
    ensures Oldest(fs + [f], teacher, t, Keep(g, f, teacher, t))
  {
    var ext := fs + [f];
    assert forall k :: 0 <= k < |fs| ==> ext[k] == fs[k];
    assert ext[|fs|] == f;
    if g.Some? {
      assert g.value in ext;
    }
  }

  /** One loop step of the grouping keeps every type's entry the oldest seen so far. */
  lemma GroupedStep(fs: seq<Folder>, f: Folder, teacher: Option<Id>, g: map<FolderType, Option<Folder>>)
    requires f.folderType in g
    requires forall t :: t in g ==> Oldest(fs, teacher, t, g[t])
    ensures var next := g[f.folderType := Keep(g[f.folderType], f, teacher, f.folderType)];
            forall t :: t in next ==> Oldest(fs + [f], teacher, t, next[t])
  {
    var next := g[f.folderType := Keep(g[f.folderType], f, teacher, f.folderType)];
    forall t | t in next
      ensures Oldest(fs + [f], teacher, t, next[t])
    {
      OldestStep(fs, f, teacher, t, g[t]);
    }
  }

  /** A file as the by-type view reports it. */
  datatype FileView = FileView(id: Id, fileName: string, originalName: string, filePath: string,
                               fileSize: int, mimeType: string, createdAt: nat, updatedAt: nat)

  function ViewOf(f: FileRecord): FileView {
    FileView(f.id, f.fileName, f.originalName, f.filePath, f.fileSize, f.mimeType,
             f.createdAt, f.updatedAt.GetOr(f.createdAt))
  }

  /** `folder.files.map(...)`: one view per file, in order. */
  function Views(files: seq<FileRecord>): (r: seq<FileView>)
    ensures |r| == |files|
    ensures forall i :: 0 <= i < |files| ==> r[i] == ViewOf(files[i])
  {
    if files == [] then [] else [ViewOf(files[0])] + Views(files[1..])
  }

  /** `findOne(query).sort({updatedAt: -1})`: a selected folder with the latest
      `updatedAt`. Among equal times the earliest in store order is taken; the
      database leaves that choice open. */
  function Newest(fs: seq<Folder>, teacher: Option<Id>, t: FolderType): (r: Option<nat>)
    ensures r.Some? ==> r.value < |fs|
    decreases |fs|
  {
    if fs == [] then None
    else
      var n := |fs| - 1;
      match Newest(fs[..n], teacher, t)
      case None => if Selected(fs[n], teacher, t) then Some(n) else None
      case Some(k) =>
        if Selected(fs[n], teacher, t) && fs[k].updatedAt < fs[n].updatedAt then Some(n) else Some(k)
  }

  /** The pick is a selected folder no other selected folder is newer than, and
      there is a pick exactly when some folder is selected. */
  lemma {:induction false} NewestIsLatest(fs: seq<Folder>, teacher: Option<Id>, t: FolderType)
    ensures Newest(fs, teacher, t).None? <==> forall k :: 0 <= k < |fs| ==> !Selected(fs[k], teacher, t)
    ensures Newest(fs, teacher, t).Some? ==>
              var k := Newest(fs, teacher, t).value;
              k < |fs| && Selected(fs[k], teacher, t)
              && forall m :: 0 <= m < |fs| && Selected(fs[m], teacher, t) ==> fs[m].updatedAt <= fs[k].updatedAt
    decreases |fs|
  {
    if fs != [] {
      var n := |fs| - 1;
      NewestIsLatest(fs[..n], teacher, t);
      assert forall m :: 0 <= m < n ==> fs[..n][m] == fs[m];
    }
  }

  /** The file-recency entry a download records. */
  function RecentFileOf(f: FileRecord, now: nat): RecentFile {
    RecentFile(f.id, f.originalName, f.filePath, now)
  }

  // ---------------------------------------------------------------------------
  // The folder collection

  class FolderStore {
    var folders: seq<Folder>
    var nextId: Id

    ghost predicate Valid()
      reads this
    {
      StoreInvariant(folders, nextId)
    }

    constructor ()
      ensures Valid() && folders == []
    {
      folders := [];
      nextId := 0;
    }

    /** POST /:folderType/upload. */
    method Upload(caller: Caller, users: map<Id, User>, typeText: string, upload: Option<UploadMeta>,
                  target: Option<Id>, now: nat) returns (r: Result<FileRecord>)
      requires Valid()
      modifies this
      ensures Valid()
      ensures ParseFolderType(typeText).None? ==> r == Err(InvalidFolderType)
      ensures ParseFolderType(typeText).Some? && upload.None? ==> r == Err(NoFileUploaded)
      ensures ParseFolderType(typeText).Some? && upload.Some?
              && caller.role == Principal && target.Some? && target.value !in users
              ==> r == Err(NotFound)
      ensures r == Err(ServerError) ==> upload.Some? && !FileAccepted(NewFile(old(nextId), upload.value, now))
      ensures ParseFolderType(typeText).Some? && upload.Some?
              && (caller.role == Principal && target.Some? ==> target.value in users)
              ==> if FileAccepted(NewFile(old(nextId), upload.value, now)) then r.Ok? else r == Err(ServerError)
      ensures r.Err? ==> folders == old(folders) && nextId == old(nextId)
      ensures r.Ok? ==>
                ParseFolderType(typeText).Some? && upload.Some?
                && (caller.role == Principal && target.Some? ==> target.value in users)
                && r.value == NewFile(old(nextId), upload.value, now)
                && var owner := UploadOwner(caller, users, target);
                   var t := ParseFolderType(typeText).value;
                   folders == Uploaded(old(folders), owner.0, owner.1, t, r.value, old(nextId) + 1, now)
                   && FilesOf(folders, owner.0, t) == FilesOf(old(folders), owner.0, t) + [r.value]
    {
      var parsed := ParseFolderType(typeText);
      if parsed.None? {
        return Err(InvalidFolderType);
      }
      if upload.None? {
        return Err(NoFileUploaded);
      }
      if caller.role == Principal && target.Some? && target.value !in users {
        return Err(NotFound);
      }
      var owner := UploadOwner(caller, users, target);
      var file := NewFile(nextId, upload.value, now);
      if !FileAccepted(file) {
        return Err(ServerError);
      }
      Save(owner.0, owner.1, parsed.value, file, now);
      r := Ok(file);
    }

    /** The find-or-create and push of a file that passed every check. */
    method Save(owner: Id, ownerName: string, t: FolderType, file: FileRecord, now: nat)
      requires Valid() && file.id == nextId
      modifies this
      ensures Valid()
      ensures folders == Uploaded(old(folders), owner, ownerName, t, file, old(nextId) + 1, now)
      ensures FilesOf(folders, owner, t) == FilesOf(old(folders), owner, t) + [file]
      ensures nextId == old(nextId) + 2
    {
      UploadedKeepsInvariant(folders, owner, ownerName, t, file, nextId, now);
      UploadedAppendsFile(folders, owner, ownerName, t, file, nextId + 1, now);
      folders, nextId := Uploaded(folders, owner, ownerName, t, file, nextId + 1, now), nextId + 2;
    }

    /** DELETE /:folderType/files/:fileId: splice the file out of its folder.
        The physical file is removed when it exists and removal does not fail;
        either way the record goes. `unlinked` tells whether it was removed. */
    method Delete(caller: Caller, typeText: string, fileId: Id, target: Option<Id>,
                  onDisk: set<string>, unlinkFails: bool, now: nat)
      returns (r: Result<FileRecord>, unlinked: bool)
      requires Valid()
      modifies this
      ensures Valid()
      ensures nextId == old(nextId)
      ensures Locate(old(folders), AddressedTeacher(caller, target), typeText, fileId).None? ==>
                r == Err(NotFound) && !unlinked && folders == old(folders)
      ensures Locate(old(folders), AddressedTeacher(caller, target), typeText, fileId).Some? ==>
                var (i, j) := Locate(old(folders), AddressedTeacher(caller, target), typeText, fileId).value;
                var file := old(folders)[i].files[j];
                r == Ok(file)
                && folders == old(folders)[i := old(folders)[i].(files := Removed(old(folders)[i].files, j),
                                                                 updatedAt := now)]
                && (unlinked <==> file.filePath != "" && file.filePath in onDisk && !unlinkFails)
    {
      unlinked := false;
      var at := Locate(folders, AddressedTeacher(caller, target), typeText, fileId);
      if at.None? {
        return Err(NotFound), false;
      }
      var (i, j) := at.value;
      var file := folders[i].files[j];
      if file.filePath != "" && file.filePath in onDisk && !unlinkFails {
        unlinked := true;
      }
      RemovedKeepsInvariant(folders, i, j, nextId, now);
      folders := folders[i := folders[i].(files := Removed(folders[i].files, j), updatedAt := now)];
      r := Ok(file);
    }

    /** GET /:folderType/files/:fileId/download: the file is served when its
        record exists and its path is on disk; the download is then recorded
        on the caller's account unless that update fails, which is ignored. */
    method Download(caller: Caller, users: UserStore, typeText: string, fileId: Id, target: Option<Id>,
                    onDisk: set<string>, recencyFails: bool, now: nat) returns (r: Result<FileRecord>)
      modifies users
      ensures Locate(folders, AddressedTeacher(caller, target), typeText, fileId).None? ==> r == Err(NotFound)
      ensures Locate(folders, AddressedTeacher(caller, target), typeText, fileId).Some? ==>
                var (i, j) := Locate(folders, AddressedTeacher(caller, target), typeText, fileId).value;
                var file := folders[i].files[j];
                if file.filePath != "" && file.filePath in onDisk then r == Ok(file) else r == Err(NotFound)
      ensures r.Ok? && !recencyFails && caller.id in old(users.users) ==>
                users.users == old(users.users)[caller.id := old(users.users)[caller.id].(
                  recentFiles := PushRecent(old(users.users)[caller.id].recentFiles, RecentFileOf(r.value, now)))]
      ensures !(r.Ok? && !recencyFails && caller.id in old(users.users)) ==> users.users == old(users.users)
    {
      var at := Locate(folders, AddressedTeacher(caller, target), typeText, fileId);
      if at.None? {
        return Err(NotFound);
      }
      var (i, j) := at.value;
      var file := folders[i].files[j];
      if file.filePath == "" || file.filePath !in onDisk {
        return Err(NotFound);
      }
      if !recencyFails {
        users.RecordFileAccess(caller.id, RecentFileOf(file, now));
      }
      r := Ok(file);
    }

    /** GET /: one entry per folder type, each the oldest selected folder of
        that type or none. A principal who names a teacher who exists has the
        visit recorded on their account first. */
    method GetGrouped(caller: Caller, users: UserStore, target: Option<Id>, now: nat)
      returns (grouped: map<FolderType, Option<Folder>>)
      modifies users
      ensures grouped.Keys == AllFolderTypes
      ensures forall t: FolderType :: t in grouped
      ensures forall t :: t in grouped ==> Oldest(folders, QueryTeacher(caller.role, caller.id, target), t, grouped[t])
      ensures var recorded := caller.role == Principal && target.Some? && target.value in old(users.users);
        && (recorded && caller.id in old(users.users) ==>
              users.users == old(users.users)[caller.id := old(users.users)[caller.id].(
                recentFolders := PushRecent(old(users.users)[caller.id].recentFolders,
                                            RecentFolder(target.value, old(users.users)[target.value].name, now)))])
        && (!(recorded && caller.id in old(users.users)) ==> users.users == old(users.users))
    {
      var teacher := QueryTeacher(caller.role, caller.id, target);
      if caller.role == Principal && target.Some? && target.value in users.users {
        users.RecordFolderAccess(caller.id, RecentFolder(target.value, users.users[target.value].name, now));
      }
      grouped := GroupByType(teacher);
    }

    /** The grouping loop over the selected folders. */
    method GroupByType(teacher: Option<Id>) returns (grouped: map<FolderType, Option<Folder>>)
      ensures grouped.Keys == AllFolderTypes
      ensures forall t: FolderType :: t in grouped
      ensures forall t :: t in grouped ==> Oldest(folders, teacher, t, grouped[t])
    {
      grouped := map[Material := None, Administration := None, Event := None, Other := None];
      for i := 0 to |folders|
        invariant grouped.Keys == AllFolderTypes
        invariant forall t :: t in grouped ==> Oldest(folders[..i], teacher, t, grouped[t])
      {
        var f, prefix := folders[i], folders[..i];
        AllFolderTypesComplete(f.folderType);
        assert folders[..i + 1] == prefix + [f];
        GroupedStep(prefix, f, teacher, grouped);
        grouped := grouped[f.folderType := Keep(grouped[f.folderType], f, teacher, f.folderType)];
      }
      assert folders[..|folders|] == folders;
      forall t: FolderType
        ensures t in grouped
      {
        AllFolderTypesComplete(t);
      }
    }

    /** GET /:folderType: the files of the newest selected folder of that type. */
    method GetByType(caller: Caller, typeText: string, target: Option<Id>) returns (r: Result<seq<FileView>>)
      ensures ParseFolderType(typeText).None? ==> r == Err(InvalidFolderType)
      ensures ParseFolderType(typeText).Some? ==>
                var t := ParseFolderType(typeText).value;
                (r == Err(NotFound) <==>
                   forall k :: 0 <= k < |folders| ==> !Selected(folders[k], QueryTeacher(caller.role, caller.id, target), t))
      ensures r.Ok? ==>
                ParseFolderType(typeText).Some?
                && exists k :: 0 <= k < |folders|
                     && Selected(folders[k], QueryTeacher(caller.role, caller.id, target), ParseFolderType(typeText).value)
                     && (forall m :: 0 <= m < |folders|
                           && Selected(folders[m], QueryTeacher(caller.role, caller.id, target), ParseFolderType(typeText).value)
                           ==> folders[m].updatedAt <= folders[k].updatedAt)
                     && |r.value| == |folders[k].files|
                     && forall j :: 0 <= j < |r.value| ==>
                          r.value[j].id == folders[k].files[j].id
                          && r.value[j].updatedAt == folders[k].files[j].updatedAt.GetOr(folders[k].files[j].createdAt)
      ensures ParseFolderType(typeText).Some? ==>
                var pick := Newest(folders, QueryTeacher(caller.role, caller.id, target), ParseFolderType(typeText).value);
                pick.Some? ==> pick.value < |folders| && r == Ok(Views(folders[pick.value].files))
    {
      var parsed := ParseFolderType(typeText);
      if parsed.None? {
        return Err(InvalidFolderType);
      }
      var teacher := QueryTeacher(caller.role, caller.id, target);
      NewestIsLatest(folders, teacher, parsed.value);
      var pick := Newest(folders, teacher, parsed.value);
      if pick.None? {
        return Err(NotFound);
      }
      r := Ok(Views(folders[pick.value].files));
    }
  }
}
