/** The parts of a user account the core reads or writes: the role, the name
    and the two bounded recent-access lists a viewer keeps. The user schema
    itself (models/User.js) is not part of this model. */
module Users {
  import opened Common

  datatype Role = Teacher | Principal

  /** A folder a principal opened: which teacher's, and when. */
  datatype RecentFolder = RecentFolder(teacherId: Id, teacherName: string, accessedAt: nat)

  /** A file a user downloaded. */
  datatype RecentFile = RecentFile(fileId: Id, fileName: string, filePath: string, accessedAt: nat)

  datatype User = User(name: string, role: Role, recentFolders: seq<RecentFolder>, recentFiles: seq<RecentFile>)

  /** The authenticated caller, as the authentication middleware supplies it. */
  datatype Caller = Caller(id: Id, name: string, role: Role)

  /** The teacher filter the listing routes put on their queries: a teacher
      always gets their own documents, whatever they ask for; a principal gets
      the requested teacher's, or everyone's. */
  function QueryTeacher(role: Role, caller: Id, requested: Option<Id>): Option<Id> {
    match role
    case Teacher => Some(caller)
    case Principal => requested
  }

  /** The `$slice` bound of both recent lists. */
  const RecentLimit: nat := 10

  /** `$push` with `$each: [entry]`, `$position: 0`, `$slice: 10`: the entry goes
      in front, the list is cut back to its first ten, repeats are kept. */
  function PushRecent<T>(list: seq<T>, entry: T): (r: seq<T>)
    ensures |r| == if |list| < RecentLimit then |list| + 1 else RecentLimit
    ensures r[0] == entry
    ensures forall i :: 0 < i < |r| ==> r[i] == list[i - 1]
  {
    Take([entry] + list, RecentLimit)
  }

  /** The list after recording each of `accesses`, oldest first, onto `list`. */
  function RecordAll<T>(list: seq<T>, accesses: seq<T>): seq<T>
    decreases |accesses|
  {
    if accesses == [] then list
    else PushRecent(RecordAll(list, accesses[..|accesses| - 1]), accesses[|accesses| - 1])
  }

  /** Starting from an empty list, any run of accesses leaves exactly the ten
      most recent ones (all of them if fewer), most recent first. */
  lemma {:induction false} RecordAllKeepsMostRecent<T>(accesses: seq<T>)
    ensures var r := RecordAll([], accesses);
      && |r| == (if |accesses| < RecentLimit then |accesses| else RecentLimit)
      && forall i :: 0 <= i < |r| ==> r[i] == accesses[|accesses| - 1 - i]
    decreases |accesses|
  {
    if accesses != [] {
      var init := accesses[..|accesses| - 1];
      RecordAllKeepsMostRecent(init);
      var r := RecordAll([], accesses);
      forall i | 0 < i < |r|
        ensures r[i] == accesses[|accesses| - 1 - i]
      {
        assert r[i] == RecordAll([], init)[i - 1];
        assert init[|init| - 1 - (i - 1)] == accesses[|accesses| - 1 - i];
      }
    }
  }

  /** The user collection, updated in place by `findByIdAndUpdate`. */
  class UserStore {
    var users: map<Id, User>

    constructor (initial: map<Id, User>)
      ensures users == initial
    {
      users := initial;
    }

    /** Records a folder access on the viewer's account; an unknown viewer id
        matches no document and nothing changes. */
    method RecordFolderAccess(viewer: Id, entry: RecentFolder)
      modifies this
      ensures viewer in old(users) ==>
                users == old(users)[viewer := old(users)[viewer].(
                  recentFolders := PushRecent(old(users)[viewer].recentFolders, entry))]
      ensures viewer !in old(users) ==> users == old(users)
    {
      if viewer in users {
        var u := users[viewer];
        users := users[viewer := u.(recentFolders := PushRecent(u.recentFolders, entry))];
      }
    }

    /** Records a file download on the viewer's account, the same way. */
    method RecordFileAccess(viewer: Id, entry: RecentFile)
      modifies this
      ensures viewer in old(users) ==>
                users == old(users)[viewer := old(users)[viewer].(
                  recentFiles := PushRecent(old(users)[viewer].recentFiles, entry))]
      ensures viewer !in old(users) ==> users == old(users)
    {
      if viewer in users {
        var u := users[viewer];
        users := users[viewer := u.(recentFiles := PushRecent(u.recentFiles, entry))];
      }
    }
  }
}
