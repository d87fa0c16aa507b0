/** The academic calendar routes: GET shows the newest active calendar with
    its image URL; an upload replaces it, deactivating every earlier record
    and reclaiming their image files before inserting the new active one.
    The calendar collection is the `records` field of a CalendarStore. The
    upload directory is given as the set of paths on disk and the set of
    paths whose removal throws; the paths actually removed are returned. */
module AcademicCalendar {
  import opened Common
  import opened CalendarModel

  /** `${protocol}://${host}/uploads/${fileName}`. */
  function ImageUrl(protocol: string, host: string, fileName: string): string {
    protocol + "://" + host + "/uploads/" + fileName
  }

  /** The URL is the request's origin, the static uploads prefix and then the
      file name, so the file name can be read back off its end. */
  lemma ImageUrlEndsWithFileName(protocol: string, host: string, fileName: string)
    ensures var url := ImageUrl(protocol, host, fileName);
      && |url| == |protocol| + |host| + |fileName| + 12
      && StartsWith(url, protocol + "://" + host + "/uploads/")
      && url[|url| - |fileName|..] == fileName
  {
    var prefix := protocol + "://" + host + "/uploads/";
    var url := ImageUrl(protocol, host, fileName);
    assert url == prefix + fileName;
    assert url[..|prefix|] == prefix;
    assert url[|prefix|..] == fileName;
  }

  /** The MIME check of the upload route. */
  predicate IsImage(upload: UploadMeta) {
    StartsWith(upload.mimeType, "image/")
  }

  /** A calendar as GET and upload answer it: the record and its image URL. */
  datatype CalendarView = CalendarView(calendar: Calendar, imageUrl: string)

  // ---------------------------------------------------------------------------
  // Deactivation and reclamation

  /** `updateMany({isActive: true}, {isActive: false})`. */
  function Deactivated(rs: seq<Calendar>): (r: seq<Calendar>)
    ensures |r| == |rs|
    ensures forall k :: 0 <= k < |rs| ==> r[k] == rs[k].(isActive := false)
  {
    seq(|rs|, k requires 0 <= k < |rs| => rs[k].(isActive := false))
  }

  /** A calendar whose stored image file is still on disk. */
  predicate Reclaimable(c: Calendar, disk: set<string>) {
    StoredPath(c).Some? && StoredPath(c).value in disk
  }

  /** How the sweep over the inactive records ends: whether every removal
      succeeded, what is left on disk, and the paths removed, in order. */
  datatype Sweep = Sweep(ok: bool, disk: set<string>, removed: seq<string>)

  /** The `forEach` over the inactive records: each record whose file still
      exists has it removed; a removal that throws ends the sweep. */
  function SweepFrom(rs: seq<Calendar>, disk: set<string>, failing: set<string>): Sweep
    decreases |rs|
  {
    if rs == [] then Sweep(true, disk, [])
    else if Reclaimable(rs[0], disk) then
      var p := StoredPath(rs[0]).value;
      if p in failing then Sweep(false, disk, [])
      else
        var rest := SweepFrom(rs[1..], disk - {p}, failing);
        Sweep(rest.ok, rest.disk, [p] + rest.removed)
    else SweepFrom(rs[1..], disk, failing)
  }

  predicate Distinct(xs: seq<string>) {
    forall a, b :: 0 <= a < b < |xs| ==> xs[a] != xs[b]
  }

  /** What a sweep may do to the disk: remove each path at most once, only
      paths that were there and could be removed, and nothing else. */
  ghost predicate RemovesExactly(s: Sweep, disk: set<string>, failing: set<string>) {
    && Distinct(s.removed)
    && (forall x :: x in s.removed ==> x in disk && x !in failing)
    && (forall x :: x in s.disk <==> x in disk && x !in s.removed)
  }

  /** The sweep removes each path at most once, only paths that were on disk
      and could be removed, and the disk afterwards is the disk before less
      exactly those paths. */
  lemma {:induction false} SweepRemovesEachPathOnce(rs: seq<Calendar>, disk: set<string>, failing: set<string>)
    ensures RemovesExactly(SweepFrom(rs, disk, failing), disk, failing)
    decreases |rs|
  {
    if rs != [] {
      var s := SweepFrom(rs, disk, failing);
      if Reclaimable(rs[0], disk) {
        var p := StoredPath(rs[0]).value;
        if p !in failing {
          SweepRemovesEachPathOnce(rs[1..], disk - {p}, failing);
          var rest := SweepFrom(rs[1..], disk - {p}, failing);
          assert s.removed == [p] + rest.removed && s.disk == rest.disk;
          assert p !in rest.removed;
          forall a, b | 0 <= a < b < |s.removed|
            ensures s.removed[a] != s.removed[b]
          {
            if a == 0 {
              assert s.removed[b] == rest.removed[b - 1] && rest.removed[b - 1] in rest.removed;
            } else {
              assert s.removed[a] == rest.removed[a - 1] && s.removed[b] == rest.removed[b - 1];
            }
          }
          forall x | x in s.removed
            ensures x in disk && x !in failing
          {
            if x != p {
              assert x in rest.removed;
            }
          }
        }
      } else {
        SweepRemovesEachPathOnce(rs[1..], disk, failing);
        assert s == SweepFrom(rs[1..], disk, failing);
      }
    }
  }

  /** The sweep completes exactly when no reclaimable record's path is one
      whose removal throws, and then every reclaimable record's file is gone. */
  lemma {:induction false} SweepReclaimsEveryOldImage(rs: seq<Calendar>, disk: set<string>, failing: set<string>)
    ensures SweepFrom(rs, disk, failing).ok <==>
              forall k :: 0 <= k < |rs| && Reclaimable(rs[k], disk) ==> StoredPath(rs[k]).value !in failing
    ensures SweepFrom(rs, disk, failing).ok ==>
              forall k :: 0 <= k < |rs| && Reclaimable(rs[k], disk) ==>
                StoredPath(rs[k]).value in SweepFrom(rs, disk, failing).removed
    decreases |rs|
  {
    if rs != [] {
      var tail := rs[1..];
      assert forall k :: 1 <= k < |rs| ==> rs[k] == tail[k - 1];
      if Reclaimable(rs[0], disk) {
        var p := StoredPath(rs[0]).value;
        if p !in failing {
          SweepReclaimsEveryOldImage(tail, disk - {p}, failing);
          forall k | 1 <= k < |rs| && Reclaimable(rs[k], disk) && StoredPath(rs[k]).value != p
            ensures Reclaimable(tail[k - 1], disk - {p})
          {
          }
        }
      } else {
        SweepReclaimsEveryOldImage(tail, disk, failing);
      }
    }
  }

  /** A sweep result preceded by paths removed earlier. */
  function After(earlier: seq<string>, s: Sweep): Sweep {
    Sweep(s.ok, s.disk, earlier + s.removed)
  }

  // ---------------------------------------------------------------------------
  // The newest active record

  /** `findOne({isActive: true}).sort({createdAt: -1})`: an active record with
      the latest creation time. Among equal times the earliest in store order
      is taken; the database leaves that choice open. */
  function NewestActive(rs: seq<Calendar>): (r: Option<nat>)
    ensures r.Some? ==> r.value < |rs|
    decreases |rs|
  {
    if rs == [] then None
    else
      var n := |rs| - 1;
      match NewestActive(rs[..n])
      case None => if rs[n].isActive then Some(n) else None
      case Some(k) => if rs[n].isActive && rs[k].createdAt < rs[n].createdAt then Some(n) else Some(k)
  }

  lemma {:induction false} NewestActiveIsLatest(rs: seq<Calendar>)
    ensures NewestActive(rs).None? <==> forall k :: 0 <= k < |rs| ==> !rs[k].isActive
    ensures NewestActive(rs).Some? ==>
              var k := NewestActive(rs).value;
              rs[k].isActive && forall m :: 0 <= m < |rs| && rs[m].isActive ==> rs[m].createdAt <= rs[k].createdAt
    decreases |rs|
  {
    if rs != [] {
      var n := |rs| - 1;
      NewestActiveIsLatest(rs[..n]);
      assert forall m :: 0 <= m < n ==> rs[..n][m] == rs[m];
    }
  }

  /** After an upload the new record is the only active one, so GET finds it,
      whatever the clock said when the others were created. */
  lemma UploadedCalendarIsTheOnlyActive(rs: seq<Calendar>, c: Calendar)
    requires c.isActive
    ensures var after := Deactivated(rs) + [c];
      && (forall k :: 0 <= k < |after| ==> (after[k].isActive <==> k == |rs|))
      && NewestActive(after) == Some(|rs|)
  {
    var after := Deactivated(rs) + [c];
    assert forall k :: 0 <= k < |rs| ==> after[k] == rs[k].(isActive := false);
    NewestActiveIsLatest(after);
  }

  /** Only the last record may be active, which is at most one. */
  predicate ActiveIsLast(rs: seq<Calendar>) {
    forall k :: 0 <= k < |rs| && rs[k].isActive ==> k == |rs| - 1
  }

  // ---------------------------------------------------------------------------
  // The calendar collection

  class CalendarStore {
    var records: seq<Calendar>
    var nextId: Id

    ghost predicate Valid()
      reads this
    {
      ActiveIsLast(records) && forall k :: 0 <= k < |records| ==> records[k].id < nextId
    }

    constructor ()
      ensures Valid() && records == []
    {
      records := [];
      nextId := 0;
    }

    /** GET /: the newest active calendar with its URL, or none when there is
        no active record or it has no image file name. */
    method Current(protocol: string, host: string) returns (view: Option<CalendarView>)
      ensures view.Some? ==>
                NewestActive(records).Some?
                && var c := records[NewestActive(records).value];
                   ShownFileName(c).Some? && view.value == CalendarView(c, ImageUrl(protocol, host, ShownFileName(c).value))
      ensures view.None? ==>
                NewestActive(records).None? || ShownFileName(records[NewestActive(records).value]).None?
      ensures view.Some? ==>
                view.value.calendar.isActive
                && forall m :: 0 <= m < |records| && records[m].isActive ==>
                     records[m].createdAt <= view.value.calendar.createdAt
    {
      NewestActiveIsLatest(records);
      var pick := NewestActive(records);
      if pick.None? {
        return None;
      }
      var c := records[pick.value];
      var name := ShownFileName(c);
      if name.None? {
        return None;
      }
      view := Some(CalendarView(c, ImageUrl(protocol, host, name.value)));
    }

    /** POST /upload. A missing file or a non-image is refused (the non-image
        is removed from disk first). Otherwise every record is deactivated, the
        files of all inactive records are reclaimed, and the new record is
        inserted active. A removal that throws ends the request with a server
        error after the deactivation. */
    method Upload(caller: Id, upload: Option<UploadMeta>, protocol: string, host: string,
                  disk: set<string>, failing: set<string>, now: nat)
      returns (r: Result<CalendarView>, removed: seq<string>)
      requires Valid()
      modifies this
      ensures Valid()
      ensures upload.None? ==> r == Err(NoFileUploaded) && removed == [] && records == old(records)
      ensures upload.Some? && !IsImage(upload.value) ==>
                var p := upload.value.path;
                records == old(records)
                && (r == Err(ServerError) <==> p in disk && p in failing)
                && (r != Err(ServerError) ==> r == Err(NotAnImage))
                && removed == (if p in disk && p !in failing then [p] else [])
      ensures upload.Some? && IsImage(upload.value) ==>
                var s := SweepFrom(Deactivated(old(records)), disk, failing);
                var c := NewCalendar(old(nextId), upload.value, caller, now);
                removed == s.removed
                && (s.ok ==> r == Ok(CalendarView(c, ImageUrl(protocol, host, upload.value.fileName)))
                             && records == Deactivated(old(records)) + [c])
                && (!s.ok ==> r == Err(ServerError) && records == Deactivated(old(records)))
    {
      removed := [];
      if upload.None? {
        return Err(NoFileUploaded), [];
      }
      var file := upload.value;
      if !IsImage(file) {
        if file.path in disk {
          if file.path in failing {
            return Err(ServerError), [];
          }
          removed := [file.path];
        }
        return Err(NotAnImage), removed;
      }
      records := Deactivated(records);
      var ok, left;
      ok, left, removed := Reclaim(disk, failing);
      if !ok {
        return Err(ServerError), removed;
      }
      var c := NewCalendar(nextId, file, caller, now);
      records := records + [c];
      nextId := nextId + 1;
      r := Ok(CalendarView(c, ImageUrl(protocol, host, file.fileName)));
    }

    /** The reclamation loop over the (now all inactive) records. */
    method Reclaim(disk: set<string>, failing: set<string>) returns (ok: bool, left: set<string>, removed: seq<string>)
      ensures Sweep(ok, left, removed) == SweepFrom(records, disk, failing)
    {
      ok, left, removed := true, disk, [];
      var i := 0;
      while i < |records|
        invariant 0 <= i <= |records|
        invariant SweepFrom(records, disk, failing) == After(removed, SweepFrom(records[i..], left, failing))
      {
        var c := records[i];
        assert records[i..][1..] == records[i + 1..];
        if Reclaimable(c, left) {
          var p := StoredPath(c).value;
          if p in failing {
            return false, left, removed;
          }
          assert (removed + [p]) + SweepFrom(records[i + 1..], left - {p}, failing).removed
                 == removed + ([p] + SweepFrom(records[i + 1..], left - {p}, failing).removed);
          left := left - {p};
          removed := removed + [p];
        }
        i := i + 1;
      }
      assert removed + [] == removed;
    }
  }
}
