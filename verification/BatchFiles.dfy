/** The batch upload list of main-two.py: `BatchFileManager` keeps one record
    per uploaded file in the session and changes that list in place. */
module BatchFiles {
  import opened Common

  /** `FileStatus` (main-two.py:33-37). */
  datatype FileStatus = Pending | Processing | Completed | Failed

  /** The label each status is stored under. */
  function StatusLabel(s: FileStatus): string {
    match s
    case Pending => "待处理"
    case Processing => "处理中"
    case Completed => "已完成"
    case Failed => "失败"
  }

  /** Records store the label, so the labels must tell the statuses apart. */
  lemma StatusLabelsDistinct(s: FileStatus, t: FileStatus)
    ensures StatusLabel(s) == StatusLabel(t) <==> s == t
  {
    if s != t {
      assert StatusLabel(s)[0] != StatusLabel(t)[0] || |StatusLabel(s)| != |StatusLabel(t)|;
    }
  }

  /** An uploaded file as the upload widget hands it over. */
  datatype Upload = Upload(name: string, size: nat)

  /** The two clock readings taken for one upload: the raw timestamp that
      goes into the id, and the formatted upload time. */
  datatype Clock = Clock(timestamp: string, formatted: string)

  /** One entry of the batch list. */
  datatype FileRecord = FileRecord(
    id: string,
    name: string,
    size: nat,
    status: FileStatus,
    uploadTime: string,
    errorMsg: Option<string>,
    resultPath: Option<string>)

  /** The record `add_files` builds for one upload. */
  function NewRecord(u: Upload, c: Clock): FileRecord {
    FileRecord(u.name + "_" + c.timestamp, u.name, u.size, Pending, c.formatted, None, None)
  }

  /** The records for a run of uploads, in upload order. */
  function NewRecords(us: seq<Upload>, cs: seq<Clock>): (r: seq<FileRecord>)
    requires |cs| == |us|
    ensures |r| == |us|
    decreases |us|
  {
    if us == [] then []
    else NewRecords(us[..|us| - 1], cs[..|cs| - 1]) + [NewRecord(us[|us| - 1], cs[|cs| - 1])]
  }

  /** One record per upload, in upload order, each pending with no error
      message and no result path, named and sized after its upload. */
  lemma {:induction false} NewRecordsArePending(us: seq<Upload>, cs: seq<Clock>)
    requires |cs| == |us|
    ensures |NewRecords(us, cs)| == |us|
    ensures forall k :: 0 <= k < |us| ==>
      var r := NewRecords(us, cs)[k];
      r.name == us[k].name && r.size == us[k].size && r.status == Pending
      && r.errorMsg.None? && r.resultPath.None?
      && r.id == us[k].name + "_" + cs[k].timestamp && r.uploadTime == cs[k].formatted
    decreases |us|
  {
    if us != [] {
      NewRecordsArePending(us[..|us| - 1], cs[..|cs| - 1]);
    }
  }

  function HasStatus(status: FileStatus): FileRecord -> bool {
    (f: FileRecord) => f.status == status
  }

  function HasOtherId(id: string): FileRecord -> bool {
    (f: FileRecord) => f.id != id
  }

  function NotCompleted(): FileRecord -> bool {
    (f: FileRecord) => f.status != Completed
  }

  /** `get_files_by_status`: exactly the records with that status, each as
      often as it is listed, in list order. */
  function FilesWithStatus(files: seq<FileRecord>, status: FileStatus): (r: seq<FileRecord>)
    ensures forall f :: f in r <==> f in files && f.status == status
    ensures forall f :: multiset(r)[f] == if f.status == status then multiset(files)[f] else 0
  {
    var r := Filter(files, HasStatus(status));
    forall f ensures (f in r <==> f in files && f.status == status)
      && multiset(r)[f] == if f.status == status then multiset(files)[f] else 0
    {
      FilterMembership(files, HasStatus(status), f);
      FilterMultiplicity(files, HasStatus(status), f);
    }
    r
  }

  /** The list after `remove_file(id)`: no record with that id is left, and
      every other record stays, as often as before, in list order. */
  function WithoutId(files: seq<FileRecord>, id: string): (r: seq<FileRecord>)
    ensures forall f :: f in r <==> f in files && f.id != id
    ensures forall f :: multiset(r)[f] == if f.id != id then multiset(files)[f] else 0
  {
    var r := Filter(files, HasOtherId(id));
    forall f ensures (f in r <==> f in files && f.id != id)
      && multiset(r)[f] == if f.id != id then multiset(files)[f] else 0
    {
      FilterMembership(files, HasOtherId(id), f);
      FilterMultiplicity(files, HasOtherId(id), f);
    }
    r
  }

  /** The list after `clear_completed()`: exactly the completed records go,
      the others stay, as often as before, in list order. */
  function WithoutCompleted(files: seq<FileRecord>): (r: seq<FileRecord>)
    ensures forall f :: f in r <==> f in files && f.status != Completed
    ensures forall f :: multiset(r)[f] == if f.status != Completed then multiset(files)[f] else 0
  {
    var r := Filter(files, NotCompleted());
    forall f ensures (f in r <==> f in files && f.status != Completed)
      && multiset(r)[f] == if f.status != Completed then multiset(files)[f] else 0
    {
      FilterMembership(files, NotCompleted(), f);
      FilterMultiplicity(files, NotCompleted(), f);
    }
    r
  }

  /** Removing and clearing keep the surviving records in their relative
      order: filtering a list that was built by appending is the same as
      filtering each part. */
  lemma FilteringKeepsOrder(front: seq<FileRecord>, back: seq<FileRecord>, id: string, status: FileStatus)
    ensures WithoutId(front + back, id) == WithoutId(front, id) + WithoutId(back, id)
    ensures WithoutCompleted(front + back) == WithoutCompleted(front) + WithoutCompleted(back)
    ensures FilesWithStatus(front + back, status) == FilesWithStatus(front, status) + FilesWithStatus(back, status)
  {
    FilterAppend(front, back, HasOtherId(id));
    FilterAppend(front, back, NotCompleted());
    FilterAppend(front, back, HasStatus(status));
  }

  /** Position of the first record with the given id. */
  function FirstWithId(files: seq<FileRecord>, id: string): (r: Option<nat>)
    ensures r.Some? ==> r.value < |files| && files[r.value].id == id
    ensures r.Some? ==> forall k :: 0 <= k < r.value ==> files[k].id != id
    ensures r.None? ==> forall k :: 0 <= k < |files| ==> files[k].id != id
  {
    if files == [] then None
    else if files[0].id == id then Some(0)
    else match FirstWithId(files[1..], id)
      case None => None
      case Some(k) => Some(k + 1)
  }

  /** The in-place change `update_file_status` makes to one record: the
      status always, the error message and the result path only when the
      new value is truthy. */
  function Updated(f: FileRecord, status: FileStatus, errorMsg: Option<string>, resultPath: Option<string>): FileRecord {
    f.(status := status,
       errorMsg := if Truthy(errorMsg) then errorMsg else f.errorMsg,
       resultPath := if Truthy(resultPath) then resultPath else f.resultPath)
  }

  /** The list after `update_file_status`. */
  function UpdatedFirst(files: seq<FileRecord>, id: string, status: FileStatus,
                        errorMsg: Option<string>, resultPath: Option<string>): (r: seq<FileRecord>)
    ensures |r| == |files|
    ensures forall k :: 0 <= k < |r| ==> r[k].id == files[k].id && r[k].name == files[k].name
  {
    match FirstWithId(files, id)
    case None => files
    case Some(i) => files[i := Updated(files[i], status, errorMsg, resultPath)]
  }

  /** No record with the id comes before position `k`. */
  predicate NoneBefore(files: seq<FileRecord>, id: string, k: nat)
    requires k <= |files|
  {
    forall j :: 0 <= j < k ==> files[j].id != id
  }

  /** Only the first record with the id may change, and an unknown id
      changes nothing. That record takes the new status, and keeps its old
      error message and result path wherever the new one is falsy. No record
      changes its id, name, size or upload time. */
  lemma UpdateTouchesOnlyFirstMatch(files: seq<FileRecord>, id: string, status: FileStatus,
                                    errorMsg: Option<string>, resultPath: Option<string>)
    ensures var r := UpdatedFirst(files, id, status, errorMsg, resultPath);
      |r| == |files|
      && (forall k :: 0 <= k < |files| ==>
            r[k] == files[k] || (files[k].id == id && NoneBefore(files, id, k)))
      && (forall k :: 0 <= k < |files| && files[k].id == id && NoneBefore(files, id, k) ==>
            r[k].status == status
            && r[k].errorMsg == (if Truthy(errorMsg) then errorMsg else files[k].errorMsg)
            && r[k].resultPath == (if Truthy(resultPath) then resultPath else files[k].resultPath))
      && (forall k :: 0 <= k < |files| ==>
            r[k].id == files[k].id && r[k].name == files[k].name && r[k].size == files[k].size
            && r[k].uploadTime == files[k].uploadTime)
      && (NoneBefore(files, id, |files|) ==> r == files)
  {
    match FirstWithId(files, id)
    case None =>
    case Some(i) =>
      forall k | 0 <= k < |files| && files[k].id == id && NoneBefore(files, id, k) ensures k == i {
      }
  }

  /** `BatchFileManager`: the list `st.session_state.batch_files`. */
  class BatchFileManager {
    var files: seq<FileRecord>

    /** `__init__`: keep the list the session already holds, or start empty. */
    constructor(session: Option<seq<FileRecord>>)
      ensures files == if session.Some? then session.value else []
    {
      files := if session.Some? then session.value else [];
    }

    /** `add_files`: append one pending record per upload. */
    method AddFiles(uploads: seq<Upload>, clock: seq<Clock>)
      requires |clock| == |uploads|
      modifies this
      ensures files == old(files) + NewRecords(uploads, clock)
    {
      for k := 0 to |uploads|
        invariant files == old(files) + NewRecords(uploads[..k], clock[..k])
      {
        assert uploads[..k + 1][..k] == uploads[..k];
        assert clock[..k + 1][..k] == clock[..k];
        files := files + [NewRecord(uploads[k], clock[k])];
      }
      assert uploads[..|uploads|] == uploads && clock[..|clock|] == clock;
    }

    /** `get_files_by_status`. */
    method GetFilesByStatus(status: FileStatus) returns (r: seq<FileRecord>)
      ensures r == FilesWithStatus(files, status)
    {
      r := [];
      for k := 0 to |files|
        invariant r == Filter(files[..k], HasStatus(status))
      {
        FilterAppend(files[..k], [files[k]], HasStatus(status));
        assert files[..k + 1] == files[..k] + [files[k]];
        assert [files[k]][1..] == [];
        if files[k].status == status {
          r := r + [files[k]];
        }
      }
      assert files[..|files|] == files;
    }

    /** `update_file_status`: change the first record with the id and stop. */
    method UpdateFileStatus(fileId: string, status: FileStatus, errorMsg: Option<string>, resultPath: Option<string>)
      modifies this
      ensures files == UpdatedFirst(old(files), fileId, status, errorMsg, resultPath)
    {
      var i := 0;
      while i < |files|
        invariant i <= |files| && files == old(files)
        invariant forall k :: 0 <= k < i ==> files[k].id != fileId
      {
        if files[i].id == fileId {
          assert FirstWithId(files, fileId) == Some(i);
          files := files[i := Updated(files[i], status, errorMsg, resultPath)];
          return;
        }
        i := i + 1;
      }
    }

    /** `remove_file`. */
    method RemoveFile(fileId: string)
      modifies this
      ensures files == WithoutId(old(files), fileId)
    {
      files := WithoutId(files, fileId);
    }

    /** `clear_completed`. */
    method ClearCompleted()
      modifies this
      ensures files == WithoutCompleted(old(files))
    {
      files := WithoutCompleted(files);
    }
  }
}
