/**
 * The remote file store as the pipeline sees it: a listing of a folder, and
 * uploads. An upload without a file id creates a new file named `filename`
 * in `folder`; with a file id it replaces that file's content and ignores
 * the name and folder. The uploads a run makes are kept in order.
 */
module Drive {

  /** One entry of a folder listing (`GoogleDriveFileListTypedDict`). */
  datatype FileEntry = FileEntry(id: string, name: string)

  /** The Drive folders the pipeline writes to (their ids are configuration). */
  datatype Folder =
    | MetricsSnapshotFolder
    | MetricsFinalizedDataFolder
    | BusBreakdownSnapshotFolder
    | BreakdownViewFolder

  /** What an upload does to the store. */
  datatype Write =
    | Create(name: string, folder: Folder, content: string)
    | Update(fileId: string, content: string)

  /** The effect of `upload_file(filename, folder_id, file, file_id)`. */
  function WriteFor(filename: string, folder: Folder, content: string, fileId: string): (w: Write)
    ensures w.content == content
    ensures w.Create? <==> fileId == ""
    ensures w.Create? ==> w.name == filename && w.folder == folder
    ensures w.Update? ==> w.fileId == fileId
  {
    if fileId == "" then Create(filename, folder, content) else Update(fileId, content)
  }

  class DriveService {
    /** Every upload made through this service, oldest first. */
    var writes: seq<Write>

    constructor()
      ensures writes == []
    {
      writes := [];
    }

    method UploadFile(filename: string, folder: Folder, content: string, fileId: string)
      modifies this
      ensures writes == old(writes) + [WriteFor(filename, folder, content, fileId)]
    {
      writes := writes + [WriteFor(filename, folder, content, fileId)];
    }
  }
}
