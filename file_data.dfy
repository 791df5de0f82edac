/** The file record both upload components receive (the `FileData` interface). */
module FileData {

  /**
   * One row of the `files` table. `createdAt` is the creation time as a
   * number of milliseconds since the epoch, the value the components obtain
   * by parsing `created_at`.
   */
  datatype FileRecord = FileRecord(
    id: string,
    filePath: string,
    fileType: string,
    originalName: string,
    createdAt: int)
}
