/**
  The remote Drive service, abstracted as an immutable map from file id to the
  metadata the service would return for it. An id that is not in the map is
  one whose lookup fails with an HTTP error.
 */
module DriveModel {
  import opened Wrappers
  import OwnerNames

  type FileId = string

  /** The MIME type the Drive API reports for folders. */
  const FolderMimeType: string := "application/vnd.google-apps.folder"

  /**
    What the service knows about one file: its MIME type, the display names of
    its owners, and its children listing split into the pages the listing
    call returns them in.
   */
  datatype FileRecord = FileRecord(mimeType: string, ownerNames: seq<string>, childPages: seq<seq<FileId>>)

  type Drive = map<FileId, FileRecord>

  predicate IsFolderRecord(f: FileRecord) {
    f.mimeType == FolderMimeType
  }

  /** The items of the first page of a children listing (a listing with no pages has no items). */
  function FirstPage(f: FileRecord): seq<FileId> {
    if |f.childPages| == 0 then [] else f.childPages[0]
  }

  /** Every child, over all pages of the listing, in page order. */
  function AllChildren(f: FileRecord): seq<FileId> {
    Flatten(f.childPages)
  }

  function Flatten<T>(pages: seq<seq<T>>): seq<T> {
    if |pages| == 0 then [] else pages[0] + Flatten(pages[1..])
  }

  /** The first page is a prefix of the whole listing, and all of it when there is at most one page. */
  lemma FirstPageIsPrefix(f: FileRecord)
    ensures FirstPage(f) <= AllChildren(f)
    ensures |f.childPages| <= 1 ==> FirstPage(f) == AllChildren(f)
  {
    if |f.childPages| == 1 {
      assert Flatten(f.childPages[1..]) == [];
      assert AllChildren(f) == f.childPages[0] + [];
    }
  }

  /** `files().get(fileId=id)`: the record, or None when the call fails. */
  function GetFile(drive: Drive, id: FileId): (r: Option<FileRecord>)
    ensures r.Some? <==> id in drive
    ensures r.Some? ==> r.value == drive[id]
  {
    if id in drive then Some(drive[id]) else None
  }

  /**
    `is_folder`: whether the file's MIME type is the folder type; a failing
    lookup is caught and reads as "not a folder".
   */
  function IsFolder(drive: Drive, id: FileId): (b: bool)
    ensures b <==> id in drive && IsFolderRecord(drive[id])
  {
    match GetFile(drive, id)
    case None => false
    case Some(f) => IsFolderRecord(f)
  }

  /**
    One traversal result: the file resource the service returned, annotated
    with `ownerNameString`.
   */
  datatype Entry = Entry(id: FileId, mimeType: string, ownerNames: seq<string>, ownerNameString: string)

  function ToEntry(id: FileId, f: FileRecord): Entry {
    Entry(id, f.mimeType, f.ownerNames, OwnerNames.Join(f.ownerNames))
  }

  /** The entry is exactly what the service holds for its id, with the joined owner names. */
  ghost predicate Describes(drive: Drive, e: Entry) {
    e.id in drive && e == ToEntry(e.id, drive[e.id])
  }
}
