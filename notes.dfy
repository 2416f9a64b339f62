/** The entities the note service reads and writes: the persisted note row,
    the request bodies and the responses built from it. */
module Notes {
  import opened Wrappers

  /** A System.Guid: a 128-bit value. */
  newtype Guid = x: int | 0 <= x < 0x1_0000_0000_0000_0000_0000_0000_0000_0000

  /** A C# int. */
  newtype int32 = x: int | -0x8000_0000 <= x < 0x8000_0000

  const Int32Min: int32 := -0x8000_0000
  const Int32Max: int32 := 0x7fff_ffff

  /** A DateTimeOffset, as the instant it denotes (ticks since an epoch).
      Offsets compare by instant, so only the instant is kept. */
  type Timestamp = int

  /** A row of the notes table. */
  datatype Note = Note(
    id: Guid,
    title: string,
    description: Option<string>,
    category: Option<string>,
    lastUpdated: Timestamp,
    lastUpdatedBy: string,
    userId: Guid)

  /** Body of a create request. */
  datatype CreateNoteRequest = CreateNoteRequest(
    title: string,
    description: Option<string>,
    category: Option<string>)

  /** Body of an update request; the id is the note's id as text. */
  datatype UpdateNoteRequest = UpdateNoteRequest(
    id: string,
    title: string,
    description: Option<string>,
    category: Option<string>)

  /** The projection returned by a lookup by id. */
  datatype NoteDetails = NoteDetails(
    id: string,
    title: string,
    description: Option<string>,
    category: Option<string>,
    lastUpdated: Timestamp,
    lastUpdatedBy: string)

  /** One page of a listing, with the size of the whole filtered set and the
      page parameters the listing actually used. */
  datatype PagedResult = PagedResult(
    items: seq<Note>,
    totalCount: int,
    pageNumber: int32,
    pageSize: int32)

  /** The exceptions the service lets escape: FormatException from a direct
      Guid.Parse; the InvalidOperationException Entity Framework raises when
      evaluating a query parameter throws, here a FormatException from
      Guid.Parse inside a query; and InvalidOperationException with its
      message. */
  datatype ServiceError = FormatError | QueryParameterError | NotFound(message: string)

  const UpdateNotFoundMessage: string := "Note is not found!"
  const DeleteNotFoundMessage: string := "Note not found!"
  const GetByIdNotFoundMessage: string := "Note not found"

  /** string.IsNullOrEmpty */
  predicate IsNullOrEmpty(s: Option<string>) {
    s.None? || s.value == ""
  }
}
