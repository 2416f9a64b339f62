/** NoteService: the notes table as a mutable field, the three operations
    that change it, and the three that read it. Guid.Parse and Guid.ToString
    are oracles fixed when the service is built; Guid.NewGuid and
    DateTimeOffset.UtcNow are arguments. */
module NoteStore {
  import opened Wrappers
  import opened Notes
  import opened NoteQueries

  /** The listing's query parameters. GetAll rewrites the page number and
      size in place. */
  class NotesQueryRequest {
    var pageNumber: int32
    var pageSize: int32
    var category: Option<string>

    constructor (pageNumber: int32, pageSize: int32, category: Option<string>)
      ensures this.pageNumber == pageNumber && this.pageSize == pageSize
      ensures this.category == category
    {
      this.pageNumber := pageNumber;
      this.pageSize := pageSize;
      this.category := category;
    }
  }

  class NoteService {
    /** Guid.Parse: None is the FormatException it throws. */
    const parse: string -> Option<Guid>
    /** Guid.ToString */
    const format: Guid -> string
    /** The notes table: its rows in storage order. */
    var notes: seq<Note>

    /** The primary-key constraint of the table. */
    ghost predicate Valid()
      reads this
    {
      UniqueIds(notes)
    }

    /** A service over a table already holding rows. */
    constructor (parse: string -> Option<Guid>, format: Guid -> string, rows: seq<Note>)
      requires UniqueIds(rows)
      ensures Valid()
      ensures this.parse == parse && this.format == format && notes == rows
    {
      this.parse := parse;
      this.format := format;
      notes := rows;
    }

    /** CreateAsync: adds one row under the fresh id, copying the request's
        fields (nulls included), owned by the parsed user, stamped with now
        and username. An unparseable user id throws before anything is added. */
    method Create(request: CreateNoteRequest, userId: string, username: string,
                  freshId: Guid, now: Timestamp)
      returns (r: Result<Note, ServiceError>)
      requires Valid()
      requires freshId !in Ids(notes)
      modifies this
      ensures Valid()
      ensures parse(userId).None? ==> r == Failure(FormatError) && notes == old(notes)
      ensures parse(userId).Some? ==>
                && r == Success(Note(freshId, request.title, request.description, request.category,
                                     now, username, parse(userId).value))
                && notes == old(notes) + [r.value]
                && Find(notes, freshId) == Some(r.value)
                && forall id :: id != freshId ==> Find(notes, id) == Find(old(notes), id)
    {
      var owner := parse(userId);
      if owner.None? {
        return Failure(FormatError);
      }
      var note := Note(freshId, request.title, request.description, request.category,
                       now, username, owner.value);
      FindAppend(notes, note);
      notes := notes + [note];
      return Success(note);
    }

    /** UpdateAsync: a full overwrite of title, description and category
        (nulls included), with now and username as the new stamp; the id and
        the owner are kept and no other row changes. There is no ownership
        check. */
    method Update(request: UpdateNoteRequest, username: string, now: Timestamp)
      returns (r: Result<Note, ServiceError>)
      requires Valid()
      modifies this
      ensures Valid()
      ensures parse(request.id).None? ==> r == Failure(FormatError) && notes == old(notes)
      ensures parse(request.id).Some? && parse(request.id).value !in Ids(old(notes)) ==>
                r == Failure(NotFound(UpdateNotFoundMessage)) && notes == old(notes)
      ensures parse(request.id).Some? && parse(request.id).value in Ids(old(notes)) ==>
                var id := parse(request.id).value;
                && r.Success?
                && r.value == Note(id, request.title, request.description, request.category,
                                   now, username, Find(old(notes), id).value.userId)
                && |notes| == |old(notes)|
                && Find(notes, id) == Some(r.value)
                && forall other :: other != id ==> Find(notes, other) == Find(old(notes), other)
    {
      var parsed := parse(request.id);
      if parsed.None? {
        return Failure(FormatError);
      }
      var id := parsed.value;
      var found := IndexOf(notes, id);
      if found.None? {
        return Failure(NotFound(UpdateNotFoundMessage));
      }
      var i := found.value;
      FindAt(notes, i);
      var note := notes[i];
      note := note.(title := request.title);
      note := note.(description := request.description);
      note := note.(category := request.category);
      note := note.(lastUpdated := now);
      note := note.(lastUpdatedBy := username);
      FindReplace(notes, i, note);
      notes := notes[i := note];
      return Success(note);
    }

    /** DeleteAsync: removes the row stored under the id, and only it. */
    method Delete(noteId: string) returns (r: Outcome<ServiceError>)
      requires Valid()
      modifies this
      ensures Valid()
      ensures parse(noteId).None? ==> r == Fail(FormatError) && notes == old(notes)
      ensures parse(noteId).Some? && parse(noteId).value !in Ids(old(notes)) ==>
                r == Fail(NotFound(DeleteNotFoundMessage)) && notes == old(notes)
      ensures parse(noteId).Some? && parse(noteId).value in Ids(old(notes)) ==>
                var id := parse(noteId).value;
                && r == Pass
                && |notes| == |old(notes)| - 1
                && Find(notes, id) == None
                && forall other :: other != id ==> Find(notes, other) == Find(old(notes), other)
    {
      var parsed := parse(noteId);
      if parsed.None? {
        return Fail(FormatError);
      }
      var found := IndexOf(notes, parsed.value);
      if found.None? {
        return Fail(NotFound(DeleteNotFoundMessage));
      }
      var i := found.value;
      FindRemove(notes, i);
      notes := notes[..i] + notes[i + 1..];
      return Pass;
    }

    /** GetAllAsync: first normalises the page parameters in the request
        object, then lists the caller's page. The user id is parsed once,
        when the query runs, so a malformed one fails whatever the table
        holds, with the InvalidOperationException that wraps the
        FormatException. The normalisation and the offset are the corrected ones (see
        IntendedPaging and IntendedQueryPage): a page number of zero or less
        becomes 1, and the offset does not wrap. */
    method GetAll(request: NotesQueryRequest, userId: string)
      returns (r: Result<PagedResult, ServiceError>)
      modifies request
      ensures (request.pageNumber, request.pageSize) ==
              IntendedPaging(old(request.pageNumber), old(request.pageSize))
      ensures request.category == old(request.category)
      ensures parse(userId).None? ==> r == Failure(QueryParameterError)
      ensures parse(userId).Some? ==>
                r == Success(IntendedQueryPage(notes, parse(userId).value, request.category,
                                               old(request.pageNumber), old(request.pageSize)))
    {
      if request.pageSize <= 0 {
        request.pageSize := 10;
      }
      if request.pageNumber <= 0 {
        request.pageNumber := 1;
      }
      var owner := parse(userId);
      if owner.None? {
        return Failure(QueryParameterError);
      }
      return Success(Page(notes, owner.value, request.category, request.pageNumber,
                          request.pageSize, PageStart(request.pageNumber, request.pageSize)));
    }

    /** GetCategoriesAsync: each non-empty category of the caller's rows,
        once. As in GetAll, a malformed user id fails when the query's
        parameters are evaluated. */
    function GetCategories(userId: string): (r: Result<seq<string>, ServiceError>)
      reads this
      ensures parse(userId).None? ==> r == Failure(QueryParameterError)
      ensures parse(userId).Some? ==> r.Success?
      ensures r.Success? ==>
                && parse(userId).Some?
                && (forall c :: c in r.value <==> UsesCategory(notes, parse(userId).value, c))
                && (forall i, j :: 0 <= i < j < |r.value| ==> r.value[i] != r.value[j])
    {
      match parse(userId)
      case None => Failure(QueryParameterError)
      case Some(owner) =>
        CategoriesOfExact(notes, owner);
        Success(CategoriesOf(notes, owner))
    }

    /** GetByIdAsync: the projection of the row stored under the id, whoever
        owns it. */
    function GetById(id: string): (r: Result<NoteDetails, ServiceError>)
      reads this
      ensures parse(id).None? ==> r == Failure(FormatError)
      ensures parse(id).Some? ==> (r.Success? <==> parse(id).value in Ids(notes))
      ensures parse(id).Some? && r.Failure? ==> r.error == NotFound(GetByIdNotFoundMessage)
      ensures r.Success? ==>
                && parse(id).Some? && Find(notes, parse(id).value).Some?
                && var n := Find(notes, parse(id).value).value;
                && r.value.id == format(n.id)
                && r.value.title == n.title
                && r.value.description == n.description
                && r.value.category == n.category
                && r.value.lastUpdated == n.lastUpdated
                && r.value.lastUpdatedBy == n.lastUpdatedBy
    {
      match parse(id)
      case None => Failure(FormatError)
      case Some(key) =>
        match Find(notes, key)
        case None => Failure(NotFound(GetByIdNotFoundMessage))
        case Some(n) =>
          Success(NoteDetails(format(n.id), n.title, n.description, n.category,
                              n.lastUpdated, n.lastUpdatedBy))
    }
  }

  /** Creating a note and then reading it back by the text of its id gives
      its title, description, category, stamp and editor; a failed create
      leaves nothing to read. */
  method CreateThenGetById(service: NoteService, request: CreateNoteRequest, userId: string,
                           username: string, freshId: Guid, now: Timestamp)
    returns (created: Result<Note, ServiceError>, details: Result<NoteDetails, ServiceError>)
    requires service.Valid() && freshId !in Ids(service.notes)
    requires service.parse(service.format(freshId)) == Some(freshId)
    modifies service
    ensures service.Valid()
    ensures service.parse(userId).Some? ==>
              && created.Success? && created.value.id == freshId
              && details == Success(NoteDetails(service.format(freshId), request.title,
                                                request.description, request.category, now, username))
    ensures service.parse(userId).None? ==>
              created == Failure(FormatError) && details == Failure(NotFound(GetByIdNotFoundMessage))
  {
    created := service.Create(request, userId, username, freshId, now);
    details := service.GetById(service.format(freshId));
  }

  /** The request of NoteServiceTests.cs:446-478 (page 0, size -5) against
      a table holding one row of the user: the listing reports page 1 and
      page size 10, and returns that row, as the test expects. */
  method InvalidPagingCase(service: NoteService, userId: string)
    returns (r: Result<PagedResult, ServiceError>)
    requires service.parse(userId).Some?
    requires |Matching(service.notes, service.parse(userId).value, None)| == 1
    ensures r.Success? && r.value.pageSize == 10 && r.value.pageNumber == 1
    ensures |r.value.items| == 1
    ensures r.value.items == Newest(service.notes, service.parse(userId).value, None)
  {
    var request := new NotesQueryRequest(0, -5, None);
    r := service.GetAll(request, userId);
    IntendedPagingMatchesTest(service.notes, service.parse(userId).value, None);
  }
}
