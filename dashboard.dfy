/**
  The dashboard page (frontend/app/dashboard/page.tsx): the list of analysed
  websites held in component state, the client-side search filter, and the
  edit, save and delete handlers that change that state.

  The `fetch` calls are not performed: each handler receives the outcome of
  its request as a parameter. React's state setters are modelled as field
  assignments that take effect at once.
*/
module Dashboard {
  import opened Wrappers
  import opened Text
  import opened Lists

  /** The `Website` interface of the page. */
  datatype Website = Website(id: string, brandname: string, description: string, timestamp: string, url: Option<string>)

  /** What a thrown value can be, as far as a `catch` clause here looks at it. */
  datatype Thrown = ErrorObject(message: string) | OtherValue

  /** The outcome of a `fetch` for a save or delete: a response with its `ok` flag, or a rejection. */
  datatype FetchOutcome = Responded(ok: bool) | Rejected(reason: Thrown)

  /** The outcome of the list request in `fetchWebsites`. */
  datatype LoadOutcome = Loaded(data: seq<Website>) | LoadNotOk | LoadRejected(reason: Thrown)

  /** What the table card shows. */
  datatype TableView = Spinner | Notice(text: string) | Rows(rows: seq<Website>)

  const SaveFailedMessage := "Failed to update website"
  const SaveFallbackMessage := "Failed to update"
  const DeleteFailedMessage := "Failed to delete website"
  const DeleteFallbackMessage := "Failed to delete"
  const LoadFailedMessage := "Failed to fetch websites"
  const LoadFallbackMessage := "An error occurred"
  const NoMatchNotice := "No websites match your search."
  const NothingYetNotice := "No websites analyzed yet."

  /**
    The text `catch (err)` stores with `setError`: the message of an Error, or
    the handler's fallback for any other thrown value.
  */
  function CaughtText(e: Thrown, fallback: string): (text: string)
    ensures e.ErrorObject? ==> text == e.message
    ensures e.OtherValue? ==> text == fallback
  {
    match e
    case ErrorObject(m) => m
    case OtherValue => fallback
  }

  /**
    The value a handler's `try` block throws for a request outcome: nothing for
    an ok response, `new Error(notOk)` for a response that is not ok, and the
    rejection reason otherwise.
  */
  function Raised(outcome: FetchOutcome, notOk: string): (thrown: Option<Thrown>)
    ensures thrown.None? <==> outcome == Responded(true)
    ensures outcome == Responded(false) ==> thrown == Some(ErrorObject(notOk))
    ensures outcome.Rejected? ==> thrown == Some(outcome.reason)
  {
    match outcome
    case Responded(ok) => if ok then None else Some(ErrorObject(notOk))
    case Rejected(e) => Some(e)
  }

  // ---------------------------------------------------------------------------
  // The search filter

  /** The predicate passed to `websites.filter` in `filteredWebsites`. */
  predicate Matches(w: Website, term: string)
    ensures term == "" ==> Matches(w, term)
  {
    IncludesEmpty(Lower(w.brandname));
    Includes(Lower(w.brandname), Lower(term)) || Includes(Lower(w.description), Lower(term))
  }

  /** `filteredWebsites`: the websites whose brand name or description contains the search term, ignoring case. */
  function FilterWebsites(ws: seq<Website>, term: string): (r: seq<Website>)
    ensures IsSubsequence(r, ws)
    ensures forall i :: 0 <= i < |r| ==> Matches(r[i], term)
    ensures forall w :: multiset(r)[w] == if Matches(w, term) then multiset(ws)[w] else 0
    ensures forall w :: w in r <==> w in ws && Matches(w, term)
  {
    if ws == [] then []
    else
      assert ws == [ws[0]] + ws[1..];
      var rest := FilterWebsites(ws[1..], term);
      if Matches(ws[0], term) then
        assert ([ws[0]] + rest)[1..] == rest;
        [ws[0]] + rest
      else rest
  }

  /** The search does not depend on the case of the term. */
  lemma SearchIgnoresCase(ws: seq<Website>, term: string)
    ensures FilterWebsites(ws, Lower(term)) == FilterWebsites(ws, term)
  {
    LowerIdempotent(term);
  }

  /** An empty search term keeps every website. */
  lemma {:induction false} FilterEmptyTerm(ws: seq<Website>)
    ensures FilterWebsites(ws, "") == ws
  {
    if ws != [] {
      IncludesEmpty(Lower(ws[0].brandname));
      FilterEmptyTerm(ws[1..]);
      assert ws == [ws[0]] + ws[1..];
    }
  }

  /** The badge count, `filteredWebsites.length`, never exceeds the number of websites. */
  lemma FilterCountBound(ws: seq<Website>, term: string)
    ensures |FilterWebsites(ws, term)| <= |ws|
  {
    SubsequenceLength(FilterWebsites(ws, term), ws);
  }

  /** The table card: a spinner while loading, a notice when nothing is to be shown, the filtered rows otherwise. */
  function View(loading: bool, ws: seq<Website>, term: string): (v: TableView)
    ensures v.Spinner? <==> loading
    ensures !loading ==> (v.Notice? <==> forall w :: w in ws ==> !Matches(w, term))
    ensures v.Notice? ==> v.text == if term != "" then NoMatchNotice else NothingYetNotice
    ensures v.Rows? ==> v.rows == FilterWebsites(ws, term) && v.rows != []
  {
    if loading then Spinner
    else
      var shown := FilterWebsites(ws, term);
      assert shown != [] ==> shown[0] in shown;
      if |shown| == 0 then Notice(if term != "" then NoMatchNotice else NothingYetNotice)
      else Rows(shown)
  }

  /** Without a search term the page says "No websites analyzed yet." exactly when the list is empty, and otherwise shows every website. */
  lemma ViewWithoutSearch(ws: seq<Website>)
    ensures View(false, ws, "") == Notice(NothingYetNotice) <==> ws == []
    ensures ws != [] ==> View(false, ws, "") == Rows(ws)
  {
    FilterEmptyTerm(ws);
  }

  /** With a search term, an empty result is reported as "no match", never as "nothing analyzed". */
  lemma ViewWithSearch(ws: seq<Website>, term: string)
    requires term != ""
    ensures View(false, ws, term) != Notice(NothingYetNotice)
    ensures View(false, ws, term) == Notice(NoMatchNotice) <==> forall w :: w in ws ==> !Matches(w, term)
  {
    var shown := FilterWebsites(ws, term);
    if shown != [] {
      assert shown[0] in shown;
    }
  }

  // ---------------------------------------------------------------------------
  // The list updates after a successful save or delete

  /** The `websites.map` of `handleSave`: every entry with the saved id gets the new description. */
  function SaveDescription(ws: seq<Website>, id: string, d: string): (r: seq<Website>)
    ensures |r| == |ws|
    ensures forall i :: 0 <= i < |ws| ==>
              r[i].id == ws[i].id && r[i].brandname == ws[i].brandname &&
              r[i].timestamp == ws[i].timestamp && r[i].url == ws[i].url
    ensures forall i :: 0 <= i < |ws| && ws[i].id == id ==> r[i].description == d
    ensures forall i :: 0 <= i < |ws| && ws[i].id != id ==> r[i] == ws[i]
  {
    if ws == [] then []
    else [if ws[0].id == id then ws[0].(description := d) else ws[0]] + SaveDescription(ws[1..], id, d)
  }

  /** Saving the same description twice is saving it once. */
  lemma SaveTwice(ws: seq<Website>, id: string, d: string)
    ensures SaveDescription(SaveDescription(ws, id, d), id, d) == SaveDescription(ws, id, d)
  {
  }

  /** Saving under an id no entry has changes nothing. */
  lemma SaveAbsent(ws: seq<Website>, id: string, d: string)
    requires forall i :: 0 <= i < |ws| ==> ws[i].id != id
    ensures SaveDescription(ws, id, d) == ws
  {
  }

  /** The `websites.filter` of `handleDelete`: the entries whose id differs from the deleted one. */
  function RemoveById(ws: seq<Website>, id: string): (r: seq<Website>)
    ensures IsSubsequence(r, ws)
    ensures forall i :: 0 <= i < |r| ==> r[i].id != id
    ensures forall w :: multiset(r)[w] == if w.id == id then 0 else multiset(ws)[w]
  {
    if ws == [] then []
    else
      assert ws == [ws[0]] + ws[1..];
      var rest := RemoveById(ws[1..], id);
      if ws[0].id != id then
        assert ([ws[0]] + rest)[1..] == rest;
        [ws[0]] + rest
      else rest
  }

  /** Deleting when no entry has the id changes nothing. */
  lemma {:induction false} RemoveAbsent(ws: seq<Website>, id: string)
    requires forall i :: 0 <= i < |ws| ==> ws[i].id != id
    ensures RemoveById(ws, id) == ws
  {
    if ws != [] {
      RemoveAbsent(ws[1..], id);
      assert ws == [ws[0]] + ws[1..];
    }
  }

  /** Deleting the same id again changes nothing. */
  lemma RemoveTwice(ws: seq<Website>, id: string)
    ensures RemoveById(RemoveById(ws, id), id) == RemoveById(ws, id)
  {
    RemoveAbsent(RemoveById(ws, id), id);
  }

  /** The delete confirmation dialog is open while `deleteId` is truthy. */
  predicate DialogOpen(deleteId: Option<string>)
    ensures DialogOpen(deleteId) ==> deleteId != None && deleteId != Some("")
  {
    deleteId.Some? && deleteId.value != ""
  }

  // ---------------------------------------------------------------------------
  // The component state

  /** The state of `DashboardPage`: one field per `useState` hook. */
  class DashboardPage {
    var websites: seq<Website>
    var loading: bool
    var error: string
    var searchTerm: string
    var editingId: Option<string>
    var editingDescription: string
    var deleteId: Option<string>
    var updating: bool

    /** The initial values given to `useState`. */
    constructor ()
      ensures websites == [] && loading && error == "" && searchTerm == ""
      ensures editingId == None && editingDescription == "" && deleteId == None && !updating
    {
      websites := [];
      loading := true;
      error := "";
      searchTerm := "";
      editingId := None;
      editingDescription := "";
      deleteId := None;
      updating := false;
    }

    /** `filteredWebsites` as rendered now. */
    function Filtered(): (shown: seq<Website>)
      reads this
      ensures IsSubsequence(shown, websites)
      ensures forall w :: w in shown <==> w in websites && Matches(w, searchTerm)
      ensures searchTerm == "" ==> shown == websites
    {
      FilterEmptyTerm(websites);
      FilterWebsites(websites, searchTerm)
    }

    /** The text of the badge, `{filteredWebsites.length} websites`, as its number. */
    function BadgeCount(): (n: nat)
      reads this
      ensures n == |Filtered()| && n <= |websites|
      ensures searchTerm == "" ==> n == |websites|
    {
      FilterCountBound(websites, searchTerm);
      FilterEmptyTerm(websites);
      |Filtered()|
    }

    /** `fetchWebsites`, run once when the page mounts. */
    method FetchWebsites(outcome: LoadOutcome)
      modifies this
      ensures !loading
      ensures outcome.Loaded? ==> websites == outcome.data && error == old(error)
      ensures outcome.LoadNotOk? ==> websites == old(websites) && error == LoadFailedMessage
      ensures outcome.LoadRejected? ==>
                websites == old(websites) && error == CaughtText(outcome.reason, LoadFallbackMessage)
      ensures searchTerm == old(searchTerm) && editingId == old(editingId)
      ensures editingDescription == old(editingDescription) && deleteId == old(deleteId) && updating == old(updating)
    {
      match outcome {
        case Loaded(data) =>
          websites := data;
        case LoadNotOk =>
          error := CaughtText(ErrorObject(LoadFailedMessage), LoadFallbackMessage);
        case LoadRejected(e) =>
          error := CaughtText(e, LoadFallbackMessage);
      }
      loading := false;
    }

    /** The search box's `onChange`. */
    method SetSearchTerm(term: string)
      modifies this`searchTerm
      ensures searchTerm == term
    {
      searchTerm := term;
    }

    /** `handleEdit`: start editing a row with its current description. */
    method HandleEdit(website: Website)
      modifies this`editingId, this`editingDescription
      ensures editingId == Some(website.id)
      ensures editingDescription == website.description
    {
      editingId := Some(website.id);
      editingDescription := website.description;
    }

    /** The description input's `onChange` while a row is edited. */
    method SetEditingDescription(d: string)
      modifies this`editingDescription
      ensures editingDescription == d
    {
      editingDescription := d;
    }

    /** The cancel button of a row being edited. */
    method CancelEdit()
      modifies this`editingId
      ensures editingId == None
    {
      editingId := None;
    }

    /** `handleSave`: send the edited description and, if the response is ok, apply it to the list. */
    method HandleSave(id: string, outcome: FetchOutcome)
      modifies this
      ensures !updating
      ensures outcome == Responded(true) ==>
                websites == SaveDescription(old(websites), id, old(editingDescription)) &&
                editingId == None && error == old(error)
      ensures outcome != Responded(true) ==>
                websites == old(websites) && editingId == old(editingId) &&
                error == CaughtText(Raised(outcome, SaveFailedMessage).value, SaveFallbackMessage)
      ensures loading == old(loading) && searchTerm == old(searchTerm)
      ensures editingDescription == old(editingDescription) && deleteId == old(deleteId)
    {
      updating := true;
      match Raised(outcome, SaveFailedMessage) {
        case None =>
          websites := SaveDescription(websites, id, editingDescription);
          editingId := None;
        case Some(e) =>
          error := CaughtText(e, SaveFallbackMessage);
      }
      updating := false;
    }

    /** The delete button of a row: open the confirmation dialog for it. */
    method RequestDelete(website: Website)
      modifies this`deleteId
      ensures deleteId == Some(website.id)
    {
      deleteId := Some(website.id);
    }

    /** The dialog's cancel button, and closing the dialog. */
    method CloseDeleteDialog()
      modifies this`deleteId
      ensures deleteId == None
    {
      deleteId := None;
    }

    /** `handleDelete`: delete on the server and, if the response is ok, drop the rows with that id. */
    method HandleDelete(id: string, outcome: FetchOutcome)
      modifies this
      ensures !updating
      ensures outcome == Responded(true) ==>
                websites == RemoveById(old(websites), id) && deleteId == None && error == old(error)
      ensures outcome != Responded(true) ==>
                websites == old(websites) && deleteId == old(deleteId) &&
                error == CaughtText(Raised(outcome, DeleteFailedMessage).value, DeleteFallbackMessage)
      ensures loading == old(loading) && searchTerm == old(searchTerm)
      ensures editingId == old(editingId) && editingDescription == old(editingDescription)
    {
      updating := true;
      match Raised(outcome, DeleteFailedMessage) {
        case None =>
          websites := RemoveById(websites, id);
          deleteId := None;
        case Some(e) =>
          error := CaughtText(e, DeleteFallbackMessage);
      }
      updating := false;
    }

    /** The dialog's delete button, `deleteId && handleDelete(deleteId)`: an empty or missing id sends nothing. */
    method ConfirmDelete(outcome: FetchOutcome)
      modifies this
      ensures !DialogOpen(old(deleteId)) ==>
                websites == old(websites) && deleteId == old(deleteId) && error == old(error) &&
                updating == old(updating)
      ensures DialogOpen(old(deleteId)) && outcome == Responded(true) ==>
                websites == RemoveById(old(websites), old(deleteId).value) && deleteId == None &&
                error == old(error) && !updating
      ensures DialogOpen(old(deleteId)) && outcome != Responded(true) ==>
                websites == old(websites) && deleteId == old(deleteId) &&
                error == CaughtText(Raised(outcome, DeleteFailedMessage).value, DeleteFallbackMessage) && !updating
      ensures loading == old(loading) && searchTerm == old(searchTerm)
      ensures editingId == old(editingId) && editingDescription == old(editingDescription)
    {
      if DialogOpen(deleteId) {
        HandleDelete(deleteId.value, outcome);
      }
    }
  }
}
