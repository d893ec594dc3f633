/**
  The decision logic of `TransferOwnershipHandler.get`: which page the request
  ends on, and the ownership grants it issues on the way. Templates are
  reduced to an outcome tag carrying the values they would show.
 */
module TransferHandler {
  import opened DriveModel
  import opened Traversal
  import opened Wrappers
  import opened Permissions

  /** The depth the handler passes to the traversal. */
  const MaxDepth: int := 5

  /** The domain suffix a new owner address must end with. */
  const RequiredSuffix: string := "rit.edu"

  const MissingOwnerMessage: string := "New owner not defined"

  function IllegalOwnerMessage(owner: string): string {
    "Illegal new owner.  Must end in rit.edu\n\nGiven: " + owner
  }

  /**
    What the handler reads from a request: whether credentials could be
    obtained, the ids the Drive user interface passed, and the `new_owner`
    parameter (empty when absent).
   */
  datatype Request = Request(hasCredentials: bool, ids: seq<FileId>, newOwner: string)

  datatype Outcome =
    | RedirectToAuth          // no credentials: redirect to the authorization URL
    | AuthPage                // no ids: the auth template
    | ErrorPage(message: string)
    | NotAFolder              // plain "Not a folder" response
    | Listing(files: seq<Entry>)
    | ServerError             // a lookup failed inside the traversal, uncaught

  /** The page the request ends on and the permission inserts issued, in order. */
  datatype Response = Response(outcome: Outcome, calls: seq<PermissionCall>)

  /** Python `s.endswith(suffix)`. */
  function EndsWith(s: string, suffix: string): bool {
    |suffix| <= |s| && s[|s| - |suffix|..] == suffix
  }

  lemma EndsWithMeansSuffix(s: string, suffix: string)
    ensures EndsWith(s, suffix) <==> exists p :: s == p + suffix
  {
    if EndsWith(s, suffix) {
      assert s == s[..|s| - |suffix|] + suffix;
    }
    if p :| s == p + suffix {
      assert s[|s| - |suffix|..] == suffix;
    }
  }

  /** Both checks on `new_owner`: present, and ending in the suffix. */
  predicate OwnerAccepted(owner: string) {
    owner != "" && EndsWith(owner, RequiredSuffix)
  }

  /** One ownership grant per entry, to the new owner as a user. */
  function GrantCalls(files: seq<Entry>, owner: string): seq<PermissionCall> {
    seq(|files|, i requires 0 <= i < |files| => PermissionCall(files[i].id, owner, "user", "owner"))
  }

  function HandleGet(req: Request, drive: Drive): (resp: Response)
    ensures resp.calls != [] ==> resp.outcome.Listing?
    ensures resp.outcome.Listing? <==>
      && req.hasCredentials
      && |req.ids| > 0
      && OwnerAccepted(req.newOwner)
      && Traverse(drive, req.ids[0], MaxDepth).Found?
    ensures resp.outcome.Listing? ==>
      && resp.outcome.files == Traverse(drive, req.ids[0], MaxDepth).entries
      && |resp.calls| == |resp.outcome.files|
      && forall i :: 0 <= i < |resp.calls| ==>
           resp.calls[i] == PermissionCall(resp.outcome.files[i].id, req.newOwner, "user", "owner")
  {
    if !req.hasCredentials then Response(RedirectToAuth, [])
    else if |req.ids| == 0 then Response(AuthPage, [])
    else if req.newOwner == "" then Response(ErrorPage(MissingOwnerMessage), [])
    else if !EndsWith(req.newOwner, RequiredSuffix) then Response(ErrorPage(IllegalOwnerMessage(req.newOwner)), [])
    else if !IsFolder(drive, req.ids[0]) then Response(NotAFolder, [])
    else
      match Traverse(drive, req.ids[0], MaxDepth)
      case Found(files) => Response(Listing(files), GrantCalls(files, req.newOwner))
      case _ => Response(ServerError, [])
  }

  /**
    The whole of `get`: decide, then issue the grants. Whatever the permission
    service answers, there is one insert per listed entry, in the walk's
    order, each granting the new owner ownership of that entry; a rejected
    request issues none.
   */
  method Get(req: Request, drive: Drive, svc: PermissionService) returns (resp: Response, results: seq<Option<Permission>>)
    ensures resp == HandleGet(req, drive)
    ensures !resp.outcome.Listing? ==> results == []
    ensures resp.outcome.Listing? ==>
      && |results| == |resp.outcome.files|
      && forall i :: 0 <= i < |results| ==>
           results[i] == InsertPermission(svc, PermissionCall(resp.outcome.files[i].id, req.newOwner, "user", "owner"))
  {
    resp := HandleGet(req, drive);
    results := IssueAll(svc, resp.calls);
  }

  /** Every path that rejects the request ends on its page without a single permission call. */
  lemma RejectionsIssueNoCalls(req: Request, drive: Drive)
    ensures !req.hasCredentials ==> HandleGet(req, drive) == Response(RedirectToAuth, [])
    ensures req.hasCredentials && |req.ids| == 0 ==> HandleGet(req, drive) == Response(AuthPage, [])
    ensures req.hasCredentials && |req.ids| > 0 && req.newOwner == "" ==>
      HandleGet(req, drive) == Response(ErrorPage(MissingOwnerMessage), [])
    ensures req.hasCredentials && |req.ids| > 0 && req.newOwner != "" && !EndsWith(req.newOwner, RequiredSuffix) ==>
      HandleGet(req, drive) == Response(ErrorPage(IllegalOwnerMessage(req.newOwner)), [])
    ensures req.hasCredentials && |req.ids| > 0 && OwnerAccepted(req.newOwner) && !IsFolder(drive, req.ids[0]) ==>
      HandleGet(req, drive) == Response(NotAFolder, [])
  {
  }

  /**
    On the success path the new owner is granted ownership of exactly the
    descendants of the first id within five levels, once per entry.
   */
  lemma GrantsCoverExactlyDescendants(req: Request, drive: Drive)
    requires HandleGet(req, drive).outcome.Listing?
    ensures forall c :: c in HandleGet(req, drive).calls ==>
      c.value == req.newOwner && c.permType == "user" && c.role == "owner" && c.fileId in drive
    ensures forall x :: (exists c :: c in HandleGet(req, drive).calls && c.fileId == x) <==>
      WithinDepth(drive, req.ids[0], x, MaxDepth)
  {
    var resp := HandleGet(req, drive);
    var files := resp.outcome.files;
    TraverseListsExactlyDescendants(drive, req.ids[0], MaxDepth);
    forall c | c in resp.calls
      ensures c.value == req.newOwner && c.permType == "user" && c.role == "owner" && c.fileId in drive
    {
      var i :| 0 <= i < |resp.calls| && resp.calls[i] == c;
      assert Describes(drive, files[i]);
    }
    forall x
      ensures (exists c :: c in resp.calls && c.fileId == x) <==> WithinDepth(drive, req.ids[0], x, MaxDepth)
    {
      if c :| c in resp.calls && c.fileId == x {
        var i :| 0 <= i < |resp.calls| && resp.calls[i] == c;
        assert files[i] in files;
        assert x in EntryIds(files);
      }
      if WithinDepth(drive, req.ids[0], x, MaxDepth) {
        assert x in EntryIds(files);
        var e :| e in files && e.id == x;
        var i :| 0 <= i < |files| && files[i] == e;
        assert resp.calls[i] in resp.calls;
      }
    }
  }

  /**
    The handler fails with a server error exactly when every check passed but
    some file within five levels of the folder cannot be looked up; no grant
    is issued then, because the walk finishes before the first insert.
   */
  lemma ServerErrorOnlyOnMissingDescendant(req: Request, drive: Drive)
    ensures HandleGet(req, drive).outcome.ServerError? <==>
      && req.hasCredentials
      && |req.ids| > 0
      && OwnerAccepted(req.newOwner)
      && IsFolder(drive, req.ids[0])
      && exists x :: WithinDepth(drive, req.ids[0], x, MaxDepth) && x !in drive
    ensures HandleGet(req, drive).outcome.ServerError? ==> HandleGet(req, drive).calls == []
  {
    if req.hasCredentials && |req.ids| > 0 {
      TraverseFailsExactlyOnMissing(drive, req.ids[0], MaxDepth);
    }
  }

  /**
    The owner check is a plain suffix test on the string, not a domain check:
    an address at a different domain that merely ends in the same letters passes.
   */
  lemma SuffixTestAcceptsLookalikeDomain(drive: Drive, id: FileId)
    ensures OwnerAccepted("x@notrit.edu")
    ensures !HandleGet(Request(true, [id], "x@notrit.edu"), drive).outcome.ErrorPage?
  {
  }
}
