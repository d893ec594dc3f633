# Ownership transfer over a Drive folder tree — a Dafny model

This project models the local logic of the ownership-transfer page of the RIT
Honors Drive web front-end (`src/pages/TransferOwnership.py`). The page is
opened from Google Drive's "Open With" integration with one or more file ids.
It checks the `new_owner` address, walks the first id's folder to a depth of
five, and asks the Drive API to make the new owner the `owner` of every file
and sub-folder it found.

The remote Drive service is abstracted as an immutable map from file id to a
record: MIME type, owner names, and the children listing split into its pages.
An id missing from the map is a lookup that fails with an HTTP error. The
permission service is a function from (file id, permission body) to a reply.
The paged file listing is a map from page token to reply.

Modules, one per concern of the handler:

- `Wrappers`: `Option`.
- `OwnerNames`: the comma join behind the `ownerNameString` annotation, and its inverse.
- `DriveModel`: file records, the drive map, `files().get`, `is_folder`, traversal entries.
- `Traversal`: `traverse`, and a characterisation of its result by reachability.
- `Paging`: `retrieve_all_files` over a paged, fallible listing.
- `Permissions`: `insert_permission` and the grant loop.
- `TransferHandler`: the decision logic of `get` as a pure function. It returns an outcome tag and the permission calls it issues.

Two behaviours of the source shape the model:

- A failing lookup inside `traverse` (lines 99 and 108) is not caught, unlike the remote calls in `is_folder` (line 203), `insert_permission` (line 43) and `retrieve_all_files` (line 92). The model ends the walk with `Failed`. The handler then ends with `ServerError` before issuing any grant.
- `traverse` reads only the first page of each children listing, because lines 105-106 send no page token. `Traversal.LaterPagesNotWalked` shows a child on a second page being skipped.

## Model

| member | source | states |
|---|---|---|
| `DriveModel.IsFolder` | src/pages/TransferOwnership.py:192-205 | true exactly for a known file with the folder MIME type; a failed lookup reads as false |
| `DriveModel.FirstPageIsPrefix` | src/pages/TransferOwnership.py:104-106 | the first page of a children listing is a prefix of the full listing, and all of it when there is at most one page |
| `OwnerNames.SplitJoin` | src/pages/TransferOwnership.py:109 | the comma-joined owner string gives back the owner names when split on commas (one or more names, none holding a comma) |
| `OwnerNames.JoinEmpty` | src/pages/TransferOwnership.py:109 | a file with no owners gets the empty owner string |
| `Traversal.Traverse` | src/pages/TransferOwnership.py:97-115 | None exactly for a known non-folder, at every depth; a failure always names an id the service does not have |
| `Traversal.Children` | src/pages/TransferOwnership.py:107-114 | the loop over the children never yields None; a failure names an unknown id |
| `Traversal.TraverseBaseCases` | src/pages/TransferOwnership.py:99-102 | a non-folder root gives None and an unknown root fails, whatever the depth; a folder root with depth <= 0 gives [] |
| `Traversal.RootLookupFailureFailsWalk` | src/pages/TransferOwnership.py:99 | the walk fails at its root exactly when the lookup of the root fails |
| `Traversal.IsFolderAgreesWithTraverse` | src/pages/TransferOwnership.py:192-205 | `is_folder` holds exactly when the traversal's root check passes |
| `Traversal.TraverseSound` | src/pages/TransferOwnership.py:101-114 | every entry is the service's record for its id with the joined owner string, and lies at a level 1..depth below the root |
| `Traversal.TraverseComplete` | src/pages/TransferOwnership.py:101-114 | every descendant at a level 1..depth, reached through first-page children of folders, is listed |
| `Traversal.TraverseListsExactlyDescendants` | src/pages/TransferOwnership.py:97-115 | the listed ids are exactly the descendants within the depth: folders at the last level are listed, and their children are not |
| `Traversal.RootNotListedWithoutCycle` | src/pages/TransferOwnership.py:105-114 | the root is never listed unless it is its own descendant |
| `Traversal.TraverseFailedSound` | src/pages/TransferOwnership.py:99-108 | the id that makes the walk fail is the root or a descendant within the depth |
| `Traversal.TraverseFailsExactlyOnMissing` | src/pages/TransferOwnership.py:97-115 | the walk fails exactly when the root, or some descendant within the depth, cannot be looked up |
| `Traversal.TraverseIsPreOrder` | src/pages/TransferOwnership.py:105-114 | pre-order in first-page order: each child gives itself, and a folder child then gives its own walk at depth-1 |
| `Traversal.LaterPagesNotWalked` | src/pages/TransferOwnership.py:104-107 | a child listed on a second page is in the full listing but not in the result |
| `Paging.CompleteChainUnique` | src/pages/TransferOwnership.py:79-95 | the service decides the sequence of pages a complete listing goes through |
| `Paging.RetrieveAllFiles` | src/pages/TransferOwnership.py:71-95 | the result is the items of every page in page order. It stops at the first page without a next token, or at the first failing request, keeping what it had |
| `Permissions.IssueAll` | src/pages/TransferOwnership.py:163-164 | one insert per call, in order; a failed insert does not stop the ones after it |
| `TransferHandler.EndsWithMeansSuffix` | src/pages/TransferOwnership.py:155 | the owner check holds exactly when the address is some string followed by the suffix |
| `TransferHandler.HandleGet` | src/pages/TransferOwnership.py:126-172 | calls are issued only on the listing outcome. The listing is reached exactly when credentials, ids, the owner checks and the walk of the first id at depth 5 all succeed. It then holds the walk's entries and one (id, new owner, 'user', 'owner') grant per entry, in order |
| `TransferHandler.Get` | src/pages/TransferOwnership.py:161-164 | whatever the permission service answers, there is one `insert_permission(id, new_owner, 'user', 'owner')` per listed entry, in walk order; a rejected request issues none |
| `TransferHandler.RejectionsIssueNoCalls` | src/pages/TransferOwnership.py:138-172 | these paths each end on their own page with zero permission calls: no credentials (redirect), no ids (auth page), empty owner and wrong suffix (each with its message), and first id not a folder |
| `TransferHandler.GrantsCoverExactlyDescendants` | src/pages/TransferOwnership.py:161-164 | on success the new owner is made 'owner' as a 'user' of exactly the descendants within five levels, all known to the service |
| `TransferHandler.ServerErrorOnlyOnMissingDescendant` | src/pages/TransferOwnership.py:161-164 | the handler errors out exactly when all checks pass but some file within five levels cannot be looked up, and then issues no grant |
| `TransferHandler.SuffixTestAcceptsLookalikeDomain` | src/pages/TransferOwnership.py:155-159 | `x@notrit.edu` passes the owner check, because the check is a plain string suffix test |

## Left out

- Template loading and rendering (Jinja, `RenderTemplate`): each page is an outcome tag carrying the values it would show.
- OAuth credential exchange and refresh, `CreateService` and `DriveState.FromRequest` come from a library that is not part of this model. The request is reduced to three inputs: whether credentials were obtained, the ids, and `new_owner`.
- The `action` and `code` template values (lines 127-133): they do not affect any decision.
- `update_permission`: no caller uses it.
- `print_files_in_folder`: it only prints.
- The `/user` page (`src/pages/User.py`) and the routing table (`src/honorsdrive.py`): they hold no local logic.
- Diagnostic printing of caught errors.
- `TransferHandler.ServerErrorOnlyOnMissingDescendant`: a known folder's children listing (lines 105-106) never fails on its own in the model. In the source that error is uncaught and also ends the request in a server error, so this lemma names only failed lookups as the cause.
- `Traversal.TraverseFailsExactlyOnMissing`: for the same reason, a failing children listing is not among the causes of a failed walk.
- Transient remote failures: the service is a pure map, so a lookup that fails once fails every time.
- `Traversal.Traverse`: the `TypeError` from extending a list by None cannot arise for a pure service. It is modelled as a failure at that folder.
- `Paging.RetrieveAllFiles`: if the page tokens cycle, the source loops forever. The model requires the listing to end.
- Missing keys in a reply (`items`, `mimeType`), which raise `KeyError` in the source: every reply in the model carries them.
- A `None` permission value for the 'default' type: values are strings.
