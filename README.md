# DesignSafe portal core, modelled in Dafny

This project models three parts of the DesignSafe portal.

**1. The Elasticsearch mirror of the Agave file system** (`Object` in `documents.py`).
- **The index.** It holds one document per file or directory, with:
  - its system id, parent `path` and `name`;
  - a `deleted` flag and an optional `owner`;
  - an `agave://system/full-path` address;
  - a permission list.
- **The three queries:**
  - `listing`: the exact parent path.
  - `listing_recursive`: every document below a path.
  - `from_file_path`: the first document at a path, with or without the owner-or-shared clause.
- **The retry policy of `_execute_search`:** one blind retry of any transport error other than 404.
- **The subtree operations:** `copy`, `move`, `rename`, `delete_recursive`, `share` with its walk over the ancestor directories, and `update_pems`.
- **`from_agave_file`:**
  - it seeds the permissions of a new document;
  - it refreshes a document already indexed.

**2. The field descriptors of the Agave model layer** (`fields.py`):
- how a field derives its name and verbose name, and how it keeps its choices;
- binding a field to its owning model class, and appending it to the class's field registry;
- the default policy with its `NOT_PROVIDED` sentinel;
- the `[]` and `{}` defaults of list and nested fields;
- the coercion of list fields;
- the reverse accessor that a related field registers.

**3. The Rapid recon portal's client code** (the webpack bundle):
- the event filter `RapidDataService.search`;
- the map controller's marker toggle, `select_event`, `search` and `clear_filters`;
- the admin controller's `search_users`, which only sends queries longer than one character.

## Layout

| file | module | contents |
|---|---|---|
| `common.dfy` | `Common` | Shared pieces: `Option`, `Result`, `Outcome` and the Python/JavaScript exceptions; `Filter`; the subsequence predicate; ASCII lower-casing. |
| `paths.dfy` | `Paths` | Path helpers: POSIX `os.path.split`/`join`, `str.split('/')`/`sep.join`, the anchored one-shot `re.sub` prefix rewrite (with the pattern read literally), and the `agave://` address. |
| `permissions.dfy` | `Permissions` | Permission lists: the grant entry `update_pems` builds, the per-user replace, and the owner entry a new document is seeded with. |
| `documents.dfy` | `Documents` | The specification functions: documents and the queries, plus each subtree operation as a function from the index before the call to the index after it (and the result). |
| `search_index.dfy` | `SearchIndex` | The class `Index`, with the index as a mutable `seq<Doc>`. Each operation saves one document at a time, as the Python loops do over `s.scan()`. Each is proved to end in exactly the state the matching function describes. |
| `index_properties.dfy` | `IndexProperties` | What the subtree operations guarantee, plus concrete indexes that show the findings below. |
| `fields.dfy` | `Fields` | `Field`, `ModelClass` and the registry of pending relations, as classes; the pure parts as functions. |
| `rapid.dfy` | `Rapid` | `IndexOf` against an independent occurrence predicate; the event filter; the two controllers as classes. |

## Modelling decisions

- **`self.system`.** The subtree operations pass `self.system` to the recursive listing (documents.py:147, 166, 177, 199, 213). The documents `from_agave_file` creates store only `systemId` (lines 84 and 104), and `to_file_dict` reports `systemId` as the system (line 260). The model assumes that every document carries a `system` equal to its `systemId`, and reads `self.system` as `systemId`; see "Left out".
- **`path._path` term.** The query of `listing_recursive` uses a term on `path._path`. The model reads it as "the parent path starts with the given text", as a literal string prefix. So a document whose parent path is the sibling `/a/bc` also counts as below `/a/b`. Renaming `/a/b` to `/a/e` then rewrites that parent path as well, to `/a/ec`, because the `re.sub` that follows replaces the same leading text (for a path without regular-expression metacharacters; see "Left out").
- **Searches always answer inside the subtree operations.** Their queries are modelled as answering. The retry policy is modelled on its own by `Documents.ExecuteSearch`.
- **Documents are values; the index is an ordered sequence.**
  - A document returned by a query is a snapshot of that value.
  - Saving a document replaces the document with the same id.
  - Copies get fresh ids from `nextId`.
  - The model fixes orders the source leaves open. `from_file_path` returns `res[0]`, the search engine's top hit, and the model takes the first match in index order (`Documents.FromFilePath`). The listings are likewise answered in index order. Python 2 dict order is arbitrary, and `Fields.ListOf` gives a dict's keys in entry order.
- **`delete()` of a missing document.** It raises the client's not-found error. This is what happens to `self` when a directory's recursive listing contains the directory itself, which needs a name that is empty or starts with `/`.
- **The rest of `share`'s ancestor walk.** Besides the '/' join, the model keeps the walk as written:
  - For a full path starting with `/`, the last path it looks up is always the empty path, i.e. name `""` under `/`.
  - When the index holds no such document, the walk stops there with the `AttributeError` that `None.update_pems` raises.
  - At that point every ancestor the walk got through holds the grant (`IndexProperties.ShareGrantsAncestors`), every descendant holds it too (`IndexProperties.ShareEffect`), and the final grant to `self` is not made (`IndexProperties.ShareStopsAtMissingAncestor`).
  - So the outcome tells whether the walk completed, not whether `self` holds the grant: a `self` that held it before still holds it after a failed call (`IndexProperties.ShareFailureExample`).
- **Where the code's evident intent and its behaviour disagree, the model follows the behaviour:**
  - The `raise ValueError('No default set')` branch of `get_default` (fields.py:66) is evidently meant for a field built without a default. Such a field stores the class `NOT_PROVIDED` itself, and the test is `isinstance(default, NOT_PROVIDED)`, so `get_default` returns the class and does not raise (`Fields.UnsetDefaultIsReturned`).
  - `choices` given as a list leaves no choices (fields.py:40-43); only an iterator's elements are kept.
- **Events.** Events are JavaScript objects compared with `==`, which compares object identity. The model gives each event a `ref` that stands for its identity.
- **No-key filters.** A filter option with no key, and a search text that is the empty string, do not filter. Dates are integers (milliseconds).

## Model

| member | source | states |
|---|---|---|
| Documents.Listing | designsafe/apps/api/data/agave/elasticsearch/documents.py:40-44 | exactly the documents of the index with that parent path and system, not deleted, and owned by the user or shared with the user or "world", in index order |
| Documents.ListingRecursive | designsafe/apps/api/data/agave/elasticsearch/documents.py:63-67 | exactly the visible, undeleted documents of that system whose parent path starts with the given path, in index order |
| Documents.ListingWithinRecursive | designsafe/apps/api/data/agave/elasticsearch/documents.py:63-67 | every document of the exact listing is also in the recursive listing of the same path |
| Documents.FromFilePath | designsafe/apps/api/data/agave/elasticsearch/documents.py:47-60 | none exactly when no document matches parent path, name, system and visibility (visibility only when a user is given); otherwise the first match in index order |
| Documents.LookupKeyParts | designsafe/apps/api/data/agave/elasticsearch/documents.py:48-49 | the lookup is by basename under the dirname, and under `/` when the dirname is empty |
| Documents.ExecuteSearch | designsafe/apps/api/data/agave/elasticsearch/documents.py:129-136 | a search runs once or twice; twice exactly when the first run failed with a status other than 404; the caller gets the last run's answer or error; a 404 propagates at once |
| Documents.NewNameIsBasename | designsafe/apps/api/data/agave/elasticsearch/documents.py:139-144 | the new name of copy and rename (basename of the argument, or the whole argument without a directory part) is always the basename |
| Documents.GrantedDocIdempotent | designsafe/apps/api/data/agave/elasticsearch/documents.py:229-244 | update_pems changes only the document's permissions; granting a document twice is granting it once, and after it the user holds exactly the grant |
| Documents.LookupMatch | designsafe/apps/api/data/agave/elasticsearch/documents.py:48-52 | the filter of from_file_path: parent path and name from the split path (`/` for an empty dirname), the system, not deleted, and visible to the user when one is given; its consequences are in the FromFilePath row |
| Documents.NewName | designsafe/apps/api/data/agave/elasticsearch/documents.py:141-145 | the new name of copy and rename; that it is always the basename is Documents.NewNameIsBasename |
| Documents.GrantedDoc | designsafe/apps/api/data/agave/elasticsearch/documents.py:229-244 | update_pems on one document; Documents.GrantedDocIdempotent states that every field but the permissions is kept and that the user then holds exactly the grant |
| Documents.SubtreeHits | designsafe/apps/api/data/agave/elasticsearch/documents.py:146-147 | the documents a subtree operation fans out to: a directory's recursive listing of its own full path, none for a file; IndexProperties.SubtreeHitShape and NotOwnDescendant state its properties |
| Documents.Clones | designsafe/apps/api/data/agave/elasticsearch/documents.py:148-154 | one copy per snapshot hit, in scan order, rebased below the copy's full path; IndexProperties.CopyEffect states the rest |
| Documents.Refreshed | designsafe/apps/api/data/agave/elasticsearch/documents.py:73-89 | the auto_update refresh: only name, deleted flag, address, system, parent path and type change; the values are given in IndexProperties.FromAgaveFileEffect |
| Documents.NewDoc | designsafe/apps/api/data/agave/elasticsearch/documents.py:94-109 | the document from_agave_file creates; IndexProperties.FromAgaveFileEffect states its fields |
| Documents.RenamedSelf | designsafe/apps/api/data/agave/elasticsearch/documents.py:205-206 | only the name and the address change; the new address is the one the new name gives |
| Documents.RenamedDescendant | designsafe/apps/api/data/agave/elasticsearch/documents.py:200-203 | only the parent path and address change; the old full path of the directory is replaced by its new full path, and the address is recomputed from the descendant's own path and name |
| Documents.RenamedDescendantAsWritten | designsafe/apps/api/data/agave/elasticsearch/documents.py:203 | the same parent path, but the address of the renamed directory itself |
| Documents.MovedSelf | designsafe/apps/api/data/agave/elasticsearch/documents.py:183-185 | only the parent path (to `dirname(dest)`) and the address change; the address is consistent |
| Documents.MovedDescendant | designsafe/apps/api/data/agave/elasticsearch/documents.py:178-181 | only the parent path and address change; the directory's old full path is replaced by its new one, and the address is recomputed |
| Documents.MovedDescendantAsWritten | designsafe/apps/api/data/agave/elasticsearch/documents.py:179-181 | the prefix becomes `join(dest, name)`, and the address is the directory's address from before the move |
| Documents.RenamedIndex | designsafe/apps/api/data/agave/elasticsearch/documents.py:191-209 | the index after rename; IndexProperties.RenameEffect and RenamePreservesAddresses state its properties |
| Documents.MovedIndex | designsafe/apps/api/data/agave/elasticsearch/documents.py:175-188 | the index after move; IndexProperties.MoveEffect and MovePreservesAddresses state its properties |
| Documents.CopyAdditions | designsafe/apps/api/data/agave/elasticsearch/documents.py:139-161 | the documents copy adds: one more than the descendants; IndexProperties.CopyEffect states the rest |
| Documents.DeleteOutcome | designsafe/apps/api/data/agave/elasticsearch/documents.py:163-173 | the index and count after delete_recursive; IndexProperties.DeleteEffect states its properties |
| Documents.DeleteOutcomeAsWritten | designsafe/apps/api/data/agave/elasticsearch/documents.py:166 | as written a directory raises NameError on `username` and nothing changes; a file is deleted with count 1 |
| Documents.AncestorPaths | designsafe/apps/api/data/agave/elasticsearch/documents.py:217-220 | one path per component but the last; IndexProperties.AncestorPathsArePrefixes states they are leading parts of the full path |
| Documents.WalkAncestors | designsafe/apps/api/data/agave/elasticsearch/documents.py:217-223 | the ancestor walk; IndexProperties.WalkOnlyGrants and WalkGrantsAncestors state its properties |
| Documents.WalkReach | designsafe/apps/api/data/agave/elasticsearch/documents.py:217-223 | how many ancestor paths the walk gets through, at most all; all of them exactly when the walk completes |
| Documents.SubtreeGranted | designsafe/apps/api/data/agave/elasticsearch/documents.py:212-215 | the first step of share: update_pems on every fan-out hit; IndexProperties.SubtreeGrantedIds states that every document ends as it was or granted with ids unique, and IndexProperties.ShareEffect that every descendant holds the grant |
| Documents.ShareOutcome | designsafe/apps/api/data/agave/elasticsearch/documents.py:211-227 | the index and outcome after share; IndexProperties.ShareEffect, ShareGrantsAncestors and ShareStopsAtMissingAncestor state its properties |
| Documents.ShareOutcomeAsWritten | designsafe/apps/api/data/agave/elasticsearch/documents.py:211-227 | as written a directory fails on `self.naem` with nothing changed, and a file walks the '.'-joined paths |
| Documents.FromAgaveFileOutcome | designsafe/apps/api/data/agave/elasticsearch/documents.py:70-127 | the index and document after from_agave_file; IndexProperties.FromAgaveFileEffect states its properties |
| Documents.FromAgaveFileOutcomeAsWritten | designsafe/apps/api/data/agave/elasticsearch/documents.py:100-124 | as written a new document without fetched permissions is saved and then the call raises; IndexProperties.FromAgaveFileAsWrittenDiscrepancy states it |
| Permissions.GrantEntry | designsafe/apps/api/data/agave/elasticsearch/documents.py:231-239 | the grant is recursive; read is set iff the level is READ or ALL, write iff WRITE or ALL, execute iff EXECUTE or ALL |
| Permissions.GrantEntryLevels | designsafe/apps/api/data/agave/elasticsearch/documents.py:231-239 | an unknown level grants nothing, ALL grants everything |
| Permissions.UpdatedPems | designsafe/apps/api/data/agave/elasticsearch/documents.py:240-243 | the new list ends with the grant; every earlier entry belongs to another user and comes from the old list, in order; every other user's entry is kept |
| Permissions.UpdatedPemsFixedPoint | designsafe/apps/api/data/agave/elasticsearch/documents.py:240-243 | a list in which the user already holds exactly the grant, last, is left unchanged |
| Permissions.UpdatedPemsIdempotent | designsafe/apps/api/data/agave/elasticsearch/documents.py:229-244 | after update_pems the user holds exactly one entry, last; applying it twice equals applying it once |
| Permissions.UpdatedPemsKeepsOthers | designsafe/apps/api/data/agave/elasticsearch/documents.py:240-242 | every other user's entries are exactly the old ones, in the old order |
| Permissions.PemsUser | designsafe/apps/api/data/agave/elasticsearch/documents.py:114-115 | the seeded user is one path component, with no slash |
| Permissions.PemsUserIsFirstComponent | designsafe/apps/api/data/agave/elasticsearch/documents.py:114-115 | for a path `/u...` with `u` a non-empty component, the seeded user is `u` |
| Permissions.OwnerEntry | designsafe/apps/api/data/agave/elasticsearch/documents.py:116-124 | the seeded entry is recursive with read, write and execute |
| Permissions.SeedPermissions | designsafe/apps/api/data/agave/elasticsearch/documents.py:111-126 | fetched permissions are used as they are; otherwise exactly one full owner entry for the first path component |
| Permissions.SeedPermissionsAsWritten | designsafe/apps/api/data/agave/elasticsearch/documents.py:116 | as written, every document created without fetched permissions raises a NameError |
| Permissions.SeedPermissionsDiscrepancy | designsafe/apps/api/data/agave/elasticsearch/documents.py:116 | on `/alice/data` the code as written raises where the corrected seeding gives alice full rights |
| Paths.Split | designsafe/apps/api/data/agave/elasticsearch/documents.py:141 | POSIX `os.path.split`; Paths.SplitTail and JoinSplit state its properties |
| Paths.Dirname | designsafe/apps/api/data/agave/elasticsearch/documents.py:183-184 | the head of `os.path.split`, as move uses it; Paths.JoinSplit states that it and the basename rebuild the path |
| Paths.Basename | designsafe/apps/api/data/agave/elasticsearch/documents.py:193 | the tail of `os.path.split`; Paths.SplitTail states that it is slash-free and ends the path |
| Paths.Join | designsafe/apps/api/data/agave/elasticsearch/documents.py:147 | POSIX `os.path.join` of two components; Paths.JoinSplit states that it inverts the split |
| Paths.SplitOn | designsafe/apps/api/data/agave/elasticsearch/documents.py:217 | `str.split('/')`: at least one component, none holding the separator; Paths.JoinSplitOn states that joining them back gives the string |
| Paths.JoinWith | designsafe/apps/api/data/agave/elasticsearch/documents.py:220 | `sep.join`; Paths.JoinSplitOn and JoinWithPrefix state its properties |
| Common.Lower | designsafe/apps/api/agave/models/fields.py:46 | ASCII `str.lower` (also at fields.py:142 and `toLowerCase` at bundle.js:464): same length, each character lower-cased |
| Common.LowerIsLowerCase | designsafe/apps/api/agave/models/fields.py:46 | lower-casing leaves no upper-case ASCII letter and is idempotent |
| Paths.SplitTail | designsafe/apps/api/data/agave/elasticsearch/documents.py:141 | the basename has no slash, ends the path, and is empty iff the path is empty or ends with a slash |
| Paths.JoinSplit | designsafe/apps/api/data/agave/elasticsearch/documents.py:183-185 | joining the dirname and basename of a path without doubled slashes gives the path back |
| Paths.ReplacePrefix | designsafe/apps/api/data/agave/elasticsearch/documents.py:151 | the anchored one-shot `re.sub`, with the pattern read literally; Paths.ReplacePrefixOnce and ReplacePrefixInverse state its properties |
| Paths.ReplacePrefixOnce | designsafe/apps/api/data/agave/elasticsearch/documents.py:151 | a path with the old prefix gets the new prefix followed by exactly its old remainder; any other path is untouched |
| Paths.ReplacePrefixInverse | designsafe/apps/api/data/agave/elasticsearch/documents.py:151 | rewriting the prefix and rewriting it back restores the path |
| Paths.AgavePath | designsafe/apps/api/data/agave/elasticsearch/documents.py:152 | the `agave://system/full-path` address; Paths.AgavePathInjective states that it determines system and path |
| Paths.AgavePathInjective | designsafe/apps/api/data/agave/elasticsearch/documents.py:152 | with slash-free system ids, equal addresses mean equal systems and equal full paths |
| Paths.JoinSplitOn | designsafe/apps/api/data/agave/elasticsearch/documents.py:217-220 | splitting on a character and joining with it again is the identity (the walk's components rebuild the full path) |
| Paths.JoinWithPrefix | designsafe/apps/api/data/agave/elasticsearch/documents.py:217-220 | the join of all components is the join of a leading part, a separator, and the join of the rest |
| IndexProperties.NotOwnDescendant | designsafe/apps/api/data/agave/elasticsearch/documents.py:165 | a document with an ordinary name is not below its own full path |
| IndexProperties.SubtreeHitShape | designsafe/apps/api/data/agave/elasticsearch/documents.py:165 | a hit of the fan-out is in the index, in the directory's system, below its full path |
| IndexProperties.RenameEffect | designsafe/apps/api/data/agave/elasticsearch/documents.py:191-209 | rename keeps every id; self gets the new name in the same parent; each descendant's parent path has the old full path replaced by the new one with the rest kept; every other document is unchanged |
| IndexProperties.RenamePreservesAddresses | designsafe/apps/api/data/agave/elasticsearch/documents.py:199-206 | after rename every address is still the function of system, path and name |
| IndexProperties.RenameAsWrittenDiscrepancy | designsafe/apps/api/data/agave/elasticsearch/documents.py:203 | renaming `/a/d` holding `f` to `e`: as written `f` gets the address of `/a/e`; corrected, that of `/a/e/f` |
| IndexProperties.MoveEffect | designsafe/apps/api/data/agave/elasticsearch/documents.py:175-188 | move keeps every id; self keeps its name under `dirname(dest)`; each descendant is rebased from the old full path to the new one; every other document is unchanged |
| IndexProperties.MoveLandsOnDest | designsafe/apps/api/data/agave/elasticsearch/documents.py:183-185 | when the destination ends in the document's name, its new full path is the destination |
| IndexProperties.MovePreservesAddresses | designsafe/apps/api/data/agave/elasticsearch/documents.py:175-188 | after move every address is still the function of system, path and name |
| IndexProperties.MoveAsWrittenDiscrepancy | designsafe/apps/api/data/agave/elasticsearch/documents.py:179-181 | moving `/a/d` holding `f` to `/b/d`: as written `f` lands under `/b/d/d` with the address `/a/d`; corrected, under `/b/d` with its own address |
| IndexProperties.CopyEffect | designsafe/apps/api/data/agave/elasticsearch/documents.py:139-161 | copy adds one clone per descendant, rebased below the new full path, then the clone of self under the new name in the same parent; every clone has a fresh id and a consistent address |
| IndexProperties.CopyKeepsIndexInvariants | designsafe/apps/api/data/agave/elasticsearch/documents.py:146-159 | after copy ids are unique and every address is consistent |
| IndexProperties.DeleteEffect | designsafe/apps/api/data/agave/elasticsearch/documents.py:163-173 | the count is 1 for a file and 1 plus the number of descendants for a directory with an ordinary name; on success none of the counted documents remains and every other does |
| IndexProperties.DeleteAsWrittenDiscrepancy | designsafe/apps/api/data/agave/elasticsearch/documents.py:166 | as written a directory raises NameError and nothing is deleted; corrected, the whole subtree goes |
| IndexProperties.WalkOnlyGrants | designsafe/apps/api/data/agave/elasticsearch/documents.py:218-223 | the ancestor walk changes no document except by granting it, and keeps ids unique |
| IndexProperties.ShareEffect | designsafe/apps/api/data/agave/elasticsearch/documents.py:211-227 | every document ends as it was or granted; every descendant holds exactly the grant whether or not the call succeeds; on success so does self |
| IndexProperties.GrantKeepsMatch | designsafe/apps/api/data/agave/elasticsearch/documents.py:229-244 | granting a document never hides it from a lookup that matched it |
| IndexProperties.WalkGrantsAncestors | designsafe/apps/api/data/agave/elasticsearch/documents.py:217-223 | every path the walk gets through finds, in the final index, a document holding exactly the grant |
| IndexProperties.WalkStopsAtMissing | designsafe/apps/api/data/agave/elasticsearch/documents.py:221-222 | the path where the walk stops finds nothing in the final index |
| IndexProperties.ShareGrantsAncestors | designsafe/apps/api/data/agave/elasticsearch/documents.py:211-227 | after share, each ancestor path the walk got through finds a document holding exactly the grant, on success and on failure alike |
| IndexProperties.ShareStopsAtMissingAncestor | designsafe/apps/api/data/agave/elasticsearch/documents.py:211-227 | share succeeds exactly when the walk gets through every ancestor path; on failure the stopping path finds nothing and the grant to self is not made |
| IndexProperties.ShareFailureExample | designsafe/apps/api/data/agave/elasticsearch/documents.py:211-227 | a file `/b` already holding the grant, whose ancestor lookup finds nothing, fails and still holds the grant: the outcome does not decide self's permissions |
| IndexProperties.AncestorPathsArePrefixes | designsafe/apps/api/data/agave/elasticsearch/documents.py:217-221 | every path the walk looks up is a leading part of the full path, shorter than it |
| IndexProperties.ShareAsWrittenDiscrepancy | designsafe/apps/api/data/agave/elasticsearch/documents.py:213-220 | as written a directory fails on `self.naem`, and `/a/b` walks `.a` then the empty path, where '/' gives `/a` then the empty path |
| IndexProperties.FromAgaveFileEffect | designsafe/apps/api/data/agave/elasticsearch/documents.py:70-127 | a path not indexed gains exactly one appended document built from the file (system, parent path, name, type, address, no owner, not deleted) with the seeded or fetched permissions; an indexed one gains none, and the found document keeps id and owner, is refreshed from the file (and undeleted) exactly when auto_update is set, takes the fetched permissions exactly when get_pems is set, and is saved over its own id with every other document unchanged |
| IndexProperties.FromAgaveFileAsWrittenDiscrepancy | designsafe/apps/api/data/agave/elasticsearch/documents.py:100-124 | as written an import without fetched permissions raises after saving a document with no permissions; corrected, the owner entry is seeded |
| SearchIndex.Index.SaveEach | designsafe/apps/api/data/agave/elasticsearch/documents.py:200-203 | saving each hit in turn ends in the index with every hit rewritten and the rest unchanged |
| SearchIndex.Index.Rename | designsafe/apps/api/data/agave/elasticsearch/documents.py:191-209 | the loop of saves ends in the renamed index; ids stay unique |
| SearchIndex.Index.Move | designsafe/apps/api/data/agave/elasticsearch/documents.py:175-188 | the loop of saves ends in the moved index; ids stay unique |
| SearchIndex.Index.Copy | designsafe/apps/api/data/agave/elasticsearch/documents.py:139-161 | the old index followed by the clones, with ids drawn from the counter; ids stay unique |
| SearchIndex.Index.SaveClones | designsafe/apps/api/data/agave/elasticsearch/documents.py:148-154 | the loop of copy appends one clone per descendant, rebased below the copy, with consecutive fresh ids, and moves the counter past them |
| SearchIndex.Index.DeleteRecursive | designsafe/apps/api/data/agave/elasticsearch/documents.py:163-173 | deleting hit by hit, then self, gives the delete outcome: the count, or the not-found error when self is gone already |
| SearchIndex.Index.UpdatePems | designsafe/apps/api/data/agave/elasticsearch/documents.py:229-244 | the document is saved with its permissions replaced as update_pems does |
| SearchIndex.Index.Share | designsafe/apps/api/data/agave/elasticsearch/documents.py:211-227 | descendants, then ancestors, then self are granted, as the share outcome says; a missing ancestor stops with AttributeError and leaves the earlier grants |
| SearchIndex.Index.WalkAncestorsOf | designsafe/apps/api/data/agave/elasticsearch/documents.py:218-223 | the loop over ancestor paths ends in the walk's index and reports whether every lookup found a document |
| SearchIndex.Index.FromAgaveFile | designsafe/apps/api/data/agave/elasticsearch/documents.py:70-127 | the index and document after from_agave_file; the id counter moves only when a document is created |
| SearchIndex.UniqueSubsequence | designsafe/apps/api/data/agave/elasticsearch/documents.py:163-173 | what remains after deletions keeps unique ids |
| Fields.DerivedName | designsafe/apps/api/agave/models/fields.py:45-47 | an explicit name is kept; failing one, each character of the verbose name is lower-cased and a space becomes `_` |
| Fields.DerivedNameShape | designsafe/apps/api/agave/models/fields.py:45-47 | a derived name holds no space and no upper-case letter |
| Fields.ChoicesOf | designsafe/apps/api/agave/models/fields.py:40-49 | an iterator's elements in order; anything else, a list included, gives no choices |
| Fields.InitialDefault | designsafe/apps/api/agave/models/fields.py:115-129 | a given default is kept; otherwise `[]` for list fields, `{}` for nested fields, the class NOT_PROVIDED for the rest |
| Fields.DefaultOf | designsafe/apps/api/agave/models/fields.py:62-66 | raises ValueError exactly for an instance of NOT_PROVIDED; returns the default otherwise |
| Fields.UnsetDefaultIsReturned | designsafe/apps/api/agave/models/fields.py:62-66 | a plain or related field built without a default returns the class NOT_PROVIDED; get_default raises only for an explicit NOT_PROVIDED() |
| Fields.ListOf | designsafe/apps/api/agave/models/fields.py:121-122 | list(v): a list unchanged, an iterator's elements, a string's characters, a dict's keys; TypeError for anything else |
| Fields.ToPython | designsafe/apps/api/agave/models/fields.py:68-69 | the identity except on list fields, where the result is a list and a list is unchanged |
| Fields.ToPythonIdempotent | designsafe/apps/api/agave/models/fields.py:121-122 | converting a converted value again changes nothing |
| Fields.Clean | designsafe/apps/api/agave/models/fields.py:71-72 | clean gives what to_python gives: the identity, or the list conversion on list fields |
| Fields.ReverseName | designsafe/apps/api/agave/models/fields.py:142 | the related name when given, otherwise the lower-cased class name followed by `_set` |
| Fields.ReverseNameDistinguishes | designsafe/apps/api/agave/models/fields.py:142 | default reverse names of two classes agree iff their lower-cased names do |
| Fields.LazyRegistry.Register | designsafe/apps/api/agave/models/fields.py:143 | one pending relation is appended |
| Fields.Field.constructor | designsafe/apps/api/agave/models/fields.py:20-49 | every argument recorded; nested, related and related_name forced by the field class; name derived, choices filtered, default by kind, attname unset |
| Fields.Field.GetDefault | designsafe/apps/api/agave/models/fields.py:62-66 | raises exactly when the stored default is an instance of NOT_PROVIDED |
| Fields.Field.ContributeToClass | designsafe/apps/api/agave/models/fields.py:51-60 | name set only if empty, attname always, verbose name only if None, every other attribute unchanged; the field appended once to the class's fields; a related field also registers (related, reverse name, model name, multiple) once |
| Rapid.IndexOf | designsafe/apps/rapid/static/designsafe/apps/rapid/build/bundle.9658dc11a576a697925d.js:464 | -1 exactly when the text occurs nowhere; otherwise its first occurrence |
| Rapid.IndexOfFinds | designsafe/apps/rapid/static/designsafe/apps/rapid/build/bundle.9658dc11a576a697925d.js:464 | indexOf finds something exactly when the text occurs |
| Rapid.Keep | designsafe/apps/rapid/static/designsafe/apps/rapid/build/bundle.9658dc11a576a697925d.js:458-474 | the per-event test of the filter; Rapid.SearchKeeps states it in full |
| Rapid.SearchEvents | designsafe/apps/rapid/static/designsafe/apps/rapid/build/bundle.9658dc11a576a697925d.js:456-477 | a subsequence of the events: every event kept passes the filter and every event passing it is kept |
| Rapid.SearchKeeps | designsafe/apps/rapid/static/designsafe/apps/rapid/build/bundle.9658dc11a576a697925d.js:458-474 | an event is kept iff its type matches, its lower-cased title contains the lower-cased text, and its date lies strictly after the start and strictly before the end, each only when set |
| Rapid.SearchWithoutFilters | designsafe/apps/rapid/static/designsafe/apps/rapid/build/bundle.9658dc11a576a697925d.js:456-477 | with empty options every event is returned, in order |
| Rapid.RapidMainCtrl.constructor | designsafe/apps/rapid/static/designsafe/apps/rapid/build/bundle.9658dc11a576a697925d.js:244-246 | sidebar shown, empty options, no active event |
| Rapid.RapidMainCtrl.ReceiveEvents | designsafe/apps/rapid/static/designsafe/apps/rapid/build/bundle.9658dc11a576a697925d.js:271-273 | the events response is stored, nothing else changes |
| Rapid.RapidMainCtrl.MarkerClick | designsafe/apps/rapid/static/designsafe/apps/rapid/build/bundle.9658dc11a576a697925d.js:286-292 | clicking the active event's marker deselects it; any other marker's event becomes active and opens the sidebar |
| Rapid.RapidMainCtrl.SelectEvent | designsafe/apps/rapid/static/designsafe/apps/rapid/build/bundle.9658dc11a576a697925d.js:301-304 | the given event becomes active, nothing else changes |
| Rapid.RapidMainCtrl.Search | designsafe/apps/rapid/static/designsafe/apps/rapid/build/bundle.9658dc11a576a697925d.js:307-310 | the filtered events are the search of the events under the current options |
| Rapid.RapidMainCtrl.ClearFilters | designsafe/apps/rapid/static/designsafe/apps/rapid/build/bundle.9658dc11a576a697925d.js:313-316 | the options are emptied and the filtered events equal the events |
| Rapid.RapidAdminUsersCtrl.constructor | designsafe/apps/rapid/static/designsafe/apps/rapid/build/bundle.9658dc11a576a697925d.js:159-168 | building the controller sends one query, empty text with role Rapid Admin |
| Rapid.RapidAdminUsersCtrl.SearchUsers | designsafe/apps/rapid/static/designsafe/apps/rapid/build/bundle.9658dc11a576a697925d.js:173-184 | a query longer than one character is sent; a shorter one sends nothing and empties the found users |
| Rapid.RapidAdminUsersCtrl.ReceiveFoundUsers | designsafe/apps/rapid/static/designsafe/apps/rapid/build/bundle.9658dc11a576a697925d.js:178-180 | the response becomes the found users |
| Rapid.RapidAdminUsersCtrl.ReceiveAdminUsers | designsafe/apps/rapid/static/designsafe/apps/rapid/build/bundle.9658dc11a576a697925d.js:167-169 | the response becomes the admin users; found users and sent queries are unchanged |

## Left out

- **Elasticsearch plumbing.** The connection setup, the query DSL, `save`/`update`/`scan` and real query execution are not modelled. The index is a sequence, and the queries are the filters the query bodies describe.
- **Failing searches inside the operations.** Searches inside the subtree operations and `from_agave_file` always answer. The retry policy is modelled on its own by `Documents.ExecuteSearch`.
- **Document fields without logic.** The model leaves out every document field that no modelled logic reads: MIME type, format, size, timestamps, tags, keywords, link and file type.
- **Concurrency and atomicity.** The operations are single-threaded loops. A failure part-way leaves the earlier saves in place, and no atomicity is claimed.
- **Coercing field classes.** The coercions of `CharField`, `IntField`, `DecimalField` and `DateTimeField` belong to the `unicode`, `int`, `Decimal` and `dateutil` libraries and are not modelled. Neither is `UuidField`, whose unsupported `schema_field` keyword raises on construction. The `__init__` those classes share is modelled.
- **Pass-through field arguments.** `validators` and `error_messages` are only stored and are not modelled.
- **Unicode lower-casing.** `str.lower` and `toLowerCase` are modelled on ASCII letters only.
- **Iterators are not consumed.** `list(iterator)` does not model that it exhausts the iterator.
- **Files outside this model:**
  - base.py is not part of this model. `register_lazy_rel` becomes an append to `Fields.LazyRegistry`, and `cls._meta.add_field` becomes an append to `Fields.ModelClass.fields`.
  - The Agave file object is not part of this model. `Documents.AgaveFile` holds the fields `from_agave_file` reads.
- **HTTP and UI wiring in the bundle:**
  - the `$http` calls, `get_events` and `get_event_types`;
  - `make_admin` and `revoke_admin`;
  - the Leaflet map, markers and view changes;
  - Angular wiring and `console.log`.
  The responses to user searches arrive through the `Receive` methods.
- **`self.system` in the subtree operations** (documents.py:147, 166, 177, 199, 213). Every modelled document is assumed to carry a `system` equal to its `systemId`. The documents created at lines 84 and 104 store only `systemId`. For such a document, `self.system` would raise AttributeError in every directory branch of `copy`, `delete_recursive`, `move`, `rename` and `share`. That happens before the unbound `username` at line 166 or `self.naem` at line 213 is reached. The model does not capture that failure.
- Paths.ReplacePrefix: reads the `re.sub` pattern and replacement literally (documents.py:150-151, 179-180, 201-202). The source builds the pattern `^` + the directory's full path without escaping it, and `re.sub` interprets backslash escapes in the replacement. The model does not capture regular-expression metacharacters or escapes. In the source, a directory whose full path holds `(`, `+`, `*`, `?`, `[` or similar fails to match its own descendants' paths, so `copy`, `move` and `rename` leave those descendants un-rebased; an unbalanced `(` or `[` raises `re.error`; a backslash in the new path is rewritten. For such paths `IndexProperties.CopyEffect`, `MoveEffect` and `RenameEffect` describe a rebase the source does not perform.
- **`Documents.Listing` and `Documents.FromFilePath`:** no modelled code keeps a query answer, so they are proved as functions and no loop stands in for them.

## Findings

| source | as written | input that shows it | evidently intended | confidence | as-written member | corrected member |
|---|---|---|---|---|---|---|
| designsafe/apps/api/data/agave/elasticsearch/documents.py:116 | `pems [ ... ]` lacks `=`, so line 116 itself subscripts the local `pems` before any assignment to it, and Python raises UnboundLocalError (a kind of NameError), after the save at line 110 | any new document imported with get_pems False, e.g. path `/alice/data` | `pems = [...]`: alice gets full recursive rights | high (not executed) | Permissions.SeedPermissionsAsWritten, Documents.FromAgaveFileOutcomeAsWritten (shown by IndexProperties.FromAgaveFileAsWrittenDiscrepancy) | Permissions.SeedPermissions |
| designsafe/apps/api/data/agave/elasticsearch/documents.py:166 | `delete_recursive` takes no `username` but passes it to the listing, so a directory raises NameError | any directory document | list with the caller's user name and delete the subtree | high (not executed) | Documents.DeleteOutcomeAsWritten (shown by IndexProperties.DeleteAsWrittenDiscrepancy) | Documents.DeleteOutcome |
| designsafe/apps/api/data/agave/elasticsearch/documents.py:213 | `self.naem` raises AttributeError for every directory | any directory document | `self.name` | high (not executed) | Documents.ShareOutcomeAsWritten (shown by IndexProperties.ShareAsWrittenDiscrepancy) | Documents.ShareOutcome |
| designsafe/apps/api/data/agave/elasticsearch/documents.py:220 | ancestor paths are joined with '.' | `/a/b` looks up `.a` instead of `/a` | `'/'.join(path_comps)` | high (not executed) | Documents.ShareOutcomeAsWritten (shown by IndexProperties.ShareAsWrittenDiscrepancy) | Documents.AncestorPaths with "/" in Documents.ShareOutcome |
| designsafe/apps/api/data/agave/elasticsearch/documents.py:179-181 | descendants are rebased to `join(dest, name)` although the directory moves to `join(dirname(dest), name)`, and each gets the directory's old address | `/a/d` holding `/a/d/f`, moved to `/b/d`: `f` ends under `/b/d/d` with address of `/a/d` | rebase to the directory's new full path, and recompute each address from its own path and name | medium (not executed) | Documents.MovedDescendantAsWritten (shown by IndexProperties.MoveAsWrittenDiscrepancy) | Documents.MovedDescendant |
| designsafe/apps/api/data/agave/elasticsearch/documents.py:203 | each descendant of a renamed directory gets the directory's own new address | `/a/d` holding `/a/d/f`, renamed to `e`: `f` gets the address of `/a/e` | the address of `/a/e/f` | high (not executed) | Documents.RenamedDescendantAsWritten (shown by IndexProperties.RenameAsWrittenDiscrepancy) | Documents.RenamedDescendant |
