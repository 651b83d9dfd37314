/** The search-index mirror of a remote file system: one document per file
    or directory, the three queries `Object` builds over them, the retry
    policy of `_execute_search`, and what each subtree operation does to
    every document of the index, stated as functions of the index before
    the call. The class in search_index.dfy carries out the same
    operations step by step. */
module Documents {
  import opened Common
  import opened Paths
  import opened Permissions

  datatype EntryType = File | Dir

  /** One indexed file or directory. `id` is the index's own document id;
      `path` is the parent directory and `name` the last component. */
  datatype Doc = Doc(
    id: nat,
    systemId: string,
    path: string,
    name: string,
    entryType: EntryType,
    deleted: bool,
    owner: Option<string>,
    agavePath: string,
    permissions: seq<Perm>)

  function FullPath(d: Doc): string
  {
    Join(d.path, d.name)
  }

  /** The address a document should carry: a function of its system, its
      parent path and its name alone. */
  predicate AddressConsistent(d: Doc)
  {
    d.agavePath == AgavePath(d.systemId, FullPath(d))
  }

  predicate AllAddressesConsistent(docs: seq<Doc>)
  {
    forall i :: 0 <= i < |docs| ==> AddressConsistent(docs[i])
  }

  /** No two documents of the index share an id. */
  predicate UniqueIds(docs: seq<Doc>)
  {
    forall i, j :: 0 <= i < j < |docs| ==> docs[i].id != docs[j].id
  }

  // ---------------------------------------------------------------- queries

  /** The owner-or-shared filter: `user` owns the document, or one of its
      permission entries names `user` or "world". */
  predicate VisibleTo(d: Doc, user: string)
  {
    d.owner == Some(user) ||
    exists k :: 0 <= k < |d.permissions| && (d.permissions[k].username == user || d.permissions[k].username == "world")
  }

  /** The filter of `listing`: the exact parent path, the system, not
      deleted, visible to the user. */
  predicate InListing(d: Doc, system: string, user: string, path: string)
  {
    d.path == path && d.systemId == system && !d.deleted && VisibleTo(d, user)
  }

  /** The filter of `listing_recursive`: as `listing`, but the parent path
      need only start with `path`. */
  predicate InSubtree(d: Doc, system: string, user: string, path: string)
  {
    StartsWith(d.path, path) && d.systemId == system && !d.deleted && VisibleTo(d, user)
  }

  /** `Object.listing`: the children of `path`, in index order. */
  function Listing(docs: seq<Doc>, system: string, user: string, path: string): (r: seq<Doc>)
    ensures forall k :: 0 <= k < |r| ==> r[k] in docs && InListing(r[k], system, user, path)
    ensures forall k :: 0 <= k < |docs| && InListing(docs[k], system, user, path) ==> docs[k] in r
    ensures IsSubsequence(r, docs)
  {
    Filter(docs, (d: Doc) => InListing(d, system, user, path))
  }

  /** `Object.listing_recursive`: every document below `path`, in index
      order. */
  function ListingRecursive(docs: seq<Doc>, system: string, user: string, path: string): (r: seq<Doc>)
    ensures forall k :: 0 <= k < |r| ==> r[k] in docs && InSubtree(r[k], system, user, path)
    ensures forall k :: 0 <= k < |docs| && InSubtree(docs[k], system, user, path) ==> docs[k] in r
    ensures IsSubsequence(r, docs)
  {
    Filter(docs, (d: Doc) => InSubtree(d, system, user, path))
  }

  /** Every child is also found by the recursive listing: the exact match
      is the prefix match with nothing after the prefix. */
  lemma ListingWithinRecursive(docs: seq<Doc>, system: string, user: string, path: string)
    ensures forall d :: d in Listing(docs, system, user, path) ==> d in ListingRecursive(docs, system, user, path)
  {
    forall d | d in Listing(docs, system, user, path)
      ensures d in ListingRecursive(docs, system, user, path)
    {
      assert d.path[..|path|] == path;
      var k :| 0 <= k < |docs| && docs[k] == d;
    }
  }

  /** The parent path and name `from_file_path` looks for: the dirname,
      or "/" when it is empty, and the basename. */
  function LookupKey(filePath: string): (string, string)
  {
    var (parent, name) := Split(filePath);
    (if parent == "" then "/" else parent, name)
  }

  /** The filter of `from_file_path`; with no user the owner-or-shared
      clause is dropped. */
  predicate LookupMatch(d: Doc, system: string, user: Option<string>, filePath: string)
  {
    d.path == LookupKey(filePath).0 && d.name == LookupKey(filePath).1 &&
    d.systemId == system && !d.deleted &&
    (user.Some? ==> VisibleTo(d, user.value))
  }

  /** The first element of a non-empty filter result is the first
      element of `s` that passes. */
  lemma {:induction false} FilterFirstAt<T>(s: seq<T>, p: T -> bool) returns (i: nat)
    requires Filter(s, p) != []
    ensures i < |s| && s[i] == Filter(s, p)[0] && p(s[i])
    ensures forall j :: 0 <= j < i ==> !p(s[j])
    decreases |s|
  {
    if p(s[0]) {
      assert Filter(s, p) == [s[0]] + Filter(s[1..], p);
      i := 0;
    } else {
      assert Filter(s, p) == Filter(s[1..], p);
      var k := FilterFirstAt(s[1..], p);
      i := k + 1;
      assert s[i] == s[1..][k];
      forall j | 0 <= j < i ensures !p(s[j]) {
        if j > 0 { assert s[j] == s[1..][j - 1]; }
      }
    }
  }

  lemma FilterFirst<T>(s: seq<T>, p: T -> bool)
    requires Filter(s, p) != []
    ensures exists i :: 0 <= i < |s| && s[i] == Filter(s, p)[0] && p(s[i]) &&
                        forall j :: 0 <= j < i ==> !p(s[j])
  {
    var i := FilterFirstAt(s, p);
  }

  /** `Object.from_file_path`: the first matching document of the index,
      or none. */
  function FromFilePath(docs: seq<Doc>, system: string, user: Option<string>, filePath: string): (r: Option<Doc>)
    ensures r.None? <==> forall k :: 0 <= k < |docs| ==> !LookupMatch(docs[k], system, user, filePath)
    ensures r.Some? ==> exists i :: 0 <= i < |docs| && docs[i] == r.value &&
                                    LookupMatch(docs[i], system, user, filePath) &&
                                    forall j :: 0 <= j < i ==> !LookupMatch(docs[j], system, user, filePath)
  {
    var hits := Filter(docs, (d: Doc) => LookupMatch(d, system, user, filePath));
    if hits != [] then
      FilterFirst(docs, (d: Doc) => LookupMatch(d, system, user, filePath));
      Some(hits[0])
    else
      None
  }

  /** For a path with a directory part, the lookup is by that directory
      and the basename; a bare name is looked up under the root. */
  lemma LookupKeyParts(filePath: string)
    ensures LookupKey(filePath).1 == Basename(filePath)
    ensures Dirname(filePath) != "" ==> LookupKey(filePath).0 == Dirname(filePath)
    ensures Dirname(filePath) == "" ==> LookupKey(filePath).0 == "/"
  {
  }

  // ----------------------------------------------------------- search retry

  /** What one execution of a search returns: hits, or a transport error
      with its status. */
  datatype Attempt = Answered | Failed(status: int)

  datatype SearchRun<T> = SearchRun(result: Result<T>, executions: nat)

  function AttemptResult<T>(hits: T, a: Attempt): Result<T>
  {
    if a.Answered? then Ok(hits) else Err(TransportError(a.status))
  }

  /** `_execute_search`: runs the search; a transport error other than 404
      is retried once, and the retry's answer or error is what the caller
      gets; a 404 propagates at once. */
  function ExecuteSearch<T>(hits: T, first: Attempt, retry: Attempt): (r: SearchRun<T>)
    ensures 1 <= r.executions <= 2
    ensures r.executions == 2 <==> first.Failed? && first.status != 404
    ensures r.executions == 1 ==> r.result == AttemptResult(hits, first)
    ensures r.executions == 2 ==> r.result == AttemptResult(hits, retry)
    ensures first == Failed(404) ==> r.result == Err(TransportError(404))
  {
    match first
    case Answered => SearchRun(Ok(hits), 1)
    case Failed(status) =>
      if status == 404 then SearchRun(Err(TransportError(404)), 1)
      else SearchRun(AttemptResult(hits, retry), 2)
  }

  // ----------------------------------------------- per-document rewrites

  /** The new name `copy` and `rename` take from their path argument: the
      basename, or the whole argument when it has no directory part. */
  function NewName(dest: string): string
  {
    var (tail, head) := Split(dest);
    if tail == "" then dest else head
  }

  /** The fallback for an argument without a directory part changes
      nothing: the new name is always the basename. */
  lemma NewNameIsBasename(dest: string)
    ensures NewName(dest) == Basename(dest)
  {
    var i := AfterLastSlash(dest);
    var head := dest[..i];
    if head != [] && !AllSlashes(head) {
      var j :| 0 <= j < |head| && head[j] != '/';
      var r := RStripSlashes(head);
      assert |r| > j;
    }
    if Dirname(dest) == "" {
      assert i == 0;
      assert dest[i..] == dest;
    }
  }

  /** A descendant moved from under `from` to under `to`: the leading
      `from` of its parent path is replaced once, and its address is
      recomputed from its own new path and name. */
  function Rebased(o: Doc, from: string, to: string, system: string): (r: Doc)
    ensures r.(path := o.path, agavePath := o.agavePath) == o
    ensures r.path == ReplacePrefix(o.path, from, to)
    ensures o.systemId == system ==> AddressConsistent(r)
  {
    var newPath := ReplacePrefix(o.path, from, to);
    o.(path := newPath, agavePath := AgavePath(system, Join(newPath, o.name)))
  }

  /** The renamed document itself: only its name and its address change,
      and the address is the one its new name gives. */
  function RenamedSelf(self: Doc, newName: string): (r: Doc)
    ensures r.(name := self.name, agavePath := self.agavePath) == self
    ensures r.name == newName && AddressConsistent(r)
  {
    self.(name := newName, agavePath := AgavePath(self.systemId, Join(self.path, newName)))
  }

  /** A descendant of a directory renamed to `newName`. */
  function RenamedDescendant(o: Doc, self: Doc, newName: string): (r: Doc)
    ensures r.(path := o.path, agavePath := o.agavePath) == o
    ensures r.path == ReplacePrefix(o.path, FullPath(self), FullPath(RenamedSelf(self, newName)))
    ensures o.systemId == self.systemId ==> AddressConsistent(r)
  {
    Rebased(o, FullPath(self), Join(self.path, newName), self.systemId)
  }

  /** The same rewrite as written at documents.py:201-203: every descendant
      is given the renamed directory's own address. */
  function RenamedDescendantAsWritten(o: Doc, self: Doc, newName: string): (r: Doc)
    ensures r.path == RenamedDescendant(o, self, newName).path
    ensures r.agavePath == RenamedSelf(self, newName).agavePath
  {
    o.(path := ReplacePrefix(o.path, FullPath(self), Join(self.path, newName)),
       agavePath := AgavePath(self.systemId, Join(self.path, newName)))
  }

  /** The moved document itself: only its parent path and its address
      change, and the address is the one its new parent path gives. */
  function MovedSelf(self: Doc, dest: string): (r: Doc)
    ensures r.(path := self.path, agavePath := self.agavePath) == self
    ensures r.path == Dirname(dest) && AddressConsistent(r)
  {
    self.(path := Dirname(dest), agavePath := AgavePath(self.systemId, Join(Dirname(dest), self.name)))
  }

  /** A descendant of a directory moved to `dest`: it follows the directory
      to its new full path, `join(dirname(dest), name)`. */
  function MovedDescendant(o: Doc, self: Doc, dest: string): (r: Doc)
    ensures r.(path := o.path, agavePath := o.agavePath) == o
    ensures r.path == ReplacePrefix(o.path, FullPath(self), FullPath(MovedSelf(self, dest)))
    ensures o.systemId == self.systemId ==> AddressConsistent(r)
  {
    Rebased(o, FullPath(self), Join(Dirname(dest), self.name), self.systemId)
  }

  /** The same rewrite as written at documents.py:179-181: the prefix
      becomes `join(dest, name)` although the directory itself moves to
      `join(dirname(dest), name)`, and every descendant is given the
      directory's address from before the move. */
  function MovedDescendantAsWritten(o: Doc, self: Doc, dest: string): (r: Doc)
    ensures r.(path := o.path, agavePath := o.agavePath) == o
    ensures r.path == ReplacePrefix(o.path, FullPath(self), Join(dest, self.name))
    ensures AddressConsistent(self) ==> r.agavePath == self.agavePath
  {
    o.(path := ReplacePrefix(o.path, FullPath(self), Join(dest, self.name)),
       agavePath := AgavePath(self.systemId, FullPath(self)))
  }

  /** `update_pems` applied to one document. */
  function GrantedDoc(d: Doc, user: string, level: string): Doc
  {
    d.(permissions := UpdatedPems(d.permissions, user, level))
  }

  lemma GrantedDocIdempotent(d: Doc, user: string, level: string)
    ensures GrantedDoc(d, user, level).(permissions := d.permissions) == d
    ensures GrantedDoc(GrantedDoc(d, user, level), user, level) == GrantedDoc(d, user, level)
    ensures Granted(GrantedDoc(d, user, level).permissions, user, level)
  {
    UpdatedPemsIdempotent(d.permissions, user, level);
  }

  // ------------------------------------------------ index-wide updates

  /** The documents a subtree operation fans out to: for a directory, the
      recursive listing of its full path; for a file, none. */
  function SubtreeHits(docs: seq<Doc>, self: Doc, user: string): seq<Doc>
  {
    if self.entryType == Dir then ListingRecursive(docs, self.systemId, user, FullPath(self)) else []
  }

  /** Each document found by the snapshot `hits` replaced by its image
      under `f`; the others as they were. */
  function Rewritten(docs: seq<Doc>, hits: seq<Doc>, f: Doc -> Doc): (r: seq<Doc>)
    ensures |r| == |docs|
  {
    seq(|docs|, i requires 0 <= i < |docs| => if docs[i] in hits then f(docs[i]) else docs[i])
  }

  /** Saving `d` over the document with id `id`. */
  function UpdateById(docs: seq<Doc>, id: nat, d: Doc): (r: seq<Doc>)
    ensures |r| == |docs|
  {
    seq(|docs|, i requires 0 <= i < |docs| => if docs[i].id == id then d else docs[i])
  }

  /** The ids of a sequence of documents. */
  function IdsOf(s: seq<Doc>): set<nat>
  {
    set k | 0 <= k < |s| :: s[k].id
  }

  /** The index with every document whose id is in `ids` deleted. */
  function Without(docs: seq<Doc>, ids: set<nat>): (r: seq<Doc>)
    ensures forall k :: 0 <= k < |r| ==> r[k] in docs && r[k].id !in ids
    ensures forall k :: 0 <= k < |docs| && docs[k].id !in ids ==> docs[k] in r
    ensures IsSubsequence(r, docs)
  {
    Filter(docs, (d: Doc) => d.id !in ids)
  }

  lemma {:induction false} WithoutWithout(docs: seq<Doc>, a: set<nat>, b: set<nat>)
    ensures Without(Without(docs, a), b) == Without(docs, a + b)
    decreases |docs|
  {
    if docs != [] {
      WithoutWithout(docs[1..], a, b);
    }
  }

  /** The index after `rename(username, dest)` on `self`. */
  function RenamedIndex(docs: seq<Doc>, self: Doc, user: string, dest: string): seq<Doc>
  {
    var newName := NewName(dest);
    UpdateById(Rewritten(docs, SubtreeHits(docs, self, user), (o: Doc) => RenamedDescendant(o, self, newName)),
               self.id, RenamedSelf(self, newName))
  }

  /** The index after `move(username, dest)` on `self`. */
  function MovedIndex(docs: seq<Doc>, self: Doc, user: string, dest: string): seq<Doc>
  {
    UpdateById(Rewritten(docs, SubtreeHits(docs, self, user), (o: Doc) => MovedDescendant(o, self, dest)),
               self.id, MovedSelf(self, dest))
  }

  /** The documents `copy(username, dest)` adds, with ids from `nextId`
      on: a clone of every descendant, rebased under the new name, then
      the clone of `self` itself. */
  function CopyAdditions(docs: seq<Doc>, nextId: nat, self: Doc, user: string, dest: string): (r: seq<Doc>)
    ensures |r| == |SubtreeHits(docs, self, user)| + 1
  {
    Clones(SubtreeHits(docs, self, user), self, NewName(dest), nextId) +
    [RenamedSelf(self, NewName(dest)).(id := nextId + |SubtreeHits(docs, self, user)|)]
  }

  /** The copies of the descendants `hits` of `self`, rebased below the
      copy named `newName` and numbered from `first`. */
  function Clones(hits: seq<Doc>, self: Doc, newName: string, first: nat): (r: seq<Doc>)
    ensures |r| == |hits|
  {
    seq(|hits|, k requires 0 <= k < |hits| => RenamedDescendant(hits[k], self, newName).(id := first + k))
  }

  /** The index and the result after `delete_recursive` on `self`: the
      descendants are deleted and counted, then `self`; deleting `self`
      fails when it was itself among the descendants. */
  function DeleteOutcome(docs: seq<Doc>, self: Doc, user: string): (seq<Doc>, Result<nat>)
  {
    var hits := SubtreeHits(docs, self, user);
    var rest := Without(docs, IdsOf(hits));
    if self.id in IdsOf(hits) then (rest, Err(NotFoundError))
    else (Without(rest, {self.id}), Ok(|hits| + 1))
  }

  /** `delete_recursive` as written at documents.py:163-173: the listing
      for a directory reads a name `username` that is bound nowhere, so a
      directory is never deleted. */
  function DeleteOutcomeAsWritten(docs: seq<Doc>, self: Doc): (seq<Doc>, Result<nat>)
  {
    if self.entryType == Dir then (docs, Err(NameError("username")))
    else (Without(docs, {self.id}), Ok(1))
  }

  /** The paths the ancestor walk of `share` looks up for a document whose
      full path is `full`, joining the components with `sep`: the full
      path less its last component, then less one more, down to nothing. */
  function AncestorPaths(full: string, sep: string): (r: seq<string>)
    ensures |r| == |SplitOn(full, '/')| - 1
  {
    var comps := SplitOn(full, '/');
    var c := comps[..|comps| - 1];
    seq(|c|, i requires 0 <= i < |c| => JoinWith(sep, c[..|c| - i]))
  }

  /** The walk itself: each path is looked up and the document found is
      granted the permission; a path that finds nothing stops the walk,
      as `None.update_pems` raises. */
  function WalkAncestors(docs: seq<Doc>, system: string, username: string, paths: seq<string>,
                         user: string, level: string): (seq<Doc>, bool)
    decreases |paths|
  {
    if paths == [] then (docs, true)
    else match FromFilePath(docs, system, Some(username), paths[0])
      case None => (docs, false)
      case Some(d) =>
        WalkAncestors(UpdateById(docs, d.id, GrantedDoc(d, user, level)), system, username, paths[1..], user, level)
  }

  /** How many of `paths` the walk gets through: the position of the first
      path that finds nothing, or all of them; the walk completes exactly
      when it gets through every path. */
  function WalkReach(docs: seq<Doc>, system: string, username: string, paths: seq<string>,
                     user: string, level: string): (n: nat)
    ensures n <= |paths|
    ensures n == |paths| <==> WalkAncestors(docs, system, username, paths, user, level).1
    decreases |paths|
  {
    if paths == [] then 0
    else match FromFilePath(docs, system, Some(username), paths[0])
      case None => 0
      case Some(d) =>
        1 + WalkReach(UpdateById(docs, d.id, GrantedDoc(d, user, level)), system, username, paths[1..], user, level)
  }

  /** The first step of `share`: every descendant of `self` granted. */
  function SubtreeGranted(docs: seq<Doc>, self: Doc, username: string, user: string, level: string): (r: seq<Doc>)
    ensures |r| == |docs|
  {
    Rewritten(docs, SubtreeHits(docs, self, username), (o: Doc) => GrantedDoc(o, user, level))
  }

  /** The index and the outcome after `share(username, user, level)` on
      `self`: the grant goes to every descendant, then to every ancestor,
      then to `self`. */
  function ShareOutcome(docs: seq<Doc>, self: Doc, username: string, user: string, level: string): (seq<Doc>, Outcome)
  {
    var granted := SubtreeGranted(docs, self, username, user, level);
    var (walked, completed) := WalkAncestors(granted, self.systemId, username, AncestorPaths(FullPath(self), "/"), user, level);
    if completed then (UpdateById(walked, self.id, GrantedDoc(self, user, level)), Pass)
    else (walked, Fail(AttributeError("update_pems")))
  }

  /** `share` as written at documents.py:211-227: a directory's listing
      reads `self.naem`, which raises before anything changes, and the
      ancestor paths are joined with '.' instead of '/'. */
  function ShareOutcomeAsWritten(docs: seq<Doc>, self: Doc, username: string, user: string, level: string): (seq<Doc>, Outcome)
  {
    if self.entryType == Dir then (docs, Fail(AttributeError("naem")))
    else
      var (walked, completed) := WalkAncestors(docs, self.systemId, username, AncestorPaths(FullPath(self), "."), user, level);
      if completed then (UpdateById(walked, self.id, GrantedDoc(self, user, level)), Pass)
      else (walked, Fail(AttributeError("update_pems")))
  }

  /** The file metadata `from_agave_file` is given. */
  datatype AgaveFile = AgaveFile(
    system: string,
    fullPath: string,
    path: string,
    name: string,
    parentPath: string,
    entryType: EntryType,
    permissions: seq<Perm>)

  /** The fields `auto_update` refreshes on a document already indexed. */
  function Refreshed(o: Doc, f: AgaveFile): (r: Doc)
    ensures r.(name := o.name, deleted := o.deleted, agavePath := o.agavePath,
               systemId := o.systemId, path := o.path, entryType := o.entryType) == o
  {
    o.(name := f.name, deleted := false, agavePath := AgavePath(f.system, f.fullPath),
       systemId := f.system, path := f.parentPath, entryType := f.entryType)
  }

  function NewDoc(f: AgaveFile, id: nat, pems: seq<Perm>): Doc
  {
    Doc(id, f.system, f.parentPath, f.name, f.entryType, false, None, AgavePath(f.system, f.fullPath), pems)
  }

  /** The index and the returned document after `from_agave_file`. */
  function FromAgaveFileOutcome(docs: seq<Doc>, nextId: nat, user: Option<string>, f: AgaveFile,
                                autoUpdate: bool, getPems: bool): (seq<Doc>, Doc)
  {
    match FromFilePath(docs, f.system, user, f.fullPath)
    case Some(o) =>
      var o1 := if autoUpdate then Refreshed(o, f) else o;
      var o2 := if getPems then o1.(permissions := f.permissions) else o1;
      (UpdateById(docs, o.id, o2), o2)
    case None =>
      var n := NewDoc(f, nextId, SeedPermissions(getPems, f.permissions, f.path));
      (docs + [n], n)
  }

  /** `from_agave_file` as written at documents.py:100-124: a new document
      is saved before its permissions are chosen, so when they are not
      fetched the missing `=` at line 116 raises after the save, leaving
      the document indexed without permissions. */
  function FromAgaveFileOutcomeAsWritten(docs: seq<Doc>, nextId: nat, user: Option<string>, f: AgaveFile,
                                         autoUpdate: bool, getPems: bool): (seq<Doc>, Result<Doc>)
  {
    match FromFilePath(docs, f.system, user, f.fullPath)
    case Some(_) =>
      var (r, o) := FromAgaveFileOutcome(docs, nextId, user, f, autoUpdate, getPems);
      (r, Ok(o))
    case None =>
      var saved := NewDoc(f, nextId, []);
      match SeedPermissionsAsWritten(getPems, f.permissions, f.path)
      case Ok(pems) => (docs + [saved.(permissions := pems)], Ok(saved.(permissions := pems)))
      case Err(e) => (docs + [saved], Err(e))
  }
}
