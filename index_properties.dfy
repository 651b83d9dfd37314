/** What the subtree operations guarantee about the index: which
    documents change and how, that addresses stay consistent, what
    deletion counts, what sharing grants; and, beside each defect of the
    code as written, a concrete index on which the written and the
    corrected rewrites differ. */
module IndexProperties {
  import opened Common
  import opened Paths
  import opened Permissions
  import opened Documents

  /** A name that is not empty and does not start with a slash: the shape
      of every file name the remote file system reports. */
  predicate OrdinaryName(n: string)
  {
    n != [] && n[0] != '/'
  }

  /** A document whose name is ordinary is never below its own full path,
      so it is never among its own descendants. */
  lemma NotOwnDescendant(d: Doc)
    requires OrdinaryName(d.name)
    ensures !StartsWith(d.path, FullPath(d))
  {
    assert |FullPath(d)| > |d.path|;
  }

  /** A subtree hit lives in the directory's system and below its full
      path. */
  lemma SubtreeHitShape(docs: seq<Doc>, self: Doc, user: string, o: Doc)
    requires o in SubtreeHits(docs, self, user)
    ensures self.entryType == Dir
    ensures o in docs && o.systemId == self.systemId && StartsWith(o.path, FullPath(self))
  {
    var hits := SubtreeHits(docs, self, user);
    var k :| 0 <= k < |hits| && hits[k] == o;
  }

  lemma SelfNotHit(docs: seq<Doc>, self: Doc, user: string)
    requires OrdinaryName(self.name)
    ensures self !in SubtreeHits(docs, self, user)
    ensures self.id !in IdsOf(SubtreeHits(docs, self, user)) || exists o :: o in docs && o.id == self.id && o != self
  {
    NotOwnDescendant(self);
    if self in SubtreeHits(docs, self, user) {
      SubtreeHitShape(docs, self, user, self);
    }
    var hits := SubtreeHits(docs, self, user);
    if self.id in IdsOf(hits) {
      var k :| 0 <= k < |hits| && hits[k].id == self.id;
      SubtreeHitShape(docs, self, user, hits[k]);
    }
  }

  // ------------------------------------------------------------- rename

  /** After `rename`, `self` carries the new name under the same parent;
      every descendant's parent path has its leading old full path
      replaced once by the new full path and keeps what followed it; every
      other document is as it was; no id changes. */
  lemma RenameEffect(docs: seq<Doc>, self: Doc, user: string, dest: string)
    requires UniqueIds(docs) && self in docs
    ensures var r := RenamedIndex(docs, self, user, dest);
      var newName := NewName(dest);
      var newFull := Join(self.path, newName);
      && |r| == |docs|
      && (forall i :: 0 <= i < |docs| ==> r[i].id == docs[i].id)
      && (forall i :: 0 <= i < |docs| && docs[i].id == self.id ==>
            r[i].name == newName && r[i].path == self.path && AddressConsistent(r[i]))
      && (forall i :: 0 <= i < |docs| && docs[i].id != self.id && docs[i] in SubtreeHits(docs, self, user) ==>
            StartsWith(r[i].path, newFull) &&
            r[i].path[|newFull|..] == docs[i].path[|FullPath(self)|..] &&
            r[i].name == docs[i].name && r[i].permissions == docs[i].permissions)
      && (forall i :: 0 <= i < |docs| && docs[i].id != self.id && docs[i] !in SubtreeHits(docs, self, user) ==>
            r[i] == docs[i])
  {
    var hits := SubtreeHits(docs, self, user);
    var newName := NewName(dest);
    var r := RenamedIndex(docs, self, user, dest);
    forall i | 0 <= i < |docs| && docs[i].id != self.id && docs[i] in hits
      ensures StartsWith(r[i].path, Join(self.path, newName))
      ensures r[i].path[|Join(self.path, newName)|..] == docs[i].path[|FullPath(self)|..]
    {
      SubtreeHitShape(docs, self, user, docs[i]);
      ReplacePrefixOnce(docs[i].path, FullPath(self), Join(self.path, newName));
    }
  }

  /** Renaming keeps every address consistent with its document's system,
      parent path and name. */
  lemma RenamePreservesAddresses(docs: seq<Doc>, self: Doc, user: string, dest: string)
    requires self in docs && AllAddressesConsistent(docs)
    ensures AllAddressesConsistent(RenamedIndex(docs, self, user, dest))
  {
    var r := RenamedIndex(docs, self, user, dest);
    forall i | 0 <= i < |r| ensures AddressConsistent(r[i]) {
      if docs[i].id != self.id && docs[i] in SubtreeHits(docs, self, user) {
        SubtreeHitShape(docs, self, user, docs[i]);
      }
    }
  }

  /** Renaming `/a/d` (holding `/a/d/f`) to `e`: as written, `f` gets the
      address of `/a/e` instead of its own `/a/e/f`. */
  lemma RenameAsWrittenDiscrepancy()
    ensures var self := Doc(0, "sys", "/a", "d", Dir, false, None, "agave://sys//a/d", []);
      var child := Doc(1, "sys", "/a/d", "f", File, false, None, "agave://sys//a/d/f", []);
      && AddressConsistent(child)
      && RenamedDescendantAsWritten(child, self, "e").agavePath == "agave://sys//a/e"
      && !AddressConsistent(RenamedDescendantAsWritten(child, self, "e"))
      && RenamedDescendant(child, self, "e").agavePath == "agave://sys//a/e/f"
      && AddressConsistent(RenamedDescendant(child, self, "e"))
  {
    RenameAsWrittenExample();
    RenameCorrectedExample();
  }

  lemma RenameAsWrittenExample()
    ensures var self := Doc(0, "sys", "/a", "d", Dir, false, None, "agave://sys//a/d", []);
      var child := Doc(1, "sys", "/a/d", "f", File, false, None, "agave://sys//a/d/f", []);
      var renamed := RenamedDescendantAsWritten(child, self, "e");
      AddressConsistent(child) && renamed.agavePath == "agave://sys//a/e" && !AddressConsistent(renamed)
  {
    var self := Doc(0, "sys", "/a", "d", Dir, false, None, "agave://sys//a/d", []);
    var child := Doc(1, "sys", "/a/d", "f", File, false, None, "agave://sys//a/d/f", []);
    assert AddressConsistent(child) by {
      assert Join("/a/d", "f") == "/a/d/f";
    }
    var renamed := RenamedDescendantAsWritten(child, self, "e");
    assert renamed.agavePath == "agave://sys//a/e" by {
      assert Join("/a", "e") == "/a/e";
    }
    assert !AddressConsistent(renamed) by {
      assert |renamed.agavePath| == 16;
      assert |FullPath(renamed)| >= |renamed.name| + 1 by {
        assert renamed.name == "f";
        assert |renamed.path| >= 1 && renamed.path[|renamed.path| - 1] != '/' by {
          assert StartsWith("/a/d", "/a/d");
          assert renamed.path == ReplacePrefix("/a/d", "/a/d", "/a/e") == "/a/e";
        }
      }
      assert |AgavePath(renamed.systemId, FullPath(renamed))| >= 12 + |renamed.path| + 2;
    }
  }

  lemma RenameCorrectedExample()
    ensures var self := Doc(0, "sys", "/a", "d", Dir, false, None, "agave://sys//a/d", []);
      var child := Doc(1, "sys", "/a/d", "f", File, false, None, "agave://sys//a/d/f", []);
      var renamed := RenamedDescendant(child, self, "e");
      renamed.agavePath == "agave://sys//a/e/f" && AddressConsistent(renamed)
  {
    var self := Doc(0, "sys", "/a", "d", Dir, false, None, "agave://sys//a/d", []);
    assert FullPath(self) == "/a/d";
    assert Join("/a", "e") == "/a/e";
    assert StartsWith("/a/d", "/a/d");
    assert ReplacePrefix("/a/d", "/a/d", "/a/e") == "/a/e";
    assert Join("/a/e", "f") == "/a/e/f";
  }

  // --------------------------------------------------------------- move

  /** After `move`, `self` keeps its name under `dirname(dest)`; every
      descendant is rebased from the old full path to the new one, so it
      still lies below the directory; everything else is as it was. */
  lemma MoveEffect(docs: seq<Doc>, self: Doc, user: string, dest: string)
    requires UniqueIds(docs) && self in docs
    ensures var r := MovedIndex(docs, self, user, dest);
      var newFull := FullPath(MovedSelf(self, dest));
      && |r| == |docs|
      && (forall i :: 0 <= i < |docs| ==> r[i].id == docs[i].id)
      && (forall i :: 0 <= i < |docs| && docs[i].id == self.id ==>
            r[i].name == self.name && r[i].path == Dirname(dest) && AddressConsistent(r[i]))
      && (forall i :: 0 <= i < |docs| && docs[i].id != self.id && docs[i] in SubtreeHits(docs, self, user) ==>
            StartsWith(r[i].path, newFull) &&
            r[i].path[|newFull|..] == docs[i].path[|FullPath(self)|..] &&
            r[i].name == docs[i].name && r[i].permissions == docs[i].permissions)
      && (forall i :: 0 <= i < |docs| && docs[i].id != self.id && docs[i] !in SubtreeHits(docs, self, user) ==>
            r[i] == docs[i])
  {
    var hits := SubtreeHits(docs, self, user);
    var r := MovedIndex(docs, self, user, dest);
    var newFull := Join(Dirname(dest), self.name);
    forall i | 0 <= i < |docs| && docs[i].id != self.id && docs[i] in hits
      ensures StartsWith(r[i].path, newFull)
      ensures r[i].path[|newFull|..] == docs[i].path[|FullPath(self)|..]
    {
      SubtreeHitShape(docs, self, user, docs[i]);
      ReplacePrefixOnce(docs[i].path, FullPath(self), newFull);
    }
  }

  /** When the destination ends in the document's own name, the moved
      document's full path is the destination itself. */
  lemma MoveLandsOnDest(self: Doc, dest: string)
    requires NoDoubleSlash(dest) && Basename(dest) == self.name
    ensures FullPath(MovedSelf(self, dest)) == dest
  {
    JoinSplit(dest);
  }

  lemma MovePreservesAddresses(docs: seq<Doc>, self: Doc, user: string, dest: string)
    requires self in docs && AllAddressesConsistent(docs)
    ensures AllAddressesConsistent(MovedIndex(docs, self, user, dest))
  {
    var r := MovedIndex(docs, self, user, dest);
    forall i | 0 <= i < |r| ensures AddressConsistent(r[i]) {
      if docs[i].id != self.id && docs[i] in SubtreeHits(docs, self, user) {
        SubtreeHitShape(docs, self, user, docs[i]);
      }
    }
  }

  lemma DirnameExample()
    ensures Dirname("/b/d") == "/b"
  {
    assert AfterLastSlash("/b/d"[..3]) == 3;
    assert AfterLastSlash("/b/d") == 3;
    assert "/b/d"[..3] == "/b/";
    assert "/b/"[..2] == "/b";
    assert RStripSlashes("/b/") == "/b";
    assert "/b/"[1] == 'b';
  }

  /** Moving `/a/d` (holding `/a/d/f`) to `/b/d`: the directory lands at
      `/b/d`, but as written `f` is put under `/b/d/d` and keeps the
      directory's old address `/a/d`; the corrected rewrite puts it under
      `/b/d` with its own address. */
  lemma MoveAsWrittenDiscrepancy()
    ensures var self := Doc(0, "sys", "/a", "d", Dir, false, None, "agave://sys//a/d", []);
      var child := Doc(1, "sys", "/a/d", "f", File, false, None, "agave://sys//a/d/f", []);
      && FullPath(MovedSelf(self, "/b/d")) == "/b/d"
      && MovedDescendantAsWritten(child, self, "/b/d").path == "/b/d/d"
      && MovedDescendantAsWritten(child, self, "/b/d").agavePath == "agave://sys//a/d"
      && !AddressConsistent(MovedDescendantAsWritten(child, self, "/b/d"))
      && MovedDescendant(child, self, "/b/d").path == "/b/d"
      && AddressConsistent(MovedDescendant(child, self, "/b/d"))
  {
    MoveAsWrittenExample();
    MoveCorrectedExample();
  }

  lemma MoveAsWrittenExample()
    ensures var self := Doc(0, "sys", "/a", "d", Dir, false, None, "agave://sys//a/d", []);
      var child := Doc(1, "sys", "/a/d", "f", File, false, None, "agave://sys//a/d/f", []);
      var moved := MovedDescendantAsWritten(child, self, "/b/d");
      moved.path == "/b/d/d" && moved.agavePath == "agave://sys//a/d" && !AddressConsistent(moved)
  {
    var self := Doc(0, "sys", "/a", "d", Dir, false, None, "agave://sys//a/d", []);
    var child := Doc(1, "sys", "/a/d", "f", File, false, None, "agave://sys//a/d/f", []);
    assert FullPath(self) == "/a/d";
    assert Join("/b/d", "d") == "/b/d/d";
    assert StartsWith("/a/d", "/a/d");
    assert ReplacePrefix("/a/d", "/a/d", "/b/d/d") == "/b/d/d";
    assert Join("/b/d/d", "f") == "/b/d/d/f";
  }

  lemma MoveCorrectedExample()
    ensures var self := Doc(0, "sys", "/a", "d", Dir, false, None, "agave://sys//a/d", []);
      var child := Doc(1, "sys", "/a/d", "f", File, false, None, "agave://sys//a/d/f", []);
      var moved := MovedDescendant(child, self, "/b/d");
      FullPath(MovedSelf(self, "/b/d")) == "/b/d" && moved.path == "/b/d" && AddressConsistent(moved)
  {
    var self := Doc(0, "sys", "/a", "d", Dir, false, None, "agave://sys//a/d", []);
    DirnameExample();
    assert FullPath(self) == "/a/d";
    assert Join("/b", "d") == "/b/d";
    assert StartsWith("/a/d", "/a/d");
    assert ReplacePrefix("/a/d", "/a/d", "/b/d") == "/b/d";
    assert Join("/b/d", "f") == "/b/d/f";
  }

  // --------------------------------------------------------------- copy

  /** What `copy` adds: a clone of every descendant, rebased below the new
      full path, with its own address, and last the clone of `self` under
      the new name in the same parent directory; every clone has a fresh
      id. */
  lemma CopyEffect(docs: seq<Doc>, nextId: nat, self: Doc, user: string, dest: string)
    requires self in docs
    ensures var add := CopyAdditions(docs, nextId, self, user, dest);
      var hits := SubtreeHits(docs, self, user);
      var newName := NewName(dest);
      var newFull := Join(self.path, newName);
      && add[|add| - 1].name == newName && add[|add| - 1].path == self.path
      && add[|add| - 1].permissions == self.permissions
      && (forall k :: 0 <= k < |add| ==> add[k].id == nextId + k && AddressConsistent(add[k]))
      && (forall k :: 0 <= k < |hits| ==>
            add[k].name == hits[k].name && add[k].permissions == hits[k].permissions &&
            StartsWith(add[k].path, newFull) &&
            add[k].path[|newFull|..] == hits[k].path[|FullPath(self)|..])
  {
    var add := CopyAdditions(docs, nextId, self, user, dest);
    var hits := SubtreeHits(docs, self, user);
    var newFull := Join(self.path, NewName(dest));
    forall k | 0 <= k < |hits|
      ensures AddressConsistent(add[k]) && StartsWith(add[k].path, newFull)
      ensures add[k].path[|newFull|..] == hits[k].path[|FullPath(self)|..]
    {
      SubtreeHitShape(docs, self, user, hits[k]);
      ReplacePrefixOnce(hits[k].path, FullPath(self), newFull);
    }
  }

  /** Copying keeps every address consistent and every id unique. */
  lemma CopyKeepsIndexInvariants(docs: seq<Doc>, nextId: nat, self: Doc, user: string, dest: string)
    requires self in docs && AllAddressesConsistent(docs) && UniqueIds(docs)
    requires forall i :: 0 <= i < |docs| ==> docs[i].id < nextId
    ensures AllAddressesConsistent(docs + CopyAdditions(docs, nextId, self, user, dest))
    ensures UniqueIds(docs + CopyAdditions(docs, nextId, self, user, dest))
  {
    CopyEffect(docs, nextId, self, user, dest);
  }

  // ------------------------------------------------------------- delete

  /** `delete_recursive` counts `self` and each descendant once: 1 for a
      file, 1 plus the number of descendants for a directory with an
      ordinary name. On success none of the counted documents remains and
      every other document does. */
  lemma DeleteEffect(docs: seq<Doc>, self: Doc, user: string)
    requires UniqueIds(docs) && self in docs
    ensures var (r, n) := DeleteOutcome(docs, self, user);
      var hits := SubtreeHits(docs, self, user);
      && (self.entryType == File ==> n == Ok(1))
      && (OrdinaryName(self.name) ==> n == Ok(|hits| + 1))
      && (n.Ok? ==>
            (forall k :: 0 <= k < |r| ==> r[k].id !in IdsOf(hits) && r[k].id != self.id) &&
            (forall k :: 0 <= k < |docs| && docs[k].id !in IdsOf(hits) && docs[k].id != self.id ==> docs[k] in r))
  {
    var hits := SubtreeHits(docs, self, user);
    var rest := Without(docs, IdsOf(hits));
    WithoutWithout(docs, IdsOf(hits), {self.id});
    if OrdinaryName(self.name) {
      SelfNotHit(docs, self, user);
    }
  }

  /** For a directory, the code as written raises and deletes nothing,
      where the corrected operation deletes the whole subtree. */
  lemma DeleteAsWrittenDiscrepancy(docs: seq<Doc>, self: Doc, user: string)
    requires UniqueIds(docs) && self in docs && self.entryType == Dir && OrdinaryName(self.name)
    ensures DeleteOutcomeAsWritten(docs, self) == (docs, Err(NameError("username")))
    ensures DeleteOutcome(docs, self, user).1 == Ok(|SubtreeHits(docs, self, user)| + 1)
  {
    DeleteEffect(docs, self, user);
  }

  // -------------------------------------------------------------- share

  lemma UpdateByIdGrant(docs: seq<Doc>, d: Doc, user: string, level: string)
    requires UniqueIds(docs) && d in docs
    ensures var r := UpdateById(docs, d.id, GrantedDoc(d, user, level));
      UniqueIds(r) &&
      forall i :: 0 <= i < |docs| ==> r[i] == docs[i] || r[i] == GrantedDoc(docs[i], user, level)
  {
    var r := UpdateById(docs, d.id, GrantedDoc(d, user, level));
    forall i | 0 <= i < |docs| && docs[i].id == d.id
      ensures r[i] == GrantedDoc(docs[i], user, level)
    {
      var j :| 0 <= j < |docs| && docs[j] == d;
      assert i == j;
    }
  }

  /** The ancestor walk only ever replaces a document by its granted
      version, and keeps ids unique. */
  lemma {:induction false} WalkOnlyGrants(docs: seq<Doc>, system: string, username: string,
                                          paths: seq<string>, user: string, level: string)
    requires UniqueIds(docs)
    ensures var w := WalkAncestors(docs, system, username, paths, user, level).0;
      |w| == |docs| && UniqueIds(w) &&
      forall i :: 0 <= i < |docs| ==> w[i] == docs[i] || w[i] == GrantedDoc(docs[i], user, level)
    decreases |paths|
  {
    if paths != [] {
      match FromFilePath(docs, system, Some(username), paths[0])
      case None =>
      case Some(d) =>
        var next := UpdateById(docs, d.id, GrantedDoc(d, user, level));
        UpdateByIdGrant(docs, d, user, level);
        WalkOnlyGrants(next, system, username, paths[1..], user, level);
        var w := WalkAncestors(next, system, username, paths[1..], user, level).0;
        forall i | 0 <= i < |docs|
          ensures w[i] == docs[i] || w[i] == GrantedDoc(docs[i], user, level)
        {
          GrantedDocIdempotent(docs[i], user, level);
        }
    }
  }

  /** Granting a permission never hides a document from a lookup that
      found it: every other user's entry is kept, and the new entry is for
      the user being granted. */
  lemma GrantKeepsMatch(d: Doc, system: string, username: string, p: string, user: string, level: string)
    requires LookupMatch(d, system, Some(username), p)
    ensures LookupMatch(GrantedDoc(d, user, level), system, Some(username), p)
  {
    if d.owner != Some(username) {
      var k :| 0 <= k < |d.permissions| &&
               (d.permissions[k].username == username || d.permissions[k].username == "world");
      var r := GrantedDoc(d, user, level).permissions;
      if d.permissions[k].username == user {
        assert r[|r| - 1].username == user;
      } else {
        assert d.permissions[k] in r;
        var m :| 0 <= m < |r| && r[m] == d.permissions[k];
      }
    }
  }

  /** The lookup of `p` for `username` matches some document of `docs`
      that holds exactly one entry for `user`, the grant at `level`. */
  predicate FoundGranted(docs: seq<Doc>, system: string, username: string, p: string, user: string, level: string)
  {
    exists i :: 0 <= i < |docs| && LookupMatch(docs[i], system, Some(username), p) &&
                Granted(docs[i].permissions, user, level)
  }

  /** Each path the walk gets through finds a document that ends the walk
      holding the grant. */
  lemma {:induction false} WalkGrantsAncestors(docs: seq<Doc>, system: string, username: string,
                                               paths: seq<string>, user: string, level: string)
    requires UniqueIds(docs)
    ensures var w := WalkAncestors(docs, system, username, paths, user, level).0;
      forall k :: 0 <= k < WalkReach(docs, system, username, paths, user, level) ==>
        FoundGranted(w, system, username, paths[k], user, level)
    decreases |paths|
  {
    if paths != [] && FromFilePath(docs, system, Some(username), paths[0]).Some? {
      var d := FromFilePath(docs, system, Some(username), paths[0]).value;
      var next := UpdateById(docs, d.id, GrantedDoc(d, user, level));
      WalkUnfold(docs, system, username, paths, user, level);
      WalkFirstStep(docs, system, username, paths, user, level);
      WalkGrantsAncestors(next, system, username, paths[1..], user, level);
      ShiftFound(WalkAncestors(next, system, username, paths[1..], user, level).0, system, username, paths, user, level,
                 WalkReach(next, system, username, paths[1..], user, level));
    }
  }

  /** One step of the walk when the first path finds a document. */
  lemma WalkUnfold(docs: seq<Doc>, system: string, username: string,
                   paths: seq<string>, user: string, level: string)
    requires paths != [] && FromFilePath(docs, system, Some(username), paths[0]).Some?
    ensures var d := FromFilePath(docs, system, Some(username), paths[0]).value;
            var next := UpdateById(docs, d.id, GrantedDoc(d, user, level));
      && WalkAncestors(docs, system, username, paths, user, level) ==
           WalkAncestors(next, system, username, paths[1..], user, level)
      && WalkReach(docs, system, username, paths, user, level) ==
           1 + WalkReach(next, system, username, paths[1..], user, level)
  {
  }

  lemma ShiftFound(w: seq<Doc>, system: string, username: string, paths: seq<string>,
                   user: string, level: string, n: nat)
    requires paths != [] && n < |paths|
    requires FoundGranted(w, system, username, paths[0], user, level)
    requires forall k :: 0 <= k < n ==> FoundGranted(w, system, username, paths[1..][k], user, level)
    ensures forall k :: 0 <= k < n + 1 ==> FoundGranted(w, system, username, paths[k], user, level)
  {
    forall k | 0 <= k < n + 1
      ensures FoundGranted(w, system, username, paths[k], user, level)
    {
      if k > 0 {
        assert paths[1..][k - 1] == paths[k];
      }
    }
  }

  /** The document the first path finds is granted and keeps the grant
      to the end of the walk. */
  lemma WalkFirstStep(docs: seq<Doc>, system: string, username: string,
                      paths: seq<string>, user: string, level: string)
    requires UniqueIds(docs) && paths != []
    requires FromFilePath(docs, system, Some(username), paths[0]).Some?
    ensures var d := FromFilePath(docs, system, Some(username), paths[0]).value;
            var next := UpdateById(docs, d.id, GrantedDoc(d, user, level));
      UniqueIds(next) &&
      FoundGranted(WalkAncestors(next, system, username, paths[1..], user, level).0, system, username, paths[0], user, level)
  {
    var d := FromFilePath(docs, system, Some(username), paths[0]).value;
    var j :| 0 <= j < |docs| && docs[j] == d && LookupMatch(docs[j], system, Some(username), paths[0]);
    var next := UpdateById(docs, d.id, GrantedDoc(d, user, level));
    var w := WalkAncestors(next, system, username, paths[1..], user, level).0;
    assert UniqueIds(next) && next[j] == GrantedDoc(d, user, level) by {
      UpdateByIdGrant(docs, d, user, level);
    }
    assert w[j] == GrantedDoc(d, user, level) by {
      WalkOnlyGrants(next, system, username, paths[1..], user, level);
      GrantedDocIdempotent(d, user, level);
    }
    GrantedDocIdempotent(d, user, level);
    GrantKeepsMatch(d, system, username, paths[0], user, level);
    assert LookupMatch(w[j], system, Some(username), paths[0]);
  }

  /** The path where the walk stops finds nothing in the final index. */
  lemma {:induction false} WalkStopsAtMissing(docs: seq<Doc>, system: string, username: string,
                                              paths: seq<string>, user: string, level: string)
    ensures var n := WalkReach(docs, system, username, paths, user, level);
      n < |paths| ==>
        FromFilePath(WalkAncestors(docs, system, username, paths, user, level).0, system, Some(username), paths[n]).None?
    decreases |paths|
  {
    if paths != [] && FromFilePath(docs, system, Some(username), paths[0]).Some? {
      var d := FromFilePath(docs, system, Some(username), paths[0]).value;
      var next := UpdateById(docs, d.id, GrantedDoc(d, user, level));
      WalkUnfold(docs, system, username, paths, user, level);
      WalkStopsAtMissing(next, system, username, paths[1..], user, level);
      var n := WalkReach(next, system, username, paths[1..], user, level);
      if n < |paths[1..]| {
        assert paths[1..][n] == paths[n + 1];
      }
    }
  }

  /** `share` changes nothing but permissions, and those only by granting:
      each document ends as it was or with `user`'s entry replaced by the
      grant. Every descendant ends holding exactly one entry for `user`,
      the grant at `level`, whether or not the walk completes; on success
      so does `self`. */
  lemma ShareEffect(docs: seq<Doc>, self: Doc, username: string, user: string, level: string)
    requires UniqueIds(docs) && self in docs
    ensures var (r, out) := ShareOutcome(docs, self, username, user, level);
      && |r| == |docs|
      && (forall i :: 0 <= i < |docs| ==> r[i] == docs[i] || r[i] == GrantedDoc(docs[i], user, level))
      && (forall i :: 0 <= i < |docs| && docs[i] in SubtreeHits(docs, self, username) ==>
            r[i] == GrantedDoc(docs[i], user, level) && Granted(r[i].permissions, user, level))
      && (out == Pass ==>
            forall i :: 0 <= i < |docs| && docs[i] == self ==>
              r[i] == GrantedDoc(self, user, level) && Granted(r[i].permissions, user, level))
  {
    var hits := SubtreeHits(docs, self, username);
    var g := SubtreeGranted(docs, self, username, user, level);
    assert UniqueIds(g) by {
      assert forall i :: 0 <= i < |docs| ==> g[i].id == docs[i].id;
    }
    var paths := AncestorPaths(FullPath(self), "/");
    WalkOnlyGrants(g, self.systemId, username, paths, user, level);
    var (w, completed) := WalkAncestors(g, self.systemId, username, paths, user, level);
    var (r, out) := ShareOutcome(docs, self, username, user, level);
    forall i | 0 <= i < |docs|
      ensures r[i] == docs[i] || r[i] == GrantedDoc(docs[i], user, level)
      ensures (docs[i] in hits || (out == Pass && docs[i] == self)) ==>
                r[i] == GrantedDoc(docs[i], user, level) && Granted(r[i].permissions, user, level)
    {
      GrantedDocIdempotent(docs[i], user, level);
      if completed && w[i].id == self.id {
        var j :| 0 <= j < |docs| && docs[j] == self;
        assert g[j].id == self.id;
        assert i == j;
      }
    }
  }

  /** The ancestor walk of `share`, with `n` the number of ancestor paths
      it gets through: each of those paths finds a document of the final
      index that holds exactly one entry for `user`, the grant at `level`,
      whether or not the call succeeds. */
  lemma ShareGrantsAncestors(docs: seq<Doc>, self: Doc, username: string, user: string, level: string)
    requires UniqueIds(docs) && self in docs
    ensures var r := ShareOutcome(docs, self, username, user, level).0;
            var paths := AncestorPaths(FullPath(self), "/");
            var n := WalkReach(SubtreeGranted(docs, self, username, user, level), self.systemId, username,
                               paths, user, level);
      forall k :: 0 <= k < n ==>
        FoundGranted(r, self.systemId, username, paths[k], user, level)
  {
    var g := SubtreeGranted(docs, self, username, user, level);
    var paths := AncestorPaths(FullPath(self), "/");
    SubtreeGrantedIds(docs, self, username, user, level);
    WalkThenSelfGrants(docs, self, username, user, level, g, paths);
  }

  lemma SubtreeGrantedIds(docs: seq<Doc>, self: Doc, username: string, user: string, level: string)
    requires UniqueIds(docs)
    ensures var g := SubtreeGranted(docs, self, username, user, level);
      UniqueIds(g) &&
      forall k :: 0 <= k < |docs| ==> g[k] == docs[k] || g[k] == GrantedDoc(docs[k], user, level)
  {
    var g := SubtreeGranted(docs, self, username, user, level);
    assert forall i :: 0 <= i < |docs| ==> g[i].id == docs[i].id;
  }

  /** `share` succeeds exactly when the ancestor walk gets through every
      path; when it fails, the path where the walk stopped finds nothing
      in the final index, and the final step, the grant to `self`, is not
      taken. */
  lemma ShareStopsAtMissingAncestor(docs: seq<Doc>, self: Doc, username: string, user: string, level: string)
    ensures var (r, out) := ShareOutcome(docs, self, username, user, level);
            var g := SubtreeGranted(docs, self, username, user, level);
            var paths := AncestorPaths(FullPath(self), "/");
            var n := WalkReach(g, self.systemId, username, paths, user, level);
      && (out == Pass <==> n == |paths|)
      && (out != Pass ==>
            r == WalkAncestors(g, self.systemId, username, paths, user, level).0 &&
            FromFilePath(r, self.systemId, Some(username), paths[n]).None?)
  {
    var g := SubtreeGranted(docs, self, username, user, level);
    WalkStopsAtMissing(g, self.systemId, username, AncestorPaths(FullPath(self), "/"), user, level);
  }

  /** The walk followed, when it completes, by the grant to `self`: each
      path the walk gets through still finds a document holding the grant
      at the end. */
  lemma WalkThenSelfGrants(docs: seq<Doc>, self: Doc, username: string, user: string, level: string,
                           g: seq<Doc>, paths: seq<string>)
    requires UniqueIds(docs) && self in docs && UniqueIds(g) && |g| == |docs|
    requires forall k :: 0 <= k < |docs| ==> g[k] == docs[k] || g[k] == GrantedDoc(docs[k], user, level)
    ensures var walk := WalkAncestors(g, self.systemId, username, paths, user, level);
            var n := WalkReach(g, self.systemId, username, paths, user, level);
            var r := if walk.1 then UpdateById(walk.0, self.id, GrantedDoc(self, user, level)) else walk.0;
      forall k :: 0 <= k < n ==>
        FoundGranted(r, self.systemId, username, paths[k], user, level)
  {
    var w := WalkAncestors(g, self.systemId, username, paths, user, level).0;
    var completed := WalkAncestors(g, self.systemId, username, paths, user, level).1;
    var n := WalkReach(g, self.systemId, username, paths, user, level);
    assert forall k :: 0 <= k < n ==>
      FoundGranted(w, self.systemId, username, paths[k], user, level)
    by {
      WalkGrantsAncestors(g, self.systemId, username, paths, user, level);
    }
    if completed {
      assert |w| == |docs| && forall k :: 0 <= k < |docs| ==> w[k] == g[k] || w[k] == GrantedDoc(g[k], user, level)
      by {
        WalkOnlyGrants(g, self.systemId, username, paths, user, level);
      }
      SelfGrantKeepsAncestors(docs, self, username, user, level, g, w, paths, n);
    }
  }

  /** The grant to `self` keeps every ancestor the walk left matched and
      granted. */
  lemma SelfGrantKeepsAncestors(docs: seq<Doc>, self: Doc, username: string, user: string, level: string,
                                g: seq<Doc>, w: seq<Doc>, paths: seq<string>, n: nat)
    requires UniqueIds(docs) && self in docs
    requires |g| == |docs| && |w| == |docs| && n <= |paths|
    requires forall k :: 0 <= k < |docs| ==> g[k] == docs[k] || g[k] == GrantedDoc(docs[k], user, level)
    requires forall k :: 0 <= k < |docs| ==> w[k] == g[k] || w[k] == GrantedDoc(g[k], user, level)
    requires forall k :: 0 <= k < n ==>
      FoundGranted(w, self.systemId, username, paths[k], user, level)
    ensures var r := UpdateById(w, self.id, GrantedDoc(self, user, level));
      forall k :: 0 <= k < n ==>
        FoundGranted(r, self.systemId, username, paths[k], user, level)
  {
    var r := UpdateById(w, self.id, GrantedDoc(self, user, level));
    forall k | 0 <= k < n
      ensures FoundGranted(r, self.systemId, username, paths[k], user, level)
    {
      var i :| 0 <= i < |w| && LookupMatch(w[i], self.systemId, Some(username), paths[k]) &&
               Granted(w[i].permissions, user, level);
      if w[i].id == self.id {
        ShareSelfStep(docs, self, username, user, level, g, w, i, paths[k]);
      }
      assert LookupMatch(r[i], self.systemId, Some(username), paths[k]);
      assert Granted(r[i].permissions, user, level);
    }
    assert forall k :: 0 <= k < n ==>
      FoundGranted(r, self.systemId, username, paths[k], user, level);
  }

  /** The grant to `self` at the end of `share` keeps every ancestor match
      the walk left at `self`'s position. */
  lemma ShareSelfStep(docs: seq<Doc>, self: Doc, username: string, user: string, level: string,
                      g: seq<Doc>, w: seq<Doc>, i: nat, p: string)
    requires UniqueIds(docs) && self in docs
    requires |g| == |docs| && |w| == |docs| && i < |docs|
    requires forall k :: 0 <= k < |docs| ==> g[k] == docs[k] || g[k] == GrantedDoc(docs[k], user, level)
    requires forall k :: 0 <= k < |docs| ==> w[k] == g[k] || w[k] == GrantedDoc(g[k], user, level)
    requires w[i].id == self.id && LookupMatch(w[i], self.systemId, Some(username), p)
    ensures LookupMatch(GrantedDoc(self, user, level), self.systemId, Some(username), p)
    ensures Granted(GrantedDoc(self, user, level).permissions, user, level)
  {
    var j :| 0 <= j < |docs| && docs[j] == self;
    assert docs[i].id == self.id;
    assert i == j;
    GrantedDocIdempotent(self, user, level);
    if w[i] == self {
      GrantKeepsMatch(self, self.systemId, username, p, user, level);
    }
  }

  /** The outcome says whether the walk completed, not whether `self`
      holds the grant: a file `/b` that already holds it, whose one
      ancestor lookup finds nothing, fails and still holds it. */
  lemma ShareFailureExample()
    ensures var self := Doc(0, "s", "/", "b", File, false, Some("u"), AgavePath("s", "/b"), [GrantEntry("v", "READ")]);
            var (r, out) := ShareOutcome([self], self, "u", "v", "READ");
      out.Fail? && r == [self] && Granted(r[0].permissions, "v", "READ")
  {
    var self := Doc(0, "s", "/", "b", File, false, Some("u"), AgavePath("s", "/b"), [GrantEntry("v", "READ")]);
    assert FullPath(self) == "/b";
    assert SplitOn("/b", '/') == ["", "b"] by {
      assert SplitOn([], '/') == [""];
      assert "b"[1..] == [] && "b"[0] == 'b';
      var r1 := SplitOn("b", '/');
      assert r1 == [['b'] + ""] + [""][1..];
      assert ['b'] + "" == "b" && [""][1..] == [];
      assert "/b"[1..] == "b" && "/b"[0] == '/';
      assert SplitOn("/b", '/') == [""] + r1;
    }
    assert AncestorPaths("/b", "/") == [""] by {
      var c := ["", "b"][..1];
      assert c == [""] && c[..1 - 0] == [""];
      assert JoinWith("/", [""]) == "";
    }
    assert SubtreeGranted([self], self, "u", "v", "READ") == [self];
    assert LookupKey("") == ("/", "");
    assert FromFilePath([self], "s", Some("u"), "").None?;
  }

  /** The ancestor walk visits leading parts of the document's own path,
      each shorter than it. */
  lemma AncestorPathsArePrefixes(full: string)
    ensures forall i :: 0 <= i < |AncestorPaths(full, "/")| ==>
      StartsWith(full, AncestorPaths(full, "/")[i]) && |AncestorPaths(full, "/")[i]| < |full|
  {
    var comps := SplitOn(full, '/');
    var c := comps[..|comps| - 1];
    var ps := AncestorPaths(full, "/");
    JoinSplitOn(full, '/');
    forall i | 0 <= i < |ps|
      ensures StartsWith(full, ps[i]) && |ps[i]| < |full|
    {
      var m := |c| - i;
      JoinWithPrefix("/", comps, m);
      assert c[..m] == comps[..m];
      assert full == JoinWith("/", comps[..m]) + "/" + JoinWith("/", comps[m..]);
      assert full[..|ps[i]|] == ps[i];
    }
  }

  lemma SplitOnExample()
    ensures SplitOn("/a/b", '/') == ["", "a", "b"]
  {
    assert SplitOn([], '/') == [""];
    assert "b"[1..] == [] && "b"[0] == 'b';
    var r1 := SplitOn("b", '/');
    assert r1 == [['b'] + ""] + [""][1..];
    assert ['b'] + "" == "b" && [""][1..] == [];
    assert r1 == ["b"];
    assert "/b"[1..] == "b" && "/b"[0] == '/';
    assert SplitOn("/b", '/') == [""] + r1;
    var r2 := SplitOn("/b", '/');
    assert r2 == ["", "b"];
    assert "a/b"[1..] == "/b" && "a/b"[0] == 'a';
    var r3 := SplitOn("a/b", '/');
    assert r3 == [['a'] + r2[0]] + r2[1..];
    assert ['a'] + r2[0] == "a" && r2[1..] == ["b"];
    assert r3 == ["a", "b"];
    assert "/a/b"[1..] == "a/b" && "/a/b"[0] == '/';
    assert SplitOn("/a/b", '/') == [""] + r3;
  }

  /** For `/a/b` the code as written looks up `.a` and then the empty
      path, where '/' joins give `/a` and then the empty path; and a
      directory fails at once on `self.naem`. */
  lemma ShareAsWrittenDiscrepancy(docs: seq<Doc>, self: Doc, username: string, user: string, level: string)
    ensures AncestorPaths("/a/b", ".") == [".a", ""]
    ensures AncestorPaths("/a/b", "/") == ["/a", ""]
    ensures self.entryType == Dir ==>
      ShareOutcomeAsWritten(docs, self, username, user, level) == (docs, Fail(AttributeError("naem")))
  {
    SplitOnExample();
    var c := ["", "a"];
    assert ["", "a", "b"][..2] == c;
    assert c[..2] == c && c[..1] == [""];
    assert c[1..] == ["a"];
    assert JoinWith(".", c) == ".a";
    assert JoinWith("/", c) == "/a";
    var comps := SplitOn("/a/b", '/');
    assert comps[..|comps| - 1] == c;
    assert c[..|c| - 0] == c && c[..|c| - 1] == [""];
    var dots := AncestorPaths("/a/b", ".");
    assert JoinWith(".", [""]) == "";
    assert |dots| == 2 && dots[0] == ".a";
    assert dots[1] == JoinWith(".", [""]);
    var slashes := AncestorPaths("/a/b", "/");
    assert |slashes| == 2 && slashes[0] == "/a";
    assert slashes[1] == JoinWith("/", [""]);
  }

  // ---------------------------------------------------- from_agave_file

  /** A path not yet indexed gains exactly one document, appended, built
      from the file: its system, parent path, name, type and address, no
      owner, not deleted, and the seeded permissions (with none fetched,
      one full recursive entry for the first component of the path).
      A path already indexed gains no document: the one found keeps its
      id and owner; with `autoUpdate` its name, parent path, system,
      type and address are refreshed from the file and it is undeleted,
      otherwise they stay as they were; its permissions become the
      fetched ones with `getPems` and stay as they were otherwise; the
      index saves it over every entry with its id and changes no other. */
  lemma FromAgaveFileEffect(docs: seq<Doc>, nextId: nat, user: Option<string>, f: AgaveFile,
                            autoUpdate: bool, getPems: bool)
    ensures var (r, o) := FromAgaveFileOutcome(docs, nextId, user, f, autoUpdate, getPems);
      && (FromFilePath(docs, f.system, user, f.fullPath).None? ==>
            && r == docs + [o] && o.id == nextId && !o.deleted && o.owner == None
            && o.systemId == f.system && o.path == f.parentPath && o.name == f.name
            && o.entryType == f.entryType && o.agavePath == AgavePath(f.system, f.fullPath)
            && (getPems ==> o.permissions == f.permissions)
            && (!getPems ==> o.permissions == [OwnerEntry(PemsUser(f.path))]))
      && (FromFilePath(docs, f.system, user, f.fullPath).Some? ==>
            var d := FromFilePath(docs, f.system, user, f.fullPath).value;
            && |r| == |docs| && o in r
            && o.id == d.id && o.owner == d.owner
            && (autoUpdate ==>
                  o.name == f.name && o.path == f.parentPath && o.systemId == f.system &&
                  o.entryType == f.entryType && o.agavePath == AgavePath(f.system, f.fullPath) && !o.deleted)
            && (!autoUpdate ==>
                  o.name == d.name && o.path == d.path && o.systemId == d.systemId &&
                  o.entryType == d.entryType && o.agavePath == d.agavePath && o.deleted == d.deleted)
            && o.permissions == (if getPems then f.permissions else d.permissions)
            && (forall i :: 0 <= i < |docs| && docs[i].id == d.id ==> r[i] == o)
            && (forall i :: 0 <= i < |docs| && docs[i].id != d.id ==> r[i] == docs[i]))
  {
    match FromFilePath(docs, f.system, user, f.fullPath)
    case None =>
    case Some(d) =>
      var (r, o) := FromAgaveFileOutcome(docs, nextId, user, f, autoUpdate, getPems);
      var i :| 0 <= i < |docs| && docs[i] == d;
      assert r[i] == o;
  }

  /** A file not yet indexed and imported without fetching permissions:
      as written the call raises and leaves the document indexed with no
      permission entry, so no user's listing shows it;
      the corrected call gives the home directory's owner full rights. */
  lemma FromAgaveFileAsWrittenDiscrepancy(docs: seq<Doc>, nextId: nat, user: Option<string>, f: AgaveFile, autoUpdate: bool)
    requires FromFilePath(docs, f.system, user, f.fullPath).None?
    ensures var (r, o) := FromAgaveFileOutcomeAsWritten(docs, nextId, user, f, autoUpdate, false);
      o == Err(NameError("pems")) && |r| == |docs| + 1 && r[|docs|].permissions == []
    ensures var (r, o) := FromAgaveFileOutcome(docs, nextId, user, f, autoUpdate, false);
      o.permissions == [OwnerEntry(PemsUser(f.path))]
  {
  }
}
