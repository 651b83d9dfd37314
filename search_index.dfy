/** The search index as a mutable store of documents, and the document
    operations that change it step by step: each loop saves one document
    at a time, as the fan-out over a recursive listing does, and each
    method is proved to leave the index exactly as the corresponding
    function of the old index describes. */
module SearchIndex {
  import opened Common
  import opened Paths
  import opened Permissions
  import opened Documents

  class Index {
    /** The indexed documents, in index order. */
    var docs: seq<Doc>
    /** The id the next created document receives. */
    var nextId: nat

    /** Ids are unique, and every id was handed out before `nextId`. */
    ghost predicate Valid()
      reads this
    {
      UniqueIds(docs) && forall i :: 0 <= i < |docs| ==> docs[i].id < nextId
    }

    constructor()
      ensures docs == [] && nextId == 0 && Valid()
    {
      docs := [];
      nextId := 0;
    }

    /** Saves `f(o)` over each document `o` of the snapshot `hits`, one at a
        time; `f` never changes an id. */
    method SaveEach(hits: seq<Doc>, f: Doc -> Doc)
      requires Valid()
      requires forall k :: 0 <= k < |hits| ==> hits[k] in docs
      requires forall o: Doc :: f(o).id == o.id
      modifies this
      ensures docs == Rewritten(old(docs), hits, f) && nextId == old(nextId)
      ensures Valid()
    {
      ghost var start := docs;
      var k := 0;
      while k < |hits|
        invariant 0 <= k <= |hits|
        invariant |docs| == |start| && nextId == old(nextId)
        invariant forall i :: 0 <= i < |start| ==> docs[i] == if start[i] in hits[..k] then f(start[i]) else start[i]
        invariant forall i :: 0 <= i < |start| ==> docs[i].id == start[i].id
      {
        var o := hits[k];
        ghost var before := docs;
        docs := UpdateById(docs, o.id, f(o));
        forall i | 0 <= i < |start|
          ensures docs[i] == if start[i] in hits[..k + 1] then f(start[i]) else start[i]
        {
          assert hits[..k + 1] == hits[..k] + [o];
          if start[i].id == o.id {
            var j :| 0 <= j < |start| && start[j] == o;
            assert j == i;
          }
        }
        k := k + 1;
      }
      assert hits[..k] == hits;
      assert docs == Rewritten(start, hits, f);
    }

    /** `rename(username, dest)` on `self`: each descendant is saved with
        its parent path rebased and its address recomputed, then `self`
        with its new name. */
    method Rename(self: Doc, user: string, dest: string) returns (r: Doc)
      requires Valid() && self in docs
      modifies this
      ensures docs == RenamedIndex(old(docs), self, user, dest) && nextId == old(nextId)
      ensures r == RenamedSelf(self, NewName(dest))
      ensures Valid()
    {
      var newName := NewName(dest);
      var hits := SubtreeHits(docs, self, user);
      SaveEach(hits, (o: Doc) => RenamedDescendant(o, self, newName));
      r := RenamedSelf(self, newName);
      docs := UpdateById(docs, self.id, r);
    }

    /** `move(username, dest)` on `self`: each descendant rebased below the
        moved directory, then `self` saved under `dirname(dest)`. */
    method Move(self: Doc, user: string, dest: string) returns (r: Doc)
      requires Valid() && self in docs
      modifies this
      ensures docs == MovedIndex(old(docs), self, user, dest) && nextId == old(nextId)
      ensures r == MovedSelf(self, dest)
      ensures Valid()
    {
      var hits := SubtreeHits(docs, self, user);
      SaveEach(hits, (o: Doc) => MovedDescendant(o, self, dest));
      r := MovedSelf(self, dest);
      docs := UpdateById(docs, self.id, r);
    }

    /** `copy(username, dest)` on `self`: a new document for each
        descendant, rebased below the copy, then the copy of `self`; the
        originals are untouched. */
    method Copy(self: Doc, user: string, dest: string)
      requires Valid() && self in docs
      modifies this
      ensures docs == old(docs) + CopyAdditions(old(docs), old(nextId), self, user, dest)
      ensures nextId == old(nextId) + |SubtreeHits(old(docs), self, user)| + 1
      ensures Valid()
    {
      ghost var start, first := docs, nextId;
      var newName := NewName(dest);
      var hits := SubtreeHits(docs, self, user);
      SaveClones(hits, self, newName);
      var copied := RenamedSelf(self, newName).(id := nextId);
      docs := docs + [copied];
      nextId := nextId + 1;
      ghost var clones := Clones(hits, self, newName, first);
      CopyAdditionsParts(start, first, self, user, dest);
      AppendAssoc(start, clones, [copied]);
      CopyKeepsIds(start, first, self, user, dest);
    }

    /** The loop of `copy` over the descendants: one new document per hit,
        with the next free id. */
    method SaveClones(hits: seq<Doc>, self: Doc, newName: string)
      modifies this
      ensures docs == old(docs) + Clones(hits, self, newName, old(nextId))
      ensures nextId == old(nextId) + |hits|
    {
      ghost var start, first := docs, nextId;
      ghost var add := Clones(hits, self, newName, first);
      var k := 0;
      while k < |hits|
        invariant 0 <= k <= |hits|
        invariant nextId == first + k
        invariant docs == start + add[..k]
      {
        var clone := RenamedDescendant(hits[k], self, newName).(id := nextId);
        SliceStep(add, k);
        docs := docs + [clone];
        nextId := nextId + 1;
        k := k + 1;
      }
      assert add[..k] == add;
    }

    /** `delete_recursive()` on `self`: each descendant deleted and counted,
        then `self`. Deleting a document that is no longer indexed fails
        with the not-found error, as it does when `self` was among its own
        descendants. */
    method DeleteRecursive(self: Doc, user: string) returns (r: Result<nat>)
      requires Valid() && self in docs
      modifies this
      ensures (docs, r) == DeleteOutcome(old(docs), self, user) && nextId == old(nextId)
      ensures Valid()
    {
      ghost var start := docs;
      var hits := SubtreeHits(docs, self, user);
      var cnt := 0;
      var k := 0;
      WithoutNothing(start);
      assert IdsOf(hits[..0]) == {};
      while k < |hits|
        invariant 0 <= k <= |hits| && cnt == k
        invariant docs == Without(start, IdsOf(hits[..k])) && nextId == old(nextId)
      {
        WithoutWithout(start, IdsOf(hits[..k]), {hits[k].id});
        SliceStep(hits, k);
        IdsOfAppend(hits[..k], hits[k]);
        docs := Without(docs, {hits[k].id});
        cnt := cnt + 1;
        k := k + 1;
      }
      assert hits[..k] == hits;
      var present := self.id in IdsOf(docs);
      WithoutIds(start, IdsOf(hits), self);
      if !present {
        r := Err(NotFoundError);
      } else {
        WithoutWithout(start, IdsOf(hits), {self.id});
        docs := Without(docs, {self.id});
        r := Ok(cnt + 1);
      }
      ghost var gone := if present then IdsOf(hits) + {self.id} else IdsOf(hits);
      assert docs == Without(start, gone);
      UniqueSubsequence(start, docs);
    }

    /** `update_pems(user, level)` on `d`: its entry for `user` replaced by
        the grant at `level`. */
    method UpdatePems(d: Doc, user: string, level: string) returns (r: Doc)
      requires Valid() && d in docs
      modifies this
      ensures r == GrantedDoc(d, user, level)
      ensures docs == UpdateById(old(docs), d.id, r) && nextId == old(nextId)
      ensures Valid()
    {
      r := GrantedDoc(d, user, level);
      UpdateByIdKeepsIds(docs, d.id, r);
      docs := UpdateById(docs, d.id, r);
    }

    /** `share(username, user, level)` on `self`: every descendant, then each
        ancestor directory from the nearest up, then `self` is granted the
        level. An ancestor that is not indexed stops the walk with the
        error `None.update_pems` raises. */
    method Share(self: Doc, username: string, user: string, level: string) returns (out: Outcome)
      requires Valid() && self in docs
      modifies this
      ensures (docs, out) == ShareOutcome(old(docs), self, username, user, level) && nextId == old(nextId)
      ensures Valid()
    {
      var hits := SubtreeHits(docs, self, username);
      SaveEach(hits, (o: Doc) => GrantedDoc(o, user, level));
      var completed := WalkAncestorsOf(self.systemId, username, AncestorPaths(FullPath(self), "/"), user, level);
      if !completed {
        out := Fail(AttributeError("update_pems"));
        return;
      }
      UpdateByIdKeepsIds(docs, self.id, GrantedDoc(self, user, level));
      docs := UpdateById(docs, self.id, GrantedDoc(self, user, level));
      out := Pass;
    }

    /** The ancestor walk of `share`: each path looked up in the current
        index and the document found granted the level. */
    method WalkAncestorsOf(system: string, username: string, paths: seq<string>, user: string, level: string)
      returns (completed: bool)
      requires Valid()
      modifies this
      ensures (docs, completed) == WalkAncestors(old(docs), system, username, paths, user, level)
      ensures nextId == old(nextId) && Valid()
    {
      ghost var start := docs;
      var i := 0;
      while i < |paths|
        invariant 0 <= i <= |paths|
        invariant WalkAncestors(docs, system, username, paths[i..], user, level) ==
                  WalkAncestors(start, system, username, paths, user, level)
        invariant Valid() && nextId == old(nextId)
      {
        var found := FromFilePath(docs, system, Some(username), paths[i]);
        if found.None? {
          return false;
        }
        var d := found.value;
        assert paths[i..][1..] == paths[i + 1..];
        assert WalkAncestors(docs, system, username, paths[i..], user, level) ==
               WalkAncestors(UpdateById(docs, d.id, GrantedDoc(d, user, level)), system, username, paths[i + 1..], user, level);
        UpdateByIdKeepsIds(docs, d.id, GrantedDoc(d, user, level));
        docs := UpdateById(docs, d.id, GrantedDoc(d, user, level));
        i := i + 1;
      }
      return true;
    }

    /** `from_agave_file(user, f, auto_update, get_pems)`: the document
        already indexed at `f`'s full path, refreshed and re-permissioned
        as asked, or else a new document with seeded permissions. */
    method FromAgaveFile(user: Option<string>, f: AgaveFile, autoUpdate: bool, getPems: bool) returns (r: Doc)
      requires Valid()
      modifies this
      ensures (docs, r) == FromAgaveFileOutcome(old(docs), old(nextId), user, f, autoUpdate, getPems)
      ensures nextId == old(nextId) + (if FromFilePath(old(docs), f.system, user, f.fullPath).None? then 1 else 0)
      ensures Valid()
    {
      var found := FromFilePath(docs, f.system, user, f.fullPath);
      if found.Some? {
        var o := found.value;
        if autoUpdate {
          o := Refreshed(o, f);
        }
        if getPems {
          o := o.(permissions := f.permissions);
        }
        assert o.id == found.value.id;
        UpdateByIdKeepsIds(docs, o.id, o);
        docs := UpdateById(docs, found.value.id, o);
        r := o;
      } else {
        r := NewDoc(f, nextId, SeedPermissions(getPems, f.permissions, f.path));
        FreshIdsUnique(docs, [r], nextId);
        docs := docs + [r];
        nextId := nextId + 1;
      }
    }
  }

  lemma {:induction false} WithoutNothing(docs: seq<Doc>)
    ensures Without(docs, {}) == docs
    decreases |docs|
  {
    if docs != [] {
      WithoutNothing(docs[1..]);
    }
  }

  lemma AppendAssoc<T>(a: seq<T>, b: seq<T>, c: seq<T>)
    ensures (a + b) + c == a + (b + c)
  {
  }

  lemma SliceStep<T>(s: seq<T>, k: nat)
    requires k < |s|
    ensures s[..k + 1] == s[..k] + [s[k]]
  {
  }

  lemma IdsOfAppend(s: seq<Doc>, d: Doc)
    ensures IdsOf(s + [d]) == IdsOf(s) + {d.id}
  {
    var t := s + [d];
    assert forall k :: 0 <= k < |s| ==> t[k] == s[k];
    assert t[|s|] == d;
  }

  /** A document stays after deleting a set of ids exactly when its id is
      not in the set. */
  lemma WithoutIds(docs: seq<Doc>, ids: set<nat>, d: Doc)
    requires d in docs
    ensures d.id in IdsOf(Without(docs, ids)) <==> d.id !in ids
  {
    var r := Without(docs, ids);
    if d.id !in ids {
      var j :| 0 <= j < |docs| && docs[j] == d;
      var m :| 0 <= m < |r| && r[m] == d;
    }
  }

  /** What `copy` adds, named part by part. */
  lemma CopyAdditionsParts(docs: seq<Doc>, first: nat, self: Doc, user: string, dest: string)
    ensures var hits := SubtreeHits(docs, self, user);
      CopyAdditions(docs, first, self, user, dest) ==
        Clones(hits, self, NewName(dest), first) + [RenamedSelf(self, NewName(dest)).(id := first + |hits|)]
  {
  }

  /** Appending what `copy` adds to an index whose ids all lie below
      `first` keeps ids unique and below the bumped counter. */
  lemma CopyKeepsIds(docs: seq<Doc>, first: nat, self: Doc, user: string, dest: string)
    requires UniqueIds(docs) && forall i :: 0 <= i < |docs| ==> docs[i].id < first
    ensures var add := CopyAdditions(docs, first, self, user, dest);
      UniqueIds(docs + add) && forall i :: 0 <= i < |docs + add| ==> (docs + add)[i].id < first + |add|
  {
    var hits := SubtreeHits(docs, self, user);
    var clones := Clones(hits, self, NewName(dest), first);
    var add := CopyAdditions(docs, first, self, user, dest);
    CloneIds(hits, self, NewName(dest), first);
    assert forall k :: 0 <= k < |add| ==> add[k].id == first + k by {
      forall k | 0 <= k < |add| ensures add[k].id == first + k {
        if k < |hits| { assert add[k] == clones[k]; }
      }
    }
    FreshIdsUnique(docs, add, first);
  }

  /** The clones are numbered from `first` on. */
  lemma CloneIds(hits: seq<Doc>, self: Doc, newName: string, first: nat)
    ensures forall k :: 0 <= k < |hits| ==> Clones(hits, self, newName, first)[k].id == first + k
  {
  }

  /** Appending documents numbered from `first` on to an index whose ids
      all lie below `first` keeps ids unique. */
  lemma FreshIdsUnique(s: seq<Doc>, add: seq<Doc>, first: nat)
    requires UniqueIds(s) && forall i :: 0 <= i < |s| ==> s[i].id < first
    requires forall k :: 0 <= k < |add| ==> add[k].id == first + k
    ensures UniqueIds(s + add)
    ensures forall i :: 0 <= i < |s + add| ==> (s + add)[i].id < first + |add|
  {
    var t := s + add;
    forall i, j | 0 <= i < j < |t| ensures t[i].id != t[j].id {
      if j < |s| {
        assert t[i] == s[i] && t[j] == s[j];
      } else if i < |s| {
        assert t[i] == s[i] && t[j] == add[j - |s|];
      } else {
        assert t[i] == add[i - |s|] && t[j] == add[j - |s|];
      }
    }
    forall i | 0 <= i < |t| ensures t[i].id < first + |add| {
      if i < |s| { assert t[i] == s[i]; } else { assert t[i] == add[i - |s|]; }
    }
  }

  /** Saving a document over one with the same id keeps every id. */
  lemma UpdateByIdKeepsIds(docs: seq<Doc>, id: nat, d: Doc)
    requires d.id == id
    ensures forall i :: 0 <= i < |docs| ==> UpdateById(docs, id, d)[i].id == docs[i].id
  {
  }

  /** Documents kept in order from an index with unique ids have unique
      ids, so deleting keeps ids unique. */
  lemma {:induction false} UniqueSubsequence(s: seq<Doc>, r: seq<Doc>)
    requires UniqueIds(s) && IsSubsequence(r, s)
    ensures UniqueIds(r)
    ensures forall k :: 0 <= k < |r| ==> r[k] in s
    decreases |s|
  {
    if r != [] {
      assert UniqueIds(s[1..]);
      if r[0] == s[0] && IsSubsequence(r[1..], s[1..]) {
        UniqueSubsequence(s[1..], r[1..]);
        forall k | 0 <= k < |r| ensures r[k] in s {
          if k > 0 { assert r[k] == r[1..][k - 1]; }
        }
        forall i, j | 0 <= i < j < |r| ensures r[i].id != r[j].id {
          if i == 0 {
            assert r[j] == r[1..][j - 1];
            var m :| 0 <= m < |s[1..]| && s[1..][m] == r[j];
            assert s[m + 1] == r[j];
          } else {
            assert r[i] == r[1..][i - 1] && r[j] == r[1..][j - 1];
          }
        }
      } else {
        UniqueSubsequence(s[1..], r);
      }
    }
  }
}
