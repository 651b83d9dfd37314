/** Permission lists of search documents: the entry `update_pems` builds
    from a permission level, the per-user replace it performs, and the
    entry a newly indexed file is seeded with. */
module Permissions {
  import opened Common
  import opened Paths

  /** One element of a document's permission list. */
  datatype Perm = Perm(username: string, recursive: bool, read: bool, write: bool, execute: bool)

  /** The entry granted to `user` at permission level `level`; each flag
      depends on the level alone. */
  function GrantEntry(user: string, level: string): (e: Perm)
    ensures e.username == user && e.recursive
    ensures e.read <==> level == "READ" || level == "ALL"
    ensures e.write <==> level == "WRITE" || level == "ALL"
    ensures e.execute <==> level == "EXECUTE" || level == "ALL"
  {
    Perm(user, true, level in ["READ", "ALL"], level in ["WRITE", "ALL"], level in ["EXECUTE", "ALL"])
  }

  /** A level outside READ, WRITE, EXECUTE and ALL grants nothing, and ALL
      grants everything. */
  lemma GrantEntryLevels(user: string, level: string)
    ensures level !in {"READ", "WRITE", "EXECUTE", "ALL"} ==>
      !GrantEntry(user, level).read && !GrantEntry(user, level).write && !GrantEntry(user, level).execute
    ensures level == "ALL" ==>
      GrantEntry(user, level).read && GrantEntry(user, level).write && GrantEntry(user, level).execute
  {
  }

  /** The entries of `pems` that belong to `user`, in order. */
  function EntriesOf(pems: seq<Perm>, user: string): seq<Perm>
  {
    Filter(pems, (q: Perm) => q.username == user)
  }

  /** The list `update_pems` writes back: every entry of another user, in
      its original order, followed by the new entry for `user`. */
  function UpdatedPems(pems: seq<Perm>, user: string, level: string): (r: seq<Perm>)
    ensures |r| >= 1 && r[|r| - 1] == GrantEntry(user, level)
    ensures forall k :: 0 <= k < |r| - 1 ==> r[k].username != user && r[k] in pems
    ensures forall k :: 0 <= k < |pems| && pems[k].username != user ==> pems[k] in r
    ensures IsSubsequence(r[..|r| - 1], pems)
  {
    var kept := Filter(pems, (q: Perm) => q.username != user);
    assert (kept + [GrantEntry(user, level)])[..|kept|] == kept;
    kept + [GrantEntry(user, level)]
  }

  /** `user` holds exactly one entry, the last one, and it is the grant at
      `level`. */
  predicate Granted(pems: seq<Perm>, user: string, level: string)
  {
    |pems| >= 1 && pems[|pems| - 1] == GrantEntry(user, level) &&
    forall k :: 0 <= k < |pems| - 1 ==> pems[k].username != user
  }

  lemma {:induction false} FilterAppend<T>(s: seq<T>, x: T, p: T -> bool)
    ensures Filter(s + [x], p) == Filter(s, p) + (if p(x) then [x] else [])
    decreases |s|
  {
    if s == [] {
      assert [] + [x] == [x];
    } else {
      assert (s + [x])[1..] == s[1..] + [x];
      FilterAppend(s[1..], x, p);
    }
  }

  /** A list in which `user` already holds the grant is a fixed point of
      the replace; so applying `update_pems` twice is applying it once. */
  lemma {:induction false} UpdatedPemsFixedPoint(pems: seq<Perm>, user: string, level: string)
    requires Granted(pems, user, level)
    ensures UpdatedPems(pems, user, level) == pems
  {
    var front := pems[..|pems| - 1];
    var last := pems[|pems| - 1];
    assert pems == front + [last];
    var p := (q: Perm) => q.username != user;
    FilterAppend(front, last, p);
    FilterAll(front, p);
    assert Filter(pems, p) == front;
  }

  lemma UpdatedPemsIdempotent(pems: seq<Perm>, user: string, level: string)
    ensures Granted(UpdatedPems(pems, user, level), user, level)
    ensures UpdatedPems(UpdatedPems(pems, user, level), user, level) == UpdatedPems(pems, user, level)
  {
    UpdatedPemsFixedPoint(UpdatedPems(pems, user, level), user, level);
  }

  lemma {:induction false} FilterOthersOf(pems: seq<Perm>, user: string, other: string)
    requires other != user
    ensures EntriesOf(Filter(pems, (q: Perm) => q.username != user), other) == EntriesOf(pems, other)
    decreases |pems|
  {
    if pems != [] {
      FilterOthersOf(pems[1..], user, other);
    }
  }

  /** Every other user's entries are exactly as they were, in the same
      order. */
  lemma UpdatedPemsKeepsOthers(pems: seq<Perm>, user: string, level: string, other: string)
    requires other != user
    ensures EntriesOf(UpdatedPems(pems, user, level), other) == EntriesOf(pems, other)
  {
    var kept := Filter(pems, (q: Perm) => q.username != user);
    FilterAppend(kept, GrantEntry(user, level), (q: Perm) => q.username == other);
    FilterOthersOf(pems, user, other);
  }

  /** `s.lstrip('/')`. */
  function LStripSlashes(s: string): (r: string)
    ensures r == [] || r[0] != '/'
    ensures |r| <= |s| && r == s[|s| - |r|..]
    decreases |s|
  {
    if s != [] && s[0] == '/' then LStripSlashes(s[1..]) else s
  }

  /** `path.strip('/').split('/')[0]`: the user a new document's
      permissions are seeded for. */
  function PemsUser(path: string): (u: string)
    ensures HasNoSlash(u)
  {
    var comps := SplitOn(RStripSlashes(LStripSlashes(path)), '/');
    assert forall i :: 0 <= i < |comps[0]| ==> comps[0][i] != '/' by {
      assert '/' !in comps[0];
    }
    comps[0]
  }

  lemma {:induction false} FirstComponent(u: string, t: string)
    requires HasNoSlash(u)
    requires t == [] || t[0] == '/'
    ensures SplitOn(u + t, '/')[0] == u
    decreases |u|
  {
    if u == [] {
      assert u + t == t;
    } else {
      assert (u + t)[1..] == u[1..] + t;
      FirstComponent(u[1..], t);
      assert u == [u[0]] + u[1..];
    }
  }

  /** Stripping trailing slashes from `u + t` keeps all of `u`, since
      `u` ends with a character other than a slash; what follows `u` is
      empty or starts with a slash. */
  lemma RStripKeepsComponent(u: string, t: string)
    requires u != [] && HasNoSlash(u)
    requires t == [] || t[0] == '/'
    ensures var r := RStripSlashes(u + t);
      |r| >= |u| && r == u + r[|u|..] && (r[|u|..] == [] || r[|u|..][0] == '/')
  {
    var l := u + t;
    var r := RStripSlashes(l);
    assert l[|u| - 1] != '/';
    assert |r| >= |u|;
    assert r[..|u|] == l[..|u|] == u;
    assert r == r[..|u|] + r[|u|..];
    if |r| > |u| {
      assert r[|u|] == l[|u|] == t[0];
    }
  }

  /** For a path that begins `/u`, with `u` a non-empty component, the
      seeded user is `u`: the home directory's owner. */
  lemma {:induction false} PemsUserIsFirstComponent(u: string, t: string)
    requires u != [] && HasNoSlash(u)
    requires t == [] || t[0] == '/'
    ensures PemsUser("/" + u + t) == u
  {
    StripLeadingSlash(u, t);
    RStripKeepsComponent(u, t);
    var r := RStripSlashes(u + t);
    FirstComponent(u, r[|u|..]);
  }

  lemma StripLeadingSlash(u: string, t: string)
    requires u != [] && HasNoSlash(u)
    ensures LStripSlashes("/" + u + t) == u + t
  {
    assert ("/" + u + t)[1..] == u + t;
    assert (u + t)[0] == u[0];
  }

  /** The entry seeded for a new document's owner: full recursive rights. */
  function OwnerEntry(owner: string): (e: Perm)
    ensures e.username == owner && e.recursive && e.read && e.write && e.execute
  {
    Perm(owner, true, true, true, true)
  }

  /** The permissions `from_agave_file` gives a document it creates: the
      file's own list when asked to fetch it, otherwise one owner entry
      for the first component of the file's path. */
  function SeedPermissions(getPems: bool, filePems: seq<Perm>, path: string): (r: seq<Perm>)
    ensures getPems ==> r == filePems
    ensures !getPems ==> |r| == 1 && r[0] == OwnerEntry(PemsUser(path))
  {
    if getPems then filePems else [OwnerEntry(PemsUser(path))]
  }

  /** The same step as written at documents.py:111-124: the assignment to
      `pems` in the else branch lacks its `=`, so reading `pems` there
      raises for every document created without fetched permissions. */
  function SeedPermissionsAsWritten(getPems: bool, filePems: seq<Perm>, path: string): (r: Result<seq<Perm>>)
    ensures getPems ==> r == Ok(filePems)
    ensures !getPems ==> r.Err? && r.error.NameError?
  {
    if getPems then Ok(filePems) else Err(NameError("pems"))
  }

  /** The discrepancy on a concrete path: the corrected seeding gives
      `alice` full rights where the code as written raises. */
  lemma SeedPermissionsDiscrepancy()
    ensures SeedPermissionsAsWritten(false, [], "/alice/data").Err?
    ensures SeedPermissions(false, [], "/alice/data") == [OwnerEntry("alice")]
  {
    PemsUserIsFirstComponent("alice", "/data");
    assert "/" + "alice" == "/alice";
    assert "/alice" + "/data" == "/alice/data";
  }
}
