/** Applying one entry again and again, killed any number of times (internal/store/apply.go:19-21 and
    196-224). */
module Retry {
  import opened Model
  import opened Paths
  import opened Tree
  import opened Layout
  import opened Index
  import opened Assembly
  import opened Apply
  import opened TempFile
  import opened Machine
  import opened Recovery

  /** Names that an Apply for p never looks at. */
  ghost predicate Apart(o: set<string>, p: string) {
    forall q :: q in o ==> q != p && !IsAncestor(q, p) && q != MARKER_NAME
  }

  lemma LooksPast(t: Tree, o: set<string>, p: string, id: string)
    requires Apart(o, p)
    ensures MarkerOk(t - o, id) <==> MarkerOk(t, id)
    ensures ComponentsOk(t - o, p, true) <==> ComponentsOk(t, p, true)
    ensures p in t - o <==> p in t
    ensures p in t ==> (t - o)[p] == t[p]
    ensures WithParents(t - o, p) == WithParents(t, p) - o
  {
    hide ValidPath;
    assert forall a :: a in Ancestors(p) ==> a !in o;
    assert MARKER_NAME !in o && p !in o;
    var x, y := WithParents(t - o, p), WithParents(t, p) - o;
    assert forall q :: q in x <==> q in y;
  }

  lemma PutPast(t: Tree, o: set<string>, p: string, n: Node)
    requires p !in o
    ensures t[p := n] - o == (t - o)[p := n]
  {}

  lemma InstallLeftovers(h: Hasher, t: Tree, index: Index, e: Entry, old': Option<Bytes>, fetch: Replies, o: set<string>)
    requires Apart(o, e.path)
    ensures var r := Install(h, t, index, e, old', fetch);
            var u := Install(h, t - o, index, e, old', fetch);
            r.result == u.result && r.index == u.index && r.tree - o == u.tree
  {
    hide MarkerOk, ComponentsOk, WithParents, AssembleAll, IsAncestor;
    LooksPast(t, o, e.path, "");
    var a := AssembleAll(h, e, old', fetch);
    if a.Ok? {
      PutPast(WithParents(t, e.path), o, e.path, File(a.value.data, e.mode));
    }
  }

  lemma DirectoryLeftovers(t: Tree, index: Index, e: Entry, o: set<string>)
    requires Apart(o, e.path)
    ensures var r := ApplyDirectory(t, index, e);
            var u := ApplyDirectory(t - o, index, e);
            r.result == u.result && r.index == u.index && r.tree - o == u.tree
  {
    hide MarkerOk, ComponentsOk, WithParents, IsAncestor;
    LooksPast(t, o, e.path, "");
    PutPast(WithParents(t, e.path), o, e.path, Dir(OwnerAccess(e.mode)));
  }

  lemma FileLeftovers(h: Hasher, t: Tree, index: Index, e: Entry, fetch: Replies, o: set<string>)
    requires Apart(o, e.path)
    ensures var r := ApplyFile(h, t, index, e, fetch);
            var u := ApplyFile(h, t - o, index, e, fetch);
            r.result == u.result && r.index == u.index && r.tree - o == u.tree
  {
    hide MarkerOk, ComponentsOk, WithParents, IsAncestor, Install, OldBlocks;
    LooksPast(t, o, e.path, "");
    if e.path !in t {
      InstallLeftovers(h, t, index, e, None, fetch, o);
    } else if t[e.path].File? {
      InstallLeftovers(h, t, index, e, Some(t[e.path].content), fetch, o);
      PutPast(t, o, e.path, File(t[e.path].content, e.mode));
    }
  }

  /** Orphaned temporary files make no difference to an Apply, and it makes none to them. */
  lemma LeftoversDoNotMatter(h: Hasher, id: string, t: Tree, index: Index, e: Entry, fetch: Replies, o: set<string>)
    requires Apart(o, e.path)
    ensures var r := Applied(h, id, t, index, e, fetch);
            var u := Applied(h, id, t - o, index, e, fetch);
            r.result == u.result && r.index == u.index && r.tree - o == u.tree
  {
    hide MarkerOk, ComponentsOk, WithParents, ApplyFile, ApplyDirectory, ValidEntry, Fits, Apart;
    LooksPast(t, o, e.path, id);
    DirectoryLeftovers(t, index, e, o);
    FileLeftovers(h, t, index, e, fetch, o);
  }

  /** Whether a decision to replace a file, or to make a directory, was taken. */
  ghost predicate Undertaken(h: Hasher, s: Folder, e: Entry) {
    ValidEntry(e) && Fits(s.index, e) && ((exists cur :: Decision(h, s, e, cur)) || exists x :: DirDecision(s, e, x))
  }

  /** Once decided, parents that are already there make no difference. */
  lemma ParentsDoNotMatter(h: Hasher, s: Folder, e: Entry, fetch: Replies)
    requires WellFormed(s.tree) && Undertaken(h, s, e)
    ensures Applied(h, s.id, WithParents(s.tree, e.path), s.index, e, fetch) == Applied(h, s.id, s.tree, s.index, e, fetch)
  {
    hide Applied, Decision, DirDecision, WithParents, ValidEntry, Fits, WellFormed;
    if cur :| Decision(h, s, e, cur) {
      DecisionInstalls(h, s, e, cur, fetch);
      var s1 := s.(tree := WithParents(s.tree, e.path));
      var cur1 := DecisionStays(h, s, e, cur);
      DecisionInstalls(h, s1, e, cur1, fetch);
      InstallOverParents(h, s, e, fetch);
    } else {
      var x :| DirDecision(s, e, x);
      RetryOfDirectory(h, s, e, x, fetch);
    }
  }

  lemma ParentsTwice(t: Tree, p: string)
    ensures WithParents(WithParents(t, p), p) == WithParents(t, p)
  {}

  lemma DecisionStays(h: Hasher, s: Folder, e: Entry, cur: Option<Entry>) returns (cur1: Option<Entry>)
    requires WellFormed(s.tree) && Decision(h, s, e, cur) && ValidEntry(e)
    ensures Decision(h, s.(tree := WithParents(s.tree, e.path)), e, cur1)
    ensures CurrentContent(WithParents(s.tree, e.path), e.path) == CurrentContent(s.tree, e.path)
  {
    hide ValidPath, SliceBlocks, ValidLayout;
    MarkerNotValid();
    NotOwnAncestor(e.path);
    assert e.path !in Ancestors(e.path);
    cur1 := cur;
  }

  lemma InstallOverParents(h: Hasher, s: Folder, e: Entry, fetch: Replies)
    requires CurrentContent(WithParents(s.tree, e.path), e.path) == CurrentContent(s.tree, e.path)
    ensures Install(h, WithParents(s.tree, e.path), s.index, e, CurrentContent(WithParents(s.tree, e.path), e.path), fetch) ==
              Install(h, s.tree, s.index, e, CurrentContent(s.tree, e.path), fetch)
  {
    hide AssembleAll, WithParents;
    ParentsTwice(s.tree, e.path);
  }

  /** One attempt: the replies it would get, the random part of its temporary name, and the number of
      events after which its process is killed. An attempt that is over by then was not killed at all. */
  datatype Attempt = Attempt(fetch: Replies, nonce: string, steps: nat)

  ghost function AfterAttempts(h: Hasher, s0: Folder, e: Entry, tries: seq<Attempt>): Folder {
    if tries == [] then s0
    else
      var a := tries[|tries| - 1];
      Crashed(h, AfterAttempts(h, s0, e, tries[..|tries| - 1]), e, a.fetch, a.nonce, a.steps)
  }

  /** Every attempt draws a temporary name that nothing uses. */
  ghost predicate NewNames(h: Hasher, s0: Folder, e: Entry, tries: seq<Attempt>) {
    tries != [] ==>
      var a := tries[|tries| - 1];
      && NewNames(h, s0, e, tries[..|tries| - 1])
      && '/' !in a.nonce && TempPath(e.path, a.nonce) !in AfterAttempts(h, s0, e, tries[..|tries| - 1]).tree
  }

  function TempNames(e: Entry, tries: seq<Attempt>): set<string> {
    set i | 0 <= i < |tries| :: TempPath(e.path, tries[i].nonce)
  }

  /** What one attempt that is killed makes of a folder, temporary files aside: nothing; parents for a
      decided replacement; or its success, with or without the row. */
  ghost predicate Effect(h: Hasher, s: Folder, e: Entry, fetch: Replies, b: Tree, index: Index) {
    var u := Applied(h, s.id, s.tree, s.index, e, fetch);
    || (b == s.tree && index == s.index)
    || (b == WithParents(s.tree, e.path) && index == s.index && Undertaken(h, s, e))
    || (u.result.Ok? && b == u.tree && (index == s.index || index == u.index))
  }

  lemma KilledEffect(h: Hasher, s: Folder, e: Entry, a: Attempt)
    requires Fresh(s, e, a.nonce) && ValidEntry(e)
    ensures var c := Crashed(h, s, e, a.fetch, a.nonce, a.steps);
            && c.phase.Idle? && c.id == s.id && WellFormed(c.tree)
            && Effect(h, s, e, a.fetch, c.tree - {TempPath(e.path, a.nonce)}, c.index)
  {
    hide Crashed, Applied, Decision, DirDecision, WithParents, TempPath, WellFormed, ValidEntry, Fits, LeftAs, ComponentsOk, ValidPath;
    var c := Crashed(h, s, e, a.fetch, a.nonce, a.steps);
    var l := CrashKind(h, s, e, a.fetch, a.nonce, a.steps);
    CrashedIsIdle(h, s, e, a);
    EntryHasPath(e);
    TempIsApart(s.tree, e.path, a.nonce);
    LeftIsEffect(h, s, e, a, c, l);
    LeftIsWellFormed(h, s, e, a, c, l);
  }

  lemma CrashedIsIdle(h: Hasher, s: Folder, e: Entry, a: Attempt)
    requires Fresh(s, e, a.nonce)
    ensures var c := Crashed(h, s, e, a.fetch, a.nonce, a.steps); c.phase.Idle? && c.id == s.id
  {
    hide Undisturbed, Fresh, Applied;
    RunOnTrack(h, s, e, a.fetch, a.nonce, a.steps);
    hide Decision, DirDecision, WithParents, ValidEntry, Fits, Assemble, AssembleAll, TempPath;
  }

  lemma FailureEffect(h: Hasher, s: Folder, e: Entry, fetch: Replies)
    requires WellFormed(s.tree) && Applied(h, s.id, s.tree, s.index, e, fetch).result.Err?
    ensures var u := Applied(h, s.id, s.tree, s.index, e, fetch); Effect(h, s, e, fetch, u.tree, u.index)
  {
    hide Applied, Decision, WithParents, WellFormed, ValidEntry, Fits, Fingerprint;
    var u := Applied(h, s.id, s.tree, s.index, e, fetch);
    FailureIsHarmless(h, s.id, s.tree, s.index, e, fetch);
    if u.tree != s.tree {
      var cur := if e.path in s.tree && s.tree[e.path].File?
                 then Some(Fingerprint(h, e.path, s.tree[e.path].content, s.tree[e.path].mode)) else None;
      FailedInstall(h, s, e, cur, fetch);
    }
  }

  lemma LeftIsEffect(h: Hasher, s: Folder, e: Entry, a: Attempt, c: Folder, l: Leftover)
    requires Fresh(s, e, a.nonce) && LeftAs(h, s, e, a.fetch, a.nonce, c, l)
    requires TempPath(e.path, a.nonce) !in WithParents(s.tree, e.path) && TempPath(e.path, a.nonce) != e.path
    ensures Effect(h, s, e, a.fetch, c.tree - {TempPath(e.path, a.nonce)}, c.index)
  {
    hide Applied, Decision, DirDecision, WithParents, TempPath, WellFormed, ValidEntry, Fits, IsAncestor;
    var tmp := TempPath(e.path, a.nonce);
    var u := Applied(h, s.id, s.tree, s.index, e, a.fetch);
    assert s.tree - {tmp} == s.tree;
    assert WithParents(s.tree, e.path) - {tmp} == WithParents(s.tree, e.path);
    if l.Orphan? {
      CreateAndRemove(WithParents(s.tree, e.path), tmp, l.temp);
    }
    if l.Installed? || l.Finished? {
      OnlyDestination(h, s.id, s.tree, s.index, e, a.fetch);
      assert tmp !in u.tree by { NotMade(s.tree, e.path, tmp); }
      assert u.tree - {tmp} == u.tree;
      if u.result.Err? {
        FailureEffect(h, s, e, a.fetch);
      }
    }
  }

  lemma NotMade(t: Tree, p: string, q: string)
    requires q !in WithParents(t, p)
    ensures q !in t && !IsAncestor(q, p)
  {}

  lemma LeftIsWellFormed(h: Hasher, s: Folder, e: Entry, a: Attempt, c: Folder, l: Leftover)
    requires Fresh(s, e, a.nonce) && LeftAs(h, s, e, a.fetch, a.nonce, c, l)
    requires var tmp := TempPath(e.path, a.nonce);
             tmp !in WithParents(s.tree, e.path) && forall x :: IsAncestor(x, tmp) <==> IsAncestor(x, e.path)
    ensures WellFormed(c.tree)
  {
    hide Applied, WithParents, TempPath, ValidEntry, Fits, IsAncestor, ValidPath, Fingerprint, WellFormed, MarkerOk;
    var t1 := WithParents(s.tree, e.path);
    if l.Parents? || l.Orphan? || l.DirParents? {
      assert WellFormed(t1) by { WithParentsWellFormed(s.tree, e.path) by { assert forall x :: IsAncestor(x, e.path) ==> x in Ancestors(e.path); } }
      assert forall x :: IsAncestor(x, e.path) ==> x in t1 && t1[x].Dir? by { ParentsAreDirs(s.tree, e.path); }
      if l.Orphan? {
        InstallWellFormed(t1, TempPath(e.path, a.nonce), l.temp);
      }
    } else if l.Installed? || l.Finished? {
      KeepsWellFormed(h, s.id, s.tree, s.index, e, a.fetch);
    }
  }

  lemma ParentsAreDirs(t: Tree, p: string)
    requires ComponentsOk(t, p, true)
    ensures forall x :: IsAncestor(x, p) ==> x in WithParents(t, p) && WithParents(t, p)[x].Dir?
  {
    hide ValidPath;
    assert forall x :: IsAncestor(x, p) ==> x in Ancestors(p);
  }

  /** The folder after any attempts, temporary files aside, is as it was but for the parents of a decided
      replacement; or as one of the attempts would have left it on its own. */
  ghost predicate Standing(h: Hasher, s0: Folder, e: Entry, tries: seq<Attempt>, b: Tree, index: Index) {
    || (index == s0.index && b == s0.tree)
    || (index == s0.index && b == WithParents(s0.tree, e.path) && Undertaken(h, s0, e))
    || exists i :: 0 <= i < |tries| && Won(h, s0, e, tries[i], b, index)
  }

  ghost predicate Won(h: Hasher, s0: Folder, e: Entry, a: Attempt, b: Tree, index: Index) {
    var u := Applied(h, s0.id, s0.tree, s0.index, e, a.fetch);
    u.result.Ok? && b == u.tree && (index == s0.index || index == u.index)
  }

  /** From a standing, one more attempt leads to a standing. */
  lemma EffectStanding(h: Hasher, s0: Folder, e: Entry, tries: seq<Attempt>, a: Attempt, b: Tree, index: Index,
                       b': Tree, index': Index)
    requires WellFormed(s0.tree) && Standing(h, s0, e, tries, b, index)
    requires Effect(h, s0.(tree := b, index := index), e, a.fetch, b', index')
    ensures Standing(h, s0, e, tries + [a], b', index')
  {
    hide Applied, Undertaken, WithParents, WellFormed;
    var more := tries + [a];
    assert more[|tries|] == a && forall i :: 0 <= i < |tries| ==> more[i] == tries[i];
    if i :| 0 <= i < |tries| && Won(h, s0, e, tries[i], b, index) {
      AfterWin(h, s0, e, tries[i], b, index, a.fetch);
      assert Won(h, s0, e, more[i], b', index');
    } else if b == s0.tree {
      assert s0.(tree := b, index := index) == s0.(phase := s0.phase);
      if index' != index || (b' != s0.tree && b' != WithParents(s0.tree, e.path)) {
        assert Won(h, s0, e, more[|tries|], b', index');
      }
    } else {
      ParentsDoNotMatter(h, s0, e, a.fetch);
      ParentsTwice(s0.tree, e.path);
      if b' != b || index' != index {
        assert Won(h, s0, e, more[|tries|], b', index');
      }
    }
  }

  lemma AfterWin(h: Hasher, s0: Folder, e: Entry, a: Attempt, b: Tree, index: Index, later: Replies)
    requires WellFormed(s0.tree) && Won(h, s0, e, a, b, index)
    ensures WithParents(b, e.path) == b
    ensures var u := Applied(h, s0.id, s0.tree, s0.index, e, a.fetch);
            var r := Applied(h, s0.id, b, index, e, later);
            r.tree == b && r.index == u.index && r.result.Ok? && r.result.value.received == 0
  {
    hide Applied, WithParents, WellFormed;
    SuccessIsExact(h, s0.id, s0.tree, s0.index, e, a.fetch);
    KeepsWellFormed(h, s0.id, s0.tree, s0.index, e, a.fetch);
    PresentHasParents(b, e.path);
    RepeatIsSilent(h, s0.id, s0.tree, s0.index, e, a.fetch, index, later);
  }

  lemma DecidedForgets(h: Hasher, c: Folder, e: Entry, o: set<string>)
    requires Undertaken(h, c, e) && Apart(o, e.path)
    ensures Undertaken(h, c.(tree := c.tree - o), e)
  {
    hide Fingerprint, ValidEntry, Fits, WithParents, MarkerOk, ComponentsOk, IsAncestor;
    LooksPast(c.tree, o, e.path, c.id);
    var c1 := c.(tree := c.tree - o);
    if cur :| Decision(h, c, e, cur) {
      assert Decision(h, c1, e, cur);
    } else {
      var x :| DirDecision(c, e, x);
      assert DirDecision(c1, e, x);
    }
  }

  /** The effect of an attempt does not depend on the temporary files of earlier ones. */
  lemma EffectForgets(h: Hasher, c: Folder, e: Entry, fetch: Replies, o: set<string>, b: Tree, index: Index)
    requires Effect(h, c, e, fetch, b, index) && Apart(o, e.path)
    ensures Effect(h, c.(tree := c.tree - o), e, fetch, b - o, index)
  {
    hide Applied, Undertaken, WithParents, Apart;
    LeftoversDoNotMatter(h, c.id, c.tree, c.index, e, fetch, o);
    LooksPast(c.tree, o, e.path, c.id);
    if Undertaken(h, c, e) {
      DecidedForgets(h, c, e, o);
    }
  }

  lemma NothingTried(h: Hasher, s0: Folder, e: Entry)
    ensures Standing(h, s0, e, [], s0.tree, s0.index) && TempNames(e, []) == {}
  {
    hide Applied, Undertaken;
  }

  lemma OneMoreName(e: Entry, tries: seq<Attempt>, t: Tree)
    requires tries != []
    ensures var init := tries[..|tries| - 1];
            var tmp := TempPath(e.path, tries[|tries| - 1].nonce);
            && TempNames(e, tries) == TempNames(e, init) + {tmp}
            && t - TempNames(e, tries) == t - {tmp} - TempNames(e, init)
  {
    hide TempPath;
    var n := |tries| - 1;
    var init := tries[..n];
    var tmp := TempPath(e.path, tries[n].nonce);
    forall q ensures q in TempNames(e, tries) <==> q in TempNames(e, init) || q == tmp {
      if q in TempNames(e, tries) {
        var i :| 0 <= i < |tries| && q == TempPath(e.path, tries[i].nonce);
        assert i < n ==> init[i] == tries[i];
      }
      if q in TempNames(e, init) {
        var i :| 0 <= i < n && q == TempPath(e.path, init[i].nonce);
        assert tries[i] == init[i];
      }
    }
  }

  lemma NameIsApart(t: Tree, p: string, nonce: string)
    requires ValidPath(p) && '/' !in nonce && TempPath(p, nonce) !in t
    ensures Apart({TempPath(p, nonce)}, p)
  {
    hide TempPath, ValidPath, IsAncestor;
    TempIsApart(t, p, nonce);
    NotMade(t, p, TempPath(p, nonce));
  }

  lemma {:induction false} AttemptsStand(h: Hasher, s0: Folder, e: Entry, tries: seq<Attempt>)
    requires WellFormed(s0.tree) && s0.phase.Idle? && ValidEntry(e) && NewNames(h, s0, e, tries)
    ensures var c := AfterAttempts(h, s0, e, tries);
            && c.phase.Idle? && c.id == s0.id && WellFormed(c.tree) && Apart(TempNames(e, tries), e.path)
            && Standing(h, s0, e, tries, c.tree - TempNames(e, tries), c.index)
  {
    hide Crashed, Standing, Effect, WellFormed, ValidEntry, TempPath, IsAncestor, ValidPath, TempNames;
    if tries == [] {
      NothingTried(h, s0, e);
      assert s0.tree - {} == s0.tree;
    } else {
      var init := tries[..|tries| - 1];
      var a := tries[|tries| - 1];
      AttemptsStand(h, s0, e, init);
      var c := AfterAttempts(h, s0, e, init);
      var c' := AfterAttempts(h, s0, e, tries);
      var o := TempNames(e, init);
      var tmp := TempPath(e.path, a.nonce);
      KilledEffect(h, c, e, a);
      EffectForgets(h, c, e, a.fetch, o, c'.tree - {tmp}, c'.index);
      SameButHistory(h, s0, c, e, a.fetch, c.tree - o, c'.tree - {tmp} - o, c'.index);
      EffectStanding(h, s0, e, init, a, c.tree - o, c.index, c'.tree - {tmp} - o, c'.index);
      assert init + [a] == tries;
      OneMoreName(e, tries, c'.tree);
      EntryHasPath(e);
      NameIsApart(c.tree, e.path, a.nonce);
    }
  }

  /** Effects do not depend on the history that a folder carries along. */
  lemma SameButHistory(h: Hasher, s0: Folder, c: Folder, e: Entry, fetch: Replies, t: Tree, b: Tree, index: Index)
    requires c.id == s0.id && Effect(h, c.(tree := t), e, fetch, b, index)
    ensures Effect(h, s0.(tree := t, index := c.index), e, fetch, b, index)
  {
    hide Applied, WithParents, MarkerOk, ComponentsOk, ValidEntry, Fits, Fingerprint;
    var x, y := c.(tree := t), s0.(tree := t, index := c.index);
    if Undertaken(h, x, e) {
      if cur :| Decision(h, x, e, cur) {
        assert Decision(h, y, e, cur);
      } else {
        var d :| DirDecision(x, e, d);
        assert DirDecision(y, e, d);
      }
    }
  }

  /** Killing Apply of an entry any number of times, each after any number of events, with any replies each
      time, and then applying it once more: either that ends as if none of the killed attempts had ever
      been made; or one of them had got as far as its rename, and then the last one fetches nothing, succeeds,
      and completes what that one would have done. Only temporary files may remain. */
  lemma RetryAfterKills(h: Hasher, s0: Folder, e: Entry, tries: seq<Attempt>, later: Replies)
    requires WellFormed(s0.tree) && s0.phase.Idle? && NewNames(h, s0, e, tries)
    ensures var c := AfterAttempts(h, s0, e, tries);
            var o := TempNames(e, tries);
            var r := Applied(h, s0.id, c.tree, c.index, e, later);
            var u := Applied(h, s0.id, s0.tree, s0.index, e, later);
            || (r.result == u.result && r.index == u.index && r.tree - o == u.tree - o)
            || exists i :: 0 <= i < |tries| && Completes(h, s0, e, tries[i], r.tree - o, r.index, r.result)
  {
    hide Applied, Standing, WellFormed, ValidEntry, Apart, TempNames, AfterAttempts, NewNames;
    var c := AfterAttempts(h, s0, e, tries);
    var o := TempNames(e, tries);
    if ValidEntry(e) {
      AttemptsStand(h, s0, e, tries);
      LeftoversDoNotMatter(h, s0.id, c.tree, c.index, e, later, o);
      StandingApplies(h, s0, e, tries, c.tree - o, c.index, later);
      var r := Applied(h, s0.id, c.tree, c.index, e, later);
      assert r.tree - o - o == r.tree - o;
    } else {
      InvalidNeverStarts(h, s0, e, tries);
    }
  }

  /** What attempt a would have done on its own, completed without a fetch. */
  ghost predicate Completes(h: Hasher, s0: Folder, e: Entry, a: Attempt, b: Tree, index: Index, r: Result<Stats, Error>) {
    var u := Applied(h, s0.id, s0.tree, s0.index, e, a.fetch);
    u.result.Ok? && b == u.tree && index == u.index && r.Ok? && r.value.received == 0
  }

  lemma StandingApplies(h: Hasher, s0: Folder, e: Entry, tries: seq<Attempt>, b: Tree, index: Index, later: Replies)
    requires WellFormed(s0.tree) && Standing(h, s0, e, tries, b, index)
    ensures var r := Applied(h, s0.id, b, index, e, later);
            var u := Applied(h, s0.id, s0.tree, s0.index, e, later);
            r == u || exists i :: 0 <= i < |tries| && Completes(h, s0, e, tries[i], r.tree, r.index, r.result)
  {
    hide Applied, WithParents, WellFormed, Undertaken;
    if i :| 0 <= i < |tries| && Won(h, s0, e, tries[i], b, index) {
      AfterWin(h, s0, e, tries[i], b, index, later);
      var r := Applied(h, s0.id, b, index, e, later);
      assert Completes(h, s0, e, tries[i], r.tree, r.index, r.result);
    } else if b != s0.tree {
      ParentsDoNotMatter(h, s0, e, later);
    }
  }

  /** An entry that validation rejects never changes anything. */
  lemma {:induction false} InvalidNeverStarts(h: Hasher, s0: Folder, e: Entry, tries: seq<Attempt>)
    requires s0.phase.Idle? && !ValidEntry(e)
    ensures var c := AfterAttempts(h, s0, e, tries); c.tree == s0.tree && c.index == s0.index && c.phase.Idle?
  {
    hide ValidEntry, Undisturbed;
    if tries != [] {
      var init := tries[..|tries| - 1];
      var a := tries[|tries| - 1];
      InvalidNeverStarts(h, s0, e, init);
      StaysIdle(h, AfterAttempts(h, s0, e, init), e, a.fetch, a.nonce, a.steps);
    }
  }

  lemma {:induction false} StaysIdle(h: Hasher, s: Folder, e: Entry, fetch: Replies, nonce: string, k: nat)
    requires s.phase.Idle? && !ValidEntry(e)
    ensures var c := Undisturbed(h, s, e, fetch, nonce, k); c.tree == s.tree && c.index == s.index && c.phase.Idle?
  {
    hide ValidEntry;
    if k > 0 {
      StaysIdle(h, s, e, fetch, nonce, k - 1);
      IdleStays(h, Undisturbed(h, s, e, fetch, nonce, k - 1), fetch, nonce);
    }
  }
}
