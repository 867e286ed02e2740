/**
 * `upload_with_versioning`: for each local archive, in list order, decide
 * whether to upload it (skip when the newest remote version has the same
 * size), upload it under the basename followed by a dot and the timestamp, then delete the oldest
 * versions until at most three names starting with the basename remain.
 *
 * The specification functions (`ShouldUpload`, `AfterUpload`, `Surplus`,
 * `Expired`, `Prune`, `SyncOne`, `SyncOps`, `SyncAll`, `RunOps`) describe one
 * iteration and a whole run on the remote map; the methods `SyncArchive`,
 * `Retain`, `DeleteSurplus` and `UploadWithVersioning` are the loops over the
 * FTP calls, proved equal to them.
 */
module Versioning {
  import opened Strings
  import opened Timestamps
  import opened Paths
  import opened NameOrder
  import opened Remote

  /** Versions kept per archive basename by the retention loop. */
  const Keep: nat := 3

  /** A local archive: its path and its size in bytes (`os.path.getsize`). */
  datatype Archive = Archive(path: string, size: nat)

  /** The remote name of an upload: the archive's basename, a dot, and the timestamp. */
  function UploadName(base: string, now: DateTime): string
  {
    base + "." + Strftime(now)
  }

  /** The listed names that start with `prefix`, in listing order. */
  function FilterPrefix(names: seq<string>, prefix: string): (r: seq<string>)
    ensures forall x :: x in r <==> x in names && StartsWith(x, prefix)
    ensures Distinct(names) ==> Distinct(r)
  {
    if names == [] then []
    else
      var rest := FilterPrefix(names[1..], prefix);
      assert forall x :: x in names[1..] ==> x in names;
      if StartsWith(names[0], prefix) then
        assert Distinct(names) ==> names[0] !in names[1..];
        [names[0]] + rest
      else rest
  }

  /** The remote names that belong to an archive: those starting with its basename. */
  function Matching(m: map<string, nat>, base: string): set<string>
  {
    set n | n in m && StartsWith(n, base)
  }

  ghost predicate IsGreatest(g: string, S: set<string>)
  {
    g in S && forall x :: x in S ==> LexLe(x, g)
  }

  /** Upload unless the lexicographically last matching name has the local size. */
  ghost predicate ShouldUpload(m: map<string, nat>, base: string, size: nat)
  {
    var s := SortedNames(Matching(m, base));
    s == [] || (assert s[|s| - 1] in Elems(s); m[s[|s| - 1]] != size)
  }

  /** The remote map after the decision and, if taken, the upload. */
  ghost function AfterUpload(m: map<string, nat>, base: string, size: nat, now: DateTime): map<string, nat>
  {
    if ShouldUpload(m, base, size) then m[UploadName(base, now) := size] else m
  }

  /** The names retention deletes, in the order it deletes them. */
  ghost function Expired(m: map<string, nat>, base: string): seq<string>
  {
    Surplus(SortedNames(Matching(m, base)))
  }

  /** All but the last `Keep` entries of a listing: what `pop(0)` removes while more than `Keep` remain. */
  function Surplus(s: seq<string>): seq<string>
  {
    if |s| > Keep then s[..|s| - Keep] else []
  }

  ghost function Prune(m: map<string, nat>, base: string): map<string, nat>
  {
    m - Elems(Expired(m, base))
  }

  /** One `DELE` per name, in order. */
  function Deletions(names: seq<string>): seq<Op>
  {
    if names == [] then [] else Deletions(names[..|names| - 1]) + [Dele(names[|names| - 1])]
  }

  /** The remote map after one archive's iteration. */
  ghost function SyncOne(m: map<string, nat>, base: string, size: nat, now: DateTime): map<string, nat>
  {
    Prune(AfterUpload(m, base, size, now), base)
  }

  /** The changes one archive's iteration makes, in order. */
  ghost function SyncOps(m: map<string, nat>, base: string, size: nat, now: DateTime): seq<Op>
  {
    (if ShouldUpload(m, base, size) then [Stor(UploadName(base, now), size)] else [])
      + Deletions(Expired(AfterUpload(m, base, size, now), base))
  }

  /** The remote map after a run over `archives`, the i-th iteration reading `clock[i]`. */
  ghost function SyncAll(m: map<string, nat>, archives: seq<Archive>, clock: seq<DateTime>): map<string, nat>
    requires |clock| == |archives|
  {
    if archives == [] then m
    else
      var n := |archives| - 1;
      SyncOne(SyncAll(m, archives[..n], clock[..n]), Basename(archives[n].path), archives[n].size, clock[n])
  }

  /** The changes a run over `archives` makes, in order. */
  ghost function RunOps(m: map<string, nat>, archives: seq<Archive>, clock: seq<DateTime>): seq<Op>
    requires |clock| == |archives|
  {
    if archives == [] then []
    else
      var n := |archives| - 1;
      RunOps(m, archives[..n], clock[..n])
        + SyncOps(SyncAll(m, archives[..n], clock[..n]), Basename(archives[n].path), archives[n].size, clock[n])
  }

  ghost predicate NoStore(ops: seq<Op>)
  {
    forall i :: 0 <= i < |ops| ==> ops[i].Dele?
  }

  /** The names of `S` that sort after `n`. */
  ghost function Newer(S: set<string>, n: string): set<string>
  {
    set x | x in S && LexLess(n, x)
  }

  /** The names of `S` with fewer than `Keep` greater names: the `Keep` newest. */
  ghost function Newest(S: set<string>): set<string>
  {
    set n | n in S && |Newer(S, n)| < Keep
  }

  // ---------------------------------------------------------------------
  // The loop over the FTP calls
  // ---------------------------------------------------------------------

  /** One iteration of the `for local_file in zip_files` loop. */
  method SyncArchive(remote: RemoteDir, archive: Archive, now: DateTime)
    modifies remote
    ensures remote.objects == SyncOne(old(remote.objects), Basename(archive.path), archive.size, now)
    ensures remote.log == old(remote.log) + SyncOps(old(remote.objects), Basename(archive.path), archive.size, now)
  {
    var base := Basename(archive.path);
    var remoteName := UploadName(base, now);
    ghost var m0 := remote.objects;

    // check existing remote files
    var listing := remote.Nlst();
    var matching := FilterPrefix(listing, base);
    matching := SortNames(matching);
    ListedMatching(m0, base, listing, matching);
    var upload := true;
    if |matching| > 0 {
      var last := matching[|matching| - 1];
      assert last in Elems(matching);
      var sizeRemote := remote.Size(last);
      if sizeRemote == archive.size {
        upload := false;
      }
    }

    assert upload == ShouldUpload(m0, base, archive.size);
    ghost var stored: seq<Op> := [];
    if upload {
      remote.Store(remoteName, archive.size);
      stored := [Stor(remoteName, archive.size)];
    }
    ghost var mid := remote.objects;
    ghost var midLog := remote.log;
    assert mid == AfterUpload(m0, base, archive.size, now);
    assert midLog == old(remote.log) + stored;
    Retain(remote, base);
    assert SyncOps(m0, base, archive.size, now) == stored + Deletions(Expired(mid, base));
    ConcatAssoc(old(remote.log), stored, Deletions(Expired(mid, base)));
  }

  /** The retention block: re-list, sort, and delete the smallest name while more than `Keep` remain. */
  method Retain(remote: RemoteDir, base: string)
    modifies remote
    ensures remote.objects == Prune(old(remote.objects), base)
    ensures remote.log == old(remote.log) + Deletions(Expired(old(remote.objects), base))
  {
    ghost var m0 := remote.objects;
    var listing := remote.Nlst();
    var matching := FilterPrefix(listing, base);
    matching := SortNames(matching);
    ListedMatching(m0, base, listing, matching);
    StrictlySortedDistinct(matching);
    DeleteSurplus(remote, matching);
  }

  /** The retention loop: delete the front of the sorted list while more than `Keep` names remain. */
  method DeleteSurplus(remote: RemoteDir, matching: seq<string>)
    requires Distinct(matching) && Elems(matching) <= remote.objects.Keys
    modifies remote
    ensures remote.objects == old(remote.objects) - Elems(Surplus(matching))
    ensures remote.log == old(remote.log) + Deletions(Surplus(matching))
  {
    var rest := matching;
    ghost var k := 0;
    while |rest| > Keep
      invariant 0 <= k <= |matching| && rest == matching[k..]
      invariant k <= |Surplus(matching)|
      invariant remote.objects == old(remote.objects) - Elems(matching[..k])
      invariant remote.log == old(remote.log) + Deletions(matching[..k])
      decreases |rest|
    {
      DeleteStep(old(remote.objects), matching, k);
      ghost var log := remote.log;
      remote.Delete(rest[0]);
      DeletionsStep(old(remote.log), log, matching, k);
      rest := rest[1..];
      k := k + 1;
    }
    assert matching[..k] == Surplus(matching);
  }

  /** `upload_with_versioning(zip_files)` after the connection is set up. */
  method UploadWithVersioning(remote: RemoteDir, archives: seq<Archive>, clock: seq<DateTime>)
    requires |clock| == |archives|
    modifies remote
    ensures remote.objects == SyncAll(old(remote.objects), archives, clock)
    ensures remote.log == old(remote.log) + RunOps(old(remote.objects), archives, clock)
  {
    ghost var m0 := remote.objects;
    ghost var log0 := remote.log;
    for i := 0 to |archives|
      invariant remote.objects == SyncAll(m0, archives[..i], clock[..i])
      invariant remote.log == log0 + RunOps(m0, archives[..i], clock[..i])
    {
      RunStep(m0, archives, clock, i);
      ConcatAssoc(log0, RunOps(m0, archives[..i], clock[..i]),
        SyncOps(remote.objects, Basename(archives[i].path), archives[i].size, clock[i]));
      SyncArchive(remote, archives[i], clock[i]);
    }
    assert archives[..|archives|] == archives && clock[..|clock|] == clock;
  }

  // ---------------------------------------------------------------------
  // Helper lemmas
  // ---------------------------------------------------------------------

  /** A run over one more archive is the shorter run followed by that archive's iteration. */
  lemma RunStep(m: map<string, nat>, archives: seq<Archive>, clock: seq<DateTime>, i: int)
    requires |clock| == |archives| && 0 <= i < |archives|
    ensures SyncAll(m, archives[..i + 1], clock[..i + 1]) ==
            SyncOne(SyncAll(m, archives[..i], clock[..i]), Basename(archives[i].path), archives[i].size, clock[i])
    ensures RunOps(m, archives[..i + 1], clock[..i + 1]) ==
            RunOps(m, archives[..i], clock[..i])
              + SyncOps(SyncAll(m, archives[..i], clock[..i]), Basename(archives[i].path), archives[i].size, clock[i])
  {
    assert archives[..i + 1][..i] == archives[..i] && clock[..i + 1][..i] == clock[..i];
  }

  /** One deletion of the retention loop: the next name is still present, and removing it extends the deleted prefix. */
  lemma DeleteStep(m: map<string, nat>, full: seq<string>, k: int)
    requires Distinct(full) && Elems(full) <= m.Keys && 0 <= k < |full|
    ensures full[k] in m - Elems(full[..k])
    ensures (m - Elems(full[..k])) - {full[k]} == m - Elems(full[..k + 1])
  {
    assert full[k] in Elems(full);
    assert full[k] !in Elems(full[..k]);
    assert full[..k + 1] == full[..k] + [full[k]];
    ElemsAppend(full[..k], full[k]);
  }

  lemma {:induction false} DeletionsOnly(names: seq<string>)
    ensures NoStore(Deletions(names))
    ensures |Deletions(names)| == |names|
  {
    if names != [] {
      DeletionsOnly(names[..|names| - 1]);
    }
  }

  /**
   * Regrouping of a log. Dafny knows this fact; stating it as a call keeps the
   * large terms of the two loop bodies from being rewritten inside their own
   * contexts, where asserting it directly makes them run out of resource.
   */
  lemma ConcatAssoc(a: seq<Op>, b: seq<Op>, c: seq<Op>)
    ensures (a + b) + c == a + (b + c)
  {
  }

  lemma DeletionsStep(log0: seq<Op>, log: seq<Op>, full: seq<string>, k: int)
    requires 0 <= k < |full| && log == log0 + Deletions(full[..k])
    ensures log + [Dele(full[k])] == log0 + Deletions(full[..k + 1])
  {
    assert full[..k + 1][..k] == full[..k];
  }

  /** Filtering a listing of `m` by prefix and sorting it gives the sorted matching names. */
  lemma ListedMatching(m: map<string, nat>, base: string, listing: seq<string>, sorted: seq<string>)
    requires Elems(listing) == m.Keys && Distinct(listing)
    requires Sorted(sorted) && multiset(sorted) == multiset(FilterPrefix(listing, base))
    requires Distinct(FilterPrefix(listing, base)) ==> StrictlySorted(sorted)
    ensures sorted == SortedNames(Matching(m, base))
  {
    var matching := FilterPrefix(listing, base);
    forall x ensures x in sorted <==> x in Matching(m, base) {
      assert x in sorted <==> x in multiset(sorted);
      assert x in matching <==> x in multiset(matching);
      assert x in listing <==> x in Elems(listing);
    }
    assert Elems(sorted) == Matching(m, base);
    SortedNamesOf(sorted, Matching(m, base));
  }

  /** The last sorted name is the greatest, and the greatest is unique. */
  lemma GreatestIsLast(S: set<string>)
    ensures forall g :: IsGreatest(g, S) ==> g == SortedNames(S)[|S| - 1]
    ensures S != {} ==> IsGreatest(SortedNames(S)[|S| - 1], S)
  {
    var s := SortedNames(S);
    if S != {} {
      var last := s[|s| - 1];
      assert last in Elems(s);
      forall x | x in S ensures LexLe(x, last) {
        assert x in Elems(s);
        var j :| 0 <= j < |s| && s[j] == x;
      }
      forall g | IsGreatest(g, S) ensures g == last {
        if g != last {
          LexLessAsymmetric(g, last);
        }
      }
    }
  }

  /** Removing names from the map removes them from every matching set. */
  lemma MatchingMinus(m: map<string, nat>, base: string, X: set<string>)
    ensures Matching(m - X, base) == Matching(m, base) - X
  {
  }

  /** Which sorted positions survive retention. */
  lemma PruneMatching(m: map<string, nat>, base: string)
    ensures |Expired(m, base)| == if |Matching(m, base)| > Keep then |Matching(m, base)| - Keep else 0
    ensures Expired(m, base) == SortedNames(Matching(m, base))[..|Expired(m, base)|]
    ensures Matching(Prune(m, base), base) == Elems(SortedNames(Matching(m, base))[|Expired(m, base)|..])
  {
    var s := SortedNames(Matching(m, base));
    var e := Expired(m, base);
    StrictlySortedDistinct(s);
    ElemsSplit(s, |e|);
    MatchingMinus(m, base, Elems(e));
  }

  /** In a strictly increasing list, the names greater than `s[i]` are those after it. */
  lemma NewerInSorted(s: seq<string>, i: int)
    requires StrictlySorted(s) && 0 <= i < |s|
    ensures Newer(Elems(s), s[i]) == Elems(s[i + 1..])
    ensures |Newer(Elems(s), s[i])| == |s| - i - 1
  {
    forall x ensures x in Newer(Elems(s), s[i]) <==> x in Elems(s[i + 1..]) {
      if x in Newer(Elems(s), s[i]) {
        var j :| 0 <= j < |s| && s[j] == x;
        if j < i {
          LexLessAsymmetric(s[j], s[i]);
        } else if j == i {
          LexLessIrreflexive(x);
        }
        assert s[i + 1..][j - i - 1] == x;
      }
      if x in Elems(s[i + 1..]) {
        var j :| 0 <= j < |s[i + 1..]| && s[i + 1..][j] == x;
        assert s[i + 1 + j] == x;
      }
    }
    StrictlySortedCard(s[i + 1..]);
  }

  /** The last `Keep` names of a strictly increasing list are its `Keep` newest. */
  lemma NewestOfSorted(s: seq<string>, c: int)
    requires StrictlySorted(s) && c == (if |s| > Keep then |s| - Keep else 0)
    ensures Newest(Elems(s)) == Elems(s[c..])
  {
    StrictlySortedDistinct(s);
    ElemsSplit(s, c);
    forall n | n in Elems(s) ensures n in Newest(Elems(s)) <==> n in Elems(s[c..]) {
      var i :| 0 <= i < |s| && s[i] == n;
      NewerInSorted(s, i);
      if i >= c {
        assert s[c..][i - c] == n;
      } else {
        assert s[..c][i] == n;
      }
    }
  }

  /** Every name before position `c` of a strictly increasing list is below every name from `c` on. */
  lemma SplitOrdered(s: seq<string>, c: int)
    requires StrictlySorted(s) && 0 <= c <= |s|
    ensures forall d, n :: d in s[..c] && n in s[c..] ==> LexLess(d, n)
  {
    forall d, n | d in s[..c] && n in s[c..] ensures LexLess(d, n) {
      var i :| 0 <= i < c && s[..c][i] == d;
      var j :| 0 <= j < |s| - c && s[c..][j] == n;
      assert s[i] == d && s[c + j] == n;
    }
  }

  // ---------------------------------------------------------------------
  // Properties of one iteration
  // ---------------------------------------------------------------------

  /**
   * The upload decision: always upload when no remote name starts with the
   * basename; otherwise upload exactly when the greatest matching name's size
   * differs from the local size.  An upload is one STOR under the upload name,
   * issued first; a skip issues none.
   */
  lemma UploadDecision(m: map<string, nat>, base: string, size: nat, now: DateTime)
    ensures Matching(m, base) == {} ==> ShouldUpload(m, base, size)
    ensures forall g :: IsGreatest(g, Matching(m, base)) ==>
              g in m && (ShouldUpload(m, base, size) <==> m[g] != size)
    ensures ShouldUpload(m, base, size) ==>
              var ops := SyncOps(m, base, size, now);
              |ops| > 0 && ops[0] == Stor(UploadName(base, now), size) && NoStore(ops[1..])
    ensures !ShouldUpload(m, base, size) ==> NoStore(SyncOps(m, base, size, now))
  {
    var S := Matching(m, base);
    GreatestIsLast(S);
    var ops := SyncOps(m, base, size, now);
    var dels := Deletions(Expired(AfterUpload(m, base, size, now), base));
    DeletionsOnly(Expired(AfterUpload(m, base, size, now), base));
    if ShouldUpload(m, base, size) {
      assert ops[1..] == dels;
    } else {
      assert ops == dels;
    }
  }

  /** Storing a name that starts with the basename adds exactly that name, and changes no other entry. */
  lemma StoreMatching(m: map<string, nat>, base: string, u: string, size: nat)
    requires StartsWith(u, base)
    ensures m[u := size].Keys == m.Keys + {u} && m[u := size][u] == size
    ensures Matching(m[u := size], base) == Matching(m, base) + {u}
    ensures forall n :: n in m && n != u ==> m[u := size][n] == m[n]
  {
  }

  /** The upload name starts with the basename. */
  lemma UploadNameMatches(base: string, now: DateTime)
    ensures StartsWith(UploadName(base, now), base)
  {
    StartsWithAppend(base, "." + Strftime(now));
    assert UploadName(base, now) == base + ("." + Strftime(now));
  }

  /**
   * The upload itself: it adds or replaces exactly the upload name, which
   * starts with the basename, and changes nothing else.
   */
  lemma UploadEffect(m: map<string, nat>, base: string, size: nat, now: DateTime)
    ensures var a := AfterUpload(m, base, size, now);
            if ShouldUpload(m, base, size) then
              a.Keys == m.Keys + {UploadName(base, now)} && a[UploadName(base, now)] == size &&
              Matching(a, base) == Matching(m, base) + {UploadName(base, now)} &&
              (forall n :: n in m && n != UploadName(base, now) ==> a[n] == m[n])
            else a == m
  {
    UploadNameMatches(base, now);
    if ShouldUpload(m, base, size) {
      StoreMatching(m, base, UploadName(base, now), size);
    }
  }

  /** With at most `Keep` matching names, retention deletes nothing. */
  lemma NoExpiry(m: map<string, nat>, base: string)
    requires |Matching(m, base)| <= Keep
    ensures Expired(m, base) == []
    ensures Prune(m, base) == m
  {
    assert Elems([]) == {};
  }

  /** When nothing matches, the iteration adds exactly one object: the upload. */
  lemma FirstUpload(m: map<string, nat>, base: string, size: nat, now: DateTime)
    requires Matching(m, base) == {}
    ensures UploadName(base, now) !in m
    ensures SyncOne(m, base, size, now) == m[UploadName(base, now) := size]
    ensures SyncOps(m, base, size, now) == [Stor(UploadName(base, now), size)]
  {
    var u := UploadName(base, now);
    UploadNameMatches(base, now);
    StoreMatching(m, base, u, size);
    assert ShouldUpload(m, base, size);
    var a := AfterUpload(m, base, size, now);
    assert a == m[u := size];
    assert |Matching(a, base)| == 1;
    NoExpiry(a, base);
  }

  /** Retention keeps `min(n, Keep)` versions, where `n` counts the names after the upload. */
  lemma RetentionCount(m: map<string, nat>, base: string)
    ensures |Matching(Prune(m, base), base)| ==
            if |Matching(m, base)| > Keep then Keep else |Matching(m, base)|
    ensures |Matching(Prune(m, base), base)| <= Keep
  {
    var s := SortedNames(Matching(m, base));
    var e := Expired(m, base);
    PruneMatching(m, base);
    StrictlySortedCard(s[|e|..]);
  }

  /**
   * Retention keeps exactly the names with fewer than `Keep` greater matching
   * names, deletes the rest in increasing order, and every deleted name is
   * older than every kept one.
   */
  lemma RetentionKeepsNewest(m: map<string, nat>, base: string)
    ensures Matching(Prune(m, base), base) == Newest(Matching(m, base))
    ensures StrictlySorted(Expired(m, base))
    ensures Elems(Expired(m, base)) <= Matching(m, base)
    ensures forall d, n :: d in Expired(m, base) && n in Matching(Prune(m, base), base) ==> LexLess(d, n)
  {
    var s := SortedNames(Matching(m, base));
    var c := |Expired(m, base)|;
    PruneMatching(m, base);
    NewestOfSorted(s, c);
    StrictlySortedDistinct(s);
    ElemsSplit(s, c);
    SplitOrdered(s, c);
    forall n | n in Matching(Prune(m, base), base) ensures n in s[c..] {
      assert n in Elems(s[c..]);
    }
  }

  /** Names that do not start with the basename are neither deleted nor changed by retention. */
  lemma PruneLeavesOthers(m: map<string, nat>, base: string)
    ensures Prune(m, base).Keys <= m.Keys
    ensures forall n :: n in Prune(m, base) ==> Prune(m, base)[n] == m[n]
    ensures forall n :: n in m && !StartsWith(n, base) ==> n in Prune(m, base)
  {
    RetentionKeepsNewest(m, base);
  }

  /**
   * One iteration touches only names that start with the archive's basename:
   * every other object keeps its presence and its size.
   */
  lemma SyncLeavesOthers(m: map<string, nat>, base: string, size: nat, now: DateTime, n: string)
    requires !StartsWith(n, base)
    ensures n in SyncOne(m, base, size, now) <==> n in m
    ensures n in m ==> SyncOne(m, base, size, now)[n] == m[n]
  {
    UploadEffect(m, base, size, now);
    var a := AfterUpload(m, base, size, now);
    StartsWithAppend(base, "." + Strftime(now));
    assert UploadName(base, now) == base + ("." + Strftime(now));
    PruneLeavesOthers(a, base);
  }

  /**
   * Upload names of one basename sort in the order of their timestamps, and
   * distinct timestamps give distinct names: "keep newest 3" keeps the three
   * latest uploads.
   */
  lemma UploadNamesChronological(base: string, t1: DateTime, t2: DateTime)
    ensures LexLess(UploadName(base, t1), UploadName(base, t2)) <==> Before(t1, t2)
    ensures UploadName(base, t1) == UploadName(base, t2) <==> t1 == t2
  {
    StrftimeOrder(t1, t2);
    LexLessCommonPrefix(base + ".", Strftime(t1), Strftime(t2));
    ConcatEq(base + ".", Strftime(t1), base + ".", Strftime(t2));
  }

  /** A set has at most one greatest name. */
  lemma GreatestUnique(g: string, h: string, S: set<string>)
    requires IsGreatest(g, S) && IsGreatest(h, S)
    ensures g == h
  {
    if g != h {
      LexLessAsymmetric(g, h);
    }
  }

  /**
   * After the decision and the upload of a name that sorts after every
   * matching name, the greatest matching name holds the local size.
   */
  lemma TopHasLocalSize(m: map<string, nat>, base: string, size: nat, now: DateTime, g: string)
    requires forall n :: n in Matching(m, base) ==> LexLess(n, UploadName(base, now))
    requires IsGreatest(g, Matching(AfterUpload(m, base, size, now), base))
    ensures g in AfterUpload(m, base, size, now) && AfterUpload(m, base, size, now)[g] == size
  {
    var u := UploadName(base, now);
    UploadDecision(m, base, size, now);
    UploadEffect(m, base, size, now);
    if ShouldUpload(m, base, size) {
      var S := Matching(AfterUpload(m, base, size, now), base);
      forall x | x in S ensures LexLe(x, u) {}
      GreatestUnique(g, u, S);
    }
  }

  /** The greatest matching name survives retention, with its size. */
  lemma PruneKeepsGreatest(m: map<string, nat>, base: string, g: string)
    requires IsGreatest(g, Matching(m, base))
    ensures g in Prune(m, base) && Prune(m, base)[g] == m[g]
    ensures IsGreatest(g, Matching(Prune(m, base), base))
  {
    var S := Matching(m, base);
    RetentionKeepsNewest(m, base);
    PruneLeavesOthers(m, base);
    assert Newer(S, g) == {} by {
      forall x | x in Newer(S, g) ensures false {
        LexLessAsymmetric(g, x);
      }
    }
    assert g in Newest(S);
  }

  /** An iteration whose greatest matching name already has the local size, with at most `Keep` versions, does nothing. */
  lemma SkipIsIdle(m: map<string, nat>, base: string, size: nat, now: DateTime, g: string)
    requires IsGreatest(g, Matching(m, base)) && m[g] == size
    requires |Matching(m, base)| <= Keep
    ensures SyncOne(m, base, size, now) == m
    ensures SyncOps(m, base, size, now) == []
  {
    UploadDecision(m, base, size, now);
    NoExpiry(m, base);
    assert Deletions([]) == [];
  }

  /**
   * Re-running an archive whose upload name sorts after every earlier
   * version, with the same local size, changes nothing the second time: the
   * newest version survives retention and has the local size.
   */
  lemma RerunIsNoOp(m: map<string, nat>, base: string, size: nat, t1: DateTime, t2: DateTime)
    requires forall n :: n in Matching(m, base) ==> LexLess(n, UploadName(base, t1))
    ensures SyncOne(SyncOne(m, base, size, t1), base, size, t2) == SyncOne(m, base, size, t1)
    ensures SyncOps(SyncOne(m, base, size, t1), base, size, t2) == []
  {
    var a := AfterUpload(m, base, size, t1);
    var S := Matching(a, base);
    UploadDecision(m, base, size, t1);
    UploadEffect(m, base, size, t1);
    assert S != {};
    GreatestIsLast(S);
    var g := SortedNames(S)[|S| - 1];
    TopHasLocalSize(m, base, size, t1, g);
    PruneKeepsGreatest(a, base, g);
    RetentionCount(a, base);
    SkipIsIdle(Prune(a, base), base, size, t2, g);
  }

  /** Adding a name above every name of `S` appends it to the sorted listing. */
  lemma SortedAppendGreatest(S: set<string>, u: string)
    requires forall n :: n in S ==> LexLess(n, u)
    ensures SortedNames(S + {u}) == SortedNames(S) + [u]
  {
    var s := SortedNames(S);
    forall i | 0 <= i < |s| ensures LexLess(s[i], u) {
      assert s[i] in Elems(s);
    }
    ElemsAppend(s, u);
    SortedNamesOf(s + [u], S + {u});
  }

  /** The first sorted name is the least. */
  lemma FirstIsLeast(S: set<string>)
    requires S != {}
    ensures SortedNames(S)[0] == Least(S)
  {
  }

  /** With `Keep` + 1 matching names, the newest above the rest, retention deletes exactly the least of the rest. */
  lemma ExpiresOldest(a: map<string, nat>, base: string, S: set<string>, u: string)
    requires Matching(a, base) == S + {u} && |S| == Keep
    requires forall n :: n in S ==> LexLess(n, u)
    ensures Expired(a, base) == [Least(S)]
    ensures Matching(Prune(a, base), base) == S - {Least(S)} + {u}
  {
    var oldest := Least(S);
    ExpiredOne(a, base, S, u);
    assert oldest != u by {
      LexLessIrreflexive(u);
    }
    assert Elems([oldest]) == {oldest};
    assert Prune(a, base) == a - {oldest};
    MatchingMinus(a, base, {oldest});
  }

  lemma ExpiredOne(a: map<string, nat>, base: string, S: set<string>, u: string)
    requires Matching(a, base) == S + {u} && |S| == Keep
    requires forall n :: n in S ==> LexLess(n, u)
    ensures Expired(a, base) == [Least(S)]
  {
    var s := SortedNames(S);
    SortedAppendGreatest(S, u);
    FirstIsLeast(S);
    var full := SortedNames(Matching(a, base));
    assert full == s + [u];
    assert full[..|full| - Keep] == [s[0]];
  }

  /**
   * The fourth upload of a changed archive when three versions exist, all
   * older than the new name and none of the local size: the new version is
   * stored and exactly the oldest one is deleted.
   */
  lemma FourthUploadDropsOldest(m: map<string, nat>, base: string, size: nat, now: DateTime)
    requires |Matching(m, base)| == Keep
    requires forall n :: n in Matching(m, base) ==> LexLess(n, UploadName(base, now)) && m[n] != size
    ensures var oldest := Least(Matching(m, base));
            Matching(SyncOne(m, base, size, now), base) == Matching(m, base) - {oldest} + {UploadName(base, now)} &&
            SyncOps(m, base, size, now) == [Stor(UploadName(base, now), size), Dele(oldest)]
  {
    var S := Matching(m, base);
    var u := UploadName(base, now);
    ChangedSizeUploads(m, base, size);
    var a := m[u := size];
    UploadNameMatches(base, now);
    StoreMatching(m, base, u, size);
    ExpiresOldest(a, base, S, u);
    UploadTaken(m, base, size, now);
    assert Deletions([Least(S)]) == [Dele(Least(S))];
  }

  /** An iteration that uploads: the store, then retention on the map with the new version. */
  lemma UploadTaken(m: map<string, nat>, base: string, size: nat, now: DateTime)
    requires ShouldUpload(m, base, size)
    ensures SyncOne(m, base, size, now) == Prune(m[UploadName(base, now) := size], base)
    ensures SyncOps(m, base, size, now) ==
            [Stor(UploadName(base, now), size)] + Deletions(Expired(m[UploadName(base, now) := size], base))
  {
  }

  /** An archive whose size differs from every matching remote version is uploaded. */
  lemma ChangedSizeUploads(m: map<string, nat>, base: string, size: nat)
    requires forall n :: n in Matching(m, base) ==> m[n] != size
    ensures ShouldUpload(m, base, size)
  {
    var s := SortedNames(Matching(m, base));
    if s != [] {
      assert s[|s| - 1] in Elems(s);
    }
  }

  // ---------------------------------------------------------------------
  // Properties of a whole run
  // ---------------------------------------------------------------------

  /**
   * A run touches only names that start with the basename of one of its
   * archives: every other object keeps its presence and its size.
   */
  lemma {:induction false} RunLeavesOthers(m: map<string, nat>, archives: seq<Archive>, clock: seq<DateTime>, n: string)
    requires |clock| == |archives|
    requires forall i :: 0 <= i < |archives| ==> !StartsWith(n, Basename(archives[i].path))
    ensures n in SyncAll(m, archives, clock) <==> n in m
    ensures n in m ==> SyncAll(m, archives, clock)[n] == m[n]
  {
    if archives != [] {
      var k := |archives| - 1;
      RunLeavesOthers(m, archives[..k], clock[..k], n);
      SyncLeavesOthers(SyncAll(m, archives[..k], clock[..k]), Basename(archives[k].path), archives[k].size, clock[k], n);
    }
  }
}
