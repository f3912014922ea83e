/**
 * The later stages of `ModManager::LoadMods` in primedev/mods/modmanager.cpp,
 * applied to the loaded list the directory loop leaves: ordering by load
 * priority, splitting each rpak's starpak reference list, assigning override
 * files to mods and building the modinfo list advertised to the master
 * server.
 */
module ModLoading {
  import opened Basics
  import opened ModManager

  /* ----- load-priority ordering ----- */

  function Priority(m: LoadedMod): int {
    m.mod.loadPriority
  }

  /** Lowest priority first. */
  predicate SortedByPriority(ms: seq<LoadedMod>) {
    forall a, b :: 0 <= a < b < |ms| ==> Priority(ms[a]) <= Priority(ms[b])
  }

  /** Every mod of `ms` has priority at least `p`. */
  predicate AtLeast(ms: seq<LoadedMod>, p: int) {
    forall a :: 0 <= a < |ms| ==> p <= Priority(ms[a])
  }

  /** Puts `m` after every mod of `ms` whose priority is not above its own. */
  function Insert(m: LoadedMod, ms: seq<LoadedMod>): seq<LoadedMod> {
    if |ms| == 0 then [m]
    else if Priority(m) < Priority(ms[0]) then [m] + ms
    else [ms[0]] + Insert(m, ms[1..])
  }

  /**
   * The `std::sort` call, as an insertion sort on the list in load order.
   * Mods of equal priority keep their load order here, which is one of the
   * orders the unstable library sort may produce.
   */
  function SortByPriority(ms: seq<LoadedMod>): seq<LoadedMod> {
    if |ms| == 0 then [] else Insert(ms[|ms| - 1], SortByPriority(ms[..|ms| - 1]))
  }

  /** Inserting adds exactly one copy of `m` and nothing else. */
  lemma {:induction false} InsertCounts(m: LoadedMod, ms: seq<LoadedMod>)
    ensures multiset(Insert(m, ms)) == multiset(ms) + multiset{m}
  {
    if |ms| > 0 && Priority(ms[0]) <= Priority(m) {
      InsertCounts(m, ms[1..]);
      assert ms == [ms[0]] + ms[1..];
    }
  }

  /** Inserting keeps a lower bound that every mod, `m` included, meets. */
  lemma {:induction false} InsertBounded(m: LoadedMod, ms: seq<LoadedMod>, p: int)
    requires AtLeast(ms, p) && p <= Priority(m)
    ensures AtLeast(Insert(m, ms), p)
  {
    if |ms| > 0 && Priority(ms[0]) <= Priority(m) {
      assert AtLeast(ms[1..], p) by {
        forall a | 0 <= a < |ms| - 1 ensures p <= Priority(ms[1..][a]) {
          assert ms[1..][a] == ms[a + 1];
        }
      }
      InsertBounded(m, ms[1..], p);
      var r := Insert(m, ms);
      forall a | 0 <= a < |r| ensures p <= Priority(r[a]) {
        if a > 0 {
          assert r[a] == Insert(m, ms[1..])[a - 1];
        }
      }
    }
  }

  /** A mod no higher than every mod of a sorted list may go in front of it. */
  lemma SortedCons(x: LoadedMod, rest: seq<LoadedMod>)
    requires SortedByPriority(rest) && AtLeast(rest, Priority(x))
    ensures SortedByPriority([x] + rest)
  {
    var r := [x] + rest;
    forall a, b | 0 <= a < b < |r| ensures Priority(r[a]) <= Priority(r[b]) {
      assert r[b] == rest[b - 1];
      if a > 0 {
        assert r[a] == rest[a - 1];
      }
    }
  }

  /** Inserting into a sorted list leaves it sorted. */
  lemma {:induction false} InsertSorted(m: LoadedMod, ms: seq<LoadedMod>)
    requires SortedByPriority(ms)
    ensures SortedByPriority(Insert(m, ms))
  {
    if |ms| > 0 {
      if Priority(ms[0]) <= Priority(m) {
        assert SortedByPriority(ms[1..]) && AtLeast(ms[1..], Priority(ms[0])) by {
          forall a | 0 <= a < |ms| - 1 ensures Priority(ms[0]) <= Priority(ms[1..][a]) {
            assert ms[1..][a] == ms[a + 1];
          }
        }
        InsertSorted(m, ms[1..]);
        InsertBounded(m, ms[1..], Priority(ms[0]));
        SortedCons(ms[0], Insert(m, ms[1..]));
      } else {
        assert AtLeast(ms, Priority(m)) by {
          forall a | 0 <= a < |ms| ensures Priority(m) <= Priority(ms[a]) {
            assert a == 0 || Priority(ms[0]) <= Priority(ms[a]);
          }
        }
        SortedCons(m, ms);
      }
    }
  }

  /** After the sort the mods run from lowest to highest priority, and no mod is lost, added or duplicated. */
  lemma {:induction false} SortByPriorityCorrect(ms: seq<LoadedMod>)
    ensures SortedByPriority(SortByPriority(ms))
    ensures multiset(SortByPriority(ms)) == multiset(ms)
  {
    if |ms| > 0 {
      var init := ms[..|ms| - 1];
      SortByPriorityCorrect(init);
      InsertSorted(ms[|ms| - 1], SortByPriority(init));
      InsertCounts(ms[|ms| - 1], SortByPriority(init));
      assert ms == init + [ms[|ms| - 1]];
    }
  }

  /* ----- starpak references ----- */

  /**
   * The split loop over the starpak reference bytes from the current
   * position on, with `cur` the path collected so far: a NUL ends the path
   * when it is not empty, and bytes after the last NUL are never emitted.
   */
  function SplitFrom(buf: seq<Byte>, cur: seq<Byte>): seq<seq<Byte>>
    decreases |buf|
  {
    if |buf| == 0 then []
    else if buf[0] != 0 then SplitFrom(buf[1..], cur + [buf[0]])
    else if |cur| > 0 then [cur] + SplitFrom(buf[1..], [])
    else SplitFrom(buf[1..], [])
  }

  /** The loop that splits the reference bytes of one rpak into starpak paths. */
  method SplitStarpakPaths(buf: seq<Byte>) returns (paths: seq<seq<Byte>>)
    ensures paths == SplitFrom(buf, [])
  {
    paths := [];
    var str: seq<Byte> := [];
    var i := 0;
    while i < |buf|
      invariant 0 <= i <= |buf|
      invariant paths + SplitFrom(buf[i..], str) == SplitFrom(buf, [])
    {
      assert buf[i..][1..] == buf[i + 1..];
      if buf[i] != 0 {
        str := str + [buf[i]];
      } else if |str| > 0 {
        paths := paths + [str];
        str := [];
      }
      i := i + 1;
    }
  }

  /** Holds no NUL byte. */
  predicate NulFree(p: seq<Byte>) {
    forall a :: 0 <= a < |p| ==> p[a] != 0
  }

  /** Every emitted path is non-empty and free of NULs. */
  lemma {:induction false} SplitPathsAreNames(buf: seq<Byte>, cur: seq<Byte>)
    requires NulFree(cur)
    ensures forall t :: 0 <= t < |SplitFrom(buf, cur)| ==> |SplitFrom(buf, cur)[t]| > 0 && NulFree(SplitFrom(buf, cur)[t])
    decreases |buf|
  {
    if |buf| > 0 {
      if buf[0] != 0 {
        SplitPathsAreNames(buf[1..], cur + [buf[0]]);
      } else {
        SplitPathsAreNames(buf[1..], []);
      }
    }
  }

  /** The reference list a tool would write: each path followed by a NUL. */
  function JoinStarpaks(paths: seq<seq<Byte>>): seq<Byte> {
    if |paths| == 0 then [] else paths[0] + [0] + JoinStarpaks(paths[1..])
  }

  /** Bytes without a NUL only extend the current path. */
  lemma {:induction false} SplitRun(p: seq<Byte>, rest: seq<Byte>, cur: seq<Byte>)
    requires NulFree(p)
    ensures SplitFrom(p + rest, cur) == SplitFrom(rest, cur + p)
    decreases |p|
  {
    if |p| > 0 {
      assert (p + rest)[1..] == p[1..] + rest;
      SplitRun(p[1..], rest, cur + [p[0]]);
      assert cur + [p[0]] + p[1..] == cur + p;
    } else {
      assert p + rest == rest && cur + p == cur;
    }
  }

  /** A run without a NUL at the end of the buffer is dropped. */
  lemma {:induction false} SplitDropsTail(tail: seq<Byte>, cur: seq<Byte>)
    requires NulFree(tail)
    ensures SplitFrom(tail, cur) == []
    decreases |tail|
  {
    if |tail| > 0 {
      SplitDropsTail(tail[1..], cur + [tail[0]]);
    }
  }

  /**
   * Splitting a written list gives back its paths, whatever NUL-free bytes
   * follow the last NUL.
   */
  lemma {:induction false} SplitJoinRoundTrip(paths: seq<seq<Byte>>, tail: seq<Byte>)
    requires forall t :: 0 <= t < |paths| ==> |paths[t]| > 0 && NulFree(paths[t])
    requires NulFree(tail)
    ensures SplitFrom(JoinStarpaks(paths) + tail, []) == paths
  {
    if |paths| == 0 {
      assert JoinStarpaks(paths) + tail == tail;
      SplitDropsTail(tail, []);
    } else {
      var p := paths[0];
      var rest := JoinStarpaks(paths[1..]) + tail;
      assert JoinStarpaks(paths) + tail == p + ([0] + rest);
      SplitRun(p, [0] + rest, []);
      assert ([] + p) == p;
      assert ([0] + rest)[1..] == rest;
      SplitJoinRoundTrip(paths[1..], tail);
      assert paths == [p] + paths[1..];
    }
  }

  /** A NUL with nothing collected before it emits nothing. */
  lemma SplitSkipsEmptyRun(rest: seq<Byte>)
    ensures SplitFrom([0] + rest, []) == SplitFrom(rest, [])
  {
    assert ([0] + rest)[1..] == rest;
  }

  /* ----- override files ----- */

  /** Some regular file of `listing` normalises to `p`. */
  predicate InListing(listing: seq<OverrideFile>, p: string) {
    exists i :: 0 <= i < |listing| && listing[i].regular && NormaliseModFilePath(listing[i].path) == p
  }

  /** The mod takes part in override registration and ships `p`. */
  predicate Provides(m: LoadedMod, p: string) {
    m.enabled && InListing(m.overrides, p)
  }

  /**
   * The walk over one mod's override directory: each regular file, by its
   * normalised path, goes to mod `owner` unless the path is already taken.
   */
  function Claim(files: map<string, nat>, listing: seq<OverrideFile>, owner: nat): map<string, nat> {
    if |listing| == 0 then files
    else
      var acc := Claim(files, listing[..|listing| - 1], owner);
      var f := listing[|listing| - 1];
      var p := NormaliseModFilePath(f.path);
      if f.regular && p !in acc then acc[p := owner] else acc
  }

  /** Taken paths keep their owner; a path becomes taken exactly when the listing ships it, and then by `owner`. */
  lemma {:induction false} ClaimRule(files: map<string, nat>, listing: seq<OverrideFile>, owner: nat, p: string)
    ensures p in Claim(files, listing, owner) <==> p in files || InListing(listing, p)
    ensures p in files ==> Claim(files, listing, owner)[p] == files[p]
    ensures p !in files && p in Claim(files, listing, owner) ==> Claim(files, listing, owner)[p] == owner
  {
    if |listing| > 0 {
      var init := listing[..|listing| - 1];
      ClaimRule(files, init, owner, p);
      var last := listing[|listing| - 1];
      if InListing(listing, p) && !(last.regular && NormaliseModFilePath(last.path) == p) {
        var i :| 0 <= i < |listing| && listing[i].regular && NormaliseModFilePath(listing[i].path) == p;
        assert i < |init| && init[i] == listing[i];
      }
      if InListing(init, p) {
        var i :| 0 <= i < |init| && init[i].regular && NormaliseModFilePath(init[i].path) == p;
        assert listing[i] == init[i];
      }
    }
  }

  /**
   * The reverse loop over the sorted list, from the last mod down to mod
   * `lo`: disabled mods are skipped, and each enabled mod claims its files.
   */
  function RegisterFrom(mods: seq<LoadedMod>, lo: nat): map<string, nat>
    requires lo <= |mods|
    decreases |mods| - lo
  {
    if lo == |mods| then map[]
    else
      var acc := RegisterFrom(mods, lo + 1);
      if mods[lo].enabled then Claim(acc, mods[lo].overrides, lo) else acc
  }

  /** `m_ModFiles` after the loop: each normalised path with the index of the mod that owns it. */
  function RegisterOverrides(mods: seq<LoadedMod>): map<string, nat> {
    RegisterFrom(mods, 0)
  }

  /** Mod `o` is the last mod of the list that provides `p`. */
  predicate LastProvider(mods: seq<LoadedMod>, o: int, p: string) {
    0 <= o < |mods| && Provides(mods[o], p) && forall i :: o < i < |mods| ==> !Provides(mods[i], p)
  }

  /** Some mod from `lo` on provides `p`. */
  predicate ProvidedFrom(mods: seq<LoadedMod>, lo: nat, p: string) {
    exists i :: lo <= i < |mods| && Provides(mods[i], p)
  }

  lemma {:induction false} RegisterFromOwners(mods: seq<LoadedMod>, lo: nat, p: string)
    requires lo <= |mods|
    ensures p in RegisterFrom(mods, lo) <==> ProvidedFrom(mods, lo, p)
    ensures p in RegisterFrom(mods, lo) ==> lo <= RegisterFrom(mods, lo)[p] && LastProvider(mods, RegisterFrom(mods, lo)[p], p)
    decreases |mods| - lo
  {
    if lo < |mods| {
      RegisterFromOwners(mods, lo + 1, p);
      var acc := RegisterFrom(mods, lo + 1);
      if mods[lo].enabled {
        ClaimRule(acc, mods[lo].overrides, lo, p);
      }
      if ProvidedFrom(mods, lo, p) && !ProvidedFrom(mods, lo + 1, p) {
        var i :| lo <= i < |mods| && Provides(mods[i], p);
        assert i == lo;
      }
      if ProvidedFrom(mods, lo + 1, p) {
        var i :| lo + 1 <= i < |mods| && Provides(mods[i], p);
        assert lo <= i;
      }
    }
  }

  /**
   * A path is registered exactly when some enabled mod ships it, and then it
   * belongs to the last such mod in priority order: later mods win, and
   * disabled mods own nothing.
   */
  lemma OverrideOwnership(mods: seq<LoadedMod>, p: string)
    ensures p in RegisterOverrides(mods) <==> exists i :: 0 <= i < |mods| && Provides(mods[i], p)
    ensures p in RegisterOverrides(mods) ==> LastProvider(mods, RegisterOverrides(mods)[p], p)
  {
    RegisterFromOwners(mods, 0, p);
  }

  /* ----- the modinfo list ----- */

  /** One element of the `Mods` array sent to the master server. */
  datatype ModInfo = ModInfo(name: string, version: string, requiredOnClient: bool, pdiff: string)

  /** Enabled, and either required on clients or carrying a pdiff. */
  predicate Advertised(m: LoadedMod) {
    m.enabled && (m.mod.requiredOnClient || |m.pdiff| > 0)
  }

  /**
   * The entry of one mod. Its strings go in through `rapidjson::StringRef`
   * of a `const char*`, so each ends at its first NUL, while `Advertised`
   * tests the whole pdiff's size.
   */
  function InfoOf(m: LoadedMod): ModInfo {
    ModInfo(CString(m.mod.name), CString(m.mod.version), m.mod.requiredOnClient, CString(m.pdiff))
  }

  /** An advertised entry carries the mod's fields, each as far as its first NUL. */
  lemma InfoOfFields(m: LoadedMod)
    ensures InfoOf(m).pdiff <= m.pdiff && '\0' !in InfoOf(m).pdiff
    ensures |InfoOf(m).pdiff| < |m.pdiff| ==> m.pdiff[|InfoOf(m).pdiff|] == '\0'
    ensures '\0' !in m.pdiff ==> InfoOf(m).pdiff == m.pdiff
    ensures '\0' !in m.mod.name && '\0' !in m.mod.version ==>
      InfoOf(m).name == m.mod.name && InfoOf(m).version == m.mod.version
    ensures InfoOf(m).requiredOnClient == m.mod.requiredOnClient
  {
    CStringKeepsExactlyNulFree(m.pdiff);
    CStringKeepsExactlyNulFree(m.mod.name);
    CStringKeepsExactlyNulFree(m.mod.version);
  }

  /** A pdiff starting with a NUL makes the mod advertised, with an empty pdiff. */
  lemma NulPdiffExample(mod: Mod, overrides: seq<OverrideFile>)
    requires !mod.requiredOnClient
    ensures var m := LoadedMod(mod, true, "\0x", overrides);
      Advertised(m) && InfoOf(m).pdiff == ""
  {
  }

  /** The modinfo loop over the sorted list. */
  function ModInfoList(mods: seq<LoadedMod>): seq<ModInfo> {
    if |mods| == 0 then []
    else ModInfoList(mods[..|mods| - 1]) + (if Advertised(mods[|mods| - 1]) then [InfoOf(mods[|mods| - 1])] else [])
  }

  /** Mod `j` is advertised and described by `info`. */
  predicate AdvertisedAs(mods: seq<LoadedMod>, j: int, info: ModInfo) {
    0 <= j < |mods| && Advertised(mods[j]) && InfoOf(mods[j]) == info
  }

  /** The list keeps the order of the mods: the list of a concatenation is the concatenation of the lists. */
  lemma {:induction false} ModInfoAppend(a: seq<LoadedMod>, b: seq<LoadedMod>)
    ensures ModInfoList(a + b) == ModInfoList(a) + ModInfoList(b)
    decreases |b|
  {
    if |b| > 0 {
      var b' := b[..|b| - 1];
      assert (a + b)[..|a + b| - 1] == a + b';
      ModInfoAppend(a, b');
    } else {
      assert a + b == a;
    }
  }

  /** An entry is listed exactly when some advertised mod carries it. */
  lemma {:induction false} ModInfoMembership(mods: seq<LoadedMod>, info: ModInfo)
    ensures info in ModInfoList(mods) <==> exists j :: AdvertisedAs(mods, j, info)
  {
    if |mods| > 0 {
      var init := mods[..|mods| - 1];
      var last := mods[|mods| - 1];
      ModInfoMembership(init, info);
      assert ModInfoList(mods) == ModInfoList(init) + (if Advertised(last) then [InfoOf(last)] else []);
      if exists j :: AdvertisedAs(init, j, info) {
        var j :| AdvertisedAs(init, j, info);
        assert mods[j] == init[j];
        assert AdvertisedAs(mods, j, info);
      }
      if Advertised(last) && InfoOf(last) == info {
        assert AdvertisedAs(mods, |mods| - 1, info);
      }
      if exists j :: AdvertisedAs(mods, j, info) {
        var j :| AdvertisedAs(mods, j, info);
        if j < |init| {
          assert mods[j] == init[j];
          assert AdvertisedAs(init, j, info);
        } else {
          assert Advertised(last) && InfoOf(last) == info;
        }
      }
    }
  }

  /** Mods that are disabled, or neither required on clients nor carrying a pdiff, add nothing. */
  lemma ModInfoSkips(mods: seq<LoadedMod>, m: LoadedMod)
    requires !Advertised(m)
    ensures ModInfoList(mods + [m]) == ModInfoList(mods)
  {
    assert (mods + [m])[..|mods|] == mods;
  }

  /* ----- the whole pass ----- */

  /** What `LoadMods` leaves behind that this model covers. */
  datatype LoadResult = LoadResult(mods: seq<LoadedMod>, constants: map<string, string>, files: map<string, nat>, modinfo: seq<ModInfo>)

  /** The directory loop, the sort, override registration and the modinfo list, in that order. */
  function LoadMods(cands: seq<Candidate>, config: Option<seq<(string, JsonValue)>>): LoadResult
    requires WellOrdered(cands)
  {
    var loading := LoadAll(cands, config);
    var mods := SortByPriority(loading.loaded);
    LoadResult(mods, loading.constants, RegisterOverrides(mods), ModInfoList(mods))
  }

  /**
   * The pass ends with the kept mods ordered by priority, every override
   * path owned by the last enabled mod that ships it, and every mod's
   * constants present in the global map with its own values.
   */
  lemma LoadModsCorrect(cands: seq<Candidate>, config: Option<seq<(string, JsonValue)>>, p: string, info: ModInfo)
    requires WellOrdered(cands)
    ensures var r := LoadMods(cands, config);
      && SortedByPriority(r.mods)
      && multiset(r.mods) == multiset(LoadAll(cands, config).loaded)
      && (p in r.files <==> exists i :: 0 <= i < |r.mods| && Provides(r.mods[i], p))
      && (p in r.files ==> LastProvider(r.mods, r.files[p], p))
      && (info in r.modinfo <==> exists j :: AdvertisedAs(r.mods, j, info))
      && Consistent(Loading(r.mods, r.constants))
  {
    var loading := LoadAll(cands, config);
    SortByPriorityCorrect(loading.loaded);
    OverrideOwnership(SortByPriority(loading.loaded), p);
    ModInfoMembership(SortByPriority(loading.loaded), info);
    LoadedConstantsAgree(cands, config);
    SortKeepsConsistent(loading, SortByPriority(loading.loaded));
  }

  /** Consistency is about each mod on its own, so any reordering keeps it. */
  lemma SortKeepsConsistent(state: Loading, mods: seq<LoadedMod>)
    requires Consistent(state)
    requires multiset(mods) == multiset(state.loaded)
    ensures Consistent(Loading(mods, state.constants))
  {
    forall j | 0 <= j < |mods|
      ensures Agrees(state.constants, mods[j].mod.dependencyConstants)
      ensures mods[j].mod.dependencyConstants.Keys <= state.constants.Keys
    {
      assert mods[j] in multiset(state.loaded);
      var i :| 0 <= i < |state.loaded| && state.loaded[i] == mods[j];
    }
  }
}
