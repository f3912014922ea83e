/**
 * Model of the pure bookkeeping rules of primedev/mods/modmanager.cpp: path
 * normalisation, reading a mod manifest, merging dependency constants, the
 * enabled flag, load-priority ordering, override-file ownership, the starpak
 * list split and the modinfo filter.
 *
 * JSON documents are values of `JsonValue`, with an object's members kept as
 * the ordered list rapidjson holds; directory listings and file contents are
 * inputs. Reading files, hashing paths and writing JSON are left to the
 * caller.
 */
module ModManager {
  import opened Basics

  /* ----- paths ----- */

  /** The character loop of `NormaliseModFilePath`: only `A`..`Z` change. */
  function LowerAscii(c: char): char {
    if 'A' <= c <= 'Z' then (c as int + 32) as char else c
  }

  /**
   * `NormaliseModFilePath` after `lexically_normal`: every ASCII capital
   * replaced by its small letter, in place.
   */
  function NormaliseModFilePath(path: string): (r: string)
    ensures |r| == |path|
    ensures forall i :: 0 <= i < |path| ==> r[i] == LowerAscii(path[i])
  {
    if |path| == 0 then [] else [LowerAscii(path[0])] + NormaliseModFilePath(path[1..])
  }

  /** What the loop leaves alone is unchanged; what it changes is a capital. */
  lemma NormaliseChangesOnlyCapitals(path: string)
    ensures forall i :: 0 <= i < |path| ==>
      (NormaliseModFilePath(path)[i] != path[i] <==> 'A' <= path[i] <= 'Z')
    ensures forall i :: 0 <= i < |path| ==> !('A' <= NormaliseModFilePath(path)[i] <= 'Z')
  {
  }

  /** Normalising twice is normalising once. */
  lemma NormaliseIdempotent(path: string)
    ensures NormaliseModFilePath(NormaliseModFilePath(path)) == NormaliseModFilePath(path)
  {
    var once := NormaliseModFilePath(path);
    assert forall i :: 0 <= i < |once| ==> LowerAscii(once[i]) == once[i];
  }

  /** Two paths normalise alike exactly when they differ only in ASCII case. */
  lemma NormaliseIdentifiesCase(a: string, b: string)
    ensures NormaliseModFilePath(a) == NormaliseModFilePath(b) <==>
      |a| == |b| && forall i :: 0 <= i < |a| ==> LowerAscii(a[i]) == LowerAscii(b[i])
  {
    var na, nb := NormaliseModFilePath(a), NormaliseModFilePath(b);
    if na == nb {
      forall i | 0 <= i < |a| ensures LowerAscii(a[i]) == LowerAscii(b[i]) {
        assert na[i] == nb[i];
      }
    } else if |a| == |b| {
      var i :| 0 <= i < |a| && na[i] != nb[i];
      assert LowerAscii(a[i]) != LowerAscii(b[i]);
    }
  }

  /* ----- JSON ----- */

  /** A JSON value as far as the rules read it; other kinds are `JOther`. */
  datatype JsonValue =
    | JString(s: string)
    | JBool(b: bool)
    | JInt(i: int)
    | JObject(members: seq<(string, JsonValue)>)
    | JOther

  /** `HasMember` / `operator[]`: the first member with that name. */
  function Lookup(members: seq<(string, JsonValue)>, key: string): (r: Option<JsonValue>)
    ensures r.None? <==> forall i :: 0 <= i < |members| ==> members[i].0 != key
  {
    if |members| == 0 then None
    else if members[0].0 == key then Some(members[0].1)
    else Lookup(members[1..], key)
  }

  /** The value `Lookup` finds is the one of the first member with the name. */
  lemma {:induction false} LookupFindsFirst(members: seq<(string, JsonValue)>, key: string, i: nat)
    requires i < |members| && members[i].0 == key
    requires forall j :: 0 <= j < i ==> members[j].0 != key
    ensures Lookup(members, key) == Some(members[i].1)
  {
    if i > 0 {
      LookupFindsFirst(members[1..], key, i - 1);
    }
  }

  /* ----- dependency constants ----- */

  datatype Merged = Merged(constants: map<string, string>, conflict: bool)

  /**
   * The merge rule shared by `ParseDependencies` and `LoadMods`: a new name
   * is inserted, a repeated name with the same value changes nothing, and
   * the first name whose value differs from the one recorded stops the merge.
   */
  function MergeConstants(acc: map<string, string>, pairs: seq<(string, string)>): (r: Merged)
    decreases |pairs|
  {
    if |pairs| == 0 then Merged(acc, false)
    else
      var k := pairs[0].0;
      if k in acc && acc[k] != pairs[0].1 then Merged(acc, true)
      else MergeConstants(if k in acc then acc else acc[k := pairs[0].1], pairs[1..])
  }

  /** Recorded constants are never overwritten or removed. */
  lemma {:induction false} MergeKeeps(acc: map<string, string>, pairs: seq<(string, string)>)
    ensures forall k :: k in acc ==> k in MergeConstants(acc, pairs).constants
    ensures forall k :: k in acc ==> MergeConstants(acc, pairs).constants[k] == acc[k]
    decreases |pairs|
  {
    if |pairs| > 0 {
      var k := pairs[0].0;
      if !(k in acc && acc[k] != pairs[0].1) {
        MergeKeeps(if k in acc then acc else acc[k := pairs[0].1], pairs[1..]);
      }
    }
  }

  /** Everything the merge adds comes from one of the pairs. */
  lemma {:induction false} MergeAddsOnlyPairs(acc: map<string, string>, pairs: seq<(string, string)>)
    ensures forall k :: k in MergeConstants(acc, pairs).constants && k !in acc ==>
      exists i :: 0 <= i < |pairs| && pairs[i] == (k, MergeConstants(acc, pairs).constants[k])
    decreases |pairs|
  {
    if |pairs| > 0 {
      var k := pairs[0].0;
      if !(k in acc && acc[k] != pairs[0].1) {
        var next := if k in acc then acc else acc[k := pairs[0].1];
        MergeAddsOnlyPairs(next, pairs[1..]);
        MergeKeeps(next, pairs[1..]);
        var r := MergeConstants(acc, pairs);
        assert r == MergeConstants(next, pairs[1..]);
        forall k' | k' in r.constants && k' !in acc
          ensures exists i :: 0 <= i < |pairs| && pairs[i] == (k', r.constants[k'])
        {
          if k' == k {
            assert r.constants[k'] == next[k'];
          } else {
            assert k' !in next;
            var i :| 0 <= i < |pairs[1..]| && pairs[1..][i] == (k', r.constants[k']);
            assert pairs[i + 1] == (k', r.constants[k']);
          }
        }
      }
    }
  }

  predicate DistinctNames(pairs: seq<(string, string)>) {
    forall i, j :: 0 <= i < j < |pairs| ==> pairs[i].0 != pairs[j].0
  }

  /** Whether one of the pairs disagrees with a recorded constant. */
  predicate Clashes(acc: map<string, string>, pairs: seq<(string, string)>) {
    exists i :: 0 <= i < |pairs| && pairs[i].0 in acc && acc[pairs[i].0] != pairs[i].1
  }

  /**
   * With distinct names the pairs cannot clash among themselves: the merge
   * reports a conflict exactly when a pair disagrees with what was recorded
   * before it started, and without one it adds every pair not yet recorded.
   */
  lemma {:induction false} MergeDistinct(acc: map<string, string>, pairs: seq<(string, string)>)
    requires DistinctNames(pairs)
    ensures MergeConstants(acc, pairs).conflict <==> Clashes(acc, pairs)
    ensures !Clashes(acc, pairs) ==>
      forall k :: k in MergeConstants(acc, pairs).constants <==>
        k in acc || exists i :: 0 <= i < |pairs| && pairs[i].0 == k
    ensures !Clashes(acc, pairs) ==>
      forall i :: 0 <= i < |pairs| ==> MergeConstants(acc, pairs).constants[pairs[i].0] == pairs[i].1
    decreases |pairs|
  {
    if |pairs| > 0 {
      var k := pairs[0].0;
      var next := if k in acc then acc else acc[k := pairs[0].1];
      assert DistinctNames(pairs[1..]);
      if k in acc && acc[k] != pairs[0].1 {
      } else {
        MergeDistinct(next, pairs[1..]);
        MergeKeeps(next, pairs[1..]);
        assert Clashes(acc, pairs) <==> Clashes(next, pairs[1..]) by {
          ClashesStep(acc, pairs);
        }
        if !Clashes(acc, pairs) {
          var r := MergeConstants(acc, pairs);
          forall k' ensures k' in r.constants <==> k' in acc || exists i :: 0 <= i < |pairs| && pairs[i].0 == k' {
            if exists i :: 0 <= i < |pairs| && pairs[i].0 == k' {
              var i :| 0 <= i < |pairs| && pairs[i].0 == k';
              if i > 0 {
                assert pairs[1..][i - 1].0 == k';
              }
            }
            if exists i :: 0 <= i < |pairs[1..]| && pairs[1..][i].0 == k' {
              var i :| 0 <= i < |pairs[1..]| && pairs[1..][i].0 == k';
              assert pairs[i + 1].0 == k';
            }
          }
          forall i | 0 <= i < |pairs| ensures r.constants[pairs[i].0] == pairs[i].1 {
            if i > 0 {
              assert pairs[1..][i - 1] == pairs[i];
            }
          }
        }
      }
    }
  }

  /** The first pair is the only one that can clash with its own insertion. */
  lemma ClashesStep(acc: map<string, string>, pairs: seq<(string, string)>)
    requires |pairs| > 0 && DistinctNames(pairs)
    requires !(pairs[0].0 in acc && acc[pairs[0].0] != pairs[0].1)
    ensures var next := if pairs[0].0 in acc then acc else acc[pairs[0].0 := pairs[0].1];
      Clashes(acc, pairs) <==> Clashes(next, pairs[1..])
  {
    var next := if pairs[0].0 in acc then acc else acc[pairs[0].0 := pairs[0].1];
    if Clashes(acc, pairs) {
      var i :| 0 <= i < |pairs| && pairs[i].0 in acc && acc[pairs[i].0] != pairs[i].1;
      assert pairs[1..][i - 1] == pairs[i];
    }
    if Clashes(next, pairs[1..]) {
      var i :| 0 <= i < |pairs[1..]| && pairs[1..][i].0 in next && next[pairs[1..][i].0] != pairs[1..][i].1;
      assert pairs[i + 1] == pairs[1..][i];
    }
  }

  /* ----- the manifest ----- */

  /** The fields `Mod::Mod` reads from `mod.json`. */
  datatype Mod = Mod(
    name: string,
    description: string,
    version: string,
    downloadLink: string,
    requiredOnClient: bool,
    loadPriority: int,
    dependencyConstants: map<string, string>)

  /** What rapidjson made of `mod.json`. */
  datatype Document = ParseError | Parsed(root: JsonValue)

  /** `m_bWasReadSuccessfully` after the constructor, with the mod when it is set. */
  datatype ModRead = Failed | Read(mod: Mod)

  /** The range of `GetInt` (`IsInt`): a 32-bit signed integer. */
  predicate IsInt32(i: int) {
    -0x8000_0000 <= i < 0x8000_0000
  }

  /**
   * A JSON string taken through `GetString()`, a `const char*`: stored in a
   * `std::string` or compared as one, it ends at its first NUL.
   */
  function CString(s: string): (r: string)
    ensures r <= s && '\0' !in r
    ensures |r| < |s| ==> s[|r|] == '\0'
  {
    if |s| == 0 || s[0] == '\0' then [] else [s[0]] + CString(s[1..])
  }

  /** A string survives the `const char*` copy exactly when it holds no NUL. */
  lemma CStringKeepsExactlyNulFree(s: string)
    ensures CString(s) == s <==> '\0' !in s
  {
  }

  lemma EmbeddedNulExample()
    ensures CString("a\0b") == "a"
    ensures CString("\0b") == ""
  {
    assert CString("\0b") == "";
    assert CString("b") == "b" by { assert CString("b"[1..]) == ""; }
    assert CString("\0b") == "" && "a\0b"[1..] == "\0b";
  }

  /** An optional string member: the default when absent, `None` when not a string. */
  function StringMember(members: seq<(string, JsonValue)>, key: string, default: string): Option<string> {
    match Lookup(members, key)
    case None => Some(default)
    case Some(JString(s)) => Some(CString(s))
    case Some(_) => None
  }

  function BoolMember(members: seq<(string, JsonValue)>, key: string, default: bool): Option<bool> {
    match Lookup(members, key)
    case None => Some(default)
    case Some(JBool(b)) => Some(b)
    case Some(_) => None
  }

  function IntMember(members: seq<(string, JsonValue)>, key: string, default: int): Option<int> {
    match Lookup(members, key)
    case None => Some(default)
    case Some(JInt(i)) => if IsInt32(i) then Some(i) else None
    case Some(_) => None
  }

  /**
   * The members of `Dependencies` whose values are strings, in order, as the
   * `const char*` name and value that are looked up, compared and stored.
   */
  function StringPairs(members: seq<(string, JsonValue)>): (pairs: seq<(string, string)>)
    ensures |pairs| <= |members|
  {
    if |members| == 0 then []
    else
      var rest := StringPairs(members[1..]);
      match members[0].1
      case JString(v) => [(CString(members[0].0), CString(v))] + rest
      case _ => rest
  }

  /**
   * `ParseDependencies`: nothing unless `Dependencies` is an object; then
   * its string members merged into an empty map, stopping at the first
   * conflicting value. A conflict here does not fail the mod.
   */
  function ParseDependencies(members: seq<(string, JsonValue)>): map<string, string> {
    match Lookup(members, "Dependencies")
    case Some(JObject(deps)) => MergeConstants(map[], StringPairs(deps)).constants
    case _ => map[]
  }

  /**
   * `Mod::Mod`: a parse error, a root that is not an object, a missing
   * `Name` or a blacklisted name (unless `-nomodblacklist` is given) fails
   * the mod; the other fields take their defaults when absent. A member of
   * the wrong type also fails it.
   */
  function ParseManifest(doc: Document, blacklist: set<string>, noBlacklist: bool): (r: ModRead)
    ensures r.Read? ==> doc.Parsed? && doc.root.JObject?
    ensures r.Read? ==> exists raw :: Lookup(doc.root.members, "Name") == Some(JString(raw)) && r.mod.name == CString(raw)
    ensures r.Read? ==> noBlacklist || r.mod.name !in blacklist
    ensures r.Read? ==> IsInt32(r.mod.loadPriority)
    ensures r.Read? ==> '\0' !in r.mod.name && '\0' !in r.mod.description && '\0' !in r.mod.version && '\0' !in r.mod.downloadLink
  {
    if doc.ParseError? || !doc.root.JObject? then Failed
    else
      var members := doc.root.members;
      match Lookup(members, "Name")
      case Some(JString(raw)) =>
        var name := CString(raw);
        if !noBlacklist && name in blacklist then Failed
        else
          var description := StringMember(members, "Description", "");
          var version := StringMember(members, "Version", "0.0.0");
          var link := StringMember(members, "DownloadLink", "");
          var required := BoolMember(members, "RequiredOnClient", false);
          var priority := IntMember(members, "LoadPriority", 0);
          if description.None? || version.None? || link.None? || required.None? || priority.None? then Failed
          else Read(Mod(name, description.value, version.value, link.value, required.value, priority.value,
                        ParseDependencies(members)))
      case _ => Failed
  }

  /** A manifest holding only a name reads with every default. */
  lemma ManifestDefaults(name: string, blacklist: set<string>, noBlacklist: bool)
    requires noBlacklist || CString(name) !in blacklist
    ensures ParseManifest(Parsed(JObject([("Name", JString(name))])), blacklist, noBlacklist)
      == Read(Mod(CString(name), "", "0.0.0", "", false, 0, map[]))
  {
  }

  /** Without a name, or with a blacklisted one, the mod is not read. */
  lemma ManifestNeedsName(members: seq<(string, JsonValue)>, blacklist: set<string>, noBlacklist: bool)
    ensures Lookup(members, "Name").None? ==> ParseManifest(Parsed(JObject(members)), blacklist, noBlacklist) == Failed
    ensures (Lookup(members, "Name").Some? && Lookup(members, "Name").value.JString?
             && CString(Lookup(members, "Name").value.s) in blacklist && !noBlacklist) ==>
      ParseManifest(Parsed(JObject(members)), blacklist, noBlacklist) == Failed
  {
  }

  /** An optional member that is absent or a string. */
  predicate FitsString(v: Option<JsonValue>) {
    v.None? || v.value.JString?
  }

  predicate FitsBool(v: Option<JsonValue>) {
    v.None? || v.value.JBool?
  }

  predicate FitsInt32(v: Option<JsonValue>) {
    v.None? || (v.value.JInt? && IsInt32(v.value.i))
  }

  /**
   * An object manifest is read exactly when `Name` is a string that is not
   * blacklisted (or the blacklist is off) and each optional member is
   * absent or of the type its getter expects.
   */
  lemma ManifestReads(members: seq<(string, JsonValue)>, blacklist: set<string>, noBlacklist: bool)
    ensures ParseManifest(Parsed(JObject(members)), blacklist, noBlacklist).Read? <==>
      && Lookup(members, "Name").Some? && Lookup(members, "Name").value.JString?
      && (noBlacklist || CString(Lookup(members, "Name").value.s) !in blacklist)
      && FitsString(Lookup(members, "Description"))
      && FitsString(Lookup(members, "Version"))
      && FitsString(Lookup(members, "DownloadLink"))
      && FitsBool(Lookup(members, "RequiredOnClient"))
      && FitsInt32(Lookup(members, "LoadPriority"))
  {
  }

  /**
   * Each field of a read manifest is its member's value (a string up to its
   * first NUL) when the member is present, and its default ("", "0.0.0", "", false, 0) when it is absent;
   * without a `Dependencies` object the mod has no constants.
   */
  lemma ManifestFields(members: seq<(string, JsonValue)>, blacklist: set<string>, noBlacklist: bool)
    requires ParseManifest(Parsed(JObject(members)), blacklist, noBlacklist).Read?
    ensures var m := ParseManifest(Parsed(JObject(members)), blacklist, noBlacklist).mod;
      && (Lookup(members, "Description").None? ==> m.description == "")
      && (Lookup(members, "Description").Some? ==> Lookup(members, "Description").value.JString? && m.description == CString(Lookup(members, "Description").value.s))
      && (Lookup(members, "Version").None? ==> m.version == "0.0.0")
      && (Lookup(members, "Version").Some? ==> Lookup(members, "Version").value.JString? && m.version == CString(Lookup(members, "Version").value.s))
      && (Lookup(members, "DownloadLink").None? ==> m.downloadLink == "")
      && (Lookup(members, "DownloadLink").Some? ==> Lookup(members, "DownloadLink").value.JString? && m.downloadLink == CString(Lookup(members, "DownloadLink").value.s))
      && (Lookup(members, "RequiredOnClient").None? ==> !m.requiredOnClient)
      && (Lookup(members, "RequiredOnClient").Some? ==> Lookup(members, "RequiredOnClient") == Some(JBool(m.requiredOnClient)))
      && (Lookup(members, "LoadPriority").None? ==> m.loadPriority == 0)
      && (Lookup(members, "LoadPriority").Some? ==> Lookup(members, "LoadPriority") == Some(JInt(m.loadPriority)))
      && (!(Lookup(members, "Dependencies").Some? && Lookup(members, "Dependencies").value.JObject?) ==> m.dependencyConstants == map[])
  {
  }

  /** A name with a NUL is blacklist-tested, and kept, as far as the NUL. */
  lemma NulCutsNameExample()
    ensures ParseManifest(Parsed(JObject([("Name", JString("a\0b"))])), {"a"}, false) == Failed
    ensures ParseManifest(Parsed(JObject([("Name", JString("a\0b"))])), {}, false)
      == Read(Mod("a", "", "0.0.0", "", false, 0, map[]))
  {
    EmbeddedNulExample();
    ManifestDefaults("a\0b", {}, false);
  }

  /**
   * A constant value with a NUL is stored as far as the NUL, so it agrees
   * with a recorded value equal to that prefix.
   */
  lemma NulCutsConstantExample()
    ensures ParseDependencies([("Dependencies", JObject([("X", JString("v\0w"))]))]) == map["X" := "v"]
    ensures MergeConstants(map["X" := "v"], [("X", "v")]) == Merged(map["X" := "v"], false)
  {
    assert CString("X") == "X" by { CStringKeepsExactlyNulFree("X"); }
    assert CString("v\0w") == "v" by {
      assert CString("\0w") == "";
      assert "v\0w"[1..] == "\0w";
    }
    assert StringPairs([("X", JString("v\0w"))]) == [("X", "v")];
  }

  /** Dependency constants written as JSON string members. */
  function JsonPairs(deps: seq<(string, string)>): (members: seq<(string, JsonValue)>)
    ensures |members| == |deps|
  {
    if |deps| == 0 then [] else [(deps[0].0, JString(deps[0].1))] + JsonPairs(deps[1..])
  }

  /** Each name and value of `deps` as far as its first NUL. */
  function CPairs(deps: seq<(string, string)>): (r: seq<(string, string)>)
    ensures |r| == |deps|
    ensures forall i :: 0 <= i < |deps| ==> r[i] == (CString(deps[i].0), CString(deps[i].1))
  {
    if |deps| == 0 then [] else [(CString(deps[0].0), CString(deps[0].1))] + CPairs(deps[1..])
  }

  /** Pairs without a NUL survive the `const char*` copies unchanged. */
  lemma CPairsNulFree(deps: seq<(string, string)>)
    requires forall i :: 0 <= i < |deps| ==> '\0' !in deps[i].0 && '\0' !in deps[i].1
    ensures CPairs(deps) == deps
  {
    forall i | 0 <= i < |deps| ensures CPairs(deps)[i] == deps[i] {
      CStringKeepsExactlyNulFree(deps[i].0);
      CStringKeepsExactlyNulFree(deps[i].1);
    }
  }

  lemma {:induction false} StringPairsOfJsonPairs(deps: seq<(string, string)>)
    ensures StringPairs(JsonPairs(deps)) == CPairs(deps)
  {
    if |deps| > 0 {
      StringPairsOfJsonPairs(deps[1..]);
      assert JsonPairs(deps)[1..] == JsonPairs(deps[1..]);
    }
  }

  /** A `mod.json` holding every field of `m`, its constants listed as `deps`. */
  function WriteManifest(m: Mod, deps: seq<(string, string)>): JsonValue {
    JObject([
      ("Name", JString(m.name)),
      ("Description", JString(m.description)),
      ("Version", JString(m.version)),
      ("DownloadLink", JString(m.downloadLink)),
      ("RequiredOnClient", JBool(m.requiredOnClient)),
      ("LoadPriority", JInt(m.loadPriority)),
      ("Dependencies", JObject(JsonPairs(deps)))])
  }

  /** `deps` lists the constants of `m`, each name once. */
  ghost predicate Lists(deps: seq<(string, string)>, constants: map<string, string>) {
    && DistinctNames(deps)
    && (forall k :: k in constants <==> exists i :: 0 <= i < |deps| && deps[i].0 == k)
    && (forall i :: 0 <= i < |deps| ==> deps[i].0 in constants && constants[deps[i].0] == deps[i].1)
  }

  /**
   * Reading the constants back from their listing gives the constants, each
   * name and value as far as its first NUL.
   */
  lemma DependenciesRoundTrip(members: seq<(string, JsonValue)>, deps: seq<(string, string)>, constants: map<string, string>)
    requires Lookup(members, "Dependencies") == Some(JObject(JsonPairs(deps)))
    requires Lists(CPairs(deps), constants)
    ensures ParseDependencies(members) == constants
  {
    var pairs := CPairs(deps);
    ParsesAsPairs(members, deps);
    ListedFromEmpty(pairs, constants);
  }

  lemma ParsesAsPairs(members: seq<(string, JsonValue)>, deps: seq<(string, string)>)
    requires Lookup(members, "Dependencies") == Some(JObject(JsonPairs(deps)))
    ensures ParseDependencies(members) == MergeConstants(map[], CPairs(deps)).constants
  {
    StringPairsOfJsonPairs(deps);
  }

  lemma ListedFromEmpty(pairs: seq<(string, string)>, constants: map<string, string>)
    requires Lists(pairs, constants)
    ensures MergeConstants(map[], pairs).constants == constants
  {
    ListedUnion(map[], pairs, constants);
    assert constants + map[] == constants;
  }

  lemma WrittenName(m: Mod, deps: seq<(string, string)>)
    ensures Lookup(WriteManifest(m, deps).members, "Name") == Some(JString(m.name))
  {
  }

  lemma WrittenStrings(m: Mod, deps: seq<(string, string)>)
    ensures var members := WriteManifest(m, deps).members;
      && StringMember(members, "Description", "") == Some(CString(m.description))
      && StringMember(members, "Version", "0.0.0") == Some(CString(m.version))
      && StringMember(members, "DownloadLink", "") == Some(CString(m.downloadLink))
  {
    var members := WriteManifest(m, deps).members;
    LookupFindsFirst(members, "Description", 1);
    LookupFindsFirst(members, "Version", 2);
    LookupFindsFirst(members, "DownloadLink", 3);
  }

  lemma WrittenFlags(m: Mod, deps: seq<(string, string)>)
    requires IsInt32(m.loadPriority)
    ensures var members := WriteManifest(m, deps).members;
      && BoolMember(members, "RequiredOnClient", false) == Some(m.requiredOnClient)
      && IntMember(members, "LoadPriority", 0) == Some(m.loadPriority)
  {
    var members := WriteManifest(m, deps).members;
    LookupFindsFirst(members, "RequiredOnClient", 4);
    assert "DownloadLink"[0] != "LoadPriority"[0];
    LookupFindsFirst(members, "LoadPriority", 5);
  }

  lemma WrittenDependencies(m: Mod, deps: seq<(string, string)>)
    requires Lists(CPairs(deps), m.dependencyConstants)
    ensures ParseDependencies(WriteManifest(m, deps).members) == m.dependencyConstants
  {
    WrittenDependencyMember(m, deps);
    DependenciesRoundTrip(WriteManifest(m, deps).members, deps, m.dependencyConstants);
  }

  lemma WrittenDependencyMember(m: Mod, deps: seq<(string, string)>)
    ensures Lookup(WriteManifest(m, deps).members, "Dependencies") == Some(JObject(JsonPairs(deps)))
  {
    var members := WriteManifest(m, deps).members;
    assert "DownloadLink"[1] != "Dependencies"[1];
    assert "LoadPriority"[0] != "Dependencies"[0];
    LookupFindsFirst(members, "Dependencies", 6);
  }

  /** The strings of a mod as far as their first NUL. */
  function CStrings(m: Mod): Mod {
    m.(name := CString(m.name), description := CString(m.description),
       version := CString(m.version), downloadLink := CString(m.downloadLink))
  }

  predicate NulFree(m: Mod) {
    '\0' !in m.name && '\0' !in m.description && '\0' !in m.version && '\0' !in m.downloadLink
  }

  /**
   * Reading a written manifest gives back the mod, its strings cut at their
   * first NUL; a mod without NULs comes back unchanged.
   */
  lemma ManifestRoundTrip(m: Mod, deps: seq<(string, string)>, blacklist: set<string>, noBlacklist: bool)
    requires noBlacklist || CString(m.name) !in blacklist
    requires IsInt32(m.loadPriority)
    requires Lists(CPairs(deps), m.dependencyConstants)
    ensures ParseManifest(Parsed(WriteManifest(m, deps)), blacklist, noBlacklist) == Read(CStrings(m))
    ensures NulFree(m) ==> ParseManifest(Parsed(WriteManifest(m, deps)), blacklist, noBlacklist) == Read(m)
  {
    CStringKeepsExactlyNulFree(m.name);
    CStringKeepsExactlyNulFree(m.description);
    CStringKeepsExactlyNulFree(m.version);
    CStringKeepsExactlyNulFree(m.downloadLink);
    WrittenName(m, deps);
    WrittenStrings(m, deps);
    WrittenFlags(m, deps);
    WrittenDependencies(m, deps);
  }

  /* ----- merging into the global constants (LoadMods) ----- */

  /** `order` lists every name of `constants` once: an iteration order of the map. */
  ghost predicate Enumerates(order: seq<string>, constants: map<string, string>) {
    && (forall i, j :: 0 <= i < j < |order| ==> order[i] != order[j])
    && (forall k :: k in constants <==> k in order)
  }

  /** The constants of a mod in iteration order. */
  function OrderedPairs(constants: map<string, string>, order: seq<string>): (pairs: seq<(string, string)>)
    requires forall i :: 0 <= i < |order| ==> order[i] in constants
    ensures |pairs| == |order|
    ensures forall i :: 0 <= i < |order| ==> pairs[i] == (order[i], constants[order[i]])
  {
    if |order| == 0 then [] else [(order[0], constants[order[0]])] + OrderedPairs(constants, order[1..])
  }

  /**
   * Whichever order the mod's map is iterated in, the merge into the global
   * map conflicts exactly when some constant already has another value, and
   * without a conflict it adds the mod's constants under the ones recorded.
   */
  lemma MergeModConstants(global: map<string, string>, constants: map<string, string>, order: seq<string>)
    requires Enumerates(order, constants)
    ensures MergeConstants(global, OrderedPairs(constants, order)).conflict <==>
      exists k :: k in constants && k in global && global[k] != constants[k]
    ensures !MergeConstants(global, OrderedPairs(constants, order)).conflict ==>
      MergeConstants(global, OrderedPairs(constants, order)).constants == constants + global
  {
    var pairs := OrderedPairs(constants, order);
    OrderedPairsList(constants, order);
    MergeDistinct(global, pairs);
    ListedClash(global, pairs, constants);
    if !Clashes(global, pairs) {
      ListedUnion(global, pairs, constants);
    }
  }

  lemma OrderedPairsList(constants: map<string, string>, order: seq<string>)
    requires Enumerates(order, constants)
    ensures Lists(OrderedPairs(constants, order), constants)
  {
    OrderedPairsDistinct(constants, order);
    OrderedPairsCover(constants, order);
  }

  lemma OrderedPairsDistinct(constants: map<string, string>, order: seq<string>)
    requires Enumerates(order, constants)
    ensures DistinctNames(OrderedPairs(constants, order))
  {
  }

  lemma OrderedPairsCover(constants: map<string, string>, order: seq<string>)
    requires Enumerates(order, constants)
    ensures forall k :: k in constants <==> exists i :: 0 <= i < |OrderedPairs(constants, order)| && OrderedPairs(constants, order)[i].0 == k
  {
    var pairs := OrderedPairs(constants, order);
    forall k | k in constants ensures exists i :: 0 <= i < |pairs| && pairs[i].0 == k {
      var i :| 0 <= i < |order| && order[i] == k;
      assert pairs[i].0 == k;
    }
    forall k | exists i :: 0 <= i < |pairs| && pairs[i].0 == k ensures k in constants {
      var i :| 0 <= i < |pairs| && pairs[i].0 == k;
      assert order[i] == k && k in order;
    }
  }

  /** Listed constants clash with a map exactly when some name has two values. */
  lemma ListedClash(global: map<string, string>, pairs: seq<(string, string)>, constants: map<string, string>)
    requires Lists(pairs, constants)
    ensures Clashes(global, pairs) <==> exists k :: k in constants && k in global && global[k] != constants[k]
  {
    if exists k :: k in constants && k in global && global[k] != constants[k] {
      var k :| k in constants && k in global && global[k] != constants[k];
      var i :| 0 <= i < |pairs| && pairs[i].0 == k;
      assert pairs[i].0 in global && global[pairs[i].0] != pairs[i].1;
    }
  }

  /** Without a clash, merging listed constants adds them under the recorded ones. */
  lemma ListedUnion(global: map<string, string>, pairs: seq<(string, string)>, constants: map<string, string>)
    requires Lists(pairs, constants) && !Clashes(global, pairs)
    ensures MergeConstants(global, pairs).constants == constants + global
  {
    var r := MergeConstants(global, pairs).constants;
    ListedValues(global, pairs, constants);
    ListedKeys(global, pairs, constants);
    MergeKeeps(global, pairs);
    var u := constants + global;
    assert forall k :: k in u ==> k in r && r[k] == u[k];
  }

  lemma ListedValues(global: map<string, string>, pairs: seq<(string, string)>, constants: map<string, string>)
    requires Lists(pairs, constants) && !Clashes(global, pairs)
    ensures forall k :: k in constants ==> k in MergeConstants(global, pairs).constants
    ensures forall k :: k in constants ==> MergeConstants(global, pairs).constants[k] == constants[k]
  {
    MergeDistinct(global, pairs);
    var r := MergeConstants(global, pairs).constants;
    forall k | k in constants ensures k in r && r[k] == constants[k] {
      var i :| 0 <= i < |pairs| && pairs[i].0 == k;
    }
  }

  lemma ListedKeys(global: map<string, string>, pairs: seq<(string, string)>, constants: map<string, string>)
    requires Lists(pairs, constants) && !Clashes(global, pairs)
    ensures forall k :: k in MergeConstants(global, pairs).constants ==> k in constants || k in global
  {
    MergeDistinct(global, pairs);
  }

  /* ----- the enabled flag ----- */

  /**
   * `m_bEnabled`: with no usable `enabledmods.json` (`None`), or no entry for
   * the name, a mod is enabled; otherwise the entry must be `true`.
   */
  function Enabled(config: Option<seq<(string, JsonValue)>>, name: string): bool {
    config.None? || Lookup(config.value, name).None? || Lookup(config.value, name) == Some(JBool(true))
  }

  /** Only an entry naming the mod with something other than `true` disables it. */
  lemma DisabledOnlyByEntry(config: Option<seq<(string, JsonValue)>>, name: string)
    ensures !Enabled(config, name) <==>
      config.Some? && exists i :: FirstEntry(config.value, name, i) && config.value[i].1 != JBool(true)
  {
    if config.Some? && exists i :: 0 <= i < |config.value| && config.value[i].0 == name {
      var members := config.value;
      var i := FirstIndex(members, name);
      LookupFindsFirst(members, name, i);
      forall i' | FirstEntry(members, name, i') ensures i' == i
      {
      }
    }
  }

  /** Member `i` is the first with that name. */
  predicate FirstEntry(members: seq<(string, JsonValue)>, key: string, i: int) {
    0 <= i < |members| && members[i].0 == key && forall j :: 0 <= j < i ==> members[j].0 != key
  }

  /** The index of the first member with a name that occurs. */
  function FirstIndex(members: seq<(string, JsonValue)>, key: string): (i: nat)
    requires exists i :: 0 <= i < |members| && members[i].0 == key
    ensures i < |members| && members[i].0 == key
    ensures forall j :: 0 <= j < i ==> members[j].0 != key
  {
    if members[0].0 == key then 0
    else
      var i :| 0 <= i < |members| && members[i].0 == key;
      assert members[1..][i - 1].0 == key;
      1 + FirstIndex(members[1..], key)
  }

  /* ----- the loading loop ----- */

  /** One file under a mod's override directory, relative to it. */
  datatype OverrideFile = OverrideFile(path: string, regular: bool)

  /**
   * One directory holding a `mod.json`: what the constructor made of it, the
   * order its constant map is iterated in, its `mod.pdiff` contents and the
   * listing of its override directory.
   */
  datatype Candidate = Candidate(read: ModRead, order: seq<string>, pdiff: string, overrides: seq<OverrideFile>)

  /** An entry of `m_LoadedMods`. */
  datatype LoadedMod = LoadedMod(mod: Mod, enabled: bool, pdiff: string, overrides: seq<OverrideFile>)

  /** The loaded list and `m_DependencyConstants` as the loop leaves them. */
  datatype Loading = Loading(loaded: seq<LoadedMod>, constants: map<string, string>)

  /** A failed constructor stops before `ParseDependencies`, so it has no constants. */
  function ConstantsOf(read: ModRead): map<string, string> {
    if read.Read? then read.mod.dependencyConstants else map[]
  }

  ghost predicate WellOrdered(cands: seq<Candidate>) {
    forall i :: 0 <= i < |cands| ==> Enumerates(cands[i].order, ConstantsOf(cands[i].read))
  }

  /**
   * One turn of the `for (fs::path modDir : modDirs)` loop: merge the mod's
   * constants into the global map, then keep the mod if it was read and its
   * constants did not conflict.
   */
  function LoadOne(state: Loading, c: Candidate, config: Option<seq<(string, JsonValue)>>): Loading
    requires Enumerates(c.order, ConstantsOf(c.read))
  {
    var merged := MergeConstants(state.constants, OrderedPairs(ConstantsOf(c.read), c.order));
    if c.read.Read? && !merged.conflict then
      Loading(state.loaded + [LoadedMod(c.read.mod, Enabled(config, c.read.mod.name), c.pdiff, c.overrides)], merged.constants)
    else Loading(state.loaded, merged.constants)
  }

  function LoadAll(cands: seq<Candidate>, config: Option<seq<(string, JsonValue)>>): Loading
    requires WellOrdered(cands)
  {
    if |cands| == 0 then Loading([], map[])
    else LoadOne(LoadAll(cands[..|cands| - 1], config), cands[|cands| - 1], config)
  }

  /** No constant of `m` has another value in `constants`. */
  predicate Agrees(constants: map<string, string>, m: map<string, string>) {
    forall k :: k in m && k in constants ==> constants[k] == m[k]
  }

  /** The mod of candidate `c` survives its turn. */
  predicate Kept(state: Loading, c: Candidate) {
    c.read.Read? && Agrees(state.constants, c.read.mod.dependencyConstants)
  }

  /**
   * One turn keeps the mod exactly when it was read and none of its
   * constants has another value in the global map; then its constants join
   * the map, and in every case no recorded constant changes.
   */
  lemma LoadOneRule(state: Loading, c: Candidate, config: Option<seq<(string, JsonValue)>>)
    requires Enumerates(c.order, ConstantsOf(c.read))
    ensures var next := LoadOne(state, c, config);
      forall k :: k in state.constants ==> k in next.constants && next.constants[k] == state.constants[k]
    ensures Kept(state, c) ==>
      && LoadOne(state, c, config).loaded == state.loaded + [LoadedMod(c.read.mod, Enabled(config, c.read.mod.name), c.pdiff, c.overrides)]
      && LoadOne(state, c, config).constants == c.read.mod.dependencyConstants + state.constants
    ensures !Kept(state, c) ==> LoadOne(state, c, config).loaded == state.loaded
  {
    MergeKeeps(state.constants, OrderedPairs(ConstantsOf(c.read), c.order));
    MergeModConstants(state.constants, ConstantsOf(c.read), c.order);
  }

  /** Constant `k` of a mod has another value in `global`. */
  predicate ClashesAt(global: map<string, string>, constants: map<string, string>, k: string) {
    k in constants && k in global && global[k] != constants[k]
  }

  /** How many names `order` lists before the first clashing one; `|order|` when none clashes. */
  function FirstClash(global: map<string, string>, constants: map<string, string>, order: seq<string>): (i: nat)
    ensures i <= |order|
    ensures i < |order| ==> ClashesAt(global, constants, order[i])
    ensures forall j :: 0 <= j < i ==> !ClashesAt(global, constants, order[j])
  {
    if |order| == 0 then 0
    else if ClashesAt(global, constants, order[0]) then 0
    else 1 + FirstClash(global, constants, order[1..])
  }

  /** The constants named in `names`. */
  function Restrict(constants: map<string, string>, names: seq<string>): map<string, string> {
    map k | k in constants && k in names :: constants[k]
  }

  ghost predicate DistinctIn(order: seq<string>, constants: map<string, string>) {
    && (forall i, j :: 0 <= i < j < |order| ==> order[i] != order[j])
    && (forall i :: 0 <= i < |order| ==> order[i] in constants)
  }

  /** Clashes with a name the rest of the order never mentions do not move the first clash. */
  lemma {:induction false} FirstClashFrame(global: map<string, string>, next: map<string, string>, constants: map<string, string>, order: seq<string>)
    requires forall j :: 0 <= j < |order| ==> (ClashesAt(global, constants, order[j]) <==> ClashesAt(next, constants, order[j]))
    ensures FirstClash(global, constants, order) == FirstClash(next, constants, order)
    decreases |order|
  {
    if |order| > 0 {
      FirstClashFrame(global, next, constants, order[1..]);
    }
  }

  lemma OrderedPairsTail(constants: map<string, string>, order: seq<string>)
    requires |order| > 0 && forall i :: 0 <= i < |order| ==> order[i] in constants
    ensures OrderedPairs(constants, order)[0] == (order[0], constants[order[0]])
    ensures OrderedPairs(constants, order)[1..] == OrderedPairs(constants, order[1..])
  {
  }

  /** Adding the first name to the map is adding it to the merged prefix. */
  lemma PrefixStep(global: map<string, string>, constants: map<string, string>, order: seq<string>, m: nat)
    requires DistinctIn(order, constants) && 0 < |order| && m < |order|
    requires !ClashesAt(global, constants, order[0])
    ensures var k := order[0];
      var next := if k in global then global else global[k := constants[k]];
      Restrict(constants, order[1..][..m]) + next == Restrict(constants, order[..m + 1]) + global
  {
    var k := order[0];
    var next := if k in global then global else global[k := constants[k]];
    RestrictCons(constants, order, m);
    UnderAdded(Restrict(constants, order[1..][..m]), global, next, k, constants[k]);
  }

  /** Recording `k` before or after adding a map without `k` comes to the same, when `k` does not clash. */
  lemma UnderAdded(added: map<string, string>, global: map<string, string>, next: map<string, string>, k: string, v: string)
    requires k !in added && (k in global ==> global[k] == v)
    requires next == if k in global then global else global[k := v]
    ensures added + next == added[k := v] + global
  {
    forall x | x in added + next ensures x in added[k := v] + global && (added + next)[x] == (added[k := v] + global)[x] {
    }
    forall x | x in added[k := v] + global ensures x in added + next {
    }
  }

  /** The constants named by a list are those named by its tail plus its head. */
  lemma RestrictCons(constants: map<string, string>, order: seq<string>, m: nat)
    requires DistinctIn(order, constants) && 0 < |order| && m < |order|
    ensures order[0] !in Restrict(constants, order[1..][..m])
    ensures Restrict(constants, order[..m + 1]) == Restrict(constants, order[1..][..m])[order[0] := constants[order[0]]]
  {
    var k := order[0];
    assert order[..m + 1] == [k] + order[1..][..m];
    forall x ensures x in order[1..][..m] ==> x != k {
      if x in order[1..][..m] {
        var j :| 0 <= j < m && order[1..][..m][j] == x;
        assert x == order[j + 1];
      }
    }
  }

  /**
   * In any iteration order the merge records every constant listed before
   * the first clashing one and stops there: the clash is reported exactly
   * when there is one, and the map then holds the global constants plus
   * that prefix of the mod's.
   */
  lemma {:induction false} MergeStopsAtFirstClash(global: map<string, string>, constants: map<string, string>, order: seq<string>)
    requires DistinctIn(order, constants)
    ensures MergeConstants(global, OrderedPairs(constants, order)).conflict <==>
      FirstClash(global, constants, order) < |order|
    ensures MergeConstants(global, OrderedPairs(constants, order)).constants ==
      Restrict(constants, order[..FirstClash(global, constants, order)]) + global
    decreases |order|
  {
    if |order| == 0 {
      assert Restrict(constants, order[..0]) == map[];
    } else if ClashesAt(global, constants, order[0]) {
      OrderedPairsTail(constants, order);
      assert Restrict(constants, order[..0]) == map[];
    } else {
      var k := order[0];
      var next := if k in global then global else global[k := constants[k]];
      DistinctTail(order, constants);
      MergeStopsAtFirstClash(next, constants, order[1..]);
      MergeStopsStep(global, next, constants, order);
    }
  }

  lemma DistinctTail(order: seq<string>, constants: map<string, string>)
    requires DistinctIn(order, constants) && 0 < |order|
    ensures DistinctIn(order[1..], constants)
  {
  }

  /** The merge of a list whose first name does not clash, from the merge of the rest. */
  lemma MergeStopsStep(global: map<string, string>, next: map<string, string>, constants: map<string, string>, order: seq<string>)
    requires DistinctIn(order, constants) && 0 < |order|
    requires !ClashesAt(global, constants, order[0])
    requires next == if order[0] in global then global else global[order[0] := constants[order[0]]]
    requires MergeConstants(next, OrderedPairs(constants, order[1..])).conflict <==>
      FirstClash(next, constants, order[1..]) < |order[1..]|
    requires MergeConstants(next, OrderedPairs(constants, order[1..])).constants ==
      Restrict(constants, order[1..][..FirstClash(next, constants, order[1..])]) + next
    ensures MergeConstants(global, OrderedPairs(constants, order)).conflict <==>
      FirstClash(global, constants, order) < |order|
    ensures MergeConstants(global, OrderedPairs(constants, order)).constants ==
      Restrict(constants, order[..FirstClash(global, constants, order)]) + global
  {
    var m := FirstClash(next, constants, order[1..]);
    MergeFirstStep(global, next, constants, order);
    FirstClashStep(global, next, constants, order);
    PrefixStep(global, constants, order, m);
  }

  /** A first name that does not clash is recorded and the merge goes on with the rest. */
  lemma MergeFirstStep(global: map<string, string>, next: map<string, string>, constants: map<string, string>, order: seq<string>)
    requires DistinctIn(order, constants) && 0 < |order|
    requires !ClashesAt(global, constants, order[0])
    requires next == if order[0] in global then global else global[order[0] := constants[order[0]]]
    ensures DistinctIn(order[1..], constants)
    ensures MergeConstants(global, OrderedPairs(constants, order)) == MergeConstants(next, OrderedPairs(constants, order[1..]))
  {
    OrderedPairsTail(constants, order);
  }

  /** Past a first name that does not clash, the first clash is one further along the rest. */
  lemma FirstClashStep(global: map<string, string>, next: map<string, string>, constants: map<string, string>, order: seq<string>)
    requires DistinctIn(order, constants) && 0 < |order|
    requires !ClashesAt(global, constants, order[0])
    requires next == if order[0] in global then global else global[order[0] := constants[order[0]]]
    ensures FirstClash(global, constants, order) == FirstClash(next, constants, order[1..]) + 1
  {
    var rest := order[1..];
    forall j | 0 <= j < |rest| ensures ClashesAt(global, constants, rest[j]) <==> ClashesAt(next, constants, rest[j]) {
      assert rest[j] == order[j + 1] != order[0];
    }
    FirstClashFrame(global, next, constants, rest);
  }

  /**
   * A mod that was read but clashes is dropped, yet the constants its map
   * yields before the clashing one stay in the global map; a mod that was
   * not read changes nothing.
   */
  lemma LoadOneRejects(state: Loading, c: Candidate, config: Option<seq<(string, JsonValue)>>)
    requires Enumerates(c.order, ConstantsOf(c.read))
    requires !Kept(state, c)
    ensures LoadOne(state, c, config).loaded == state.loaded
    ensures c.read.Failed? ==> LoadOne(state, c, config).constants == state.constants
    ensures c.read.Read? ==>
      var i := FirstClash(state.constants, c.read.mod.dependencyConstants, c.order);
      && i < |c.order|
      && LoadOne(state, c, config).constants == Restrict(c.read.mod.dependencyConstants, c.order[..i]) + state.constants
  {
    var cs := ConstantsOf(c.read);
    assert DistinctIn(c.order, cs);
    MergeStopsAtFirstClash(state.constants, cs, c.order);
    MergeModConstants(state.constants, cs, c.order);
    if c.read.Failed? {
      assert c.order == [];
      assert Restrict(cs, c.order[..0]) == map[];
    }
  }

  /** The leak depends on the order: a constant listed before the clash stays, one listed after does not. */
  lemma RejectedLeakDependsOnOrder(m: Mod)
    requires m.dependencyConstants == map["A" := "2", "B" := "x"]
    ensures var st := Loading([], map["A" := "1"]);
      && LoadOne(st, Candidate(Read(m), ["B", "A"], "", []), None) == Loading([], map["A" := "1", "B" := "x"])
      && LoadOne(st, Candidate(Read(m), ["A", "B"], "", []), None) == Loading([], map["A" := "1"])
  {
    var st := Loading([], map["A" := "1"]);
    var cs := m.dependencyConstants;
    assert OrderedPairs(cs, ["B", "A"]) == [("B", "x"), ("A", "2")];
    assert OrderedPairs(cs, ["A", "B"]) == [("A", "2"), ("B", "x")];
    assert !Kept(st, Candidate(Read(m), ["B", "A"], "", []));
    assert MergeConstants(map["A" := "1"], [("B", "x"), ("A", "2")])
      == MergeConstants(map["A" := "1", "B" := "x"], [("A", "2")]);
    assert MergeConstants(map["A" := "1", "B" := "x"], [("A", "2")]) == Merged(map["A" := "1", "B" := "x"], true);
  }

  /** Every loaded mod finds each of its own constants, with its own value, in the global map. */
  predicate Consistent(state: Loading) {
    forall j :: 0 <= j < |state.loaded| ==>
      && Agrees(state.constants, state.loaded[j].mod.dependencyConstants)
      && state.loaded[j].mod.dependencyConstants.Keys <= state.constants.Keys
  }

  /** The loop only ever produces a consistent state. */
  lemma {:induction false} LoadedConstantsAgree(cands: seq<Candidate>, config: Option<seq<(string, JsonValue)>>)
    requires WellOrdered(cands)
    ensures Consistent(LoadAll(cands, config))
  {
    if |cands| > 0 {
      var prefix := cands[..|cands| - 1];
      assert WellOrdered(prefix);
      LoadedConstantsAgree(prefix, config);
      var state := LoadAll(prefix, config);
      var c := cands[|cands| - 1];
      LoadOneRule(state, c, config);
      var r := LoadAll(cands, config);
      assert r == LoadOne(state, c, config);
      forall j | 0 <= j < |r.loaded|
        ensures Agrees(r.constants, r.loaded[j].mod.dependencyConstants)
        ensures r.loaded[j].mod.dependencyConstants.Keys <= r.constants.Keys
      {
        var m := r.loaded[j].mod.dependencyConstants;
        if j < |state.loaded| {
          assert r.loaded[j] == state.loaded[j];
          assert Agrees(state.constants, m) && m.Keys <= state.constants.Keys;
          forall k | k in m ensures k in r.constants && r.constants[k] == m[k] {
            assert k in state.constants;
          }
        } else {
          assert Kept(state, c);
          assert m == c.read.mod.dependencyConstants;
          assert r.constants == m + state.constants;
          forall k | k in m ensures k in r.constants && r.constants[k] == m[k] {
            if k in state.constants {
              assert state.constants[k] == m[k];
            }
          }
        }
      }
    }
  }

  /** `lm` is what the loop makes of candidate `i` when it keeps it. */
  predicate LoadedFrom(cands: seq<Candidate>, i: int, lm: LoadedMod, config: Option<seq<(string, JsonValue)>>) {
    && 0 <= i < |cands| && cands[i].read == Read(lm.mod)
    && lm == LoadedMod(lm.mod, Enabled(config, lm.mod.name), cands[i].pdiff, cands[i].overrides)
  }

  /** The indices of the candidates the loop keeps, in the order it keeps them. */
  function Origins(cands: seq<Candidate>, config: Option<seq<(string, JsonValue)>>): seq<int>
    requires WellOrdered(cands)
  {
    if |cands| == 0 then []
    else
      var prefix := cands[..|cands| - 1];
      if Kept(LoadAll(prefix, config), cands[|cands| - 1]) then Origins(prefix, config) + [|cands| - 1]
      else Origins(prefix, config)
  }

  /**
   * The loaded mods are read candidates, kept in directory order, each with
   * the enabled flag the configuration gives its name.
   */
  lemma {:induction false} LoadedFromCandidates(cands: seq<Candidate>, config: Option<seq<(string, JsonValue)>>)
    requires WellOrdered(cands)
    ensures |Origins(cands, config)| == |LoadAll(cands, config).loaded|
    ensures forall j :: 0 <= j < |Origins(cands, config)| ==>
      LoadedFrom(cands, Origins(cands, config)[j], LoadAll(cands, config).loaded[j], config)
    ensures forall a, b :: 0 <= a < b < |Origins(cands, config)| ==> Origins(cands, config)[a] < Origins(cands, config)[b]
  {
    if |cands| > 0 {
      var prefix := cands[..|cands| - 1];
      assert WellOrdered(prefix);
      LoadedFromCandidates(prefix, config);
      var state := LoadAll(prefix, config);
      var c := cands[|cands| - 1];
      LoadOneRule(state, c, config);
      var r := LoadAll(cands, config);
      var o := Origins(cands, config);
      assert r == LoadOne(state, c, config);
      forall j | 0 <= j < |o| ensures LoadedFrom(cands, o[j], r.loaded[j], config) {
        if j < |state.loaded| {
          assert r.loaded[j] == state.loaded[j] && o[j] == Origins(prefix, config)[j];
        } else {
          assert Kept(state, c);
        }
      }
    }
  }
}
