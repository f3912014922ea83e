# Northstar core rules in Dafny

A model of the pure, sequential logic inside the Northstar client/server DLL.
Most of that code is hooks into the Titanfall 2 engine. Four pieces of it are
self-contained rules, and this project states them as Dafny definitions and
proves properties about them:

- **LZSS decompression** (`h_CLZSS__SafeDecompress`, replacing the engine's
  `CLZSS::SafeUncompress`). An 8-byte header carries the magic `LZSS` and the
  declared size. Control bytes follow; each governs eight literal or
  back-reference units. Every write is checked against the output capacity and
  every reference against the bytes produced so far. Module `Lzss`; module
  `LzssEncoder` adds a reference encoder and the round-trip theorem.
- **The RSON UTF-8 pre-check** (`CheckUTF8Valid` and the hook
  `h_RSON_ParseUTF8`). It scans a network-supplied string range and decodes
  JSON escapes (section 7 of RFC 8259), including `\uXXXX` and UTF-16
  surrogate pairs (RFC 2781). It writes bytes and code values to a
  destination. The routine's quirks are modelled as they are:
  - `\n` does not stop the scan;
  - surrogate pairs combine without the `0x10000` plane offset;
  - every malformed-surrogate exit returns `true`;
  - only a failed readability probe returns `false`.

  Module `RsonEscape`; module `RsonEscapeText` adds the writer's side (escaping,
  `\uXXXX` and UTF-16 halves) and the round trips.
- **The DLL-load callback registry** (primedev/core/hooks.cpp):
  - the `reliesOn` dependency-list parser of `ON_DLL_LOAD`;
  - registration by build side;
  - the dependency-ordered scheduler `CallLoadLibrary{A,W}Callbacks`.

  This is module `DllCallbacks`. Module `HookAddress` models
  `ParseDLLOffsetString` (`"module.dll + 0xOFFSET"` to an address) and the
  hook-to-module matching rule of `__fileAutohook::DispatchForModule`.
- **Mod-manager bookkeeping** (primedev/mods/modmanager.cpp):
  - path lower-casing;
  - `mod.json` manifest defaults, with every string read through `GetString()`
    cut at its first NUL, as the `const char*` copy does;
  - dependency-constant merging, within a mod and across mods (a mod dropped
    for a clash still leaves the constants merged before the clash);
  - the enabled flag;
  - load-priority ordering;
  - starpak reference splitting;
  - override-file ownership (later mods win);
  - the modinfo list advertised to the master server (its strings also end at
    their first NUL, though the pdiff size test sees the whole pdiff).

  Modules `ModManager` (per-mod rules and the directory loop) and `ModLoading`
  (the stages after it).

Byte streams are `seq<Byte>` (`Byte` is `0..255`) for LZSS and the starpak
list, and `seq<bv8>` for the RSON scanner. The scanner computes with 32-bit
words and sign-extended `char`s, so its arithmetic is `bv32`. Memory is a
sequence whose indices are addresses. An address is readable exactly when it
is below the sequence's length. JSON documents are a small `JsonValue`
datatype whose objects keep rapidjson's member order. `GetModuleHandleA` is a
map from module names to load addresses. Directory listings, file contents and
`IsDedicatedServer()` are inputs.

## Model

| member | source | states |
|---|---|---|
| Lzss.RefDistance | primedev/tier1/lzss.cpp:38-40 | a back-reference's distance `((b0<<4)\|(b1>>4))+1` always lies in 1..4096 |
| Lzss.RefLength | primedev/tier1/lzss.cpp:41 | a back-reference's count `(b1&0x0F)+1` lies in 1..16 |
| Lzss.CopyBack | primedev/tier1/lzss.cpp:53-55 | the copy appends exactly `count` bytes and leaves everything written before unchanged |
| Lzss.CopyBackReadsBehind | primedev/tier1/lzss.cpp:53-55 | every byte the copy appends equals the byte `position` places before it, including bytes the same copy has just written |
| Lzss.CopyBackPeriodic | primedev/tier1/lzss.cpp:53-55 | an overlapping copy repeats the last `position` bytes of the output periodically |
| Lzss.CopyBackRepeatsLastByte | primedev/tier1/lzss.cpp:53-55 | with distance 1 the copy repeats the last byte `count` times (run-length behaviour) |
| Lzss.CopyForward | primedev/tier1/lzss.cpp:53-55 | the byte-at-a-time loop with a read index trailing the write index keeps the old output as prefix, makes each new byte equal the one `position` back, and produces what `CopyBack` describes |
| Lzss.CapacityGuardAsWrittenOverflows | primedev/tier1/lzss.cpp:49-51 | the compiled 32-bit check admits a 16-byte copy at 0xFFFFFFF8 bytes produced with capacity 0xFFFFFFFF, which writes past the capacity |
| Lzss.CapacityGuardsAgree | primedev/tier1/lzss.cpp:49-51 | the unbounded and the 32-bit capacity checks agree whenever the capacity is below 2^32 - 16 |
| Lzss.Step | primedev/tier1/lzss.cpp:31-65 | one unit consumes input, advances the control-byte counter modulo 8, strictly extends the output by at most 16 bytes and never past the capacity; the terminator leaves the output as it was |
| Lzss.LiteralAppendsNextByte | primedev/tier1/lzss.cpp:57-64 | a literal unit fails when the output is full, and otherwise appends exactly the next input byte, shifts the control bits, and changes nothing else |
| Lzss.ReferenceUnit | primedev/tier1/lzss.cpp:36-56 | a back-reference with count 1 terminates, one reaching before the first byte fails, one exceeding the capacity fails, and otherwise the copy is appended, in that order of checks |
| Lzss.Run | primedev/tier1/lzss.cpp:29-66 | a successful run extends the output it started from and stays within the capacity |
| Lzss.Decompress | primedev/tier1/lzss.cpp:22-71 | a wrong magic, a zero declared size or a declared size above the capacity is rejected; success implies an accepted header and an output of exactly the declared size, which is positive and within the capacity |
| Lzss.SafeDecompress | primedev/tier1/lzss.cpp:15-72 | the return value is 0 or exactly the declared size (at most the capacity), and it is non-zero exactly when decompression succeeded |
| LzssEncoder.DecodesEncoding | primedev/tier1/lzss.cpp:29-66 | the decoder loop, entered anywhere inside an encoded token list with the right control bits in hand, produces exactly the tokens' expansion |
| LzssEncoder.RoundTrip | primedev/tier1/lzss.cpp:15-72 | decompressing the encoding of any token list whose references stay inside the data and whose expansion fits the capacity returns that expansion, and the call returns its length |
| LzssEncoder.FourLiterals | primedev/tier1/lzss.cpp:57-64 | four literal units decode to "ABCD" |
| LzssEncoder.RunOfSeventeen | primedev/tier1/lzss.cpp:53-55 | a literal followed by a distance-1 length-16 reference yields that byte seventeen times |
| RsonEscape.DecodeUnit | primedev/rtech/rson/parser.cpp:59-140 | decoding a unit either emits it and moves the cursor forward within memory, or stops with one of the three surrogate exits, or hits an unprobed read past memory |
| RsonEscape.DecodeCodeUnit | primedev/rtech/rson/parser.cpp:82-140 | after `\u` the cursor moves past at least the four hex digits when a value is emitted, and the only rejections are the three surrogate exits |
| RsonEscape.ScanFrom | primedev/rtech/rson/parser.cpp:54-150 | the scan only appends to what was emitted and never reports the short-count exit |
| RsonEscape.CheckUtf8Valid | primedev/rtech/rson/parser.cpp:43-53 | the routine returns at once, scanning and emitting nothing, exactly when the count field is at most 2 |
| RsonEscape.ParseUtf8Hook | primedev/rtech/rson/parser.cpp:160-171 | off the network call site the engine's result is returned; the hook differs from it only on the network call site when the probe failed, and then it returns false |
| RsonEscape.Destination | primedev/rtech/rson/parser.cpp:141-149 | the destination receives between one and four bytes per emitted unit |
| RsonEscapeText.EscapeByteShape | primedev/rtech/rson/parser.cpp:62-81 | the escape of a byte is the byte itself or a backslash and a selector other than `u` that the routine's unescaping maps back to the byte |
| RsonEscapeText.DecodesEscapedByte | primedev/rtech/rson/parser.cpp:59-81 | a byte's escape decodes to that byte as a raw unit and the cursor moves past the escape |
| RsonEscapeText.ScansEscapedText | primedev/rtech/rson/parser.cpp:54-150 | scanning an escaped text whose range ends right after it emits exactly the original bytes and ends at the range end |
| RsonEscapeText.CheckScansRange | primedev/rtech/rson/parser.cpp:43-51 | past the count test the scan starts one byte after `base + offset` and ends one byte before `base + offset + length` |
| RsonEscapeText.EscapedStringRoundTrip | primedev/rtech/rson/parser.cpp:43-154 | a descriptor covering an escaped text between two delimiters decodes to exactly the original text, and the routine returns true |
| RsonEscapeText.DecodesPiece | primedev/rtech/rson/parser.cpp:59-140 | a byte escape, a non-surrogate `\uXXXX` or a high/low `\u` pair each decode to one unit (the byte, the code unit, or the line-139 combination) with the cursor right after its spelling |
| RsonEscapeText.ScansPieces | primedev/rtech/rson/parser.cpp:54-150 | scanning text that mixes raw bytes, one-letter escapes, `\uXXXX` escapes and surrogate pairs, whose range ends right after it, emits exactly one unit per piece in order and ends at the range end |
| RsonEscapeText.PiecesRoundTrip | primedev/rtech/rson/parser.cpp:43-154 | a descriptor covering such mixed text between two delimiters makes the routine emit one unit per piece, in order, and return true |
| RsonEscapeText.HexCharDecodes | primedev/rtech/rson/parser.cpp:82-89 | the digit decoding (`\| 0x20`, then minus 48 or 87) inverts writing a nibble in either case |
| RsonEscapeText.HexDigitsRoundTrip | primedev/rtech/rson/parser.cpp:82-105 | four hex digits in either case combine, most significant first, to the 16-bit value they spell |
| RsonEscapeText.HexDigitIgnoresCase | primedev/rtech/rson/parser.cpp:82-85 | characters differing only in the ASCII case bit decode to the same digit |
| RsonEscapeText.DecodesBmpEscape | primedev/rtech/rson/parser.cpp:80-105 | `\uXXXX` for a non-surrogate code unit emits that value for the encoder and moves the cursor six bytes |
| RsonEscapeText.CombinationMissesPlaneOffset | primedev/rtech/rson/parser.cpp:139 | the routine's pair combination is the RFC 2781 combination minus 0x10000 |
| RsonEscapeText.HalvesCombineAsWritten | primedev/rtech/rson/parser.cpp:139 | for every supplementary code point, the routine's combination of its UTF-16 halves gives the point minus 0x10000 |
| RsonEscapeText.DecodesPairFields | primedev/rtech/rson/parser.cpp:106-140 | a high-surrogate escape followed by a low-surrogate escape emits one combined value and moves the cursor twelve bytes |
| RsonEscapeText.DecodesSurrogatePair | primedev/rtech/rson/parser.cpp:106-141 | a supplementary code point written as a surrogate pair reaches the encoder as the point minus 0x10000 |
| RsonEscapeText.LoneLowSurrogateReturnsTrue | primedev/rtech/rson/parser.cpp:108-109 | an unpaired low surrogate ends the scan, whatever the range, with the routine returning true |
| RsonEscapeText.HighWithoutEscapeReturnsTrue | primedev/rtech/rson/parser.cpp:110-111 | a high surrogate not followed by `\u` ends the scan with the routine returning true |
| RsonEscapeText.HighWithoutLowReturnsTrue | primedev/rtech/rson/parser.cpp:113-138 | a high surrogate followed by `\u` and a unit outside 0xDC00..0xDFFF ends the scan with the routine returning true |
| RsonEscapeText.DestinationOfRaws | primedev/rtech/rson/parser.cpp:147-149 | raw units write exactly their bytes to the destination |
| RsonEscapeText.HookPassesEscapedText | primedev/rtech/rson/parser.cpp:160-170 | on the network call site a well-formed escaped string passes the gate and the engine's own result is returned |
| RsonEscapeText.TabNewlineExample | primedev/rtech/rson/parser.cpp:62-79 | `\t\n` decodes to a tab and a newline, and the scan goes on after `\n` to the range end |
| RsonEscapeText.LetterAExample | primedev/rtech/rson/parser.cpp:80-105 | the escape `\u0041` reaches the encoder as 0x41 |
| RsonEscapeText.EmojiExample | primedev/rtech/rson/parser.cpp:106-141 | the pair `\uD83D\uDE00` (U+1F600) reaches the encoder as 0xF600, not 0x1F600 |
| RsonEscapeText.MixedCaseExample | primedev/rtech/rson/parser.cpp:82-105 | the digits `00AB`, `00ab` and `00Ab` all decode to 0xAB |
| RsonEscapeText.OvershotEndExample | primedev/rtech/rson/parser.cpp:143-144 | a range end inside an escape is stepped over, the scan runs to unreadable memory and the routine returns false |
| DllCallbacks.SplitTags | primedev/core/hooks.cpp:27-41 | the parenthesised form yields one tag per `,` or `)`, each tag free of white space and delimiters |
| DllCallbacks.ParseReliesOn | primedev/core/hooks.cpp:21-41 | an empty string gives no tags, a string not starting with `(` is a single tag, and otherwise one bare tag per delimiter after the `(` |
| DllCallbacks.ReliesOnRoundTrip | primedev/core/hooks.cpp:21-41 | parsing the `(a, b, c)` rendering of any list of bare tags gives that list back |
| DllCallbacks.EmptyParenthesesExample | primedev/core/hooks.cpp:27-41 | `()` parses to one empty tag |
| DllCallbacks.SplitIgnoresSpaces | primedev/core/hooks.cpp:31 | white space anywhere, even inside a tag, does not change the tags |
| DllCallbacks.SplitDropsUnclosedTail | primedev/core/hooks.cpp:29-41 | characters after the last delimiter never make a tag |
| DllCallbacks.FileNameIsLastComponent | primedev/core/hooks.cpp:232 | the compared file name is the longest separator-free suffix of the path |
| DllCallbacks.FileNameIgnoresDirectory | primedev/core/hooks.cpp:232 | a directory prefix with either separator does not change the file name |
| DllCallbacks.RunAt | primedev/core/hooks.cpp:252-254 | running a callback marks it called, appends its tag, and changes no other entry |
| DllCallbacks.PassFrom | primedev/core/hooks.cpp:230-256 | a pass keeps the number of callbacks and runs only callbacks at or after its start |
| DllCallbacks.PassIncreasing | primedev/core/hooks.cpp:230 | a pass runs callbacks in index order, so each at most once |
| DllCallbacks.PassMarks | primedev/core/hooks.cpp:230-256 | a pass marks called exactly the callbacks it ran and leaves every other entry untouched |
| DllCallbacks.PassRunsMatching | primedev/core/hooks.cpp:232 | every callback a pass runs was uncalled and for the loaded file name |
| DllCallbacks.PassTags | primedev/core/hooks.cpp:252-254 | a pass appends the tags of the callbacks it ran, in the order it ran them, and nothing else |
| DllCallbacks.PassBlocked | primedev/core/hooks.cpp:234-250 | `bDoneCalling` is cleared exactly when a matching callback was left behind because a tag was missing |
| DllCallbacks.IdlePassIsStuck | primedev/core/hooks.cpp:226-260 | a pass that runs nothing changes nothing and leaves every matching callback waiting on a tag |
| DllCallbacks.PassInDependencyOrder | primedev/core/hooks.cpp:236-254 | each callback a pass runs was ready given the tags produced before it |
| DllCallbacks.PassAccounts | primedev/core/hooks.cpp:230-256 | a pass ran distinct matching callbacks in dependency order, marked exactly those and appended exactly their tags |
| DllCallbacks.PassShrinks | primedev/core/hooks.cpp:226-260 | a pass that ran something leaves fewer uncalled callbacks |
| DllCallbacks.CallCallbacksAccounts | primedev/core/hooks.cpp:222-261 | over the whole loop every callback run was run once, matched the library, was ready when run, was marked called, and appended its tag; nothing else changed |
| DllCallbacks.CallCallbacksSettles | primedev/core/hooks.cpp:226-260 | when the loop ends, every matching callback left is waiting on a tag nobody produced |
| DllCallbacks.AsWrittenAgrees | primedev/core/hooks.cpp:226-260 | the source's loop ends exactly when no matching callback is left waiting, and then it agrees with the terminating loop |
| DllCallbacks.WaitingCallbackHangs | primedev/core/hooks.cpp:226-260 | a callback waiting on a tag nobody provides makes the source's loop repeat an idle pass forever |
| DllCallbacks.DependencyChainExample | primedev/core/hooks.cpp:222-261 | a callback relying on a later one's tag runs in the second pass, after it, for any path with the same file name |
| DllCallbacks.RegisterCallback | primedev/core/hooks.cpp:44-63 | registration appends one uncalled callback for the named library exactly when its side applies to this build, and otherwise changes nothing |
| DllCallbacks.ReadyCallbackRuns | primedev/core/hooks.cpp:232-254 | a matching callback whose tags have all been produced is run by the loop |
| DllCallbacks.RanLeavesTag | primedev/core/hooks.cpp:252-254 | a callback the loop ran ends up marked called with its tag among the produced ones |
| DllCallbacks.RegisteredRunsOnLoad | primedev/core/hooks.cpp:175-184 | a callback added for this build whose tags have all been produced has run, and left its tag, once its library loads |
| HookAddress.ModuleName | primedev/core/hooks.cpp:123-129 | the module name is the longest prefix without white space or `+`, and the string has none exactly when no name is found |
| HookAddress.ParseDllOffsetString | primedev/core/hooks.cpp:120-154 | the name loop runs off the string exactly when no white space or `+` ends the name; a resolved address is a 64-bit value |
| HookAddress.UnloadedModuleResolvesToZero | primedev/core/hooks.cpp:132-135 | a module that is not loaded resolves to 0 |
| HookAddress.ParseLongDigits | primedev/core/hooks.cpp:147-151 | a run of digits in the chosen base is read as its value |
| HookAddress.Resolves | primedev/core/hooks.cpp:143-153 | a terminated name followed by a readable offset resolves to the module's address plus the offset, modulo 2^64 |
| HookAddress.HexOffsetAfterName | primedev/core/hooks.cpp:143-149 | an offset written as `0x` and hex digits after the name is read back |
| HookAddress.DecimalOffsetAfterName | primedev/core/hooks.cpp:143-151 | an offset written in decimal after the name is read back |
| HookAddress.FormattedOffsetResolves | primedev/core/hooks.cpp:120-154 | parsing inverts writing `name + 0xOFFSET` or `name + OFFSET`: the address is the module's plus the offset, or 0 when the module is not loaded |
| HookAddress.DispatchForModule | primedev/core/hooks.cpp:75-83 | the hooks installed are, in file order, exactly the offset-string hooks whose address string starts with the module name and the proc-address hooks naming exactly that module |
| HookAddress.FormattedHookDispatches | primedev/core/hooks.cpp:80 | a hook whose address string is written for a module is installed when that module loads |
| HookAddress.PrefixMatchExample | primedev/core/hooks.cpp:79-82 | loading `server` installs an offset-string hook written for `server.dll`, but not a proc-address hook for it |
| HookAddress.HexOffsetExample | primedev/core/hooks.cpp:143-153 | digits in the module name are skipped by the offset seek, and `0X` reads as hex |
| HookAddress.DecimalOffsetExample | primedev/core/hooks.cpp:123-151 | `+` ends the name like white space, and an offset without `0x` is decimal |
| HookAddress.UnloadedExample | primedev/core/hooks.cpp:132-135 | a string naming a module that is not loaded gives 0 |
| HookAddress.UnterminatedExample | primedev/core/hooks.cpp:124-125 | a bare module name never terminates the name loop |
| HookAddress.NoOffsetExample | primedev/core/hooks.cpp:143-151 | no digit after the name leaves `std::stoi` without a number |
| ModManager.NormaliseModFilePath | primedev/mods/modmanager.cpp:1000-1010 | the result has the path's length and each character lower-cased by the ASCII rule |
| ModManager.NormaliseChangesOnlyCapitals | primedev/mods/modmanager.cpp:1005-1007 | exactly the characters `A`..`Z` change, and no capital remains |
| ModManager.NormaliseIdempotent | primedev/mods/modmanager.cpp:1005-1007 | normalising twice is normalising once |
| ModManager.NormaliseIdentifiesCase | primedev/mods/modmanager.cpp:1005-1007 | two paths normalise alike exactly when they differ only in ASCII case |
| ModManager.Lookup | primedev/mods/modmanager.cpp:49-55 | a member lookup fails exactly when no member has the name |
| ModManager.MergeKeeps | primedev/mods/modmanager.cpp:453-466 | a recorded dependency constant is never removed or overwritten |
| ModManager.MergeAddsOnlyPairs | primedev/mods/modmanager.cpp:465-466 | every constant the merge adds is one of the listed name/value pairs |
| ModManager.MergeDistinct | primedev/mods/modmanager.cpp:441-469 | with distinct names, the merge conflicts exactly when a pair disagrees with a recorded value; without a conflict it records every pair |
| ModManager.CString | primedev/mods/modmanager.cpp:55 | a JSON string taken as a `const char*` keeps exactly the prefix before its first NUL: a prefix, NUL-free, and followed by a NUL unless it is the whole string |
| ModManager.CStringKeepsExactlyNulFree | primedev/mods/modmanager.cpp:55 | a string comes through the `const char*` copy unchanged exactly when it holds no NUL |
| ModManager.ParseManifest | primedev/mods/modmanager.cpp:33-94 | a mod reads only from a parsed JSON object with a string `Name`; its name is that string up to the first NUL and is not blacklisted unless blacklisting is off; its strings hold no NUL and its priority is 32-bit |
| ModManager.ManifestDefaults | primedev/mods/modmanager.cpp:49-94 | a manifest with only a name, whose part before any NUL is not blacklisted, reads with that part as its name, description "", version "0.0.0", download link "", not required on client, priority 0 and no constants |
| ModManager.ManifestNeedsName | primedev/mods/modmanager.cpp:49-63 | a manifest without `Name` fails, and so does one whose name up to its first NUL is blacklisted |
| ModManager.ManifestReads | primedev/mods/modmanager.cpp:33-94 | an object manifest reads exactly when `Name` is a string whose part before any NUL is not blacklisted (or blacklisting is off) and each optional member is absent or of the type its getter expects |
| ModManager.ManifestFields | primedev/mods/modmanager.cpp:65-101 | for any read manifest each field is its default ("", "0.0.0", "", false, 0) when absent; when present it is the member's value, a string cut at its first NUL; without a `Dependencies` object there are no constants |
| ModManager.DependenciesRoundTrip | primedev/mods/modmanager.cpp:430-469 | reading a `Dependencies` object gives back exactly the constants its string members list once the names and values are cut at their first NUL (as the find, `!=` and emplace see them), when those names are distinct |
| ModManager.ManifestRoundTrip | primedev/mods/modmanager.cpp:49-101 | reading a manifest that holds every field of a mod gives back that mod with its strings cut at their first NUL, so a mod without NULs comes back unchanged |
| ModManager.NulCutsNameExample | primedev/mods/modmanager.cpp:55-63 | the name `a\0b` is stored as `a`, so blacklisting `a` skips the mod |
| ModManager.NulCutsConstantExample | primedev/mods/modmanager.cpp:454-466 | the value `v\0w` is stored as `v` and then agrees with a recorded `v` |
| ModManager.MergeModConstants | primedev/mods/modmanager.cpp:651-664 | in any iteration order of the mod's map, the global merge conflicts exactly when some constant already has another value, and otherwise adds the mod's constants under the recorded ones |
| ModManager.DisabledOnlyByEntry | primedev/mods/modmanager.cpp:666-669 | a mod is disabled exactly when the enabled-mods config exists and its first entry for the name is not `true` |
| ModManager.LoadOneRule | primedev/mods/modmanager.cpp:651-681 | a mod is kept exactly when it was read and none of its constants conflicts; its constants then join the global map, and no recorded constant ever changes |
| ModManager.MergeStopsAtFirstClash | primedev/mods/modmanager.cpp:651-664 | in any iteration order the merge records the constants listed before the first clashing one and stops there; it reports a conflict exactly when some listed constant clashes |
| ModManager.LoadOneRejects | primedev/mods/modmanager.cpp:651-681 | a read mod that clashes is dropped, but the global map keeps the constants its iteration order lists before the first clash; an unread mod changes nothing |
| ModManager.RejectedLeakDependsOnOrder | primedev/mods/modmanager.cpp:651-664 | with global {A:1} and a mod {A:2, B:x}, order B, A leaves B:x in the global map while order A, B leaves it unchanged; the mod is dropped either way |
| ModManager.LoadedConstantsAgree | primedev/mods/modmanager.cpp:631-682 | after the loop every loaded mod finds each of its constants, with its own value, in the global map |
| ModManager.LoadedFromCandidates | primedev/mods/modmanager.cpp:631-682 | the loaded mods are read candidates, kept in directory order, each with the enabled flag the config gives its name |
| ModLoading.SortByPriorityCorrect | primedev/mods/modmanager.cpp:685 | after the sort the mods run from lowest to highest priority and are a permutation of the loaded list |
| ModLoading.SortKeepsConsistent | primedev/mods/modmanager.cpp:685 | reordering the loaded list keeps every mod's constants consistent with the global map |
| ModLoading.SplitStarpakPaths | primedev/mods/modmanager.cpp:826-844 | the byte loop emits what the split rule describes |
| ModLoading.SplitPathsAreNames | primedev/mods/modmanager.cpp:830-843 | every emitted starpak path is non-empty and free of NULs |
| ModLoading.SplitDropsTail | primedev/mods/modmanager.cpp:826-844 | a run of bytes with no NUL after it is never emitted |
| ModLoading.SplitSkipsEmptyRun | primedev/mods/modmanager.cpp:836-843 | a NUL with nothing collected before it emits nothing |
| ModLoading.SplitJoinRoundTrip | primedev/mods/modmanager.cpp:826-844 | splitting NUL-terminated non-empty paths, followed by any NUL-free tail, gives back exactly those paths in order |
| ModLoading.ClaimRule | primedev/mods/modmanager.cpp:916-925 | walking one override directory keeps every taken path's owner and gives each new regular file's normalised path to this mod |
| ModLoading.RegisterFromOwners | primedev/mods/modmanager.cpp:909-928 | the reverse loop from any mod on registers exactly the paths some enabled mod from there provides, each owned by the last such mod |
| ModLoading.OverrideOwnership | primedev/mods/modmanager.cpp:909-928 | a path is registered exactly when some enabled mod ships it, and it belongs to the last such mod: later mods win and disabled mods own nothing |
| ModLoading.ModInfoAppend | primedev/mods/modmanager.cpp:937-949 | the modinfo list keeps the order of the mods |
| ModLoading.ModInfoMembership | primedev/mods/modmanager.cpp:937-949 | an entry is advertised exactly when some enabled mod that is required on clients or has a non-empty pdiff has that flag, and that name, version and pdiff as far as their first NUL |
| ModLoading.InfoOfFields | primedev/mods/modmanager.cpp:943-946 | an entry's pdiff is the mod's pdiff up to its first NUL (all of it when it has none); name and version are kept when NUL-free, as read mods are |
| ModLoading.NulPdiffExample | primedev/mods/modmanager.cpp:939-946 | an enabled mod whose pdiff starts with a NUL passes the size test and is advertised with an empty pdiff |
| ModLoading.ModInfoSkips | primedev/mods/modmanager.cpp:939-940 | a disabled mod, or one neither required on clients nor carrying a pdiff, adds nothing |
| ModLoading.LoadModsCorrect | primedev/mods/modmanager.cpp:631-949 | after the whole pass the kept mods are ordered by priority and a permutation of the loaded ones; a path is registered exactly when an enabled mod ships it, owned by the last such mod; an entry is advertised exactly when an advertised mod carries it (strings cut at their first NUL, as in `InfoOf`); and every mod's constants are in the global map with its own values |

## Left out

- Lzss.Step: the source never checks that its reads stay inside the compressed input (lines 32, 38-41, 63). The model stops with `InputExhausted` instead of reading past the end.
- Lzss.SafeDecompress: reports 0 for `InputExhausted` and for an input shorter than the header. The source's result is undefined there.
- Lzss.Decompress: the header is dereferenced before the null check (line 22 against line 24). Null pointers are not modelled.
- Lzss.Run: keeps the produced byte count unbounded, where the source's `totalBytes` is a 32-bit `unsigned int`. `CapacityGuardAsWritten` models the wrap, and the Findings below say when it matters.
- RsonEscape.DecodeUnit: the escape selector, the hex digits and the second `\u` are read without the probe (parser.cpp lines 62, 82-85, 110-116). A read beyond readable memory becomes the outcome `ReadPastMemory`, where the source's behaviour is undefined.
- RsonEscape.Returned: is not defined for `ReadPastMemory`, and `ParseUtf8Hook` requires that outcome away on the network call site.
- The engine's UTF-8 encoder `sub_F1320` is foreign. `RsonEscape.Destination` takes it as a function parameter returning 1 to 4 bytes. The scanner's `v5` accumulator is never read and is left out.
- The return-address match of `h_RSON_ParseUTF8` (lines 162-167) is the boolean parameter `fromNetwork`. The engine's own `o_RSON_ParseUTF8` is the parameter `original`.
- HookAddress.ParseDllOffsetString: does not model `std::stoi` overflow (`std::out_of_range`). Offsets are unbounded integers before the 64-bit wrap.
- HookAddress.ParseLong: does not accept a second `0x` prefix, which `strtol` in base 16 would skip after the one the parser already stepped over.
- Strings in the hook-address model carry no NUL terminator. The name loop running off the end of its string is the outcome `NameUnterminated`, and a missing offset is `NoOffset` (where `std::stoi` throws).
- `GetModuleHandleA` is a map from names to load addresses, so names match exactly. Windows' case-insensitive module lookup is not modelled.
- hooks.h is not part of this model. `__autohook` is reduced to its resolution mode, address string and module name; installing a hook (`Dispatch`) is foreign.
- DllCallbacks.PassFrom: the model assumes a callback neither loads a library nor registers a callback. At hooks.cpp:251-253 the foreign `callback(moduleAddress)` runs before its tag is recorded. A callback that loads a library would re-enter `CallLoadLibrary*Callbacks` on the same registry and `calledTags`. One that registers a callback would grow the vector the pass is iterating. Neither case is modelled, so `CallCallbacksAccounts` and `AsWrittenAgrees` speak only of callbacks that do neither.
- DLL-load callbacks are foreign code: the scheduler records which callbacks ran and in which order. MinHook calls, the `LoadLibrary*` detours and `EnumProcessModules` are OS plumbing and are left out.
- `fs::path::filename` is modelled for `/` and `\` separators only; root names such as `C:` are not treated specially.
- The JSON text is not parsed: `mod.json` is a `JsonValue`, and rapidjson's parser, `enabledmods.json` writing and `ReloadMapsList` are library behaviour or I/O.
- ModManager.ParseManifest: a member of the wrong type (where rapidjson's `GetString`/`GetBool`/`GetInt` would assert) fails the mod instead.
- `lexically_normal` in `NormaliseModFilePath` is library behaviour. The model lower-cases the path it would produce.
- The mod blacklist and the `-nomodblacklist` command-line switch are parameters of `ParseManifest`.
- `m_DependencyConstants` merging iterates an `unordered_map`. Its iteration order is an input (`Candidate.order`). `MergeModConstants` shows that whether a mod conflicts does not depend on that order, and neither does the merged map when there is no conflict. When a mod does conflict, the constants before the clash stay in the global map, and which ones those are depends on the order (`LoadOneRejects`, `RejectedLeakDependsOnOrder`).
- ModLoading.SortByPriorityCorrect: `std::sort` is not stable. The model's insertion sort keeps mods of equal priority in load order, which is one of the orders the library may produce.
- The starpak split produces paths. `STR_HASH` and the rpak header read that supplies the buffer are left out.
- ConVar, ConCommand, script, localisation, vpk, rpak, keyvalues, bik and audio registration in `LoadMods` are I/O or engine calls, and are left out.
- `LoadMods` reads override listings as given: the recursive directory walk and `lexically_relative` are the listing's paths.
- The LZSS hook installation (`ON_DLL_LOAD` at lzss.cpp:74-78) and the other engine glue files are not modelled.

## Findings

| source | as written | input that shows it | evidently intended | confidence | as-written member | corrected member |
|---|---|---|---|---|---|---|
| primedev/tier1/lzss.cpp:49-51 | `totalBytes += count` on a 32-bit `unsigned int` wraps before it is compared with `unBufSize` | capacity 0xFFFFFFFF, 0xFFFFFFF8 bytes already produced, a back-reference of length 16: the counter wraps to 8 and the check passes | no unit writes at or beyond the capacity | not executed; needs a 4 GiB output buffer | Lzss.CapacityGuardAsWrittenOverflows | Lzss.Step |
| primedev/core/hooks.cpp:226-260 | the outer `while (true)` repeats while a pass clears `bDoneCalling`, even when that pass ran nothing | one callback for `server.dll` relying on tag `b` that no callback provides: every pass skips it, clears the flag and runs nothing, forever | stop when a pass makes no progress; leave the waiting callbacks for a later load | not executed; requires a missing or later-loaded dependency tag | DllCallbacks.WaitingCallbackHangs | DllCallbacks.CallCallbacks |
