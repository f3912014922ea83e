/**
 * Model of the address side of the hooking layer in primedev/core/hooks.cpp:
 * `ParseDLLOffsetString`, which turns a `"module.dll + 0xOFFSET"` string into
 * an absolute address, and `__fileAutohook::DispatchForModule`, which picks
 * the hooks of a file to install when a module loads.
 *
 * `GetModuleHandleA` is an abstract map from module names to load addresses
 * (a name that is absent is not loaded); installing a hook is foreign code,
 * so dispatch yields the indices of the hooks it would install.
 */
module HookAddress {
  import opened Basics

  /** 2^64: the modulus of `uintptr_t` arithmetic on a 64-bit build. */
  const TwoTo64: int := 0x1_0000_0000_0000_0000

  /* ----- scanning ----- */

  /** The first index at or after `i` whose character fails `keep`, or `|t|`. */
  function SkipWhile(t: string, i: nat, keep: char -> bool): (j: nat)
    requires i <= |t|
    ensures i <= j <= |t|
    ensures forall k :: i <= k < j ==> keep(t[k])
    ensures j == |t| || !keep(t[j])
    decreases |t| - i
  {
    if i == |t| || !keep(t[i]) then i else SkipWhile(t, i + 1, keep)
  }

  /** `SkipWhile` stops exactly at the first character failing `keep`. */
  lemma SkipWhileStops(t: string, i: nat, j: nat, keep: char -> bool)
    requires i <= j <= |t|
    requires forall k :: i <= k < j ==> keep(t[k])
    requires j == |t| || !keep(t[j])
    ensures SkipWhile(t, i, keep) == j
  {
  }

  /** A character that ends the module name: white space or `+`. */
  predicate EndsName(c: char) {
    IsSpace(c) || c == '+'
  }

  /* ----- numbers, as `std::stoi` reads them ----- */

  /** The two bases the parser uses. */
  type Radix = r: nat | r == 10 || r == 16 witness 10

  predicate IsHexDigit(c: char) {
    IsDecimalDigit(c) || 'a' <= c <= 'f' || 'A' <= c <= 'F'
  }

  predicate IsDigitIn(c: char, radix: Radix) {
    if radix == 16 then IsHexDigit(c) else IsDecimalDigit(c)
  }

  function DigitValue(c: char): (d: nat)
    requires IsHexDigit(c)
    ensures d < 16
    ensures IsDecimalDigit(c) <==> d < 10
  {
    if IsDecimalDigit(c) then c as int - '0' as int
    else if 'a' <= c <= 'f' then c as int - 'a' as int + 10
    else c as int - 'A' as int + 10
  }

  predicate AllDigits(ds: string, radix: Radix) {
    forall k :: 0 <= k < |ds| ==> IsDigitIn(ds[k], radix)
  }

  /** The value of a digit string, most significant digit first. */
  function DigitsValue(ds: string, radix: Radix): nat
    requires AllDigits(ds, radix)
  {
    if |ds| == 0 then 0
    else DigitsValue(ds[..|ds| - 1], radix) * radix + DigitValue(ds[|ds| - 1])
  }

  /**
   * `strtol` in base `radix`, as `std::stoi` calls it: leading white space,
   * an optional sign, then the longest run of digits. `None` stands for the
   * `std::invalid_argument` thrown when there is no digit.
   */
  function ParseLong(t: string, radix: Radix): Option<int> {
    var i := SkipWhile(t, 0, IsSpace);
    var negative := i < |t| && t[i] == '-';
    var d := if i < |t| && (t[i] == '-' || t[i] == '+') then i + 1 else i;
    var e := SkipWhile(t, d, c => IsDigitIn(c, radix));
    if e == d then None
    else
      var v: int := DigitsValue(t[d..e], radix);
      Some(if negative then -v else v)
  }

  /* ----- ParseDLLOffsetString ----- */

  datatype Resolution =
    | Address(addr: nat)
      /** No white space or `+` ends the name: the name loop runs past the string. */
    | NameUnterminated
      /** No digit where the offset should be: `std::stoi` throws. */
    | NoOffset

  /** The module name: everything before the first white space or `+`. */
  function ModuleName(s: string): (name: Option<string>)
    ensures name.None? <==> forall k :: 0 <= k < |s| ==> !EndsName(s[k])
    ensures name.Some? ==>
      && |name.value| < |s| && name.value == s[..|name.value|] && EndsName(s[|name.value|])
      && forall k :: 0 <= k < |name.value| ==> !EndsName(name.value[k])
  {
    var e := SkipWhile(s, 0, c => !EndsName(c));
    if e == |s| then None else Some(s[..e])
  }

  /**
   * `ParseDLLOffsetString`: the module's load address plus the offset, or 0
   * when the module is not loaded. The offset starts at the first decimal
   * digit after the name and is hexadecimal when that digit is a `0`
   * followed by `x` or `X`; the sum wraps as a `uintptr_t`.
   */
  function ParseDllOffsetString(s: string, modules: map<string, nat>): (r: Resolution)
    ensures r.NameUnterminated? <==> forall k :: 0 <= k < |s| ==> !EndsName(s[k])
    ensures r.Address? ==> r.addr < TwoTo64
  {
    match ModuleName(s)
    case None => NameUnterminated
    case Some(name) =>
      var handle := if name in modules then modules[name] else 0;
      if handle == 0 then Address(0)
      else
        match OffsetAfter(s, |name|)
        case None => NoOffset
        case Some(v) => Address((handle + v) % TwoTo64)
  }

  /** The offset, read from the first decimal digit at or after `e`. */
  function OffsetAfter(s: string, e: nat): Option<int>
    requires e <= |s|
  {
    var b := SkipWhile(s, e, c => !IsDecimalDigit(c));
    var hex := b + 1 < |s| && s[b] == '0' && (s[b + 1] == 'x' || s[b + 1] == 'X');
    if hex then ParseLong(s[b + 2..], 16) else ParseLong(s[b..], 10)
  }

  /** A module that is not loaded resolves every well-formed string to 0. */
  lemma UnloadedModuleResolvesToZero(s: string, modules: map<string, nat>)
    requires ModuleName(s).Some? && ModuleName(s).value !in modules
    ensures ParseDllOffsetString(s, modules) == Address(0)
  {
  }

  /* ----- writing offset strings ----- */

  function DigitChar(d: nat): (c: char)
    requires d < 16
    ensures IsHexDigit(c) && DigitValue(c) == d
    ensures d < 10 ==> IsDecimalDigit(c)
  {
    if d < 10 then ('0' as int + d) as char else ('A' as int + d - 10) as char
  }

  /** `n` in base `radix`, most significant digit first, without leading zeros. */
  function ToDigits(n: nat, radix: Radix): (ds: string)
    ensures |ds| >= 1
    decreases n
  {
    if n < radix then [DigitChar(n)] else ToDigits(n / radix, radix) + [DigitChar(n % radix)]
  }

  /** Reading back what `ToDigits` wrote gives the number; only 0 starts with `0`. */
  lemma {:induction false} DigitsRoundTrip(n: nat, radix: Radix)
    ensures AllDigits(ToDigits(n, radix), radix)
    ensures DigitsValue(ToDigits(n, radix), radix) == n
    ensures ToDigits(n, radix)[0] == '0' <==> n == 0
    ensures n == 0 ==> ToDigits(n, radix) == "0"
    decreases n
  {
    var ds := ToDigits(n, radix);
    if n >= radix {
      DigitsRoundTrip(n / radix, radix);
      var init := ToDigits(n / radix, radix);
      assert ds[..|ds| - 1] == init;
      assert ds[0] == init[0];
    }
  }

  /** The `"module.dll + 0xOFFSET"` (or decimal `"module.dll + OFFSET"`) form. */
  function FormatOffset(name: string, offset: nat, hex: bool): string {
    if hex then name + " + 0x" + ToDigits(offset, 16) else name + " + " + ToDigits(offset, 10)
  }

  /** A non-empty run of digits, and nothing else, parses to its value. */
  lemma ParseLongDigits(ds: string, radix: Radix)
    requires |ds| >= 1 && AllDigits(ds, radix)
    ensures ParseLong(ds, radix) == Some(DigitsValue(ds, radix))
  {
    assert !IsSpace(ds[0]) && ds[0] != '-' && ds[0] != '+';
    assert SkipWhile(ds, 0, IsSpace) == 0;
    assert SkipWhile(ds, 0, c => IsDigitIn(c, radix)) == |ds|;
    assert ds[0..|ds|] == ds;
  }

  /** The name of a formatted string is the name it was formatted with. */
  lemma NameOfFormatted(name: string, offset: nat, hex: bool)
    requires forall k :: 0 <= k < |name| ==> !EndsName(name[k])
    ensures ModuleName(FormatOffset(name, offset, hex)) == Some(name)
  {
    var s := FormatOffset(name, offset, hex);
    assert s[|name|] == ' ';
    assert forall k :: 0 <= k < |name| ==> s[k] == name[k];
    SkipWhileStops(s, 0, |name|, c => !EndsName(c));
    assert s[..|name|] == name;
  }

  /**
   * Parsing inverts formatting: a string written as name, `" + "` and the
   * offset in hex or decimal resolves to the module's address plus the
   * offset, and to 0 when the module is not loaded.
   */
  lemma FormattedOffsetResolves(name: string, offset: nat, hex: bool, modules: map<string, nat>)
    requires forall k :: 0 <= k < |name| ==> !EndsName(name[k])
    ensures var handle := if name in modules then modules[name] else 0;
      ParseDllOffsetString(FormatOffset(name, offset, hex), modules)
        == Address(if handle == 0 then 0 else (handle + offset) % TwoTo64)
  {
    var s := FormatOffset(name, offset, hex);
    NameOfFormatted(name, offset, hex);
    if hex {
      HexOffsetAfterName(name, offset);
    } else {
      DecimalOffsetAfterName(name, offset);
    }
    Resolves(s, modules, name, offset);
  }

  /** A terminated name followed by a readable offset resolves to the module's address plus the offset. */
  lemma Resolves(s: string, modules: map<string, nat>, name: string, v: int)
    requires ModuleName(s) == Some(name)
    requires OffsetAfter(s, |name|) == Some(v)
    ensures var handle := if name in modules then modules[name] else 0;
      ParseDllOffsetString(s, modules) == Address(if handle == 0 then 0 else (handle + v) % TwoTo64)
  {
  }

  /** The hex offset written after a name is the one read back. */
  lemma HexOffsetAfterName(name: string, offset: nat)
    ensures OffsetAfter(FormatOffset(name, offset, true), |name|) == Some(offset)
  {
    var ds := ToDigits(offset, 16);
    var s := FormatOffset(name, offset, true);
    var b := |name| + 3;
    DigitsRoundTrip(offset, 16);
    assert s[|name|] == ' ' && s[|name| + 1] == '+' && s[|name| + 2] == ' ' && s[b] == '0' && s[b + 1] == 'x';
    SkipWhileStops(s, |name|, b, c => !IsDecimalDigit(c));
    assert s[b + 2..] == ds;
    ParseLongDigits(ds, 16);
  }

  /** The decimal offset written after a name is the one read back. */
  lemma DecimalOffsetAfterName(name: string, offset: nat)
    ensures OffsetAfter(FormatOffset(name, offset, false), |name|) == Some(offset)
  {
    var ds := ToDigits(offset, 10);
    var s := FormatOffset(name, offset, false);
    var b := |name| + 3;
    DigitsRoundTrip(offset, 10);
    assert s[|name|] == ' ' && s[|name| + 1] == '+' && s[|name| + 2] == ' ' && s[b] == ds[0];
    SkipWhileStops(s, |name|, b, c => !IsDecimalDigit(c));
    assert s[b..] == ds;
    assert b + 1 < |s| ==> s[b] != '0';
    ParseLongDigits(ds, 10);
  }

  /* ----- DispatchForModule ----- */

  /**
   * How a hook finds its target. The enumeration is declared in hooks.h,
   * which is not part of this model; only the two modes the matching rule
   * names are told apart.
   */
  datatype ResolutionMode = OffsetString | ProcAddress | OtherMode

  /** An `__autohook`, reduced to what matching reads. */
  datatype Hook = Hook(mode: ResolutionMode, addrString: string, moduleName: string)

  /** `strncmp(m, s, strlen(m)) == 0` on strings without a NUL. */
  predicate IsPrefix(m: string, s: string) {
    |m| <= |s| && s[..|m|] == m
  }

  /** The matching rule: an offset-string hook whose address string starts with
      the module name, or a proc-address hook naming exactly that module. */
  predicate DispatchesFor(loaded: string, h: Hook) {
    || (h.mode == OffsetString && IsPrefix(loaded, h.addrString))
    || (h.mode == ProcAddress && loaded == h.moduleName)
  }

  predicate Increasing(ids: seq<nat>) {
    forall a, b :: 0 <= a < b < |ids| ==> ids[a] < ids[b]
  }

  /** `DispatchForModule`: the hooks of one file it installs, in file order. */
  function DispatchForModule(loaded: string, hooks: seq<Hook>): (ids: seq<nat>)
    ensures Increasing(ids)
    ensures forall i :: i in ids <==> 0 <= i < |hooks| && DispatchesFor(loaded, hooks[i])
  {
    if |hooks| == 0 then []
    else
      var rest := DispatchForModule(loaded, hooks[..|hooks| - 1]);
      assert forall a :: 0 <= a < |rest| ==> rest[a] < |hooks| - 1 by {
        forall a | 0 <= a < |rest| ensures rest[a] < |hooks| - 1 {
          assert rest[a] in rest;
        }
      }
      if DispatchesFor(loaded, hooks[|hooks| - 1]) then rest + [|hooks| - 1] else rest
  }

  /** A hook written with `FormatOffset` for a module is installed when that
      module loads, whatever the offset. */
  lemma FormattedHookDispatches(name: string, offset: nat, hex: bool, moduleName: string)
    ensures DispatchesFor(name, Hook(OffsetString, FormatOffset(name, offset, hex), moduleName))
  {
    var s := FormatOffset(name, offset, hex);
    assert s[..|name|] == name;
  }

  /**
   * The rule compares prefixes, not names: loading `server` installs a hook
   * written for `server.dll`, and a proc-address hook for `server.dll` is
   * installed only for that exact name.
   */
  lemma PrefixMatchExample()
    ensures DispatchesFor("server", Hook(OffsetString, "server.dll + 0x10", ""))
    ensures !DispatchesFor("server", Hook(ProcAddress, "", "server.dll"))
    ensures !DispatchesFor("server.dll", Hook(OtherMode, "server.dll + 0x10", "server.dll"))
  {
    assert "server.dll + 0x10"[..6] == "server";
  }

  /** Digits in the module name are skipped by the offset seek, and `0X`
      reads as hex like `0x`. */
  lemma HexOffsetExample(s: string)
    requires s == "d3 + 0XF"
    ensures ParseDllOffsetString(s, map["d3" := 0x1000]) == Address(0x100F)
  {
    HexExampleName(s);
    HexExampleOffset(s);
    Resolves(s, map["d3" := 0x1000], "d3", 15);
  }

  lemma HexExampleName(s: string)
    requires s == "d3 + 0XF"
    ensures ModuleName(s) == Some("d3")
  {
    SkipWhileStops(s, 0, 2, c => !EndsName(c));
    assert s[..2] == "d3";
  }

  lemma HexExampleOffset(s: string)
    requires s == "d3 + 0XF"
    ensures OffsetAfter(s, 2) == Some(15)
  {
    SkipWhileStops(s, 2, 5, c => !IsDecimalDigit(c));
    var ds := s[7..];
    assert |ds| == 1 && ds[0] == 'F';
    ParseLongDigits(ds, 16);
    assert ds[..0] == [];
  }

  /** A `+` ends the name as white space does; without `0x` the offset is decimal. */
  lemma DecimalOffsetExample(s: string)
    requires s == "e+9"
    ensures ParseDllOffsetString(s, map["e" := 0x2000]) == Address(0x2009)
  {
    assert ModuleName(s) == Some("e") by {
      SkipWhileStops(s, 0, 1, c => !EndsName(c));
      assert s[..1] == "e";
    }
    assert OffsetAfter(s, 1) == Some(9) by {
      SkipWhileStops(s, 1, 2, c => !IsDecimalDigit(c));
      var ds := s[2..];
      assert |ds| == 1 && ds[0] == '9';
      ParseLongDigits(ds, 10);
      assert ds[..0] == [];
    }
  }

  /** A module that is not loaded gives 0. */
  lemma UnloadedExample(s: string)
    requires s == "c + 0x10"
    ensures ParseDllOffsetString(s, map["e" := 0x2000]) == Address(0)
  {
    assert ModuleName(s) == Some("c") by {
      SkipWhileStops(s, 0, 1, c => !EndsName(c));
      assert s[..1] == "c";
    }
  }

  /** A name with nothing after it is never terminated. */
  lemma UnterminatedExample(s: string)
    requires s == "server.dll"
    ensures ParseDllOffsetString(s, map["server.dll" := 0x2000]) == NameUnterminated
  {
    assert forall k :: 0 <= k < |s| ==> !EndsName(s[k]);
  }

  /** A string with no digit after the name has no offset. */
  lemma NoOffsetExample(s: string)
    requires s == "s + x"
    ensures ParseDllOffsetString(s, map["s" := 0x2000]) == NoOffset
  {
    assert ModuleName(s) == Some("s") by {
      SkipWhileStops(s, 0, 1, c => !EndsName(c));
      assert s[..1] == "s";
    }
    assert OffsetAfter(s, 1) == None by {
      SkipWhileStops(s, 1, |s|, c => !IsDecimalDigit(c));
      assert s[|s|..] == "";
    }
  }
}
