/**
 * File-name extensions and the extension tables they are looked up in, shared
 * by src/guess.ts, src/find.ts and src/feat/MediaType/guess/byFileExtension.ts.
 * All three take the extension with the pattern `/\.([^\.]+)$/`, that is the
 * non-empty, dot-free run after the last `.`, lowercase it, and read the
 * property of that name from a table written as an object literal.
 */
module FileExtension {
  import opened Wrappers

  /** The longest dot-free tail of a name. */
  function DotFreeSuffix(name: string): (e: string)
    ensures |e| <= |name| && e == name[|name| - |e|..]
    ensures '.' !in e
    ensures |e| < |name| ==> name[|name| - |e| - 1] == '.'
  {
    if name == [] || name[|name| - 1] == '.' then []
    else DotFreeSuffix(name[..|name| - 1]) + [name[|name| - 1]]
  }

  /**
   * What `/\.([^\.]+)$/` captures: the run after the last `.`, when that run
   * is not empty. A name without a `.`, or ending in one, has none.
   */
  function ExtensionOf(name: string): (r: Option<string>)
    ensures r.Some? ==> r.value != [] && '.' !in r.value
    ensures r.Some? ==> |r.value| < |name| && name == name[..|name| - |r.value| - 1] + "." + r.value
  {
    var e := DotFreeSuffix(name);
    if e != [] && |e| < |name| then
      assert name == name[..|name| - |e| - 1] + "." + e;
      Some(e)
    else None
  }

  /** ASCII lowercasing: `A`..`Z` become `a`..`z`, every other character stays. */
  function LowerChar(c: char): (d: char)
    ensures !('A' <= d <= 'Z')
    ensures 'a' <= c <= 'z' ==> d == c
  {
    if 'A' <= c <= 'Z' then (c as int + 32) as char else c
  }

  function LowerAscii(s: string): (r: string)
    ensures |r| == |s|
    ensures forall k :: 0 <= k < |s| ==> r[k] == LowerChar(s[k])
  {
    seq(|s|, k requires 0 <= k < |s| => LowerChar(s[k]))
  }

  /** The lowercased extension, as the three lookups compute it before reading the table. */
  function Extension(name: string): (r: Option<string>)
    ensures r.Some? <==> ExtensionOf(name).Some?
    ensures r.Some? ==> r.value == LowerAscii(ExtensionOf(name).value)
  {
    match ExtensionOf(name)
    case None => None
    case Some(e) => Some(LowerAscii(e))
  }

  /** A dot-free, non-empty run after a `.` is the extension, whatever comes before. */
  lemma {:induction false} ExtensionAfterDot(prefix: string, e: string)
    requires e != [] && '.' !in e
    ensures ExtensionOf(prefix + "." + e) == Some(e)
  {
    var name := prefix + "." + e;
    DotFreeSuffixOfDotFree(prefix + ".", e);
  }

  /** Appending a dot-free run after a `.` makes that run the dot-free tail. */
  lemma DotFreeSuffixOfDotFree(head: string, e: string)
    requires head != [] && head[|head| - 1] == '.' && '.' !in e
    ensures DotFreeSuffix(head + e) == e
  {
    var name := head + e;
    assert name[|head|..] == e;
  }

  /** A name has no extension exactly when it holds no `.` or ends in one. */
  lemma NoExtension(name: string)
    ensures ExtensionOf(name).None? <==> name == [] || name[|name| - 1] == '.' || '.' !in name
  {
    var e := DotFreeSuffix(name);
    if '.' in name && name[|name| - 1] != '.' {
      var p :| 0 <= p < |name| && name[p] == '.';
      assert e != [] by {
        assert name == name[..|name| - 1] + [name[|name| - 1]];
      }
      assert forall q :: |name| - |e| <= q < |name| ==> name[q] == e[q - (|name| - |e|)];
      assert p < |name| - |e|;
    }
  }

  /** Lowercasing the whole name first gives the same extension. */
  lemma ExtensionOfLowered(name: string)
    ensures Extension(name) == ExtensionOf(LowerAscii(name))
  {
    var low := LowerAscii(name);
    LoweredDotFreeSuffix(name);
    if ExtensionOf(name).Some? {
      assert LowerAscii(DotFreeSuffix(name)) == DotFreeSuffix(low);
    }
  }

  /** The dot-free tail of the lowercased name is the lowercased dot-free tail. */
  lemma {:induction false} LoweredDotFreeSuffix(name: string)
    ensures DotFreeSuffix(LowerAscii(name)) == LowerAscii(DotFreeSuffix(name))
    decreases |name|
  {
    if name != [] && name[|name| - 1] != '.' {
      var init := name[..|name| - 1];
      assert LowerAscii(name)[..|name| - 1] == LowerAscii(init);
      LoweredDotFreeSuffix(init);
      assert LowerAscii(DotFreeSuffix(init) + [name[|name| - 1]]) == LowerAscii(DotFreeSuffix(init)) + [LowerChar(name[|name| - 1])];
    }
  }

  /** A name whose extension is an own property looks up that property's types. */
  lemma LookupOwn(table: ExtensionTable, name: string, e: string, types: seq<string>)
    requires Extension(name) == Some(e) && OwnProperty(table, e) == Some(types)
    ensures LookupTypes(table, name) == types
  {
  }

  /** Names that differ only in the case of ASCII letters have the same extension. */
  lemma CaseInsensitive(a: string, b: string)
    requires LowerAscii(a) == LowerAscii(b)
    ensures Extension(a) == Extension(b)
  {
    ExtensionOfLowered(a);
    ExtensionOfLowered(b);
  }

  /**
   * A table written as an object literal: extensions and their media types in
   * the order the literal lists them.
   */
  type ExtensionTable = seq<(string, seq<string>)>

  /** The table's own property `key`: its value in the last entry with that key, as a later literal property overrides an earlier one. */
  function OwnProperty(table: ExtensionTable, key: string): (r: Option<seq<string>>)
    ensures r.Some? <==> exists i :: 0 <= i < |table| && table[i].0 == key
    ensures r.Some? ==> exists i :: 0 <= i < |table| && table[i] == (key, r.value)
  {
    if table == [] then None
    else if table[|table| - 1].0 == key then
      assert table[|table| - 1] == (key, table[|table| - 1].1);
      Some(table[|table| - 1].1)
    else
      var r := OwnProperty(table[..|table| - 1], key);
      assert forall i :: 0 <= i < |table| - 1 ==> table[..|table| - 1][i] == table[i];
      r
  }

  /** A key's own property in two tables written one after the other: the later table wins. */
  lemma {:induction false} OwnPropertyAppend(a: ExtensionTable, b: ExtensionTable, key: string)
    ensures OwnProperty(a + b, key) == if OwnProperty(b, key).Some? then OwnProperty(b, key) else OwnProperty(a, key)
    decreases |b|
  {
    if b == [] {
      assert a + b == a;
    } else {
      assert (a + b)[..|a + b| - 1] == a + b[..|b| - 1];
      OwnPropertyAppend(a, b[..|b| - 1], key);
    }
  }

  /** Every media type the table lists is in `s`. */
  predicate TypesWithin(table: ExtensionTable, s: set<string>)
  {
    forall i, t :: 0 <= i < |table| && t in table[i].1 ==> t in s
  }

  /** From the `i`-th entry on, every listed media type is in `s`; checked entry by entry. */
  predicate TypesChecked(table: ExtensionTable, s: set<string>, i: nat)
    requires i <= |table|
    decreases |table| - i
  {
    i == |table| || ((forall t :: t in table[i].1 ==> t in s) && TypesChecked(table, s, i + 1))
  }

  lemma {:induction false} TypesCheckedSound(table: ExtensionTable, s: set<string>, i: nat)
    requires i <= |table| && TypesChecked(table, s, i)
    ensures forall m, t :: i <= m < |table| && t in table[m].1 ==> t in s
    decreases |table| - i
  {
    if i < |table| {
      TypesCheckedSound(table, s, i + 1);
    }
  }

  lemma CheckedTypes(table: ExtensionTable, s: set<string>)
    requires TypesChecked(table, s, 0)
    ensures TypesWithin(table, s)
  {
    TypesCheckedSound(table, s, 0);
  }

  lemma TypesWithinAppend(a: ExtensionTable, b: ExtensionTable, s: set<string>)
    requires TypesWithin(a, s) && TypesWithin(b, s)
    ensures TypesWithin(a + b, s)
  {
    forall i, t | 0 <= i < |a + b| && t in (a + b)[i].1 ensures t in s {
      if i >= |a| {
        assert (a + b)[i] == b[i - |a|];
      }
    }
  }

  /** Whatever a table yields for a key is drawn from the types it lists. */
  lemma OwnPropertyWithin(table: ExtensionTable, s: set<string>, key: string)
    requires TypesWithin(table, s)
    ensures OwnProperty(table, key).Some? ==> forall t :: t in OwnProperty(table, key).value ==> t in s
  {
  }

  /** No key of the table is in `s`. */
  predicate KeysOutside(table: ExtensionTable, s: set<string>)
  {
    forall i :: 0 <= i < |table| ==> table[i].0 !in s
  }

  /** From the `i`-th entry on, no key is in `s`; checked entry by entry. */
  predicate KeysAvoid(table: ExtensionTable, s: set<string>, i: nat)
    requires i <= |table|
    decreases |table| - i
  {
    i == |table| || (table[i].0 !in s && KeysAvoid(table, s, i + 1))
  }

  lemma {:induction false} KeysAvoidSound(table: ExtensionTable, s: set<string>, i: nat)
    requires i <= |table| && KeysAvoid(table, s, i)
    ensures forall m :: i <= m < |table| ==> table[m].0 !in s
    decreases |table| - i
  {
    if i < |table| {
      KeysAvoidSound(table, s, i + 1);
    }
  }

  lemma KeysOutsideAppend(a: ExtensionTable, b: ExtensionTable, s: set<string>)
    requires KeysOutside(a, s) && KeysOutside(b, s)
    ensures KeysOutside(a + b, s)
  {
    forall i | 0 <= i < |a + b| ensures (a + b)[i].0 !in s {
      if i >= |a| {
        assert (a + b)[i] == b[i - |a|];
      }
    }
  }

  /** Tables written one after the other as one literal. */
  function Concat(groups: seq<ExtensionTable>): (table: ExtensionTable)
  {
    if groups == [] then [] else Concat(groups[..|groups| - 1]) + groups[|groups| - 1]
  }

  /**
   * When no group after the `p`-th has `key`, the key's own property in the
   * joined table is the `p`-th group's, or the earlier groups' when that one
   * lacks it too.
   */
  lemma {:induction false} OwnPropertyConcat(groups: seq<ExtensionTable>, p: nat, key: string)
    requires p < |groups| && forall j :: p < j < |groups| ==> OwnProperty(groups[j], key).None?
    ensures OwnProperty(Concat(groups), key) ==
      if OwnProperty(groups[p], key).Some? then OwnProperty(groups[p], key) else OwnProperty(Concat(groups[..p]), key)
    decreases |groups|
  {
    var n := |groups| - 1;
    var init := groups[..n];
    OwnPropertyAppend(Concat(init), groups[n], key);
    if p < n {
      assert init[..p] == groups[..p];
      OwnPropertyConcat(init, p, key);
    }
  }

  lemma {:induction false} KeysOutsideConcat(groups: seq<ExtensionTable>, s: set<string>)
    requires forall j :: 0 <= j < |groups| ==> KeysOutside(groups[j], s)
    ensures KeysOutside(Concat(groups), s)
    decreases |groups|
  {
    if groups != [] {
      var n := |groups| - 1;
      KeysOutsideConcat(groups[..n], s);
      KeysOutsideAppend(Concat(groups[..n]), groups[n], s);
    }
  }

  /** An entry no later entry overrides gives the key's own property. */
  lemma {:induction false} OwnPropertyFound(table: ExtensionTable, i: nat, key: string)
    requires i < |table| && table[i].0 == key
    requires forall m :: i < m < |table| ==> table[m].0 != key
    ensures OwnProperty(table, key) == Some(table[i].1)
    decreases |table|
  {
    var n := |table| - 1;
    if i < n {
      var init := table[..n];
      assert init[i] == table[i];
      OwnPropertyFound(init, i, key);
    }
  }

  /**
   * Names none of the extension tables lists: two that the lookups' tests
   * probe and the two lowercase names every object literal inherits.
   */
  const UnlistedNames: set<string> := {"undefined", "undefined-2", "constructor", "__proto__"}

  /** A table none of whose keys is in `s` has no own property named by `s`. */
  lemma NoOwnProperty(table: ExtensionTable, s: set<string>, key: string)
    requires KeysOutside(table, s) && key in s
    ensures OwnProperty(table, key).None?
  {
  }

  /**
   * The properties every object literal inherits from `Object.prototype`
   * (section 20.1.3 and Annex B.2.2 of ECMAScript 2024).
   */
  const PrototypeKeys: set<string> := {
    "constructor", "hasOwnProperty", "isPrototypeOf", "propertyIsEnumerable",
    "toLocaleString", "toString", "valueOf", "__proto__", "__defineGetter__",
    "__defineSetter__", "__lookupGetter__", "__lookupSetter__"
  }

  /** What reading `table[key]` yields in JavaScript. */
  datatype Property = Absent | Own(types: seq<string>) | Inherited(name: string)

  /** `table[key]`: an own property first, then an inherited one. */
  function ReadProperty(table: ExtensionTable, key: string): (p: Property)
    ensures p.Own? <==> OwnProperty(table, key).Some?
    ensures p.Own? ==> p.types == OwnProperty(table, key).value
    ensures p.Inherited? <==> OwnProperty(table, key).None? && key in PrototypeKeys
  {
    match OwnProperty(table, key)
    case Some(types) => Own(types)
    case None => if key in PrototypeKeys then Inherited(key) else Absent
  }

  /** No upper-case ASCII letter. */
  predicate NoUpper(s: string)
  {
    forall k :: 0 <= k < |s| ==> !('A' <= s[k] <= 'Z')
  }

  /** Lowercasing leaves no upper-case ASCII letter, and leaves a string without one as it is. */
  lemma LowerAsciiLowers(s: string)
    ensures NoUpper(LowerAscii(s))
    ensures NoUpper(s) ==> LowerAscii(s) == s
  {
  }

  /** The extension of `prefix.e`, for a lowercase `e` without dots, is `e`. */
  lemma ExtensionIs(name: string, prefix: string, e: string)
    requires name == prefix + "." + e
    requires e != [] && '.' !in e && NoUpper(e)
    ensures Extension(name) == Some(e)
  {
    ExtensionAfterDot(prefix, e);
    LowerAsciiLowers(e);
  }

  /** The extension of `prefix.PNG` is `png`: the extension is lowercased before the lookup. */
  lemma UpperPngExtension(name: string, prefix: string)
    requires name == prefix + "." + "PNG"
    ensures Extension(name) == Some("png")
  {
    ExtensionAfterDot(prefix, "PNG");
    assert LowerAscii("PNG") == "png";
  }

  /**
   * Of the inherited names only `constructor` and `__proto__` are written in
   * lowercase, so they are the only lowercased extensions that reach
   * `Object.prototype`.
   */
  lemma LoweredPrototypeKeys(e: string)
    ensures LowerAscii(e) in PrototypeKeys <==> LowerAscii(e) == "constructor" || LowerAscii(e) == "__proto__"
  {
    assert NoUpper(LowerAscii(e));
    assert !NoUpper("hasOwnProperty") by { assert "hasOwnProperty"[3] == 'O'; }
    assert !NoUpper("isPrototypeOf") by { assert "isPrototypeOf"[2] == 'P'; }
    assert !NoUpper("propertyIsEnumerable") by { assert "propertyIsEnumerable"[8] == 'I'; }
    assert !NoUpper("toLocaleString") by { assert "toLocaleString"[2] == 'L'; }
    assert !NoUpper("toString") by { assert "toString"[2] == 'S'; }
    assert !NoUpper("valueOf") by { assert "valueOf"[5] == 'O'; }
    assert !NoUpper("__defineGetter__") by { assert "__defineGetter__"[8] == 'G'; }
    assert !NoUpper("__defineSetter__") by { assert "__defineSetter__"[8] == 'S'; }
    assert !NoUpper("__lookupGetter__") by { assert "__lookupGetter__"[8] == 'G'; }
    assert !NoUpper("__lookupSetter__") by { assert "__lookupSetter__"[8] == 'S'; }
  }

  /**
   * The lookup the three callers mean: the types listed by the last entry whose
   * key is the name's lowercased extension, none when the name has no
   * extension or no entry has that key.
   */
  function LookupTypes(table: ExtensionTable, name: string): (r: seq<string>)
    ensures Extension(name).None? ==> r == []
    ensures (forall i :: 0 <= i < |table| ==> Extension(name) != Some(table[i].0)) ==> r == []
    ensures forall i ::
      (0 <= i < |table| && Extension(name) == Some(table[i].0) &&
       (forall j :: i < j < |table| ==> table[j].0 != table[i].0)) ==> r == table[i].1
  {
    match Extension(name)
    case None => []
    case Some(e) =>
      forall i | 0 <= i < |table| && e == table[i].0 && (forall j :: i < j < |table| ==> table[j].0 != table[i].0)
        ensures OwnProperty(table, e) == Some(table[i].1)
      {
        OwnPropertyFound(table, i, e);
      }
      match OwnProperty(table, e)
      case None => []
      case Some(types) => types
  }

  /** Names that differ only in the case of ASCII letters look up the same types. */
  lemma LookupCaseInsensitive(table: ExtensionTable, a: string, b: string)
    requires LowerAscii(a) == LowerAscii(b)
    ensures LookupTypes(table, a) == LookupTypes(table, b)
  {
    CaseInsensitive(a, b);
  }

  /** Every type a lookup yields is one the table lists. */
  lemma LookupWithin(table: ExtensionTable, s: set<string>, name: string)
    requires TypesWithin(table, s)
    ensures forall t :: t in LookupTypes(table, name) ==> t in s
  {
    if Extension(name).Some? {
      OwnPropertyWithin(table, s, Extension(name).value);
    }
  }

  /** A name without a `.`, or ending in one, looks up nothing. */
  lemma NoExtensionNoTypes(table: ExtensionTable, name: string)
    requires name == [] || name[|name| - 1] == '.' || '.' !in name
    ensures LookupTypes(table, name) == []
  {
    NoExtension(name);
  }

  /** An unlisted lowercased extension looks up nothing. */
  lemma UnlistedNoTypes(table: ExtensionTable, name: string)
    requires KeysOutside(table, UnlistedNames)
    requires Extension(name).Some? && Extension(name).value in UnlistedNames
    ensures LookupTypes(table, name) == []
  {
    NoOwnProperty(table, UnlistedNames, Extension(name).value);
  }

  /** What the lookup expression yields in JavaScript: a listed array, or a value inherited from `Object.prototype` that is not an array. */
  datatype Lookup = Listed(types: seq<string>) | NotAnArray(name: string)

  /**
   * `extension ? table[extension] ?? [] : []` as written: an inherited
   * property is not `undefined`, so `??` lets it through.
   */
  function LookupAsWritten(table: ExtensionTable, name: string): (r: Lookup)
    ensures r.NotAnArray? <==>
      (Extension(name).Some? && OwnProperty(table, Extension(name).value).None? &&
       (Extension(name).value == "constructor" || Extension(name).value == "__proto__"))
    ensures r.Listed? ==> r.types == LookupTypes(table, name)
  {
    match Extension(name)
    case None => Listed([])
    case Some(e) =>
      LoweredPrototypeKeys(ExtensionOf(name).value);
      match ReadProperty(table, e)
      case Own(types) => Listed(types)
      case Absent => Listed([])
      case Inherited(n) => NotAnArray(n)
  }

  /**
   * For a table that lists neither `constructor` nor `__proto__`, the lookup as
   * written yields a value that is not an array exactly for those two
   * extensions, and the listed types otherwise.
   */
  lemma PrototypeReached(table: ExtensionTable, name: string)
    requires KeysOutside(table, UnlistedNames)
    ensures LookupAsWritten(table, name).NotAnArray? <==>
      (Extension(name) == Some("constructor") || Extension(name) == Some("__proto__"))
    ensures LookupAsWritten(table, name).Listed? ==> LookupAsWritten(table, name).types == LookupTypes(table, name)
  {
    if Extension(name).Some? && Extension(name).value in UnlistedNames {
      NoOwnProperty(table, UnlistedNames, Extension(name).value);
    }
  }

  /** What `new Set(value)` yields: the set of an array's elements, or a `TypeError` for a value that is not iterable. */
  datatype SetResult = Made(members: set<string>) | TypeError

  function NewSet(l: Lookup): (r: SetResult)
    ensures r.TypeError? <==> l.NotAnArray?
    ensures r.Made? ==> forall t :: t in r.members <==> t in l.types
  {
    match l
    case Listed(types) => Made(set t | t in types)
    case NotAnArray(_) => TypeError
  }
}
