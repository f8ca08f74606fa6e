/** ABI versions: parsing, printing, ordering, and compatibility with a loader. */
module AbiVersion {
  import opened Wrappers
  import opened Decimal

  datatype Version = Version(major: nat, minor: nat, patch: nat)

  /** Every component is a 32-bit unsigned number. */
  predicate IsU32(v: Version) {
    v.major <= U32_MAX && v.minor <= U32_MAX && v.patch <= U32_MAX
  }

  datatype Constraint = Exact | SameMajor | SameMinor | Any

  datatype Error =
    | VersionTooOld(plugin: Version, requiredMin: Version, provided: Version)
    | VersionTooNew(plugin: Version, requiredMax: Version, provided: Version)
    | ConstraintViolation(plugin: Version, loader: Version, constraint: Constraint)

  // ---------------------------------------------------------------- text

  function Split(s: string, c: char): (parts: seq<string>)
    ensures |parts| > 0
  {
    if s == [] then [[]]
    else
      var rest := Split(s[1..], c);
      if s[0] == c then [[]] + rest else [[s[0]] + rest[0]] + rest[1..]
  }

  function Parse(s: string): Option<Version> {
    var parts := Split(s, '.');
    if |parts| != 3 then None else
    var major, minor, patch := ParseUnsigned(parts[0], U32_MAX), ParseUnsigned(parts[1], U32_MAX),
      ParseUnsigned(parts[2], U32_MAX);
    if major.None? || minor.None? || patch.None? then None else Some(Version(major.value, minor.value, patch.value))
  }

  function ToText(v: Version): string {
    Decimal.Print(v.major) + "." + Decimal.Print(v.minor) + "." + Decimal.Print(v.patch)
  }

  function Joined(a: string, b: string, c: string): string {
    a + "." + b + "." + c
  }

  lemma {:induction false} SplitOne(a: string, rest: string)
    requires '.' !in a
    ensures Split(a + "." + rest, '.') == [a] + Split(rest, '.')
    decreases |a|
  {
    var s := a + "." + rest;
    if a == [] {
      assert s[0] == '.' && s[1..] == rest;
    } else {
      assert s[0] == a[0] && s[1..] == a[1..] + "." + rest;
      SplitOne(a[1..], rest);
      assert [a[0]] + a[1..] == a;
    }
  }

  lemma {:induction false} SplitNone(a: string)
    requires '.' !in a
    ensures Split(a, '.') == [a]
    decreases |a|
  {
    if a != [] {
      SplitNone(a[1..]);
      assert [a[0]] + a[1..] == a;
    }
  }

  lemma SplitThree(a: string, b: string, c: string)
    requires '.' !in a && '.' !in b && '.' !in c
    ensures Split(Joined(a, b, c), '.') == [a, b, c]
  {
    assert Joined(a, b, c) == a + "." + (b + "." + c);
    SplitOne(a, b + "." + c);
    SplitOne(b, c);
    SplitNone(c);
  }

  function Join(parts: seq<string>): string {
    if parts == [] then [] else if |parts| == 1 then parts[0] else parts[0] + "." + Join(parts[1..])
  }

  lemma JoinThree(parts: seq<string>)
    requires |parts| == 3
    ensures Join(parts) == Joined(parts[0], parts[1], parts[2])
  {
    assert parts[1..] == [parts[1], parts[2]] && parts[1..][1..] == [parts[2]];
    assert Join(parts[1..]) == parts[1] + "." + parts[2];
    assert Joined(parts[0], parts[1], parts[2]) == parts[0] + "." + (parts[1] + "." + parts[2]);
  }

  /** Splitting loses nothing: joining the parts with dots gives the text back. */
  lemma {:induction false} JoinSplit(s: string)
    ensures Join(Split(s, '.')) == s
    decreases |s|
  {
    if s != [] {
      JoinSplit(s[1..]);
      assert s == [s[0]] + s[1..];
    }
  }

  /** Parsing undoes printing. */
  lemma ParsePrinted(v: Version)
    requires IsU32(v)
    ensures Parse(ToText(v)) == Some(v)
  {
    var a, b, c := Decimal.Print(v.major), Decimal.Print(v.minor), Decimal.Print(v.patch);
    assert '.' !in a && '.' !in b && '.' !in c by {
      assert !IsDigit('.');
    }
    SplitThree(a, b, c);
    ParsePrint(v.major, U32_MAX);
    ParsePrint(v.minor, U32_MAX);
    ParsePrint(v.patch, U32_MAX);
  }

  /** Digits without a superfluous leading zero, and no sign. */
  predicate Canonical(s: string) {
    s != [] && AllDigits(s) && (|s| > 1 ==> s[0] != '0')
  }

  lemma {:induction false} PrintsCanonically(n: nat)
    ensures Canonical(Decimal.Print(n)) && (n > 0 ==> Decimal.Print(n)[0] != '0')
    decreases n
  {
    if n >= 10 {
      PrintsCanonically(n / 10);
    }
  }

  lemma {:induction false} CanonicalIsPrinted(s: string)
    requires Canonical(s)
    ensures Decimal.Print(Value(s)) == s
    ensures |s| > 1 ==> Value(s) >= 10
    decreases |s|
  {
    var front, last := s[..|s| - 1], s[|s| - 1];
    if |s| == 1 {
      assert front == [];
    } else {
      CanonicalIsPrinted(front);
      assert |front| == 1 ==> front[..0] == [];
      assert Value(front) > 0;
      assert Value(s) / 10 == Value(front) && Value(s) % 10 == DigitValue(last);
      assert s == front + [last];
    }
  }

  lemma CanonicalIffReprinted(s: string)
    requires ParseUnsigned(s, U32_MAX).Some?
    ensures Decimal.Print(ParseUnsigned(s, U32_MAX).value) == s <==> Canonical(s)
  {
    PrintsCanonically(ParseUnsigned(s, U32_MAX).value);
    if Canonical(s) {
      assert IsDigit(s[0]);
      CanonicalIsPrinted(s);
    }
  }

  lemma {:induction false} PartsHaveNoDots(s: string, i: nat)
    requires i < |Split(s, '.')|
    ensures '.' !in Split(s, '.')[i]
    decreases |s|
  {
    if s != [] {
      var rest := Split(s[1..], '.');
      PartsHaveNoDots(s[1..], if s[0] == '.' && i > 0 then i - 1 else if s[0] == '.' then 0 else i);
    }
  }

  /** `s` is the three numbers of `v` between two dots, the major version first. */
  predicate Spells(s: string, v: Version, a: string, b: string, c: string) {
    && '.' !in a && '.' !in b && '.' !in c && s == Joined(a, b, c)
    && ParseUnsigned(a, U32_MAX) == Some(v.major) && ParseUnsigned(b, U32_MAX) == Some(v.minor)
    && ParseUnsigned(c, U32_MAX) == Some(v.patch)
  }

  /** What parses, and to what. */
  lemma ParseIff(s: string, v: Version)
    ensures Parse(s) == Some(v) <==> exists a, b, c :: Spells(s, v, a, b, c)
  {
    if Parse(s) == Some(v) {
      var parts := Split(s, '.');
      JoinSplit(s);
      JoinThree(parts);
      PartsHaveNoDots(s, 0);
      PartsHaveNoDots(s, 1);
      PartsHaveNoDots(s, 2);
      assert Spells(s, v, parts[0], parts[1], parts[2]);
    }
    if a, b, c :| Spells(s, v, a, b, c) {
      SplitThree(a, b, c);
    }
  }

  /** Printing a parsed text is stable under parsing again, and gives back the very text exactly when its three
      components carry no sign and no leading zero. */
  lemma ReprintIsStable(s: string)
    requires Parse(s).Some?
    ensures Parse(ToText(Parse(s).value)) == Parse(s)
    ensures ToText(Parse(s).value) == s <==>
            Canonical(Split(s, '.')[0]) && Canonical(Split(s, '.')[1]) && Canonical(Split(s, '.')[2])
  {
    var v, parts := Parse(s).value, Split(s, '.');
    ParsePrinted(v);
    JoinSplit(s);
    JoinThree(parts);
    CanonicalIffReprinted(parts[0]);
    CanonicalIffReprinted(parts[1]);
    CanonicalIffReprinted(parts[2]);
    var a, b, c := Decimal.Print(v.major), Decimal.Print(v.minor), Decimal.Print(v.patch);
    assert !IsDigit('.');
    SplitThree(a, b, c);
  }

  // ---------------------------------------------------------------- order and compatibility

  /** The derived lexicographic order. */
  predicate Leq(a: Version, b: Version) {
    a.major < b.major || (a.major == b.major && (a.minor < b.minor || (a.minor == b.minor && a.patch <= b.patch)))
  }

  lemma OrderIsTotal(a: Version, b: Version, c: Version)
    ensures Leq(a, b) || Leq(b, a)
    ensures Leq(a, b) && Leq(b, a) ==> a == b
    ensures Leq(a, b) && Leq(b, c) ==> Leq(a, c)
  {
  }

  datatype Compatibility = Compatibility(plugin: Version, minLoader: Version, maxLoader: Option<Version>,
                                         constraint: Constraint)

  predicate Satisfied(c: Constraint, required: Version, provided: Version) {
    match c
    case Exact => required == provided
    case SameMajor => required.major == provided.major
    case SameMinor => required.major == provided.major && required.minor == provided.minor
    case Any => true
  }

  function IsCompatibleWith(c: Compatibility, loader: Version): Result<(), Error> {
    if !Leq(c.minLoader, loader) then Err(VersionTooOld(c.plugin, c.minLoader, loader))
    else if c.maxLoader.Some? && !Leq(loader, c.maxLoader.value) then
      Err(VersionTooNew(c.plugin, c.maxLoader.value, loader))
    else if !Satisfied(c.constraint, c.plugin, loader) then Err(ConstraintViolation(c.plugin, loader, c.constraint))
    else Ok(())
  }

  function Max(a: Version, b: Version): Version {
    if Leq(a, b) then b else a
  }

  function Min(a: Version, b: Version): Version {
    if Leq(a, b) then a else b
  }

  /** The least and greatest 32-bit versions a constraint admits. */
  function Floor(c: Constraint, v: Version): Version {
    match c
    case Exact => v
    case SameMajor => Version(v.major, 0, 0)
    case SameMinor => Version(v.major, v.minor, 0)
    case Any => Version(0, 0, 0)
  }

  function Ceiling(c: Constraint, v: Version): Version {
    match c
    case Exact => v
    case SameMajor => Version(v.major, U32_MAX, U32_MAX)
    case SameMinor => Version(v.major, v.minor, U32_MAX)
    case Any => Version(U32_MAX, U32_MAX, U32_MAX)
  }

  /** The loaders a plugin accepts are one interval of the version order, for every constraint and bound. */
  lemma AcceptedIsAnInterval(c: Compatibility, loader: Version)
    requires IsU32(loader)
    ensures IsCompatibleWith(c, loader).Ok? <==>
      && Leq(Max(c.minLoader, Floor(c.constraint, c.plugin)), loader)
      && Leq(loader, Min(c.maxLoader.GetOr(Ceiling(c.constraint, c.plugin)), Ceiling(c.constraint, c.plugin)))
  {
  }

  /** Why a loader is rejected, with what the error names: below the minimum, above the maximum if there is one, or in
      between and not satisfying the constraint.  So the three kinds never mix along the order. */
  lemma RejectedBecause(c: Compatibility, loader: Version, other: Version)
    ensures var r := IsCompatibleWith(c, loader);
      && (r == Err(VersionTooOld(c.plugin, c.minLoader, loader)) <==> loader != c.minLoader && Leq(loader, c.minLoader))
      && (c.maxLoader.Some? ==>
            (r == Err(VersionTooNew(c.plugin, c.maxLoader.value, loader)) <==>
               Leq(c.minLoader, loader) && loader != c.maxLoader.value && Leq(c.maxLoader.value, loader)))
      && (r.Err? && r.error.VersionTooNew? ==> c.maxLoader.Some?)
      && (r == Err(ConstraintViolation(c.plugin, loader, c.constraint)) <==>
            Leq(c.minLoader, loader) && (c.maxLoader.Some? ==> Leq(loader, c.maxLoader.value)) &&
            !Satisfied(c.constraint, c.plugin, loader))
    ensures Leq(other, loader) && IsCompatibleWith(c, loader) == Err(VersionTooOld(c.plugin, c.minLoader, loader)) ==>
              IsCompatibleWith(c, other) == Err(VersionTooOld(c.plugin, c.minLoader, other))
    ensures var r := IsCompatibleWith(c, loader);
            Leq(loader, other) && r.Err? && r.error.VersionTooNew? ==>
              IsCompatibleWith(c, other) == Err(VersionTooNew(c.plugin, c.maxLoader.value, other))
  {
  }

  /** So whatever lies between two accepted loaders is accepted. */
  lemma AcceptedIsConvex(c: Compatibility, low: Version, between: Version, high: Version)
    requires IsU32(low) && IsU32(between) && IsU32(high) && Leq(low, between) && Leq(between, high)
    requires IsCompatibleWith(c, low).Ok? && IsCompatibleWith(c, high).Ok?
    ensures IsCompatibleWith(c, between).Ok?
  {
    AcceptedIsAnInterval(c, low);
    AcceptedIsAnInterval(c, between);
    AcceptedIsAnInterval(c, high);
  }
}
