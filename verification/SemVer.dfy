/** Plugin versions: precedence (section 11 of Semantic Versioning 2.0.0) and Cargo-style constraints. */
module SemVer {
  import opened Wrappers

  datatype Ordering = Less | Equal | Greater {
    function Flip(): Ordering {
      match this
      case Less => Greater
      case Equal => Equal
      case Greater => Less
    }

    function Then(next: Ordering): Ordering {
      if Equal? then next else this
    }
  }

  datatype Identifier = Numeric(n: nat) | Alpha(s: string)

  /** `pre` is the pre-release, if any; build metadata takes no part in the order. */
  datatype Version = Version(major: nat, minor: nat, patch: nat, pre: Option<seq<Identifier>>, build: Option<string>)

  // ---------------------------------------------------------------- comparison

  function CompareNat(a: nat, b: nat): Ordering {
    if a < b then Less else if a == b then Equal else Greater
  }

  function CompareText(a: string, b: string): Ordering {
    if a == [] || b == [] then CompareNat(|a|, |b|)
    else CompareNat(a[0] as nat, b[0] as nat).Then(CompareText(a[1..], b[1..]))
  }

  /** Numbers come before words. */
  function CompareIdentifier(a: Identifier, b: Identifier): Ordering {
    match (a, b)
    case (Numeric(m), Numeric(n)) => CompareNat(m, n)
    case (Numeric(_), Alpha(_)) => Less
    case (Alpha(_), Numeric(_)) => Greater
    case (Alpha(s), Alpha(t)) => CompareText(s, t)
  }

  /** Identifier by identifier; if one list runs out first it is the smaller. */
  function ComparePre(a: seq<Identifier>, b: seq<Identifier>): Ordering {
    if a == [] || b == [] then CompareNat(|a|, |b|)
    else CompareIdentifier(a[0], b[0]).Then(ComparePre(a[1..], b[1..]))
  }

  function CompareOptionalPre(a: Option<seq<Identifier>>, b: Option<seq<Identifier>>): Ordering {
    match (a, b)
    case (None, None) => Equal
    case (None, Some(_)) => Greater
    case (Some(_), None) => Less
    case (Some(x), Some(y)) => ComparePre(x, y)
  }

  function Compare(a: Version, b: Version): Ordering {
    CompareNat(a.major, b.major).Then(
      CompareNat(a.minor, b.minor).Then(
        CompareNat(a.patch, b.patch).Then(CompareOptionalPre(a.pre, b.pre))))
  }

  // ---------------------------------------------------------------- which comes first

  /** The two agree up to `k`, where `a` ends or has the smaller character. */
  predicate TextDiffersAt(a: string, b: string, k: nat) {
    k <= |a| && k < |b| && a[..k] == b[..k] && (k == |a| || a[k] < b[k])
  }

  /** Words in the order of their character codes, a prefix first. */
  lemma {:induction false} TextComesFirst(a: string, b: string)
    ensures CompareText(a, b) == Less <==> exists k :: TextDiffersAt(a, b, k)
    decreases |a|
  {
    if a == [] {
      assert b != [] ==> TextDiffersAt(a, b, 0);
    } else if b != [] {
      TextComesFirst(a[1..], b[1..]);
      if a[0] < b[0] {
        assert TextDiffersAt(a, b, 0);
      }
      if a[0] == b[0] {
        if k: nat :| TextDiffersAt(a[1..], b[1..], k) {
          assert a[..k + 1] == [a[0]] + a[1..][..k] && b[..k + 1] == [b[0]] + b[1..][..k];
          assert TextDiffersAt(a, b, k + 1);
        }
      }
      if k: nat :| TextDiffersAt(a, b, k) && k > 0 {
        assert a[0] == a[..k][0] == b[..k][0] == b[0];
        assert a[1..][..k - 1] == a[..k][1..] && b[1..][..k - 1] == b[..k][1..];
        assert TextDiffersAt(a[1..], b[1..], k - 1);
      }
    }
  }

  /** Numbers by value, words by their characters, and every number before every word. */
  lemma IdentifierComesFirst(a: Identifier, b: Identifier)
    ensures CompareIdentifier(a, b) == Less <==>
            || (a.Numeric? && b.Alpha?)
            || (a.Numeric? && b.Numeric? && a.n < b.n)
            || (a.Alpha? && b.Alpha? && exists k :: TextDiffersAt(a.s, b.s, k))
  {
    if a.Alpha? && b.Alpha? {
      TextComesFirst(a.s, b.s);
    }
  }

  // ---------------------------------------------------------------- a total order

  lemma {:induction false} TextIsOrdered(a: string, b: string, c: string)
    ensures CompareText(a, b) == Equal <==> a == b
    ensures CompareText(b, a) == CompareText(a, b).Flip()
    ensures CompareText(a, b) == Less && CompareText(b, c) == Less ==> CompareText(a, c) == Less
    decreases |a|
  {
    if a != [] && b != [] {
      TextIsOrdered(a[1..], b[1..], if c == [] then [] else c[1..]);
      assert a == [a[0]] + a[1..] && b == [b[0]] + b[1..];
    }
  }

  lemma IdentifiersAreOrdered(a: Identifier, b: Identifier, c: Identifier)
    ensures CompareIdentifier(a, b) == Equal <==> a == b
    ensures CompareIdentifier(b, a) == CompareIdentifier(a, b).Flip()
    ensures CompareIdentifier(a, b) == Less && CompareIdentifier(b, c) == Less ==> CompareIdentifier(a, c) == Less
  {
    if a.Alpha? && b.Alpha? {
      TextIsOrdered(a.s, b.s, if c.Alpha? then c.s else "");
    }
  }

  lemma {:induction false} PreIsOrdered(a: seq<Identifier>, b: seq<Identifier>, c: seq<Identifier>)
    ensures ComparePre(a, b) == Equal <==> a == b
    ensures ComparePre(b, a) == ComparePre(a, b).Flip()
    ensures ComparePre(a, b) == Less && ComparePre(b, c) == Less ==> ComparePre(a, c) == Less
    decreases |a|
  {
    if a != [] && b != [] {
      PreIsOrdered(a[1..], b[1..], if c == [] then [] else c[1..]);
      if c != [] {
        IdentifiersAreOrdered(b[0], c[0], a[0]);
      }
      IdentifiersAreOrdered(a[0], b[0], if c == [] then b[0] else c[0]);
      assert a == [a[0]] + a[1..] && b == [b[0]] + b[1..];
    }
  }

  lemma OptionalPreIsOrdered(a: Option<seq<Identifier>>, b: Option<seq<Identifier>>, c: Option<seq<Identifier>>)
    ensures CompareOptionalPre(a, b) == Equal <==> a == b
    ensures CompareOptionalPre(b, a) == CompareOptionalPre(a, b).Flip()
    ensures CompareOptionalPre(a, b) == Less && CompareOptionalPre(b, c) == Less ==> CompareOptionalPre(a, c) == Less
  {
    if a.Some? && b.Some? {
      PreIsOrdered(a.value, b.value, c.GetOr([]));
    }
  }

  /** Precedence is a total order on versions up to build metadata. */
  lemma PrecedenceIsTotal(a: Version, b: Version, c: Version)
    ensures Compare(a, b) == Equal <==> a == b.(build := a.build)
    ensures Compare(b, a) == Compare(a, b).Flip()
    ensures Compare(a, b) == Less && Compare(b, c) == Less ==> Compare(a, c) == Less
    ensures Compare(a, b) == Equal ==> Compare(a, c) == Compare(b, c)
  {
    OptionalPreIsOrdered(a.pre, b.pre, c.pre);
  }

  /** A pre-release comes before its release, a number before a word, and a list before its extensions. */
  lemma {:induction false} PrereleaseRules(v: Version, pre: seq<Identifier>, more: seq<Identifier>)
    requires more != []
    ensures Compare(v.(pre := Some(pre)), v.(pre := None)) == Less
    ensures Compare(v.(pre := Some(pre)), v.(pre := Some(pre + more))) == Less
    decreases |pre|
  {
    if pre == [] {
      assert pre + more == more;
    } else {
      assert (pre + more)[0] == pre[0] && (pre + more)[1..] == pre[1..] + more;
      IdentifiersAreOrdered(pre[0], pre[0], pre[0]);
      PrereleaseRules(v, pre[1..], more);
    }
  }

  /** Major, minor and patch decide in that order before any pre-release; a number comes before a word. */
  lemma CoreDecidesFirst(a: Version, b: Version, n: nat, word: string)
    ensures a.major < b.major ==> Compare(a, b) == Less
    ensures a.major == b.major && a.minor < b.minor ==> Compare(a, b) == Less
    ensures a.major == b.major && a.minor == b.minor && a.patch < b.patch ==> Compare(a, b) == Less
    ensures Compare(a.(pre := Some([Numeric(n)])), a.(pre := Some([Alpha(word)]))) == Less
  {
    assert [Numeric(n)][0] == Numeric(n) && [Alpha(word)][0] == Alpha(word);
  }

  // ---------------------------------------------------------------- constraints

  predicate AtLeast(v: Version, bound: Version) {
    Compare(v, bound) != Less
  }

  predicate MatchesCaret(c: Version, v: Version) {
    && AtLeast(v, c)
    && if c.major > 0 then v.major == c.major
       else if c.minor > 0 then v.major == 0 && v.minor == c.minor
       else v.major == 0 && v.minor == 0 && v.patch == c.patch
  }

  predicate MatchesTilde(c: Version, v: Version) {
    AtLeast(v, c) && v.major == c.major && v.minor == c.minor
  }

  /** The release the documentation gives as the excluded upper bound of a caret constraint. */
  function CaretBound(c: Version): Version {
    if c.major > 0 then Version(c.major + 1, 0, 0, None, None)
    else if c.minor > 0 then Version(0, c.minor + 1, 0, None, None)
    else Version(0, 0, c.patch + 1, None, None)
  }

  function TildeBound(c: Version): Version {
    Version(c.major, c.minor + 1, 0, None, None)
  }

  predicate PrereleaseOf(v: Version, bound: Version) {
    v.pre.Some? && v.major == bound.major && v.minor == bound.minor && v.patch == bound.patch
  }

  /** A caret constraint is the documented range minus the pre-releases of its upper bound. */
  lemma CaretIsAlmostTheRange(c: Version, v: Version)
    ensures MatchesCaret(c, v) <==>
            AtLeast(v, c) && Compare(v, CaretBound(c)) == Less && !PrereleaseOf(v, CaretBound(c))
  {
  }

  lemma TildeIsAlmostTheRange(c: Version, v: Version)
    ensures MatchesTilde(c, v) <==>
            AtLeast(v, c) && Compare(v, TildeBound(c)) == Less && !PrereleaseOf(v, TildeBound(c))
  {
  }

  /** What matches a caret or a tilde constraint is convex: nothing between two matches is left out. */
  lemma ConstraintsAreConvex(c: Version, low: Version, v: Version, high: Version)
    requires Compare(low, v) != Greater && Compare(v, high) != Greater
    ensures MatchesCaret(c, low) && MatchesCaret(c, high) ==> MatchesCaret(c, v)
    ensures MatchesTilde(c, low) && MatchesTilde(c, high) ==> MatchesTilde(c, v)
  {
    PrecedenceIsTotal(c, low, v);
    PrecedenceIsTotal(low, c, v);
    PrecedenceIsTotal(v, low, c);
    PrecedenceIsTotal(c, v, low);
    PrecedenceIsTotal(low, v, c);
  }
}
