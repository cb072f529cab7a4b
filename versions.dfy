/** Parsed semantic versions and the precedence order that the fetcher obtains from the
    semver library through `semver.lt` and `semver.gt`.  Parsing itself is not part of
    this module: a version here is the record the library produces once a string parsed. */
module Versions {

  /** One dot-separated prerelease identifier as the library keeps it: an identifier made
      only of digits is held as a number, any other one as a string. A parser is expected to
      produce `Alphanumeric` only for text that is not all digits. */
  datatype Identifier = Numeric(n: nat) | Alphanumeric(s: string)

  /** major.minor.patch with an optional prerelease list (empty for a plain release).
      Build metadata takes no part in precedence and is not represented. */
  datatype Version = Version(major: nat, minor: nat, patch: nat, prerelease: seq<Identifier>)

  /** The threshold below which releases are ignored: 4.0.0. */
  const Floor: Version := Version(4, 0, 0, [])

  /** JavaScript's `<` on two strings: lexicographic by character, a proper prefix first. */
  predicate StringLess(a: string, b: string)
    decreases |a|
  {
    if |a| == 0 then |b| > 0
    else if |b| == 0 then false
    else if a[0] != b[0] then a[0] < b[0]
    else StringLess(a[1..], b[1..])
  }

  /** Two different identifiers: numbers compare numerically, a number is below a string,
      strings compare as JavaScript strings. */
  predicate IdentifierLess(a: Identifier, b: Identifier)
  {
    match (a, b)
    case (Numeric(x), Numeric(y)) => x < y
    case (Numeric(_), Alphanumeric(_)) => true
    case (Alphanumeric(_), Numeric(_)) => false
    case (Alphanumeric(s), Alphanumeric(t)) => StringLess(s, t)
  }

  /** Identifier-by-identifier comparison of two prerelease lists; when one list runs out first
      it is the lower one. */
  predicate IdentifiersLess(a: seq<Identifier>, b: seq<Identifier>)
    decreases |a|
  {
    if |a| == 0 then |b| > 0
    else if |b| == 0 then false
    else if a[0] != b[0] then IdentifierLess(a[0], b[0])
    else IdentifiersLess(a[1..], b[1..])
  }

  /** Prerelease precedence: a version with no prerelease is above any version with one. */
  predicate PrereleaseLess(a: seq<Identifier>, b: seq<Identifier>)
  {
    if |a| == 0 then false
    else if |b| == 0 then true
    else IdentifiersLess(a, b)
  }

  /** `semver.lt(a, b)`: major, then minor, then patch, then prerelease.
      `semver.gt(a, b)` is `Less(b, a)`. */
  predicate Less(a: Version, b: Version)
  {
    if a.major != b.major then a.major < b.major
    else if a.minor != b.minor then a.minor < b.minor
    else if a.patch != b.patch then a.patch < b.patch
    else PrereleaseLess(a.prerelease, b.prerelease)
  }

  // ---------------------------------------------------------------------------------------
  // StringLess is a strict total order.

  lemma {:induction false} StringLessIrreflexive(a: string)
    ensures !StringLess(a, a)
    decreases |a|
  {
    if |a| > 0 {
      StringLessIrreflexive(a[1..]);
    }
  }

  lemma {:induction false} StringLessTransitive(a: string, b: string, c: string)
    requires StringLess(a, b) && StringLess(b, c)
    ensures StringLess(a, c)
    decreases |a|
  {
    if |a| > 0 && |b| > 0 && |c| > 0 && a[0] == b[0] && b[0] == c[0] {
      StringLessTransitive(a[1..], b[1..], c[1..]);
    }
  }

  lemma {:induction false} StringLessTotal(a: string, b: string)
    ensures a == b || StringLess(a, b) || StringLess(b, a)
    decreases |a|
  {
    if |a| > 0 && |b| > 0 && a[0] == b[0] {
      StringLessTotal(a[1..], b[1..]);
      if a[1..] == b[1..] {
        assert a == [a[0]] + a[1..] && b == [b[0]] + b[1..];
      }
    }
  }

  // ---------------------------------------------------------------------------------------
  // IdentifierLess and IdentifiersLess are strict total orders.

  lemma IdentifierLessIrreflexive(a: Identifier)
    ensures !IdentifierLess(a, a)
  {
    if a.Alphanumeric? {
      StringLessIrreflexive(a.s);
    }
  }

  lemma IdentifierLessTransitive(a: Identifier, b: Identifier, c: Identifier)
    requires IdentifierLess(a, b) && IdentifierLess(b, c)
    ensures IdentifierLess(a, c)
  {
    if a.Alphanumeric? && b.Alphanumeric? && c.Alphanumeric? {
      StringLessTransitive(a.s, b.s, c.s);
    }
  }

  lemma IdentifierLessTotal(a: Identifier, b: Identifier)
    ensures a == b || IdentifierLess(a, b) || IdentifierLess(b, a)
  {
    if a.Alphanumeric? && b.Alphanumeric? {
      StringLessTotal(a.s, b.s);
    }
  }

  lemma {:induction false} IdentifiersLessIrreflexive(a: seq<Identifier>)
    ensures !IdentifiersLess(a, a)
    decreases |a|
  {
    if |a| > 0 {
      IdentifiersLessIrreflexive(a[1..]);
    }
  }

  lemma {:induction false} IdentifiersLessTransitive(a: seq<Identifier>, b: seq<Identifier>, c: seq<Identifier>)
    requires IdentifiersLess(a, b) && IdentifiersLess(b, c)
    ensures IdentifiersLess(a, c)
    decreases |a|
  {
    if |a| > 0 && |b| > 0 && |c| > 0 {
      if a[0] == b[0] && b[0] == c[0] {
        IdentifiersLessTransitive(a[1..], b[1..], c[1..]);
      } else if a[0] != b[0] && b[0] != c[0] {
        IdentifierLessTransitive(a[0], b[0], c[0]);
        if a[0] == c[0] {
          IdentifierLessIrreflexive(a[0]);
        }
      }
    }
  }

  lemma {:induction false} IdentifiersLessTotal(a: seq<Identifier>, b: seq<Identifier>)
    ensures a == b || IdentifiersLess(a, b) || IdentifiersLess(b, a)
    decreases |a|
  {
    if |a| > 0 && |b| > 0 {
      if a[0] == b[0] {
        IdentifiersLessTotal(a[1..], b[1..]);
        if a[1..] == b[1..] {
          assert a == [a[0]] + a[1..] && b == [b[0]] + b[1..];
        }
      } else {
        IdentifierLessTotal(a[0], b[0]);
      }
    }
  }

  // ---------------------------------------------------------------------------------------
  // Less, the order the selection relies on, is a strict total order on versions.

  lemma LessIrreflexive(a: Version)
    ensures !Less(a, a)
  {
    IdentifiersLessIrreflexive(a.prerelease);
  }

  lemma LessTransitive(a: Version, b: Version, c: Version)
    requires Less(a, b) && Less(b, c)
    ensures Less(a, c)
  {
    if a.major == b.major == c.major && a.minor == b.minor == c.minor && a.patch == b.patch == c.patch {
      if |a.prerelease| > 0 && |b.prerelease| > 0 && |c.prerelease| > 0 {
        IdentifiersLessTransitive(a.prerelease, b.prerelease, c.prerelease);
      }
    }
  }

  lemma LessTotal(a: Version, b: Version)
    ensures a == b || Less(a, b) || Less(b, a)
  {
    IdentifiersLessTotal(a.prerelease, b.prerelease);
  }

  lemma LessAsymmetric(a: Version, b: Version)
    requires Less(a, b)
    ensures !Less(b, a)
  {
    if Less(b, a) {
      LessTransitive(a, b, a);
      LessIrreflexive(a);
    }
  }

  /** A prerelease of 4.0.0 is below the floor, the 4.0.0 release itself is not. */
  lemma FloorExamples()
    ensures Less(Version(4, 0, 0, [Alphanumeric("rc"), Numeric(1)]), Floor)
    ensures !Less(Floor, Floor)
    ensures Less(Version(3, 9, 9, []), Floor)
    ensures !Less(Version(10, 0, 0, []), Floor)
  {
    LessIrreflexive(Floor);
  }
}
