/** `ArticfactFetcher._getLatestInfos`: the reduction of the release index to the latest
    release of every major version line at or above 4.0.0. */
module Selection {
  import opened Wrappers
  import opened Versions

  /** A JSON value; a number keeps its literal text. */
  datatype Json =
    | Null
    | Boolean(b: bool)
    | Number(literal: string)
    | Text(s: string)
    | Array(items: seq<Json>)
    | Object(members: map<string, Json>)

  /** One entry of the release index: its raw version string and its other members (`date`,
      `files`, `lts`, `security`, ...), which the selection carries along untouched. */
  datatype Release = Release(version: string, fields: map<string, Json>)

  /** `semver.parse`, taken as given: None for a string the library rejects. */
  type Parser = string -> Option<Version>

  /** Every version string of the list parses; the library throws on any that does not,
      and nothing in the fetcher catches that: the whole run fails. */
  predicate AllParse(parse: Parser, s: seq<Release>)
  {
    forall i :: 0 <= i < |s| ==> parse(s[i].version).Some?
  }

  function VersionOf(parse: Parser, r: Release): Version
    requires parse(r.version).Some?
  {
    parse(r.version).value
  }

  function MajorOf(parse: Parser, r: Release): nat
    requires parse(r.version).Some?
  {
    VersionOf(parse, r).major
  }

  /** A release takes part in the selection unless its version is below the floor. */
  predicate Qualifies(parse: Parser, r: Release)
    requires parse(r.version).Some?
  {
    !Less(VersionOf(parse, r), Floor)
  }

  /** The majors of the qualifying releases of `s`, each once, in the order of their first
      qualifying appearance. */
  function Majors(parse: Parser, s: seq<Release>): (ms: seq<nat>)
    requires AllParse(parse, s)
    ensures forall i, j :: 0 <= i < j < |ms| ==> ms[i] != ms[j]
    decreases |s|
  {
    if s == [] then []
    else
      var prior := Majors(parse, s[..|s| - 1]);
      var last := s[|s| - 1];
      if Qualifies(parse, last) && MajorOf(parse, last) !in prior then prior + [MajorOf(parse, last)]
      else prior
  }

  /** Among the first `n` releases, `s[k]` is the one kept for its major: it qualifies, it is
      strictly newer than every earlier qualifying release of its major, and no qualifying
      release of its major among the first `n` is newer. */
  predicate Chosen(parse: Parser, s: seq<Release>, n: nat, k: nat)
    requires AllParse(parse, s) && n <= |s|
  {
    && k < n
    && Qualifies(parse, s[k])
    && (forall j :: 0 <= j < k && Qualifies(parse, s[j]) && MajorOf(parse, s[j]) == MajorOf(parse, s[k])
          ==> Less(VersionOf(parse, s[j]), VersionOf(parse, s[k])))
    && (forall j :: k < j < n && Qualifies(parse, s[j]) && MajorOf(parse, s[j]) == MajorOf(parse, s[k])
          ==> !Less(VersionOf(parse, s[k]), VersionOf(parse, s[j])))
  }

  /** `x` is the release chosen for the major `m` among all of `s`. */
  predicate ChosenFor(parse: Parser, s: seq<Release>, m: nat, x: Release)
    requires AllParse(parse, s)
  {
    exists k: nat :: k < |s| && s[k] == x && MajorOf(parse, s[k]) == m && Chosen(parse, s, |s|, k)
  }

  /** `r` is the selection of `s`: one entry per major of `Majors(parse, s)`, in that order,
      and each entry is the input release chosen for that major. */
  predicate IsLatestSelection(parse: Parser, s: seq<Release>, r: seq<Release>)
    requires AllParse(parse, s)
  {
    && |r| == |Majors(parse, s)|
    && forall i :: 0 <= i < |r| ==> ChosenFor(parse, s, Majors(parse, s)[i], r[i])
  }

  /** The state of the selection after the first `n` releases.  `latest` and `order` together
      are the JavaScript `Map` keyed by major: `order` is its key insertion order, which `set`
      on an existing key leaves alone.  `from` gives the input index of each stored release. */
  ghost predicate Table(parse: Parser, s: seq<Release>, n: nat,
                        latest: map<nat, Release>, order: seq<nat>, from: map<nat, nat>)
    requires AllParse(parse, s) && n <= |s|
  {
    && order == Majors(parse, s[..n])
    && (forall m :: m in latest <==> m in order)
    && from.Keys == latest.Keys
    && forall m :: m in latest ==>
         from[m] < n && s[from[m]] == latest[m] && MajorOf(parse, s[from[m]]) == m && Chosen(parse, s, n, from[m])
  }

  /** The selection loop of `_getLatestInfos`, followed by `Array.from(latestVersions.values())`. */
  method GetLatestInfos(parse: Parser, infos: seq<Release>) returns (r: seq<Release>)
    requires AllParse(parse, infos)
    ensures IsLatestSelection(parse, infos, r)
  {
    var latest: map<nat, Release> := map[];
    var order: seq<nat> := [];
    ghost var from: map<nat, nat> := map[];
    for i := 0 to |infos|
      invariant Table(parse, infos, i, latest, order, from)
    {
      var info := infos[i];
      var version := parse(info.version).value;
      if Less(version, Floor) {
        StepSkip(parse, infos, i, latest, order, from);
        continue;
      }
      var major := version.major;
      if major !in latest {
        StepNewMajor(parse, infos, i, latest, order, from);
        latest := latest[major := info];
        order := order + [major];
        from := from[major := i];
      } else {
        var current := latest[major];
        if Less(parse(current.version).value, version) {
          StepReplace(parse, infos, i, latest, order, from);
          latest := latest[major := info];
          from := from[major := i];
        } else {
          StepKeep(parse, infos, i, latest, order, from);
        }
      }
    }
    r := seq(|order|, k requires 0 <= k < |order| => latest[order[k]]);
    ValuesAreSelection(parse, infos, latest, order, from, r);
  }

  /** Reading the table's values in key order gives the selection. */
  lemma ValuesAreSelection(parse: Parser, s: seq<Release>, latest: map<nat, Release>, order: seq<nat>,
                           from: map<nat, nat>, r: seq<Release>)
    requires AllParse(parse, s) && Table(parse, s, |s|, latest, order, from)
    requires |r| == |order| && forall i :: 0 <= i < |r| ==> order[i] in latest && r[i] == latest[order[i]]
    ensures IsLatestSelection(parse, s, r)
  {
    assert s[..|s|] == s;
    forall i | 0 <= i < |r|
      ensures ChosenFor(parse, s, order[i], r[i])
    {
      var k := from[order[i]];
      assert s[k] == r[i] && MajorOf(parse, s[k]) == order[i] && Chosen(parse, s, |s|, k);
    }
  }

  // ---------------------------------------------------------------------------------------
  // One step of the loop, case by case.

  lemma StepSkip(parse: Parser, s: seq<Release>, i: nat,
                 latest: map<nat, Release>, order: seq<nat>, from: map<nat, nat>)
    requires AllParse(parse, s) && i < |s| && Table(parse, s, i, latest, order, from)
    requires Less(VersionOf(parse, s[i]), Floor)
    ensures Table(parse, s, i + 1, latest, order, from)
  {
    assert s[..i + 1][..i] == s[..i];
    SkipKeepsChosen(parse, s, i, from);
  }

  lemma StepNewMajor(parse: Parser, s: seq<Release>, i: nat,
                     latest: map<nat, Release>, order: seq<nat>, from: map<nat, nat>)
    requires AllParse(parse, s) && i < |s| && Table(parse, s, i, latest, order, from)
    requires !Less(VersionOf(parse, s[i]), Floor) && MajorOf(parse, s[i]) !in latest
    ensures Table(parse, s, i + 1, latest[MajorOf(parse, s[i]) := s[i]], order + [MajorOf(parse, s[i])],
                  from[MajorOf(parse, s[i]) := i])
  {
    assert s[..i + 1][..i] == s[..i];
    NewMajorChosen(parse, s, i, order);
    StoreElsewhereKeepsChosen(parse, s, i, from);
  }

  lemma StepReplace(parse: Parser, s: seq<Release>, i: nat,
                    latest: map<nat, Release>, order: seq<nat>, from: map<nat, nat>)
    requires AllParse(parse, s) && i < |s| && Table(parse, s, i, latest, order, from)
    requires !Less(VersionOf(parse, s[i]), Floor) && MajorOf(parse, s[i]) in latest
    requires Less(VersionOf(parse, latest[MajorOf(parse, s[i])]), VersionOf(parse, s[i]))
    ensures Table(parse, s, i + 1, latest[MajorOf(parse, s[i]) := s[i]], order, from[MajorOf(parse, s[i]) := i])
  {
    assert s[..i + 1][..i] == s[..i];
    ReplaceChosen(parse, s, i, from[MajorOf(parse, s[i])]);
    StoreElsewhereKeepsChosen(parse, s, i, from);
  }

  lemma StepKeep(parse: Parser, s: seq<Release>, i: nat,
                 latest: map<nat, Release>, order: seq<nat>, from: map<nat, nat>)
    requires AllParse(parse, s) && i < |s| && Table(parse, s, i, latest, order, from)
    requires !Less(VersionOf(parse, s[i]), Floor) && MajorOf(parse, s[i]) in latest
    requires !Less(VersionOf(parse, latest[MajorOf(parse, s[i])]), VersionOf(parse, s[i]))
    ensures Table(parse, s, i + 1, latest, order, from)
  {
    assert s[..i + 1][..i] == s[..i];
    KeepCurrentChosen(parse, s, i, from);
  }

  /** A release below the floor changes no choice. */
  lemma SkipKeepsChosen(parse: Parser, s: seq<Release>, i: nat, from: map<nat, nat>)
    requires AllParse(parse, s) && i < |s| && !Qualifies(parse, s[i])
    requires forall m :: m in from ==> Chosen(parse, s, i, from[m])
    ensures forall m :: m in from ==> Chosen(parse, s, i + 1, from[m])
  {
  }

  /** A qualifying release whose major is not stored yet is chosen for that major. */
  lemma NewMajorChosen(parse: Parser, s: seq<Release>, i: nat, order: seq<nat>)
    requires AllParse(parse, s) && i < |s| && Qualifies(parse, s[i])
    requires order == Majors(parse, s[..i]) && MajorOf(parse, s[i]) !in order
    ensures Chosen(parse, s, i + 1, i)
  {
    forall j | 0 <= j < i && Qualifies(parse, s[j])
      ensures MajorOf(parse, s[j]) != MajorOf(parse, s[i])
    {
      assert s[..i][j] == s[j];
      MajorsComplete(parse, s[..i], j);
    }
  }

  /** Storing the release at index `i` under its major keeps the choices of the other majors. */
  lemma StoreElsewhereKeepsChosen(parse: Parser, s: seq<Release>, i: nat, from: map<nat, nat>)
    requires AllParse(parse, s) && i < |s|
    requires forall m :: m in from ==>
               from[m] < i && MajorOf(parse, s[from[m]]) == m && Chosen(parse, s, i, from[m])
    ensures forall m :: m in from && m != MajorOf(parse, s[i]) ==> Chosen(parse, s, i + 1, from[m])
  {
  }

  /** A release strictly newer than the one stored for its major replaces it as the choice. */
  lemma ReplaceChosen(parse: Parser, s: seq<Release>, i: nat, c: nat)
    requires AllParse(parse, s) && i < |s| && c < i && Qualifies(parse, s[i])
    requires Chosen(parse, s, i, c) && MajorOf(parse, s[c]) == MajorOf(parse, s[i])
    requires Less(VersionOf(parse, s[c]), VersionOf(parse, s[i]))
    ensures Chosen(parse, s, i + 1, i)
  {
    var vc, vi := VersionOf(parse, s[c]), VersionOf(parse, s[i]);
    forall j | 0 <= j < i && Qualifies(parse, s[j]) && MajorOf(parse, s[j]) == MajorOf(parse, s[i])
      ensures Less(VersionOf(parse, s[j]), vi)
    {
      var vj := VersionOf(parse, s[j]);
      if j < c {
        LessTransitive(vj, vc, vi);
      } else if j > c {
        LessTotal(vj, vc);
        if Less(vj, vc) {
          LessTransitive(vj, vc, vi);
        }
      }
    }
  }

  /** A release that is not strictly newer than the stored one leaves every choice in place. */
  lemma KeepCurrentChosen(parse: Parser, s: seq<Release>, i: nat, from: map<nat, nat>)
    requires AllParse(parse, s) && i < |s| && Qualifies(parse, s[i])
    requires MajorOf(parse, s[i]) in from
    requires forall m :: m in from ==>
               from[m] < i && MajorOf(parse, s[from[m]]) == m && Chosen(parse, s, i, from[m])
    requires !Less(VersionOf(parse, s[from[MajorOf(parse, s[i])]]), VersionOf(parse, s[i]))
    ensures forall m :: m in from ==> Chosen(parse, s, i + 1, from[m])
  {
  }

  // ---------------------------------------------------------------------------------------
  // What Majors holds.

  /** Every qualifying release contributes its major. */
  lemma {:induction false} MajorsComplete(parse: Parser, s: seq<Release>, k: nat)
    requires AllParse(parse, s) && k < |s| && Qualifies(parse, s[k])
    ensures MajorOf(parse, s[k]) in Majors(parse, s)
    decreases |s|
  {
    if k < |s| - 1 {
      assert s[..|s| - 1][k] == s[k];
      MajorsComplete(parse, s[..|s| - 1], k);
    }
  }

  /** Every major listed comes from a qualifying release. */
  lemma {:induction false} MajorsSound(parse: Parser, s: seq<Release>, i: nat)
    requires AllParse(parse, s) && i < |Majors(parse, s)|
    ensures exists k :: 0 <= k < |s| && Qualifies(parse, s[k]) && MajorOf(parse, s[k]) == Majors(parse, s)[i]
    decreases |s|
  {
    var prior := Majors(parse, s[..|s| - 1]);
    if i < |prior| {
      MajorsSound(parse, s[..|s| - 1], i);
      var k :| 0 <= k < |s| - 1 && Qualifies(parse, s[..|s| - 1][k])
               && MajorOf(parse, s[..|s| - 1][k]) == prior[i];
      assert s[..|s| - 1][k] == s[k];
    } else {
      assert Qualifies(parse, s[|s| - 1]);
    }
  }

  /** Majors are listed in the order in which they first qualify: wherever the major at
      position `j` qualifies in `s`, the major at an earlier position `i` has already
      qualified before it. */
  lemma {:induction false} MajorsFirstAppearance(parse: Parser, s: seq<Release>, i: nat, j: nat, k: nat)
    requires AllParse(parse, s)
    requires i < j < |Majors(parse, s)|
    requires k < |s| && Qualifies(parse, s[k]) && MajorOf(parse, s[k]) == Majors(parse, s)[j]
    ensures exists l :: 0 <= l < k && Qualifies(parse, s[l]) && MajorOf(parse, s[l]) == Majors(parse, s)[i]
    decreases |s|
  {
    var ms := Majors(parse, s);
    var t := s[..|s| - 1];
    var prior := Majors(parse, t);
    assert forall x :: 0 <= x < |t| ==> t[x] == s[x];
    if j < |prior| {
      if k < |s| - 1 {
        MajorsFirstAppearance(parse, t, i, j, k);
        var l :| 0 <= l < k && Qualifies(parse, t[l]) && MajorOf(parse, t[l]) == prior[i];
      } else {
        MajorsSound(parse, t, j);
        var k' :| 0 <= k' < |t| && Qualifies(parse, t[k']) && MajorOf(parse, t[k']) == prior[j];
        MajorsFirstAppearance(parse, t, i, j, k');
        var l :| 0 <= l < k' && Qualifies(parse, t[l]) && MajorOf(parse, t[l]) == prior[i];
      }
    } else {
      // the major at position j is new with the last release, so k is that release
      if k < |s| - 1 {
        MajorsComplete(parse, t, k);
        assert false;
      }
      MajorsSound(parse, t, i);
      var l :| 0 <= l < |t| && Qualifies(parse, t[l]) && MajorOf(parse, t[l]) == prior[i];
    }
  }

  // ---------------------------------------------------------------------------------------
  // What a selection holds.

  /** The kept release for a major is one of the input releases, it qualifies and has that major. */
  lemma ChosenForFacts(parse: Parser, s: seq<Release>, m: nat, x: Release)
    requires AllParse(parse, s) && ChosenFor(parse, s, m, x)
    ensures x in s && parse(x.version).Some? && Qualifies(parse, x) && MajorOf(parse, x) == m
  {
  }

  /** At most one release can be chosen for a major. */
  lemma ChosenForUnique(parse: Parser, s: seq<Release>, m: nat, x: Release, y: Release)
    requires AllParse(parse, s) && ChosenFor(parse, s, m, x) && ChosenFor(parse, s, m, y)
    ensures x == y
  {
    var kx: nat :| kx < |s| && s[kx] == x && MajorOf(parse, s[kx]) == m && Chosen(parse, s, |s|, kx);
    var ky: nat :| ky < |s| && s[ky] == y && MajorOf(parse, s[ky]) == m && Chosen(parse, s, |s|, ky);
  }

  /** Every entry of the output is an entry of the input, unchanged. */
  lemma SelectionFromInput(parse: Parser, s: seq<Release>, r: seq<Release>)
    requires AllParse(parse, s) && IsLatestSelection(parse, s, r)
    ensures forall i :: 0 <= i < |r| ==> r[i] in s
    ensures AllParse(parse, r)
  {
    forall i | 0 <= i < |r|
      ensures r[i] in s
    {
      ChosenForFacts(parse, s, Majors(parse, s)[i], r[i]);
    }
  }

  /** No release below 4.0.0 is selected. */
  lemma SelectionAboveFloor(parse: Parser, s: seq<Release>, r: seq<Release>)
    requires AllParse(parse, s) && IsLatestSelection(parse, s, r)
    ensures AllParse(parse, r)
    ensures forall i :: 0 <= i < |r| ==> !Less(VersionOf(parse, r[i]), Floor)
  {
    SelectionFromInput(parse, s, r);
    forall i | 0 <= i < |r|
      ensures !Less(VersionOf(parse, r[i]), Floor)
    {
      ChosenForFacts(parse, s, Majors(parse, s)[i], r[i]);
    }
  }

  /** The output holds one release per major version line, so also no version string twice. */
  lemma SelectionOnePerMajor(parse: Parser, s: seq<Release>, r: seq<Release>)
    requires AllParse(parse, s) && IsLatestSelection(parse, s, r)
    ensures AllParse(parse, r)
    ensures forall i, j :: 0 <= i < j < |r| ==> MajorOf(parse, r[i]) != MajorOf(parse, r[j])
    ensures forall i, j :: 0 <= i < j < |r| ==> r[i].version != r[j].version
  {
    SelectionFromInput(parse, s, r);
    forall i | 0 <= i < |r|
      ensures MajorOf(parse, r[i]) == Majors(parse, s)[i]
    {
      ChosenForFacts(parse, s, Majors(parse, s)[i], r[i]);
    }
  }

  /** Every major with a qualifying release in the input is represented in the output. */
  lemma SelectionCoversMajors(parse: Parser, s: seq<Release>, r: seq<Release>, k: nat)
    requires AllParse(parse, s) && IsLatestSelection(parse, s, r)
    requires k < |s| && Qualifies(parse, s[k])
    ensures AllParse(parse, r)
    ensures exists i :: 0 <= i < |r| && MajorOf(parse, r[i]) == MajorOf(parse, s[k])
  {
    SelectionFromInput(parse, s, r);
    MajorsComplete(parse, s, k);
    var ms := Majors(parse, s);
    var i :| 0 <= i < |ms| && ms[i] == MajorOf(parse, s[k]);
    ChosenForFacts(parse, s, ms[i], r[i]);
  }

  /** The selected release of a major is at least as new as every qualifying input release of
      that major, under the full version order. */
  lemma SelectionMaximal(parse: Parser, s: seq<Release>, r: seq<Release>, i: nat, k: nat)
    requires AllParse(parse, s) && IsLatestSelection(parse, s, r)
    requires i < |r| && k < |s| && Qualifies(parse, s[k])
    requires parse(r[i].version).Some? && MajorOf(parse, s[k]) == MajorOf(parse, r[i])
    ensures !Less(VersionOf(parse, r[i]), VersionOf(parse, s[k]))
  {
    var c: nat :| c < |s| && s[c] == r[i] && MajorOf(parse, s[c]) == Majors(parse, s)[i] && Chosen(parse, s, |s|, c);
    if k < c {
      LessAsymmetric(VersionOf(parse, s[k]), VersionOf(parse, s[c]));
    } else if k == c {
      LessIrreflexive(VersionOf(parse, s[c]));
    }
  }

  /** On equal versions the earlier entry is kept: the selected release occurs in the input no
      later than any other qualifying release whose version is equal to it. */
  lemma SelectionFirstWins(parse: Parser, s: seq<Release>, r: seq<Release>, i: nat, k: nat)
    requires AllParse(parse, s) && IsLatestSelection(parse, s, r)
    requires i < |r| && k < |s| && Qualifies(parse, s[k])
    requires parse(r[i].version).Some? && VersionOf(parse, s[k]) == VersionOf(parse, r[i])
    ensures exists c :: 0 <= c <= k && s[c] == r[i]
  {
    var c: nat :| c < |s| && s[c] == r[i] && MajorOf(parse, s[c]) == Majors(parse, s)[i] && Chosen(parse, s, |s|, c);
    if k < c {
      assert Less(VersionOf(parse, s[k]), VersionOf(parse, s[c]));
      LessIrreflexive(VersionOf(parse, s[c]));
    }
  }

  /** The output is ordered by first appearance: if the majors of `r[i]` and `r[j]` with `i < j`
      both qualify, the major of `r[i]` qualified first, before any qualifying release of the
      major of `r[j]`. */
  lemma SelectionOrder(parse: Parser, s: seq<Release>, r: seq<Release>, i: nat, j: nat, k: nat)
    requires AllParse(parse, s) && IsLatestSelection(parse, s, r)
    requires i < j < |r| && k < |s| && Qualifies(parse, s[k])
    requires parse(r[j].version).Some? && MajorOf(parse, s[k]) == MajorOf(parse, r[j])
    ensures parse(r[i].version).Some?
    ensures exists l :: 0 <= l < k && Qualifies(parse, s[l]) && MajorOf(parse, s[l]) == MajorOf(parse, r[i])
  {
    var ms := Majors(parse, s);
    ChosenForFacts(parse, s, ms[i], r[i]);
    ChosenForFacts(parse, s, ms[j], r[j]);
    MajorsFirstAppearance(parse, s, i, j, k);
  }

  /** The properties above determine the output completely. */
  lemma SelectionUnique(parse: Parser, s: seq<Release>, r1: seq<Release>, r2: seq<Release>)
    requires AllParse(parse, s) && IsLatestSelection(parse, s, r1) && IsLatestSelection(parse, s, r2)
    ensures r1 == r2
  {
    forall i | 0 <= i < |r1|
      ensures r1[i] == r2[i]
    {
      ChosenForUnique(parse, s, Majors(parse, s)[i], r1[i], r2[i]);
    }
  }

  /** Selecting again from a selection changes nothing. */
  lemma SelectionIdempotent(parse: Parser, s: seq<Release>, r: seq<Release>)
    requires AllParse(parse, s) && IsLatestSelection(parse, s, r)
    ensures AllParse(parse, r) && IsLatestSelection(parse, r, r)
  {
    SelectionAboveFloor(parse, s, r);
    SelectionOnePerMajor(parse, s, r);
    MajorsOfDistinct(parse, r);
    forall i | 0 <= i < |r|
      ensures ChosenFor(parse, r, Majors(parse, r)[i], r[i])
    {
      assert Chosen(parse, r, |r|, i);
    }
  }

  /** When every release qualifies and no two share a major, Majors lists them all in order. */
  lemma {:induction false} MajorsOfDistinct(parse: Parser, s: seq<Release>)
    requires AllParse(parse, s)
    requires forall i :: 0 <= i < |s| ==> Qualifies(parse, s[i])
    requires forall i, j :: 0 <= i < j < |s| ==> MajorOf(parse, s[i]) != MajorOf(parse, s[j])
    ensures |Majors(parse, s)| == |s|
    ensures forall i :: 0 <= i < |s| ==> Majors(parse, s)[i] == MajorOf(parse, s[i])
    decreases |s|
  {
    if s != [] {
      var t := s[..|s| - 1];
      assert forall x :: 0 <= x < |t| ==> t[x] == s[x];
      MajorsOfDistinct(parse, t);
      var last := s[|s| - 1];
      assert MajorOf(parse, last) !in Majors(parse, t);
    }
  }

  // ---------------------------------------------------------------------------------------
  // A worked example: 10.0.0, 10.24.1, 12.22.12 and 3.9.9 select 10.24.1 and 12.22.12.

  function ExampleParse(v: string): Option<Version>
  {
    if v == "10.0.0" then Some(Version(10, 0, 0, []))
    else if v == "10.24.1" then Some(Version(10, 24, 1, []))
    else if v == "12.22.12" then Some(Version(12, 22, 12, []))
    else if v == "3.9.9" then Some(Version(3, 9, 9, []))
    else None
  }

  function ExampleIndex(): seq<Release>
  {
    [Release("10.0.0", map[]), Release("10.24.1", map[]), Release("12.22.12", map[]), Release("3.9.9", map[])]
  }

  lemma ExampleSelection(r: seq<Release>)
    requires AllParse(ExampleParse, ExampleIndex()) && IsLatestSelection(ExampleParse, ExampleIndex(), r)
    ensures r == [Release("10.24.1", map[]), Release("12.22.12", map[])]
  {
    var s := ExampleIndex();
    var expected := [s[1], s[2]];
    assert s[..1][..0] == [];
    assert Majors(ExampleParse, s[..1]) == [10];
    assert s[..2][..1] == s[..1];
    assert Majors(ExampleParse, s[..2]) == [10];
    assert s[..3][..2] == s[..2];
    assert Majors(ExampleParse, s[..3]) == [10, 12];
    assert s[..3] == s[..|s| - 1];
    assert Majors(ExampleParse, s) == [10, 12];
    assert Chosen(ExampleParse, s, |s|, 1);
    assert Chosen(ExampleParse, s, |s|, 2);
    assert ChosenFor(ExampleParse, s, 10, s[1]);
    assert ChosenFor(ExampleParse, s, 12, s[2]);
    assert IsLatestSelection(ExampleParse, s, expected);
    SelectionUnique(ExampleParse, s, r, expected);
  }
}
