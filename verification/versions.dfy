/** The pure parts of the update check (src/lib/services/versionCheck.js):
    dotted-version comparison with missing components read as 0, splitting a
    version string at its dots, the removal of the `app-v` release-tag prefix,
    and the `hasUpdate` decision. */
module Versions {
  import opened Decimal

  /** Component `i` of a version, 0 past its end (`parts[i] || 0`). */
  function Part(v: seq<nat>, i: nat): (p: nat)
    ensures i < |v| ==> p == v[i]
    ensures |v| <= i ==> p == 0
  {
    if i < |v| then v[i] else 0
  }

  function Max(a: nat, b: nat): nat {
    if a < b then b else a
  }

  /** `a` and `b` agree on every component from `i` on. */
  ghost predicate SameFrom(a: seq<nat>, b: seq<nat>, i: nat) {
    forall k: nat :: i <= k ==> Part(a, k) == Part(b, k)
  }

  /** From `i` on, the first component where `a` and `b` differ is smaller
      in `a`. */
  ghost predicate OlderFrom(a: seq<nat>, b: seq<nat>, i: nat) {
    exists k: nat :: i <= k && Part(a, k) < Part(b, k)
      && forall m: nat :: i <= m < k ==> Part(a, m) == Part(b, m)
  }

  /** Past the end of both versions every component reads 0. */
  lemma BeyondBoth(a: seq<nat>, b: seq<nat>, i: nat)
    requires i >= Max(|a|, |b|)
    ensures SameFrom(a, b, i) && !OlderFrom(a, b, i) && !OlderFrom(b, a, i)
  {
    assert forall k: nat :: i <= k ==> Part(a, k) == 0 == Part(b, k);
  }

  /** A smaller component at `i` decides the comparison from `i` on. */
  lemma DecidedAt(a: seq<nat>, b: seq<nat>, i: nat)
    requires Part(a, i) < Part(b, i)
    ensures OlderFrom(a, b, i) && !OlderFrom(b, a, i) && !SameFrom(a, b, i)
  {
    assert forall m: nat :: i <= m < i ==> Part(a, m) == Part(b, m);
  }

  /** Equal components at `i` pass the decision on to `i + 1`. */
  lemma OlderFromNext(a: seq<nat>, b: seq<nat>, i: nat)
    requires Part(a, i) == Part(b, i)
    ensures OlderFrom(a, b, i) <==> OlderFrom(a, b, i + 1)
  {
    if OlderFrom(a, b, i) {
      var k: nat :| i <= k && Part(a, k) < Part(b, k)
        && forall m: nat :: i <= m < k ==> Part(a, m) == Part(b, m);
      assert i + 1 <= k;
    }
    if OlderFrom(a, b, i + 1) {
      var k: nat :| i + 1 <= k && Part(a, k) < Part(b, k)
        && forall m: nat :: i + 1 <= m < k ==> Part(a, m) == Part(b, m);
      assert forall m: nat :: i <= m < k ==> Part(a, m) == Part(b, m);
    }
  }

  lemma SameFromNext(a: seq<nat>, b: seq<nat>, i: nat)
    requires Part(a, i) == Part(b, i)
    ensures SameFrom(a, b, i) <==> SameFrom(a, b, i + 1)
  {
  }

  /** The comparison loop of `compareVersions`, from component `i` on. */
  function CompareFrom(a: seq<nat>, b: seq<nat>, i: nat): (r: int)
    ensures r in {-1, 0, 1}
    ensures r == 0 <==> SameFrom(a, b, i)
    ensures r == -1 <==> OlderFrom(a, b, i)
    ensures r == 1 <==> OlderFrom(b, a, i)
    decreases Max(|a|, |b|) - i
  {
    if i >= Max(|a|, |b|) then
      BeyondBoth(a, b, i);
      0
    else if Part(a, i) < Part(b, i) then
      DecidedAt(a, b, i);
      -1
    else if Part(a, i) > Part(b, i) then
      DecidedAt(b, a, i);
      assert SameFrom(a, b, i) ==> SameFrom(b, a, i);
      1
    else
      SameFromNext(a, b, i);
      OlderFromNext(a, b, i);
      OlderFromNext(b, a, i);
      CompareFrom(a, b, i + 1)
  }

  /** `compareVersions`: -1, 0 or 1 as `current` is older than, the same
      as, or newer than `latest`, reading missing components as 0. */
  function CompareVersions(current: seq<nat>, latest: seq<nat>): (r: int)
    ensures r in {-1, 0, 1}
    ensures r == 0 <==> forall k: nat :: Part(current, k) == Part(latest, k)
    ensures r == -1 <==> exists k: nat ::
      (Part(current, k) < Part(latest, k) && forall m: nat :: m < k ==> Part(current, m) == Part(latest, m))
    ensures r == 1 <==> exists k: nat ::
      (Part(latest, k) < Part(current, k) && forall m: nat :: m < k ==> Part(current, m) == Part(latest, m))
  {
    CompareFrom(current, latest, 0)
  }

  /** Swapping the arguments negates the result. */
  lemma CompareAntisymmetric(a: seq<nat>, b: seq<nat>)
    ensures CompareVersions(a, b) == -CompareVersions(b, a)
  {
    var r, s := CompareFrom(a, b, 0), CompareFrom(b, a, 0);
    assert SameFrom(a, b, 0) <==> SameFrom(b, a, 0);
  }

  lemma CompareReflexive(a: seq<nat>)
    ensures CompareVersions(a, a) == 0
  {
  }

  /** Trailing zero components do not matter: "1.0" and "1.0.0" are the
      same version. */
  lemma CompareIgnoresTrailingZeros(a: seq<nat>, b: seq<nat>, zeros: nat)
    ensures CompareVersions(a + Zeros(zeros), b) == CompareVersions(a, b)
  {
    var a' := a + Zeros(zeros);
    assert forall k: nat :: Part(a', k) == Part(a, k);
    assert SameFrom(a', b, 0) <==> SameFrom(a, b, 0);
    assert OlderFrom(a', b, 0) <==> OlderFrom(a, b, 0);
    assert OlderFrom(b, a', 0) <==> OlderFrom(b, a, 0);
  }

  function Zeros(n: nat): (z: seq<nat>)
    ensures |z| == n && forall i :: 0 <= i < n ==> z[i] == 0
  {
    if n == 0 then [] else [0] + Zeros(n - 1)
  }

  /** Being older is transitive, so versions are totally preordered. */
  lemma CompareTransitive(a: seq<nat>, b: seq<nat>, c: seq<nat>)
    ensures CompareVersions(a, b) == -1 && CompareVersions(b, c) == -1 ==> CompareVersions(a, c) == -1
  {
    if CompareVersions(a, b) == -1 && CompareVersions(b, c) == -1 {
      var k1: nat :| Part(a, k1) < Part(b, k1) && forall m: nat :: m < k1 ==> Part(a, m) == Part(b, m);
      var k2: nat :| Part(b, k2) < Part(c, k2) && forall m: nat :: m < k2 ==> Part(b, m) == Part(c, m);
      var k := if k1 < k2 then k1 else k2;
      assert Part(a, k) < Part(c, k) && forall m: nat :: m < k ==> Part(a, m) == Part(c, m);
    }
  }

  /** The version this build reports (`CURRENT_VERSION`). */
  const CurrentVersion: string := "1.0.7"

  /** The `hasUpdate` field: the latest release is newer than `current`. */
  function HasUpdate(current: seq<nat>, latest: seq<nat>): (r: bool)
    ensures r <==> OlderFrom(current, latest, 0)
  {
    CompareVersions(current, latest) < 0
  }

  /** An update is never offered for the running version, nor in both
      directions. */
  lemma HasUpdateAsymmetric(a: seq<nat>, b: seq<nat>)
    ensures HasUpdate(a, b) ==> !HasUpdate(b, a)
    ensures !HasUpdate(a, a)
  {
    CompareAntisymmetric(a, b);
  }

  /** `tag_name.replace(/^app-v/, '')`: the prefix goes only when the tag
      starts with it, and only once. */
  function StripTagPrefix(tag: string): (v: string)
    ensures |v| <= |tag|
    ensures tag == "app-v" + v || v == tag
    ensures v == tag <==> !(|tag| >= 5 && tag[..5] == "app-v")
  {
    if |tag| >= 5 && tag[..5] == "app-v" then tag[5..] else tag
  }

  lemma StripTagPrefixInverse(v: string)
    ensures StripTagPrefix("app-v" + v) == v
  {
    assert ("app-v" + v)[..5] == "app-v";
  }

  /** `s.split('.')`: the pieces between dots, in order; the empty string
      gives one empty piece. */
  function Split(s: string): (parts: seq<string>)
    ensures |parts| >= 1
  {
    if |s| == 0 then [""]
    else
      var rest := Split(s[1..]);
      if s[0] == '.' then [""] + rest
      else [[s[0]] + rest[0]] + rest[1..]
  }

  /** There is one piece more than there are dots. */
  lemma {:induction false} SplitCount(s: string)
    ensures |Split(s)| == multiset(s)['.'] + 1
    decreases |s|
  {
    if |s| > 0 {
      SplitCount(s[1..]);
      assert s == [s[0]] + s[1..];
    }
  }

  /** The pieces glued back with dots: the inverse of `Split`. */
  function Join(parts: seq<string>): string
    requires |parts| >= 1
  {
    if |parts| == 1 then parts[0] else parts[0] + "." + Join(parts[1..])
  }

  lemma JoinAfterDot(parts: seq<string>)
    requires |parts| >= 1
    ensures Join([""] + parts) == "." + Join(parts)
  {
    assert ([""] + parts)[1..] == parts;
  }

  lemma JoinAfterChar(c: char, parts: seq<string>)
    requires |parts| >= 1
    ensures Join([[c] + parts[0]] + parts[1..]) == [c] + Join(parts)
  {
    var q := [[c] + parts[0]] + parts[1..];
    if |parts| > 1 {
      assert q[1..] == parts[1..];
    }
  }

  /** Joining the pieces with dots gives the input back. */
  lemma {:induction false} JoinSplit(s: string)
    ensures Join(Split(s)) == s
    decreases |s|
  {
    if |s| > 0 {
      var rest := Split(s[1..]);
      JoinSplit(s[1..]);
      if s[0] == '.' {
        JoinAfterDot(rest);
      } else {
        JoinAfterChar(s[0], rest);
      }
      assert s == [s[0]] + s[1..];
    }
  }

  /** No piece holds a dot. */
  lemma {:induction false} SplitPiecesHaveNoDot(s: string)
    ensures forall i :: 0 <= i < |Split(s)| ==> '.' !in Split(s)[i]
    decreases |s|
  {
    if |s| > 0 {
      var rest := Split(s[1..]);
      SplitPiecesHaveNoDot(s[1..]);
      var parts := Split(s);
      forall i | 0 <= i < |parts|
        ensures '.' !in parts[i]
      {
        if s[0] == '.' {
          assert parts[i] == if i == 0 then "" else rest[i - 1];
        } else if i == 0 {
          assert '.' !in rest[0];
          assert parts[0] == [s[0]] + rest[0];
        } else {
          assert parts[i] == rest[i];
        }
      }
    }
  }

  predicate IsVersionText(s: string) {
    forall i :: 0 <= i < |s| ==> IsDigit(s[i]) || s[i] == '.'
  }

  /** The pieces of version text are digit strings. */
  lemma {:induction false} PiecesAreDigits(s: string)
    requires IsVersionText(s)
    ensures forall i :: 0 <= i < |Split(s)| ==> IsDigits(Split(s)[i])
    decreases |s|
  {
    if |s| > 0 {
      var rest := Split(s[1..]);
      PiecesAreDigits(s[1..]);
      var parts := Split(s);
      forall i | 0 <= i < |parts|
        ensures IsDigits(parts[i])
      {
        if s[0] == '.' {
          assert parts[i] == if i == 0 then "" else rest[i - 1];
        } else if i == 0 {
          assert IsDigits(rest[0]) && IsDigit(s[0]);
          assert parts[0] == [s[0]] + rest[0];
        } else {
          assert parts[i] == rest[i];
        }
      }
    }
  }

  /** A version string as `compareVersions` reads it: its pieces as numbers,
      an empty piece counting as 0. */
  function ParseVersion(s: string): (v: seq<nat>)
    requires IsVersionText(s)
    ensures |v| == |Split(s)|
    ensures forall i :: 0 <= i < |v| ==> IsDigits(Split(s)[i]) && v[i] == DigitsToNat(Split(s)[i])
  {
    var parts := Split(s);
    PiecesAreDigits(s);
    seq(|parts|, i requires 0 <= i < |parts| => DigitsToNat(parts[i]))
  }

  /** Splitting the dot-join of dot-free pieces gives the pieces back. */
  lemma {:induction false} SplitJoin(parts: seq<string>)
    requires |parts| >= 1 && forall i :: 0 <= i < |parts| ==> '.' !in parts[i]
    ensures Split(Join(parts)) == parts
    decreases |parts|, |parts[0]|
  {
    var p := parts[0];
    if |parts| == 1 {
      if |p| > 0 {
        SplitJoin([p[1..]]);
        assert Join([p]) == p && Join([p[1..]]) == p[1..];
        assert p == [p[0]] + p[1..];
      }
    } else if |p| == 0 {
      SplitJoin(parts[1..]);
      assert Join(parts) == "." + Join(parts[1..]);
      assert Join(parts)[1..] == Join(parts[1..]);
      assert parts == [""] + parts[1..];
    } else {
      var parts' := [p[1..]] + parts[1..];
      assert parts'[1..] == parts[1..];
      SplitJoin(parts');
      assert Join(parts) == [p[0]] + Join(parts');
      assert Join(parts)[1..] == Join(parts');
      assert p[0] in p;
      assert [p[0]] + p[1..] == p;
      assert parts == [p] + parts[1..];
    }
  }

  /** Dot-joined digit pieces form version text. */
  lemma {:induction false} JoinIsVersionText(parts: seq<string>)
    requires |parts| >= 1 && forall i :: 0 <= i < |parts| ==> IsDigits(parts[i])
    ensures IsVersionText(Join(parts))
    decreases |parts|
  {
    if |parts| > 1 {
      var rest := Join(parts[1..]);
      JoinIsVersionText(parts[1..]);
      var j := Join(parts);
      assert j == parts[0] + "." + rest;
      forall k | 0 <= k < |j|
        ensures IsDigit(j[k]) || j[k] == '.'
      {
        if k < |parts[0]| {
          assert j[k] == parts[0][k];
        } else if k > |parts[0]| {
          assert j[k] == rest[k - |parts[0]| - 1];
        }
      }
    }
  }

  lemma DigitsHaveNoDot(s: string)
    requires IsDigits(s)
    ensures '.' !in s
  {
  }

  /** Parsing the dot-join of digit pieces reads each piece as its number. */
  lemma ParseJoined(parts: seq<string>, v: seq<nat>)
    requires |parts| >= 1 && |parts| == |v|
    requires forall i :: 0 <= i < |parts| ==> IsDigits(parts[i]) && DigitsToNat(parts[i]) == v[i]
    ensures IsVersionText(Join(parts)) && ParseVersion(Join(parts)) == v
  {
    JoinIsVersionText(parts);
    forall i | 0 <= i < |parts|
      ensures '.' !in parts[i]
    {
      DigitsHaveNoDot(parts[i]);
    }
    SplitJoin(parts);
  }

  lemma CurrentVersionParts()
    ensures IsVersionText(CurrentVersion)
    ensures ParseVersion(CurrentVersion) == [1, 0, 7]
  {
    assert Join(["1", "0", "7"]) == CurrentVersion;
    ParseJoined(["1", "0", "7"], [1, 0, 7]);
  }

  /** The update decision of `checkForUpdates`, from the release's tag: the
      tag, without its `app-v` prefix, names a version newer than 1.0.7. */
  function UpdateAvailable(tagName: string): (r: bool)
    requires IsVersionText(StripTagPrefix(tagName))
    ensures r <==> OlderFrom([1, 0, 7], ParseVersion(StripTagPrefix(tagName)), 0)
  {
    CurrentVersionParts();
    HasUpdate(ParseVersion(CurrentVersion), ParseVersion(StripTagPrefix(tagName)))
  }

  /** A release tag one patch ahead of the running version offers an
      update. */
  lemma NewerPatchOffered()
    ensures IsVersionText("1.0.10") && UpdateAvailable("app-v1.0.10")
  {
    assert "app-v1.0.10"[..5] == "app-v" && "app-v1.0.10"[5..] == "1.0.10";
    assert Join(["1", "0", "10"]) == "1.0.10";
    assert DigitsToNat("10") == 10 by {
      assert "10"[..1] == "1";
    }
    ParseJoined(["1", "0", "10"], [1, 0, 10]);
    DecidedAt([1, 0, 7], [1, 0, 10], 2);
    OlderFromNext([1, 0, 7], [1, 0, 10], 1);
    OlderFromNext([1, 0, 7], [1, 0, 10], 0);
  }

  /** The running version's own tag offers nothing. */
  lemma SameVersionNotOffered()
    ensures IsVersionText("1.0.7") && !UpdateAvailable("app-v1.0.7")
  {
    assert "app-v1.0.7"[..5] == "app-v" && "app-v1.0.7"[5..] == "1.0.7";
    CurrentVersionParts();
    HasUpdateAsymmetric([1, 0, 7], [1, 0, 7]);
  }

  /** A zero-padded spelling of the running version, without the prefix,
      offers nothing either. */
  lemma PaddedVersionNotOffered()
    ensures IsVersionText("1.0.7.0") && !UpdateAvailable("1.0.7.0")
  {
    assert "1.0.7.0"[..5] != "app-v" by {
      assert "1.0.7.0"[..5][0] != "app-v"[0];
    }
    assert Join(["1", "0", "7", "0"]) == "1.0.7.0";
    ParseJoined(["1", "0", "7", "0"], [1, 0, 7, 0]);
    assert [1, 0, 7, 0] == [1, 0, 7] + Zeros(1);
    CompareIgnoresTrailingZeros([1, 0, 7], [1, 0, 7], 1);
    CompareAntisymmetric([1, 0, 7], [1, 0, 7, 0]);
  }
}
