/** Classification of release assets by file name, and the icon shown for
    each platform (src/lib/services/versionCheck.js, `detectPlatform` and
    `getPlatformIcon`). */
module Platforms {

  /** Lower-casing of one character, for the ASCII letters. */
  function LowerChar(c: char): char {
    if 'A' <= c <= 'Z' then (c as int + 32) as char else c
  }

  /** `toLowerCase()`, restricted to ASCII letters. */
  function Lower(s: string): (r: string)
    ensures |r| == |s| && forall i :: 0 <= i < |s| ==> r[i] == LowerChar(s[i])
    // capitals become their small letters, everything else is kept
    ensures forall i :: 0 <= i < |s| && 'A' <= s[i] <= 'Z' ==> 'a' <= r[i] <= 'z' && r[i] as int == s[i] as int + 32
    ensures forall i :: 0 <= i < |s| && !('A' <= s[i] <= 'Z') ==> r[i] == s[i]
    ensures forall i :: 0 <= i < |r| ==> !('A' <= r[i] <= 'Z')
  {
    seq(|s|, i requires 0 <= i < |s| => LowerChar(s[i]))
  }

  /** `p` occurs in `s` starting at index `i`. */
  predicate OccursAt(s: string, p: string, i: int) {
    0 <= i && i + |p| <= |s| && s[i..i + |p|] == p
  }

  /** `s.includes(p)`: `p` occurs somewhere in `s` as a contiguous piece. */
  function Contains(s: string, p: string): (b: bool)
    ensures b <==> exists i :: OccursAt(s, p, i)
    decreases |s|
  {
    if |p| > |s| then false
    else if s[..|p|] == p then
      assert OccursAt(s, p, 0);
      true
    else
      var b := Contains(s[1..], p);
      assert b ==> exists i :: OccursAt(s, p, i) by {
        if b {
          var i :| OccursAt(s[1..], p, i);
          assert s[1..][i..i + |p|] == s[i + 1..i + 1 + |p|];
          assert OccursAt(s, p, i + 1);
        }
      }
      assert (exists i :: OccursAt(s, p, i)) ==> b by {
        if exists i :: OccursAt(s, p, i) {
          var i :| OccursAt(s, p, i);
          assert i != 0;
          assert s[1..][i - 1..i - 1 + |p|] == s[i..i + |p|];
          assert OccursAt(s[1..], p, i - 1);
        }
      }
      b
  }

  /** `detectPlatform`: the lower-cased name is matched against the rules in
      order, and the first rule with a matching pattern decides. */
  function DetectPlatform(filename: string): (platform: string)
    ensures platform in MacPlatforms + {"Windows", "Linux", "Unknown"}
  {
    var name := Lower(filename);
    if Contains(name, ".dmg") then "macOS"
    else if Contains(name, ".msi") || Contains(name, ".exe") then "Windows"
    else if Contains(name, ".appimage") || Contains(name, ".deb") || Contains(name, ".rpm") then "Linux"
    else if Contains(name, "aarch64") || Contains(name, "arm64") then "macOS (Apple Silicon)"
    else if Contains(name, "x86_64") || Contains(name, "intel") then "macOS (Intel)"
    else "Unknown"
  }

  /** A detection rule: the platform named when any of its patterns occurs. */
  datatype Rule = Rule(patterns: seq<string>, platform: string)

  /** The rules of `detectPlatform` as a table, in the order they are tried. */
  const Rules: seq<Rule> := [
    Rule([".dmg"], "macOS"),
    Rule([".msi", ".exe"], "Windows"),
    Rule([".appimage", ".deb", ".rpm"], "Linux"),
    Rule(["aarch64", "arm64"], "macOS (Apple Silicon)"),
    Rule(["x86_64", "intel"], "macOS (Intel)")
  ]

  /** Some pattern of the list occurs in `name`. */
  function AnyContains(name: string, patterns: seq<string>): bool {
    if |patterns| == 0 then false
    else Contains(name, patterns[0]) || AnyContains(name, patterns[1..])
  }

  lemma {:induction false} AnyContainsSpec(name: string, patterns: seq<string>)
    ensures AnyContains(name, patterns) <==> exists k :: 0 <= k < |patterns| && Contains(name, patterns[k])
  {
    if |patterns| > 0 {
      AnyContainsSpec(name, patterns[1..]);
      assert forall k :: 1 <= k < |patterns| ==> patterns[1..][k - 1] == patterns[k];
    }
  }

  /** First-match-wins classification against a rule table: the platform of
      the earliest matching rule, and "Unknown" when no rule matches. */
  function FirstMatch(name: string, rules: seq<Rule>): string {
    if |rules| == 0 then "Unknown"
    else if AnyContains(name, rules[0].patterns) then rules[0].platform
    else FirstMatch(name, rules[1..])
  }

  /** When no rule matches, the name is "Unknown". */
  lemma {:induction false} FirstMatchNone(name: string, rules: seq<Rule>)
    requires forall k :: 0 <= k < |rules| ==> !AnyContains(name, rules[k].patterns)
    ensures FirstMatch(name, rules) == "Unknown"
  {
    if |rules| > 0 {
      assert forall k :: 0 <= k < |rules| - 1 ==> rules[1..][k] == rules[k + 1];
      FirstMatchNone(name, rules[1..]);
    }
  }

  /** The earliest matching rule decides. */
  lemma {:induction false} FirstMatchEarliest(name: string, rules: seq<Rule>, k: nat)
    requires k < |rules| && AnyContains(name, rules[k].patterns)
    requires forall m :: 0 <= m < k ==> !AnyContains(name, rules[m].patterns)
    ensures FirstMatch(name, rules) == rules[k].platform
  {
    if k > 0 {
      assert !AnyContains(name, rules[0].patterns);
      assert rules[1..][k - 1] == rules[k];
      assert forall m :: 0 <= m < k - 1 ==> rules[1..][m] == rules[m + 1];
      FirstMatchEarliest(name, rules[1..], k - 1);
    }
  }

  /** A rule with one, two or three patterns matches when one of them
      occurs. */
  lemma AnyContainsOne(name: string, p: string)
    ensures AnyContains(name, [p]) == Contains(name, p)
  {
    assert [p][1..] == [];
  }

  lemma AnyContainsTwo(name: string, p: string, q: string)
    ensures AnyContains(name, [p, q]) == (Contains(name, p) || Contains(name, q))
  {
    assert [p, q][1..] == [q];
    AnyContainsOne(name, q);
  }

  lemma AnyContainsThree(name: string, p: string, q: string, u: string)
    ensures AnyContains(name, [p, q, u]) == (Contains(name, p) || Contains(name, q) || Contains(name, u))
  {
    assert [p, q, u][1..] == [q, u];
    AnyContainsTwo(name, q, u);
  }

  /** First-match on a table that starts with `rule`. */
  lemma FirstMatchCons(name: string, rule: Rule, rules: seq<Rule>)
    ensures FirstMatch(name, [rule] + rules)
      == if AnyContains(name, rule.patterns) then rule.platform else FirstMatch(name, rules)
  {
    assert ([rule] + rules)[1..] == rules;
  }

  /** `detectPlatform` is the first-match classification of the lower-cased
      name against its rule table. */
  lemma DetectFollowsRules(filename: string)
    ensures DetectPlatform(filename) == FirstMatch(Lower(filename), Rules)
  {
    var name := Lower(filename);
    AnyContainsOne(name, ".dmg");
    AnyContainsTwo(name, ".msi", ".exe");
    AnyContainsThree(name, ".appimage", ".deb", ".rpm");
    AnyContainsTwo(name, "aarch64", "arm64");
    AnyContainsTwo(name, "x86_64", "intel");
    FirstMatchCons(name, Rules[4], []);
    FirstMatchCons(name, Rules[3], Rules[4..]);
    FirstMatchCons(name, Rules[2], Rules[3..]);
    FirstMatchCons(name, Rules[1], Rules[2..]);
    FirstMatchCons(name, Rules[0], Rules[1..]);
    assert [Rules[4]] + [] == Rules[4..];
    assert [Rules[3]] + Rules[4..] == Rules[3..];
    assert [Rules[2]] + Rules[3..] == Rules[2..];
    assert [Rules[1]] + Rules[2..] == Rules[1..];
    assert [Rules[0]] + Rules[1..] == Rules;
  }

  /** Two names that differ only in the case of their letters. */
  predicate SameIgnoringCase(a: string, b: string) {
    |a| == |b| && forall i :: 0 <= i < |a| ==> LowerChar(a[i]) == LowerChar(b[i])
  }

  /** Detection does not depend on the case of the name. */
  lemma DetectIgnoresCase(a: string, b: string)
    requires SameIgnoringCase(a, b)
    ensures DetectPlatform(a) == DetectPlatform(b)
  {
    assert Lower(a) == Lower(b);
  }

  /** A disk image is macOS, whatever else the name says. */
  lemma DiskImageIsMacOS(filename: string, i: nat)
    requires OccursAt(Lower(filename), ".dmg", i)
    ensures DetectPlatform(filename) == "macOS"
  {
  }

  /** An Apple Silicon disk image is still classed by its extension. */
  lemma AppleSiliconDiskImage()
    ensures DetectPlatform("Smart-Kaboom_aarch64.DMG") == "macOS"
  {
    var name := Lower("Smart-Kaboom_aarch64.DMG");
    assert name[20..24] == ".dmg";
    DiskImageIsMacOS("Smart-Kaboom_aarch64.DMG", 20);
  }

  /** A name no rule matches is "Unknown". */
  lemma UnmatchedIsUnknown(filename: string)
    requires forall k, j :: 0 <= k < |Rules| && 0 <= j < |Rules[k].patterns| ==>
      !Contains(Lower(filename), Rules[k].patterns[j])
    ensures DetectPlatform(filename) == "Unknown"
  {
    var name := Lower(filename);
    DetectFollowsRules(filename);
    forall k | 0 <= k < |Rules|
      ensures !AnyContains(name, Rules[k].patterns)
    {
      AnyContainsSpec(name, Rules[k].patterns);
    }
    FirstMatchNone(name, Rules);
  }

  /** The three macOS variants `detectPlatform` can name. */
  const MacPlatforms: set<string> := {"macOS", "macOS (Apple Silicon)", "macOS (Intel)"}

  /** `getPlatformIcon`: one icon per family, and a download icon for
      anything it does not recognise. */
  function PlatformIcon(platform: string): (icon: string)
    ensures icon == "fab fa-apple" <==> platform in MacPlatforms
    ensures icon == "fab fa-windows" <==> platform == "Windows"
    ensures icon == "fab fa-linux" <==> platform == "Linux"
    ensures icon == "fas fa-download" <==> platform !in MacPlatforms + {"Windows", "Linux"}
  {
    if platform in MacPlatforms then "fab fa-apple"
    else if platform == "Windows" then "fab fa-windows"
    else if platform == "Linux" then "fab fa-linux"
    else "fas fa-download"
  }

  /** Every asset the detector recognises gets a platform icon; only the
      unrecognised ones get the download icon. */
  lemma IconOfDetectedAsset(filename: string)
    ensures PlatformIcon(DetectPlatform(filename)) == "fas fa-download"
      <==> DetectPlatform(filename) == "Unknown"
    ensures PlatformIcon(DetectPlatform(filename)) == "fab fa-apple"
      <==> DetectPlatform(filename) in MacPlatforms
  {
  }
}
