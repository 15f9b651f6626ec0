/** The version recogniser: a hand-written matcher for the anchored pattern
    `^(v[0-9]+)\.([0-9]+)\.([0-9]+)(-[0-9a-f]*)?$` that captures its groups. */
module SemVer {
  import opened Text

  datatype Option<T> = None | Some(value: T)

  /** The captured groups: `major` keeps its leading `v`; `prerelease`, when
      the optional group matched, keeps its leading `-`. */
  datatype Version = Version(major: string, minor: string, patch: string, prerelease: Option<string>)

  /** What each group of the pattern admits. */
  predicate WellFormed(v: Version) {
    && |v.major| >= 2 && v.major[0] == 'v' && AllDigits(v.major[1..])
    && |v.minor| >= 1 && AllDigits(v.minor)
    && |v.patch| >= 1 && AllDigits(v.patch)
    && (v.prerelease.Some? ==>
          |v.prerelease.value| >= 1 && v.prerelease.value[0] == '-'
          && AllLowerHex(v.prerelease.value[1..]))
  }

  /** The text the groups were captured from: the whole match. */
  function Render(v: Version): string {
    v.major + "." + v.minor + "." + v.patch
    + (if v.prerelease.Some? then v.prerelease.value else "")
  }

  /** The strings the pattern matches in full. */
  ghost predicate IsSemVer(s: string) {
    exists v :: WellFormed(v) && Render(v) == s
  }

  /** The end of the run of digits that starts at `i`. */
  function DigitsEnd(s: string, i: nat): (e: nat)
    requires i <= |s|
    ensures i <= e <= |s|
    ensures forall k :: i <= k < e ==> IsDigit(s[k])
    ensures e == |s| || !IsDigit(s[e])
    decreases |s| - i
  {
    if i < |s| && IsDigit(s[i]) then DigitsEnd(s, i + 1) else i
  }

  /** Matches `s` against the pattern, anchored at both ends. The digit runs
      cannot contain `.` or `-`, so the greedy runs below are the only way
      the pattern can match. */
  function Parse(s: string): (r: Option<Version>)
    ensures r.Some? ==> WellFormed(r.value) && Render(r.value) == s
  {
    if |s| == 0 || s[0] != 'v' then None
    else
      var e1 := DigitsEnd(s, 1);
      if e1 == 1 || e1 == |s| || s[e1] != '.' then None
      else
        var e2 := DigitsEnd(s, e1 + 1);
        if e2 == e1 + 1 || e2 == |s| || s[e2] != '.' then None
        else
          var e3 := DigitsEnd(s, e2 + 1);
          if e3 == e2 + 1 then None
          else
            var major, minor, patch := s[..e1], s[e1 + 1..e2], s[e2 + 1..e3];
            DigitsSlice(s, 1, e1);
            DigitsSlice(s, e1 + 1, e2);
            DigitsSlice(s, e2 + 1, e3);
            assert major[1..] == s[1..e1];
            SplitAtDots(s, e1, e2, e3);
            if e3 == |s| then
              Some(Version(major, minor, patch, None))
            else if s[e3] == '-' && AllLowerHex(s[e3 + 1..]) then
              assert s[e3..][1..] == s[e3 + 1..];
              Some(Version(major, minor, patch, Some(s[e3..])))
            else None
  }

  /** Cutting `s` at two dots and gluing the parts back together with dots. */
  lemma SplitAtDots(s: string, e1: nat, e2: nat, e3: nat)
    requires e1 < e2 < e3 <= |s| && s[e1] == '.' && s[e2] == '.'
    ensures s == s[..e1] + "." + s[e1 + 1..e2] + "." + s[e2 + 1..e3] + s[e3..]
  {
    assert s == s[..e1] + s[e1..e2] + s[e2..e3] + s[e3..];
    assert s[e1..e2] == "." + s[e1 + 1..e2];
    assert s[e2..e3] == "." + s[e2 + 1..e3];
  }

  lemma DigitsSlice(s: string, i: nat, e: nat)
    requires i <= e <= |s|
    requires forall k :: i <= k < e ==> IsDigit(s[k])
    ensures AllDigits(s[i..e])
  {
    assert forall k :: 0 <= k < e - i ==> s[i..e][k] == s[i + k];
  }

  /** A digit run that stops at a non-digit is exactly what `DigitsEnd` finds. */
  lemma {:induction false} DigitsEndAt(s: string, i: nat, e: nat)
    requires i <= e <= |s|
    requires forall k :: i <= k < e ==> IsDigit(s[k])
    requires e == |s| || !IsDigit(s[e])
    ensures DigitsEnd(s, i) == e
    decreases e - i
  {
    if i < e {
      DigitsEndAt(s, i + 1, e);
    }
  }

  /** Where each group sits in the rendered text. */
  lemma RenderLayout(v: Version)
    ensures var s := Render(v);
            var e1 := |v.major|;
            var e2 := e1 + 1 + |v.minor|;
            var e3 := e2 + 1 + |v.patch|;
            && e3 <= |s|
            && s[..e1] == v.major && s[e1] == '.'
            && s[e1 + 1..e2] == v.minor && s[e2] == '.'
            && s[e2 + 1..e3] == v.patch
            && s[e3..] == (if v.prerelease.Some? then v.prerelease.value else "")
  {
    var tail := if v.prerelease.Some? then v.prerelease.value else "";
    var head := v.major + "." + v.minor + "." + v.patch;
    assert Render(v) == head + tail;
    assert head[..|v.major|] == v.major;
    assert head[|v.major| + 1..|v.major| + 1 + |v.minor|] == v.minor;
    assert head[|v.major| + 2 + |v.minor|..] == v.patch;
  }

  /** The recogniser's answer once the positions of the two dots and the end
      of the patch digits are known. */
  lemma ParseAt(s: string, e1: nat, e2: nat, e3: nat, tail: Option<string>)
    requires 1 < e1 && e1 + 1 < e2 && e2 + 1 < e3 <= |s|
    requires s[0] == 'v' && s[e1] == '.' && s[e2] == '.'
    requires forall k :: 1 <= k < e1 ==> IsDigit(s[k])
    requires forall k :: e1 + 1 <= k < e2 ==> IsDigit(s[k])
    requires forall k :: e2 + 1 <= k < e3 ==> IsDigit(s[k])
    requires tail == if e3 == |s| then None else Some(s[e3..])
    requires tail.Some? ==> s[e3] == '-' && AllLowerHex(s[e3 + 1..])
    ensures Parse(s) == Some(Version(s[..e1], s[e1 + 1..e2], s[e2 + 1..e3], tail))
  {
    DigitsEndAt(s, 1, e1);
    DigitsEndAt(s, e1 + 1, e2);
    DigitsEndAt(s, e2 + 1, e3);
    ParseGroups(s, e1, e2, e3, tail);
  }

  /** The recogniser's answer once the three digit runs are known to end at
      `e1`, `e2` and `e3`. */
  lemma ParseGroups(s: string, e1: nat, e2: nat, e3: nat, tail: Option<string>)
    requires 1 < e1 && e1 + 1 < e2 && e2 + 1 < e3 <= |s|
    requires s[0] == 'v' && s[e1] == '.' && s[e2] == '.'
    requires DigitsEnd(s, 1) == e1 && DigitsEnd(s, e1 + 1) == e2 && DigitsEnd(s, e2 + 1) == e3
    requires tail == if e3 == |s| then None else Some(s[e3..])
    requires tail.Some? ==> s[e3] == '-' && AllLowerHex(s[e3 + 1..])
    ensures Parse(s) == Some(Version(s[..e1], s[e1 + 1..e2], s[e2 + 1..e3], tail))
  {
    var version := Version(s[..e1], s[e1 + 1..e2], s[e2 + 1..e3], tail);
    if e3 == |s| {
      assert Parse(s) == Some(version);
    } else {
      assert s[e3] == '-' && AllLowerHex(s[e3 + 1..]);
      assert Parse(s) == Some(version);
    }
  }

  /** The facts about the rendered text that the recogniser inspects. */
  lemma RenderFacts(v: Version)
    requires WellFormed(v)
    ensures var s := Render(v);
            var e1 := |v.major|;
            var e2 := e1 + 1 + |v.minor|;
            var e3 := e2 + 1 + |v.patch|;
            && 1 < e1 && e1 + 1 < e2 && e2 + 1 < e3 <= |s|
            && s[0] == 'v' && s[e1] == '.' && s[e2] == '.'
            && (forall k :: 1 <= k < e1 ==> IsDigit(s[k]))
            && (forall k :: e1 + 1 <= k < e2 ==> IsDigit(s[k]))
            && (forall k :: e2 + 1 <= k < e3 ==> IsDigit(s[k]))
            && s[..e1] == v.major && s[e1 + 1..e2] == v.minor && s[e2 + 1..e3] == v.patch
            && v.prerelease == (if e3 == |s| then None else Some(s[e3..]))
            && (e3 < |s| ==> s[e3] == '-' && AllLowerHex(s[e3 + 1..]))
  {
    var s := Render(v);
    var e1 := |v.major|;
    var e2 := e1 + 1 + |v.minor|;
    var e3 := e2 + 1 + |v.patch|;
    RenderLayout(v);
    assert s[0] == s[..e1][0];
    assert forall k :: 1 <= k < e1 ==> s[k] == s[..e1][1..][k - 1];
    assert forall k :: e1 + 1 <= k < e2 ==> s[k] == s[e1 + 1..e2][k - e1 - 1];
    assert forall k :: e2 + 1 <= k < e3 ==> s[k] == s[e2 + 1..e3][k - e2 - 1];
    if v.prerelease.Some? {
      assert s[e3] == s[e3..][0];
      assert s[e3 + 1..] == s[e3..][1..];
    }
  }

  /** Every well-formed version is recognised, and its groups are recovered
      exactly from its text. */
  lemma ParseRender(v: Version)
    requires WellFormed(v)
    ensures Parse(Render(v)) == Some(v)
  {
    RenderFacts(v);
    var e1 := |v.major|;
    var e2 := e1 + 1 + |v.minor|;
    var e3 := e2 + 1 + |v.patch|;
    var s := Render(v);
    assert Version(s[..e1], s[e1 + 1..e2], s[e2 + 1..e3], v.prerelease) == v;
    ParseAt(s, e1, e2, e3, v.prerelease);
  }

  /** The recogniser fails exactly on the strings the pattern does not match. */
  lemma ParseNoneIff(s: string)
    ensures Parse(s).None? <==> !IsSemVer(s)
  {
    if IsSemVer(s) {
      var v :| WellFormed(v) && Render(v) == s;
      ParseRender(v);
    }
  }

  /** A matched string is a prerelease exactly when it contains `-`:
      the first three groups never contain one. */
  lemma PrereleaseIffHyphen(v: Version)
    requires WellFormed(v)
    ensures v.prerelease.Some? <==> '-' in Render(v)
  {
    var head := v.major + "." + v.minor + "." + v.patch;
    assert '-' !in head by {
      forall k | 0 <= k < |head| ensures head[k] != '-' {
        if k < |v.major| {
          if k > 0 { assert head[k] == v.major[1..][k - 1]; }
        } else if k == |v.major| || k == |v.major| + 1 + |v.minor| {
        } else if k < |v.major| + 1 + |v.minor| {
          assert head[k] == v.minor[k - |v.major| - 1];
        } else {
          assert head[k] == v.patch[k - |v.major| - 2 - |v.minor|];
        }
      }
    }
    if v.prerelease.Some? {
      assert Render(v)[|head|] == '-';
    } else {
      assert Render(v) == head;
    }
  }

  /** The prerelease group admits lower-case hexadecimal only: a release
      candidate marker such as `-rc1` is rejected. */
  lemma RejectsNonHexPrerelease()
    ensures Parse("v1.0.0-rc1").None?
  {
    var s := "v1.0.0-rc1";
    DigitsEndAt(s, 1, 2);
    DigitsEndAt(s, 3, 4);
    DigitsEndAt(s, 5, 6);
    assert s[7..][0] == 'r';
  }

  /** The prerelease group may be empty after its `-`, and still counts as
      present. */
  lemma AcceptsBareHyphen()
    ensures Parse("v1.2.3-") == Some(Version("v1", "2", "3", Some("-")))
  {
    var v := Version("v1", "2", "3", Some("-"));
    assert Render(v) == "v1.2.3-";
    ParseRender(v);
  }
}
