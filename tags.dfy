/** The tag deriver: from a version, a suffix and a comma-separated list of
    extra tags, the ordered list of image tags, or the error raised for a
    version the pattern rejects. */
module Tags {
  import opened Text
  import opened SemVer

  datatype TagResult = Success(tags: seq<string>) | Failure(msg: string)

  const InvalidPrefix: string := "Param 'semver' is invalid: "

  /** The extra tag names, before the suffix: every piece trimmed, the pieces
      that trim to nothing dropped, the rest kept in order. */
  function ExtraNames(pieces: seq<string>): (r: seq<string>)
    ensures |r| <= |pieces|
    ensures forall k :: 0 <= k < |r| ==> r[k] != [] && IsTrimmed(r[k])
  {
    if pieces == [] then []
    else
      var t := Trim(pieces[0]);
      var rest := ExtraNames(pieces[1..]);
      if t == [] then rest else [t] + rest
  }

  /** Every piece survives exactly when none of them is blank. */
  lemma {:induction false} ExtraNamesKeepsAll(pieces: seq<string>)
    ensures |ExtraNames(pieces)| == |pieces| <==> forall j :: 0 <= j < |pieces| ==> !AllWhitespace(pieces[j])
  {
    if pieces != [] {
      ExtraNamesKeepsAll(pieces[1..]);
      if forall j :: 0 <= j < |pieces[1..]| ==> !AllWhitespace(pieces[1..][j]) {
        forall j | 1 <= j < |pieces| ensures !AllWhitespace(pieces[j]) {
          assert pieces[j] == pieces[1..][j - 1];
        }
      } else {
        var j :| 0 <= j < |pieces[1..]| && AllWhitespace(pieces[1..][j]);
        assert pieces[j + 1] == pieces[1..][j];
      }
    }
  }

  /** Names cut from comma-free pieces contain no comma. */
  lemma {:induction false} ExtraNamesCommaFree(pieces: seq<string>)
    requires forall j :: 0 <= j < |pieces| ==> ',' !in pieces[j]
    ensures forall k :: 0 <= k < |ExtraNames(pieces)| ==> ',' !in ExtraNames(pieces)[k]
  {
    if pieces != [] {
      ExtraNamesCommaFree(pieces[1..]);
      var t := Trim(pieces[0]);
      if ',' in t {
        TrimWithin(pieces[0], ',');
      }
      var rest := ExtraNames(pieces[1..]);
      var head := if t == [] then [] else [t];
      assert ExtraNames(pieces) == head + rest;
      assert forall k :: 0 <= k < |rest| ==> (head + rest)[|head| + k] == rest[k];
    }
  }

  /** Each name with the suffix appended. */
  function WithSuffix(names: seq<string>, suffix: string): (r: seq<string>)
    ensures |r| == |names|
    ensures forall k :: 0 <= k < |r| ==> r[k] == names[k] + suffix
  {
    seq(|names|, k requires 0 <= k < |names| => names[k] + suffix)
  }

  /** Suffixing distributes over concatenation: the suffixed names of a
      longer list extend those of its prefix. */
  lemma WithSuffixConcat(a: seq<string>, b: seq<string>, suffix: string)
    ensures WithSuffix(a + b, suffix) == WithSuffix(a, suffix) + WithSuffix(b, suffix)
  {
    var l, r := WithSuffix(a + b, suffix), WithSuffix(a, suffix) + WithSuffix(b, suffix);
    forall k | 0 <= k < |l| ensures l[k] == r[k] {
      if k < |a| {
        assert (a + b)[k] == a[k];
      } else {
        assert (a + b)[k] == b[k - |a|];
      }
    }
  }

  /** The whole derivation, as a value: the specification `ParseSemVer` meets. */
  function Derive(semver: string, suffix: string, additionalTags: string): (r: TagResult)
    ensures r.Failure? ==> r.msg == InvalidPrefix + semver
    ensures r.Success? ==>
              |r.tags| == PrimaryCount(semver) + |ExtraNames(Split(additionalTags, ','))|
  {
    match Parse(semver)
    case None => Failure(InvalidPrefix + semver)
    case Some(v) =>
      var primary :=
        if v.prerelease.Some? then [semver]
        else [v.major + "." + v.minor + "." + v.patch + suffix,
              v.major + "." + v.minor + suffix,
              v.major + suffix];
      Success(primary + WithSuffix(ExtraNames(Split(additionalTags, ',')), suffix))
  }

  /** Recognises the version and pushes the primary tags, then the extra
      tags. */
  method ParseSemVer(semver: string, suffix: string, additionalTagsStr: string) returns (r: TagResult)
    ensures r == Derive(semver, suffix, additionalTagsStr)
  {
    var m := Parse(semver);
    if m.None? {
      return Failure(InvalidPrefix + semver);
    }
    var v := m.value;
    var all := Render(v);
    var tags: seq<string> := [];
    if v.prerelease.Some? {
      tags := tags + [all];
      assert tags == [semver];
    } else {
      tags := tags + [v.major + "." + v.minor + "." + v.patch + suffix];
      tags := tags + [v.major + "." + v.minor + suffix];
      tags := tags + [v.major + suffix];
      assert tags == [v.major + "." + v.minor + "." + v.patch + suffix, v.major + "." + v.minor + suffix, v.major + suffix];
    }
    tags := PushExtraTags(tags, suffix, additionalTagsStr);
    r := Success(tags);
  }

  /** Splits the extra-tags text on commas and walks the pieces in order,
      pushing each non-blank one, trimmed and suffixed, after `tags`. */
  method PushExtraTags(tags: seq<string>, suffix: string, additionalTagsStr: string) returns (out: seq<string>)
    ensures out == tags + WithSuffix(ExtraNames(Split(additionalTagsStr, ',')), suffix)
  {
    out := tags;
    var pieces := Split(additionalTagsStr, ',');
    var i := 0;
    while i < |pieces|
      invariant 0 <= i <= |pieces|
      invariant out == tags + WithSuffix(ExtraNames(pieces[..i]), suffix)
    {
      var tag := Trim(pieces[i]);
      PushStep(tags, pieces, i, suffix);
      if |tag| > 0 {
        out := out + [tag + suffix];
      }
      i := i + 1;
    }
    assert pieces[..i] == pieces;
  }

  /** Dropping blank pieces commutes with concatenation, so the order of the
      pieces is the order of the names. */
  lemma {:induction false} ExtraNamesConcat(p: seq<string>, q: seq<string>)
    ensures ExtraNames(p + q) == ExtraNames(p) + ExtraNames(q)
  {
    if p == [] {
      assert p + q == q;
    } else {
      var t := Trim(p[0]);
      assert (p + q)[0] == p[0];
      assert (p + q)[1..] == p[1..] + q;
      ExtraNamesConcat(p[1..], q);
      if t != [] {
        AppendAssoc([t], ExtraNames(p[1..]), ExtraNames(q));
      }
    }
  }

  /** One more piece adds its trimmed self, unless it is blank. */
  lemma ExtraNamesStep(pieces: seq<string>, i: nat)
    requires i < |pieces|
    ensures ExtraNames(pieces[..i + 1])
         == ExtraNames(pieces[..i]) + (if Trim(pieces[i]) == [] then [] else [Trim(pieces[i])])
  {
    assert pieces[..i + 1] == pieces[..i] + [pieces[i]];
    ExtraNamesConcat(pieces[..i], [pieces[i]]);
    assert [pieces[i]][1..] == [];
  }

  /** What one iteration of the loop in `PushExtraTags` adds. */
  lemma PushStep(tags: seq<string>, pieces: seq<string>, i: nat, suffix: string)
    requires i < |pieces|
    ensures tags + WithSuffix(ExtraNames(pieces[..i + 1]), suffix)
         == tags + WithSuffix(ExtraNames(pieces[..i]), suffix)
            + (if Trim(pieces[i]) == [] then [] else [Trim(pieces[i]) + suffix])
  {
    var t := Trim(pieces[i]);
    var names := ExtraNames(pieces[..i]);
    var step := if t == [] then [] else [t];
    ExtraNamesStep(pieces, i);
    WithSuffixConcat(names, step, suffix);
    assert WithSuffix(step, suffix) == if t == [] then [] else [t + suffix];
    AppendAssoc(tags, WithSuffix(names, suffix), WithSuffix(step, suffix));
  }

  lemma AppendAssoc<T>(a: seq<T>, b: seq<T>, c: seq<T>)
    ensures a + (b + c) == (a + b) + c
  {
  }

  /** The names of `a,b` are the names of `a` followed by the names of `b`. */
  lemma ExtraNamesOfList(a: string, b: string)
    ensures ExtraNames(Split(a + "," + b, ',')) == ExtraNames(Split(a, ',')) + ExtraNames(Split(b, ','))
  {
    SplitConcat(a, b, ',');
    ExtraNamesConcat(Split(a, ','), Split(b, ','));
  }

  /** A comma-free text is one piece: it gives its trimmed self, or nothing
      when it is blank. */
  lemma ExtraNamesOfPiece(a: string)
    requires ',' !in a
    ensures ExtraNames(Split(a, ',')) == if AllWhitespace(a) then [] else [Trim(a)]
  {
    SplitFree(a, ',');
    assert [a][1..] == [];
  }

  /** The number of primary tags of a recognised version: one for a
      prerelease, three for a release. */
  function PrimaryCount(semver: string): nat {
    match Parse(semver)
    case None => 0
    case Some(v) => if v.prerelease.Some? then 1 else 3
  }

  /** A recognised version has one primary tag exactly when it contains `-`,
      and three otherwise. */
  lemma PrimaryCountHyphen(semver: string)
    requires IsSemVer(semver)
    ensures PrimaryCount(semver) == if '-' in semver then 1 else 3
  {
    var v :| WellFormed(v) && Render(v) == semver;
    ParseRender(v);
    PrereleaseIffHyphen(v);
  }

  /** Derivation fails exactly on the versions the pattern rejects, and the
      message is the fixed prefix followed by the input verbatim. */
  lemma DeriveFailure(semver: string, suffix: string, additionalTags: string)
    ensures Derive(semver, suffix, additionalTags).Failure? <==> !IsSemVer(semver)
    ensures Derive(semver, suffix, additionalTags).Failure? ==>
              Derive(semver, suffix, additionalTags).msg == InvalidPrefix + semver
  {
    ParseNoneIff(semver);
  }

  /** A prerelease yields the whole input as its single primary tag, without
      the suffix, followed by the extra tags. */
  lemma DerivePrerelease(semver: string, suffix: string, additionalTags: string)
    requires IsSemVer(semver) && '-' in semver
    ensures Derive(semver, suffix, additionalTags)
         == Success([semver] + WithSuffix(ExtraNames(Split(additionalTags, ',')), suffix))
  {
    var v :| WellFormed(v) && Render(v) == semver;
    ParseRender(v);
    PrereleaseIffHyphen(v);
  }

  /** A release yields three primary tags, most specific first, each with the
      suffix, followed by the extra tags. */
  lemma DeriveRelease(v: Version, suffix: string, additionalTags: string)
    requires WellFormed(v) && v.prerelease.None?
    ensures Derive(Render(v), suffix, additionalTags)
         == Success([v.major + "." + v.minor + "." + v.patch + suffix,
                     v.major + "." + v.minor + suffix,
                     v.major + suffix]
                    + WithSuffix(ExtraNames(Split(additionalTags, ',')), suffix))
  {
    ParseRender(v);
  }

  /** For a release, the most specific tag is the input with the suffix
      appended. */
  lemma ReleaseRoundTrip(semver: string, suffix: string, additionalTags: string)
    requires IsSemVer(semver) && '-' !in semver
    ensures Derive(semver, suffix, additionalTags).Success?
    ensures Derive(semver, suffix, additionalTags).tags[0] == semver + suffix
  {
    var v :| WellFormed(v) && Render(v) == semver;
    PrereleaseIffHyphen(v);
    DeriveRelease(v, suffix, additionalTags);
    var head := v.major + "." + v.minor + "." + v.patch;
    assert Render(v) == head + "" == head;
    assert Derive(semver, suffix, additionalTags).tags[0] == head + suffix;
  }

  /** A recognised version yields its primary tags (one for a prerelease,
      three for a release) followed by the suffixed extra names. */
  lemma DeriveShape(semver: string, suffix: string, additionalTags: string)
    requires IsSemVer(semver)
    ensures var r := Derive(semver, suffix, additionalTags);
            && r.Success? && |r.tags| >= PrimaryCount(semver)
            && r.tags == r.tags[..PrimaryCount(semver)] + WithSuffix(ExtraNames(Split(additionalTags, ',')), suffix)
  {
    ParseNoneIff(semver);
  }

  /** The number of tags: one primary tag for a prerelease, three for a
      release, plus one per piece that is not blank. */
  lemma DeriveLength(semver: string, suffix: string, additionalTags: string)
    requires IsSemVer(semver)
    ensures Derive(semver, suffix, additionalTags).Success?
    ensures |Derive(semver, suffix, additionalTags).tags|
         == (if '-' in semver then 1 else 3) + |ExtraNames(Split(additionalTags, ','))|
  {
    DeriveShape(semver, suffix, additionalTags);
    PrimaryCountHyphen(semver);
  }

  /** Past a prefix of length `p`, a sequence is what follows the prefix. */
  lemma SuffixedAfter(tags: seq<string>, p: nat, extra: seq<string>)
    requires p <= |tags| && tags == tags[..p] + extra
    ensures |tags| == p + |extra|
    ensures forall k :: 0 <= k < |extra| ==> tags[p + k] == extra[k]
  {
    forall k | 0 <= k < |extra| ensures tags[p + k] == extra[k] {
      assert tags[p + k] == (tags[..p] + extra)[p + k];
    }
  }

  /** The extra tags come after the primary ones, in input order, each a
      non-empty, comma-free, trimmed name followed by the suffix. */
  lemma ExtraTagsFollow(semver: string, suffix: string, additionalTags: string)
    requires IsSemVer(semver)
    ensures var r := Derive(semver, suffix, additionalTags);
            var p := PrimaryCount(semver);
            var names := ExtraNames(Split(additionalTags, ','));
            r.Success? && |r.tags| == p + |names| &&
            forall k :: 0 <= k < |names| ==>
              r.tags[p + k] == names[k] + suffix
              && names[k] != [] && ',' !in names[k] && IsTrimmed(names[k])
  {
    DeriveShape(semver, suffix, additionalTags);
    var tags := Derive(semver, suffix, additionalTags).tags;
    var extra := WithSuffix(ExtraNames(Split(additionalTags, ',')), suffix);
    SuffixedAfter(tags, PrimaryCount(semver), extra);
    ExtraNamesCommaFree(Split(additionalTags, ','));
  }

  /** A major group, given as the extra-tags text, is one extra name: itself. */
  lemma MajorAsExtraTags(v: Version)
    requires WellFormed(v)
    ensures ExtraNames(Split(v.major, ',')) == [v.major]
  {
    var m := v.major;
    assert !IsWhitespace(m[0]);
    assert !IsWhitespace(m[|m| - 1]) by {
      assert m[|m| - 1] == m[1..][|m| - 2];
    }
    assert ',' !in m by {
      forall k | 0 <= k < |m| ensures m[k] != ',' {
        if k > 0 { assert m[k] == m[1..][k - 1]; }
      }
    }
    ExtraNamesOfPiece(m);
    TrimUnique([], m, []);
    assert [] + m + [] == m;
  }

  /** The extra tags are not de-duplicated against the derived ones: naming
      the major tag again as an extra tag yields it twice. */
  lemma NoDeduplication(v: Version, suffix: string)
    requires WellFormed(v) && v.prerelease.None?
    ensures var r := Derive(Render(v), suffix, v.major);
            r.Success? && |r.tags| == 4 && r.tags[2] == r.tags[3] == v.major + suffix
  {
    MajorAsExtraTags(v);
    DeriveRelease(v, suffix, v.major);
    assert WithSuffix([v.major], suffix) == [v.major + suffix];
  }

  /** An empty extra-tags text adds no tag. */
  lemma NoExtraNames()
    ensures ExtraNames(Split("", ',')) == []
  {
    ExtraNamesOfPiece("");
  }

  /** `v1.2.3` with no suffix and no extra tags: three tags, most specific
      first. */
  lemma ReleaseExample(semver: string)
    requires semver == "v1.2.3"
    ensures Derive(semver, "", "") == Success(["v1.2.3", "v1.2", "v1"])
  {
    ExampleParse(semver, Version("v1", "2", "3", None));
    var extra := WithSuffix(ExtraNames(Split("", ',')), "");
    assert extra == [] by {
      NoExtraNames();
    }
    assert Derive(semver, "", "")
        == Success(["v1" + "." + "2" + "." + "3" + "", "v1" + "." + "2" + "", "v1" + ""] + extra);
    assert "v1" + "." + "2" + "." + "3" + "" == "v1.2.3";
    assert "v1" + "." + "2" + "" == "v1.2";
    assert "v1" + "" == "v1";
  }

  /** A prerelease is tagged with itself only, without the suffix. */
  lemma PrereleaseExample(semver: string)
    requires semver == "v2.0.0-abc123"
    ensures Derive(semver, "-alpine", "") == Success(["v2.0.0-abc123"])
  {
    ExampleParse(semver, Version("v2", "0", "0", Some("-abc123")));
    var extra := WithSuffix(ExtraNames(Split("", ',')), "-alpine");
    assert extra == [] by {
      NoExtraNames();
    }
    assert Derive(semver, "-alpine", "") == Success([semver] + extra);
    assert [semver] + extra == [semver];
  }

  /** The two example versions are recognised, with these groups. */
  lemma ExampleParse(semver: string, v: Version)
    requires || (semver == "v1.2.3" && v == Version("v1", "2", "3", None))
             || (semver == "v2.0.0-abc123" && v == Version("v2", "0", "0", Some("-abc123")))
    ensures Parse(semver) == Some(v)
  {
    assert WellFormed(v) && Render(v) == semver;
    ParseRender(v);
  }

  /** A version without its leading `v` is rejected with the fixed message. */
  lemma FailureExample()
    ensures Derive("1.2.3", "", "") == Failure("Param 'semver' is invalid: 1.2.3")
  {
  }

  /** A non-blank comma-free text followed by a comma and more text yields
      its trimmed self before the names of the rest. */
  lemma ExtraNamesCons(a: string, b: string)
    requires ',' !in a && !AllWhitespace(a)
    ensures ExtraNames(Split(a + "," + b, ',')) == [Trim(a)] + ExtraNames(Split(b, ','))
  {
    ExtraNamesOfList(a, b);
    ExtraNamesOfPiece(a);
  }

  /** What an extra name looks like: non-empty, trimmed, comma-free. */
  predicate IsName(s: string) {
    s != [] && IsTrimmed(s) && ',' !in s
  }

  /** A name followed by a comma: the name, then the names of the rest. */
  lemma NamesHead(a: string, rest: string, names: seq<string>)
    requires IsName(a)
    requires ExtraNames(Split(rest, ',')) == names
    ensures ExtraNames(Split(a + "," + rest, ',')) == [a] + names
  {
    assert !IsWhitespace(a[0]);
    ExtraNamesCons(a, rest);
    TrimUnique([], a, []);
    assert [] + a + [] == a;
  }

  /** A name after a space, then a comma: the name, then the names of the
      rest. */
  lemma NamesSpaced(b: string, rest: string)
    requires IsName(b)
    ensures ExtraNames(Split(" " + b + "," + rest, ',')) == [b] + ExtraNames(Split(rest, ','))
  {
    var bs := " " + b;
    assert ',' !in bs;
    assert bs[1] == b[0];
    ExtraNamesCons(bs, rest);
    TrimUnique(" ", b, []);
    assert " " + b + [] == bs;
  }

  /** An empty piece, then a name with a trailing space: just the name. */
  lemma NamesTail(c: string)
    requires IsName(c)
    ensures ExtraNames(Split("," + c + " ", ',')) == [c]
  {
    var cs := c + " ";
    assert "," + c + " " == "" + "," + cs;
    assert ',' !in cs;
    assert cs[0] == c[0];
    ExtraNamesOfList("", cs);
    ExtraNamesOfPiece("");
    ExtraNamesOfPiece(cs);
    TrimUnique([], c, " ");
    assert [] + c + " " == cs;
  }

  /** A single character that is neither whitespace nor a comma is a name. */
  lemma SingleCharName(ch: char)
    requires ch != ',' && !IsWhitespace(ch)
    ensures IsName([ch])
  {
  }

  /** Three names written as `a, b,,c ` (a space after the first comma, an
      empty piece, a trailing space) give exactly those three extra tags. */
  lemma SpacedNames(a: string, b: string, c: string, text: string, suffix: string)
    requires IsName(a)
    requires IsName(b)
    requires IsName(c)
    requires text == a + "," + (" " + b + "," + ("," + c + " "))
    ensures WithSuffix(ExtraNames(Split(text, ',')), suffix) == [a + suffix, b + suffix, c + suffix]
  {
    var mid := " " + b + "," + ("," + c + " ");
    TwoNames(b, c, mid);
    ThreeNames(a, b, c, mid, text);
    WithSuffixThree(a, b, c, suffix);
  }

  /** A name, a comma, then a text whose names are `b` and `c`. */
  lemma ThreeNames(a: string, b: string, c: string, mid: string, text: string)
    requires IsName(a)
    requires ExtraNames(Split(mid, ',')) == [b, c]
    requires text == a + "," + mid
    ensures ExtraNames(Split(text, ',')) == [a, b, c]
  {
    NamesHead(a, mid, [b, c]);
    assert [a] + [b, c] == [a, b, c];
  }

  /** The names of ` b,,c `, for names `b` and `c`. */
  lemma TwoNames(b: string, c: string, text: string)
    requires IsName(b)
    requires IsName(c)
    requires text == " " + b + "," + ("," + c + " ")
    ensures ExtraNames(Split(text, ',')) == [b, c]
  {
    NamesTail(c);
    NamesSpaced(b, "," + c + " ");
    assert [b] + [c] == [b, c];
  }

  lemma WithSuffixThree(a: string, b: string, c: string, suffix: string)
    ensures WithSuffix([a, b, c], suffix) == [a + suffix, b + suffix, c + suffix]
  {
    var w, e := WithSuffix([a, b, c], suffix), [a + suffix, b + suffix, c + suffix];
    forall k | 0 <= k < 3 ensures w[k] == e[k] {
    }
  }

  /** The pieces of `a, b,,c ` are trimmed, the empty one is dropped, and
      the suffix is appended to each survivor: with the suffix `-x`, the
      extra tags are `a-x`, `b-x` and `c-x`. */
  lemma ExtraTagsExample(text: string, suffix: string)
    requires text == "a, b,,c "
    ensures WithSuffix(ExtraNames(Split(text, ',')), suffix) == ["a" + suffix, "b" + suffix, "c" + suffix]
  {
    SingleCharName('a');
    SingleCharName('b');
    SingleCharName('c');
    assert text == "a" + "," + (" " + "b" + "," + ("," + "c" + " "));
    SpacedNames("a", "b", "c", text, suffix);
  }
}
