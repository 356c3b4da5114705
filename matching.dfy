/**
 * The two-tier identity matcher of content.js: a strict tier on trimmed,
 * lower-cased text, and a loose tier on text where everything other than
 * a-z, 0-9 and whitespace has become a space and whitespace runs are one space.
 */
module Matching {
  import opened Text

  /** `normalize`: trim, then lower-case. */
  function Normalize(s: string): (r: string)
    ensures Trimmed(r) && IsLowerCase(r)
    ensures |r| <= |s|
    ensures r == [] <==> AllSpace(s)
  {
    ToLower(Trim(s))
  }

  predicate IsLowerAlnum(c: char) { 'a' <= c <= 'z' || IsDigit(c) }

  /** One character of `.replace(/[^a-z0-9\s]/g, " ")`. */
  function MaskChar(c: char): char
  {
    if IsLowerAlnum(c) || IsSpace(c) then c else ' '
  }

  function Mask(s: string): (r: string)
    ensures |r| == |s|
    ensures forall i :: 0 <= i < |s| ==> r[i] == MaskChar(s[i])
  {
    seq(|s|, i requires 0 <= i < |s| => MaskChar(s[i]))
  }

  /** Every character is a-z, 0-9 or whitespace. */
  predicate LooseChars(s: string) {
    forall i :: 0 <= i < |s| ==> IsLowerAlnum(s[i]) || IsSpace(s[i])
  }

  /** The only whitespace is the plain space, and never two in a row. */
  predicate SingleSpaced(s: string) {
    && (forall i :: 0 <= i < |s| ==> IsSpace(s[i]) ==> s[i] == ' ')
    && (forall i :: 0 <= i < |s| - 1 ==> !(s[i] == ' ' && s[i + 1] == ' '))
  }

  /** What `normalizeLoose` produces: a-z, 0-9 and single inner spaces. */
  predicate LooseForm(s: string) {
    && Trimmed(s)
    && SingleSpaced(s)
    && forall i :: 0 <= i < |s| ==> IsLowerAlnum(s[i]) || s[i] == ' '
  }

  /** `.replace(/\s+/g, " ")`: each maximal run of whitespace becomes one space. */
  function Collapse(s: string): (r: string)
    ensures |r| <= |s|
    ensures s != [] ==> r != [] && r[0] == (if IsSpace(s[0]) then ' ' else s[0])
    ensures SingleSpaced(r)
    ensures NonSpace(r) == NonSpace(s)
    ensures LooseChars(s) ==> LooseChars(r)
    decreases |s|
  {
    if s == [] then []
    else if IsSpace(s[0]) then
      var t := TrimStart(s);
      assert LooseChars(s) ==> LooseChars(t) by {
        if LooseChars(s) {
          forall i | 0 <= i < |t| ensures IsLowerAlnum(t[i]) || IsSpace(t[i]) {
            assert t[i] == s[|s| - |t| + i];
          }
        }
      }
      var c := Collapse(t);
      assert NonSpace([' '] + c) == NonSpace(s) by {
        assert ([' '] + c)[1..] == c;
        NonSpaceTrimStart(s);
      }
      [' '] + c
    else
      assert LooseChars(s) ==> LooseChars(s[1..]) by {
        if LooseChars(s) {
          forall i | 0 <= i < |s| - 1 ensures IsLowerAlnum(s[1..][i]) || IsSpace(s[1..][i]) {
            assert s[1..][i] == s[i + 1];
          }
        }
      }
      var c := Collapse(s[1..]);
      assert ([s[0]] + c)[1..] == c;
      [s[0]] + c
  }

  /**
   * The regular expression `/\s+/g` read one character at a time: a
   * whitespace character becomes a space unless the previous character was
   * whitespace too, and every other character is copied.
   */
  function CollapseScan(s: string, afterSpace: bool): string
    decreases |s|
  {
    if s == [] then []
    else if !IsSpace(s[0]) then [s[0]] + CollapseScan(s[1..], false)
    else if afterSpace then CollapseScan(s[1..], true)
    else [' '] + CollapseScan(s[1..], true)
  }

  /** After whitespace, further whitespace adds nothing. */
  lemma {:induction false} ScanSkipsSpaces(s: string, i: nat)
    requires i <= |s|
    ensures CollapseScan(s[i..], true) == CollapseScan(s[SkipSpaces(s, i)..], true)
    decreases |s| - i
  {
    if i < |s| && IsSpace(s[i]) {
      assert s[i..][1..] == s[i + 1..];
      ScanSkipsSpaces(s, i + 1);
    }
  }

  /** `Collapse` is the character-by-character reading of the regular expression. */
  lemma {:induction false} CollapseIsScan(s: string)
    ensures Collapse(s) == CollapseScan(s, false)
    decreases |s|
  {
    if s != [] {
      if IsSpace(s[0]) {
        var t := TrimStart(s);
        assert SkipSpaces(s, 0) == SkipSpaces(s, 1);
        ScanSkipsSpaces(s, 1);
        CollapseIsScan(t);
        assert t == [] || !IsSpace(t[0]);
      } else {
        CollapseIsScan(s[1..]);
      }
    }
  }

  /** `normalizeLoose`. */
  function NormalizeLoose(s: string): (r: string)
    ensures LooseForm(r)
    ensures NonSpace(r) == NonSpace(Mask(Normalize(s)))
    ensures |r| <= |s|
  {
    var m := Mask(Normalize(s));
    assert LooseChars(m) by {
      forall i | 0 <= i < |m| ensures IsLowerAlnum(m[i]) || IsSpace(m[i]) {
        assert m[i] == MaskChar(Normalize(s)[i]);
      }
    }
    var c := Collapse(m);
    TrimKeepsLoose(c);
    NonSpaceTrim(c);
    Trim(c)
  }

  lemma TrimKeepsLoose(c: string)
    requires SingleSpaced(c) && LooseChars(c)
    ensures LooseForm(Trim(c))
  {
    var r := Trim(c);
    var k := TrimShape(c);
    forall i | 0 <= i < |r| ensures r[i] == c[k + i] {
    }
    forall i | 0 <= i < |r| ensures IsLowerAlnum(r[i]) || r[i] == ' ' {
      assert IsLowerAlnum(c[k + i]) || IsSpace(c[k + i]);
    }
    forall i | 0 <= i < |r| - 1 ensures !(r[i] == ' ' && r[i + 1] == ' ') {
      assert r[i + 1] == c[k + i + 1];
    }
  }

  /** The loose form of a string and of its strict normalisation agree. */
  lemma LooseOfNormalize(s: string)
    ensures NormalizeLoose(Normalize(s)) == NormalizeLoose(s)
  {
    NormalizeIdempotent(s);
  }

  /**
   * `matchesTarget`: the strict tier first, then the loose tier; an empty
   * side never matches in either tier.
   */
  function MatchesTarget(target: string, source: string): (m: bool)
    ensures m ==> !AllSpace(target) && !AllSpace(source)
  {
    if TierMatches(Normalize(target), Normalize(source)) then true
    else TierMatches(NormalizeLoose(target), NormalizeLoose(source))
  }

  /** One tier's test: both sides non-empty and the source includes the target. */
  predicate TierMatches(target: string, source: string) {
    target != [] && source != [] && Contains(source, target)
  }

  // ---------------------------------------------------------------------------
  // properties

  lemma NormalizeIdempotent(s: string)
    ensures Normalize(Normalize(s)) == Normalize(s)
  {
  }

  /** `Normalize` sees a string only through its lower-cased form. */
  lemma NormalizeCaseBlind(a: string, b: string)
    requires ToLower(a) == ToLower(b)
    ensures Normalize(a) == Normalize(b)
  {
    LowerTrim(a);
    LowerTrim(b);
  }

  /** Collapse leaves a single-spaced string alone. */
  lemma {:induction false} CollapseFixpoint(s: string)
    requires SingleSpaced(s)
    ensures Collapse(s) == s
    decreases |s|
  {
    if s != [] {
      SingleSpacedTail(s);
      if IsSpace(s[0]) {
        SingleSpaceSkipped(s);
      }
      CollapseFixpoint(s[1..]);
      assert s == [s[0]] + s[1..];
    }
  }

  lemma SingleSpacedTail(s: string)
    requires s != [] && SingleSpaced(s)
    ensures SingleSpaced(s[1..])
  {
    forall i | 0 <= i < |s| - 1 ensures IsSpace(s[1..][i]) ==> s[1..][i] == ' ' {
      assert s[1..][i] == s[i + 1];
    }
    forall i | 0 <= i < |s| - 2 ensures !(s[1..][i] == ' ' && s[1..][i + 1] == ' ') {
      assert s[1..][i] == s[i + 1] && s[1..][i + 1] == s[i + 2];
    }
  }

  /** In a single-spaced string a leading space stands alone. */
  lemma SingleSpaceSkipped(s: string)
    requires s != [] && IsSpace(s[0]) && SingleSpaced(s)
    ensures TrimStart(s) == s[1..]
  {
    assert s[0] == ' ';
    assert |s| > 1 ==> s[1] != ' ' && !IsSpace(s[1]);
    assert SkipSpaces(s, 0) == SkipSpaces(s, 1) == 1;
  }

  /** A string already in loose form is its own loose normalisation. */
  lemma LooseFixpoint(s: string)
    requires LooseForm(s)
    ensures NormalizeLoose(s) == s
  {
    assert ToLower(s) == s;
    assert Normalize(s) == s;
    assert Mask(s) == s;
    CollapseFixpoint(s);
  }

  lemma LooseIdempotent(s: string)
    ensures NormalizeLoose(NormalizeLoose(s)) == NormalizeLoose(s)
  {
    LooseFixpoint(NormalizeLoose(s));
  }

  /**
   * Matching is case-insensitive: two targets and two sources that agree
   * once lower-cased give the same answer.
   */
  lemma MatchesTargetCaseInsensitive(t1: string, s1: string, t2: string, s2: string)
    requires ToLower(t1) == ToLower(t2) && ToLower(s1) == ToLower(s2)
    ensures MatchesTarget(t1, s1) == MatchesTarget(t2, s2)
  {
    NormalizeCaseBlind(t1, t2);
    NormalizeCaseBlind(s1, s2);
  }

  /**
   * Callers may pass already-normalised text: normalising both sides first
   * changes nothing.
   */
  lemma MatchesTargetNormalized(target: string, source: string)
    ensures MatchesTarget(Normalize(target), Normalize(source)) == MatchesTarget(target, source)
  {
    var t, s := Normalize(target), Normalize(source);
    assert Normalize(t) == t && Normalize(s) == s by {
      NormalizeIdempotent(target);
      NormalizeIdempotent(source);
    }
    assert NormalizeLoose(t) == NormalizeLoose(target) && NormalizeLoose(s) == NormalizeLoose(source) by {
      LooseOfNormalize(target);
      LooseOfNormalize(source);
    }
  }

  /**
   * Strict tier: a source that contains the target, ignoring case and the
   * whitespace around the target, matches.
   */
  lemma MatchesTargetStrict(target: string, source: string)
    requires !AllSpace(target)
    requires Contains(ToLower(source), ToLower(Trim(target)))
    ensures MatchesTarget(target, source)
  {
    var t := Normalize(target);
    ContainsTrim(ToLower(source), t);
    LowerTrim(source);
    assert Contains(Normalize(source), t);
    var ns := Normalize(source);
    var i :| 0 <= i <= |ns| - |t| && OccursAt(ns, t, i);
  }

  /** Loose tier: containment after loose normalisation is a match. */
  lemma MatchesTargetLoose(target: string, source: string)
    requires NormalizeLoose(target) != []
    requires Contains(NormalizeLoose(source), NormalizeLoose(target))
    ensures MatchesTarget(target, source)
  {
    assert NormalizeLoose(source) != [];
  }

  /** A source shorter than the target's loose form matches in neither tier. */
  lemma ShorterSourceMisses(target: string, source: string)
    requires |source| < |NormalizeLoose(target)|
    ensures !MatchesTarget(target, source)
  {
    LooseOfNormalize(target);
    assert |NormalizeLoose(Normalize(target))| <= |Normalize(target)|;
  }

  /** Every non-blank name matches itself. */
  lemma MatchesTargetReflexive(name: string)
    requires !AllSpace(name)
    ensures MatchesTarget(name, name)
  {
    ContainsSelf(Normalize(name));
  }

  // ---------------------------------------------------------------------------
  // "Jo Ann" against "Jo-Ann!": each step is its own small lemma, so that the
  // solver never holds more than one literal computation at a time.

  lemma JoAnnNormalized()
    ensures Normalize("Jo Ann") == "jo ann"
  {
    assert Trimmed("Jo Ann");
    var l := ToLower("Jo Ann");
    assert l[0] == 'j' && l[1] == 'o' && l[2] == ' ' && l[3] == 'a' && l[4] == 'n' && l[5] == 'n';
    assert l == "jo ann";
  }

  lemma JoAnnPunctuatedNormalized()
    ensures Normalize("Jo-Ann!") == "jo-ann!"
  {
    assert Trimmed("Jo-Ann!");
    var l := ToLower("Jo-Ann!");
    assert l[0] == 'j' && l[1] == 'o' && l[2] == '-' && l[3] == 'a' && l[4] == 'n' && l[5] == 'n' && l[6] == '!';
    assert l == "jo-ann!";
  }

  lemma JoAnnMasked()
    ensures Mask("jo-ann!") == "jo ann "
  {
    var m := Mask("jo-ann!");
    assert m[0] == 'j' && m[1] == 'o' && m[2] == ' ' && m[3] == 'a' && m[4] == 'n' && m[5] == 'n' && m[6] == ' ';
  }

  lemma JoAnnCollapsed()
    ensures Collapse("jo ann ") == "jo ann "
  {
    var m := "jo ann ";
    assert SingleSpaced(m) by {
      assert forall i :: 0 <= i < |m| - 1 ==> m[i] != ' ' || m[i + 1] != ' ';
    }
    CollapseFixpoint(m);
  }

  lemma JoAnnTrimmed()
    ensures Trim("jo ann ") == "jo ann"
  {
    assert "jo ann "[..6] == "jo ann";
    assert Trimmed("jo ann");
  }

  lemma JoAnnSourceLoose()
    ensures NormalizeLoose("Jo-Ann!") == "jo ann"
  {
    JoAnnPunctuatedNormalized();
    JoAnnMasked();
    JoAnnCollapsed();
    JoAnnTrimmed();
  }

  lemma JoAnnLooseFixpoint()
    ensures NormalizeLoose("jo ann") == "jo ann"
  {
    assert LooseForm("jo ann") by {
      assert Trimmed("jo ann");
      assert forall i :: 0 <= i < 6 - 1 ==> "jo ann"[i] != ' ' || "jo ann"[i + 1] != ' ';
    }
    LooseFixpoint("jo ann");
  }

  lemma JoAnnTargetLoose()
    ensures NormalizeLoose("Jo Ann") == "jo ann"
  {
    JoAnnNormalized();
    LooseOfNormalize("Jo Ann");
    JoAnnLooseFixpoint();
  }

  lemma JoAnnStrictMiss()
    ensures !Contains("jo-ann!", "jo ann")
  {
    var source, target := "jo-ann!", "jo ann";
    forall i | 0 <= i <= 1 ensures !OccursAt(source, target, i) {
      var w := source[i..i + 6];
      if i == 0 { assert w[2] == '-'; } else { assert w[0] == 'o'; }
    }
  }

  /** "Jo Ann" matches "Jo-Ann!" through the loose tier only. */
  lemma JoAnnMatches()
    ensures !Contains(Normalize("Jo-Ann!"), Normalize("Jo Ann"))
    ensures MatchesTarget("Jo Ann", "Jo-Ann!")
  {
    JoAnnNormalized();
    JoAnnPunctuatedNormalized();
    JoAnnStrictMiss();
    JoAnnSourceLoose();
    JoAnnTargetLoose();
    ContainsSelf("jo ann");
  }
}
