/**
 * String primitives with JavaScript's meaning: the whitespace that `trim`
 * removes and `\s` matches, ASCII lower-casing, `includes`, and `split`/`join`
 * on a single separator character.
 */
module Text {

  /** JavaScript's WhiteSpace and LineTerminator characters. */
  predicate IsSpace(c: char) {
    c == ' ' || ('\t' <= c <= '\r') || c == '\U{A0}' || c == '\U{1680}'
    || ('\U{2000}' <= c <= '\U{200A}') || c == '\U{2028}' || c == '\U{2029}'
    || c == '\U{202F}' || c == '\U{205F}' || c == '\U{3000}' || c == '\U{FEFF}'
  }

  /** The characters a regular-expression `.` does not match. */
  predicate IsLineTerminator(c: char) {
    c == '\n' || c == '\r' || c == '\U{2028}' || c == '\U{2029}'
  }

  predicate IsDigit(c: char) { '0' <= c <= '9' }

  predicate IsUpper(c: char) { 'A' <= c <= 'Z' }

  /** `toLowerCase` on one character, ASCII letters only. */
  function Lower(c: char): (d: char)
    ensures !IsUpper(d)
    ensures IsUpper(c) ==> 'a' <= d <= 'z' && d as int - 'a' as int == c as int - 'A' as int
    ensures IsSpace(d) == IsSpace(c)
    ensures !IsUpper(c) ==> d == c
  {
    if IsUpper(c) then (c as int + 32) as char else c
  }

  function ToLower(s: string): (r: string)
    ensures |r| == |s|
    ensures forall i :: 0 <= i < |s| ==> r[i] == Lower(s[i])
  {
    seq(|s|, i requires 0 <= i < |s| => Lower(s[i]))
  }

  /** No ASCII upper-case letter anywhere in `s`. */
  predicate IsLowerCase(s: string) {
    forall i :: 0 <= i < |s| ==> !IsUpper(s[i])
  }

  /** A string with no whitespace at either end, as `trim` leaves it. */
  predicate Trimmed(s: string) {
    s == [] || (!IsSpace(s[0]) && !IsSpace(s[|s| - 1]))
  }

  predicate AllSpace(s: string) {
    forall i :: 0 <= i < |s| ==> IsSpace(s[i])
  }

  /** The first index at or after `i` that does not hold whitespace, or `|s|`. */
  function SkipSpaces(s: string, i: nat): (r: nat)
    requires i <= |s|
    ensures i <= r <= |s|
    ensures forall j :: i <= j < r ==> IsSpace(s[j])
    ensures r < |s| ==> !IsSpace(s[r])
    decreases |s| - i
  {
    if i < |s| && IsSpace(s[i]) then SkipSpaces(s, i + 1) else i
  }

  /** One past the last index below `j` that does not hold whitespace, or `lo`. */
  function SkipSpacesBack(s: string, lo: nat, j: nat): (r: nat)
    requires lo <= j <= |s|
    ensures lo <= r <= j
    ensures forall m :: r <= m < j ==> IsSpace(s[m])
    ensures lo < r ==> !IsSpace(s[r - 1])
    decreases j
  {
    if lo < j && IsSpace(s[j - 1]) then SkipSpacesBack(s, lo, j - 1) else j
  }

  /** Leading whitespace removed (`trimStart`). */
  function TrimStart(s: string): (r: string)
    ensures |r| <= |s| && r == s[|s| - |r|..]
    ensures forall i :: 0 <= i < |s| - |r| ==> IsSpace(s[i])
    ensures r == [] || !IsSpace(r[0])
    ensures s != [] && IsSpace(s[0]) ==> |r| < |s|
  {
    s[SkipSpaces(s, 0)..]
  }

  /** Where `Trim(s)` starts and ends in `s`. */
  function TrimBounds(s: string): (b: (nat, nat))
    ensures b.0 <= b.1 <= |s|
    ensures forall i :: 0 <= i < b.0 ==> IsSpace(s[i])
    ensures forall i :: b.1 <= i < |s| ==> IsSpace(s[i])
    ensures b.0 < b.1 ==> !IsSpace(s[b.0]) && !IsSpace(s[b.1 - 1])
    ensures b.0 == b.1 ==> b.0 == |s|
  {
    var lo := SkipSpaces(s, 0);
    (lo, SkipSpacesBack(s, lo, |s|))
  }

  /** `String.prototype.trim`. */
  function Trim(s: string): (r: string)
    ensures Trimmed(r)
    ensures |r| <= |s|
    ensures r == [] <==> AllSpace(s)
    ensures Trimmed(s) ==> r == s
  {
    var b := TrimBounds(s);
    assert s != [] && !IsSpace(s[0]) ==> b.0 == 0;
    assert Trimmed(s) && s != [] ==> b.1 == |s|;
    s[b.0..b.1]
  }

  /** Where `Trim(s)` starts in `s`, and what lies on either side of it. */
  lemma TrimShape(s: string) returns (k: nat)
    ensures k + |Trim(s)| <= |s|
    ensures Trim(s) == s[k..k + |Trim(s)|]
    ensures forall i :: 0 <= i < k ==> IsSpace(s[i])
    ensures forall i :: k + |Trim(s)| <= i < |s| ==> IsSpace(s[i])
  {
    k := TrimBounds(s).0;
  }

  /** The characters of `s` that are not whitespace, in order. */
  function NonSpace(s: string): (r: string)
    ensures |r| <= |s|
    ensures forall i :: 0 <= i < |r| ==> !IsSpace(r[i])
  {
    if s == [] then [] else (if IsSpace(s[0]) then [] else [s[0]]) + NonSpace(s[1..])
  }

  lemma {:induction false} NonSpaceConcat(a: string, b: string)
    ensures NonSpace(a + b) == NonSpace(a) + NonSpace(b)
    decreases |a|
  {
    if a != [] {
      assert (a + b)[0] == a[0] && (a + b)[1..] == a[1..] + b;
      NonSpaceConcat(a[1..], b);
    } else {
      assert a + b == b;
    }
  }

  lemma {:induction false} NonSpaceAllSpace(s: string)
    requires AllSpace(s)
    ensures NonSpace(s) == []
    decreases |s|
  {
    if s != [] {
      NonSpaceAllSpace(s[1..]);
    }
  }

  /** Dropping leading whitespace keeps every other character. */
  lemma NonSpaceTrimStart(s: string)
    ensures NonSpace(TrimStart(s)) == NonSpace(s)
  {
    NonSpaceDropLead(s, SkipSpaces(s, 0));
  }

  /** `trim` removes whitespace only. */
  lemma NonSpaceTrim(s: string)
    ensures NonSpace(Trim(s)) == NonSpace(s)
  {
    var b := TrimBounds(s);
    assert Trim(s) == s[b.0..b.1];
    NonSpaceSlice(s, b.0, b.1);
  }

  /** Cutting whitespace off both ends keeps every other character. */
  lemma NonSpaceSlice(s: string, lo: int, hi: int)
    requires 0 <= lo <= hi <= |s|
    requires forall i :: 0 <= i < lo ==> IsSpace(s[i])
    requires forall i :: hi <= i < |s| ==> IsSpace(s[i])
    ensures NonSpace(s[lo..hi]) == NonSpace(s)
  {
    var head := s[..hi];
    NonSpaceDropTail(s, hi);
    assert forall i :: 0 <= i < lo ==> IsSpace(head[i]);
    NonSpaceDropLead(head, lo);
    assert head[lo..] == s[lo..hi];
  }

  /** Dropping a prefix of whitespace keeps every other character. */
  lemma NonSpaceDropLead(s: string, k: int)
    requires 0 <= k <= |s| && forall i :: 0 <= i < k ==> IsSpace(s[i])
    ensures NonSpace(s[k..]) == NonSpace(s)
  {
    NonSpaceSplit(s, k);
    NonSpaceAllSpace(s[..k]);
  }

  /** Dropping a suffix of whitespace keeps every other character. */
  lemma NonSpaceDropTail(s: string, k: int)
    requires 0 <= k <= |s| && forall i :: k <= i < |s| ==> IsSpace(s[i])
    ensures NonSpace(s[..k]) == NonSpace(s)
  {
    NonSpaceSplit(s, k);
    NonSpaceAllSpace(s[k..]);
  }

  lemma NonSpaceSplit(s: string, k: int)
    requires 0 <= k <= |s|
    ensures NonSpace(s) == NonSpace(s[..k]) + NonSpace(s[k..])
  {
    assert s == s[..k] + s[k..];
    NonSpaceConcat(s[..k], s[k..]);
  }

  /** `hay.includes(needle)`. */
  predicate Contains(hay: string, needle: string) {
    exists i | 0 <= i <= |hay| - |needle| :: OccursAt(hay, needle, i)
  }

  /** `needle` occurs in `hay` starting at index `i`. */
  predicate OccursAt(hay: string, needle: string, i: int) {
    0 <= i <= |hay| - |needle| && hay[i..i + |needle|] == needle
  }

  lemma ContainsSelf(s: string)
    ensures Contains(s, s)
  {
    assert OccursAt(s, s, 0);
  }

  lemma ContainsTransitive(a: string, b: string, c: string)
    requires Contains(a, b) && Contains(b, c)
    ensures Contains(a, c)
  {
    var i :| 0 <= i <= |a| - |b| && OccursAt(a, b, i);
    var j :| 0 <= j <= |b| - |c| && OccursAt(b, c, j);
    forall m | 0 <= m < |c| ensures a[i + j + m] == c[m] {
      assert c[m] == b[j..j + |c|][m] == b[j + m];
      assert b[j + m] == a[i..i + |b|][j + m];
    }
    assert a[i + j..i + j + |c|] == c;
    assert OccursAt(a, c, i + j);
  }

  lemma ContainsInConcat(x: string, y: string, z: string)
    ensures Contains(x + y + z, y)
  {
    assert OccursAt(x + y + z, y, |x|);
  }

  /** A needle contained in `hay` that has no outer whitespace stays inside `Trim(hay)`. */
  lemma ContainsTrim(hay: string, needle: string)
    requires Contains(hay, needle) && needle != [] && Trimmed(needle)
    ensures Contains(Trim(hay), needle)
  {
    var i :| 0 <= i <= |hay| - |needle| && OccursAt(hay, needle, i);
    var k := OccursInTrim(hay, needle, i);
  }

  /** Where an occurrence of a trimmed needle sits once `hay` is trimmed. */
  lemma OccursInTrim(hay: string, needle: string, i: int) returns (k: int)
    requires OccursAt(hay, needle, i) && needle != [] && Trimmed(needle)
    ensures 0 <= k <= i && OccursAt(Trim(hay), needle, i - k)
  {
    k := TrimShape(hay);
    var len := |Trim(hay)|;
    var n := |needle|;
    OccursAtChar(hay, needle, i, 0);
    OccursAtChar(hay, needle, i, n - 1);
    NonSpaceInside(hay, k, len, i);
    NonSpaceInside(hay, k, len, i + n - 1);
    OccursInSlice(hay, needle, k, len, i);
  }

  lemma OccursAtChar(hay: string, needle: string, i: int, m: int)
    requires OccursAt(hay, needle, i) && 0 <= m < |needle|
    ensures hay[i + m] == needle[m]
  {
    assert hay[i..i + |needle|][m] == hay[i + m];
  }

  /** An occurrence inside a slice is an occurrence in the slice, shifted. */
  lemma OccursInSlice(hay: string, needle: string, k: int, len: int, i: int)
    requires 0 <= k <= i && i + |needle| <= k + len <= |hay|
    requires OccursAt(hay, needle, i)
    ensures OccursAt(hay[k..k + len], needle, i - k)
  {
    var r := hay[k..k + len];
    forall m | 0 <= m < |needle| ensures r[i - k + m] == needle[m] {
      OccursAtChar(hay, needle, i, m);
    }
    assert r[i - k..i - k + |needle|] == needle;
  }

  /** A non-space character lies between the leading and the trailing whitespace. */
  lemma NonSpaceInside(s: string, k: int, len: int, i: int)
    requires 0 <= k && 0 <= len && k + len <= |s| && 0 <= i < |s| && !IsSpace(s[i])
    requires forall j :: 0 <= j < k ==> IsSpace(s[j])
    requires forall j :: k + len <= j < |s| ==> IsSpace(s[j])
    ensures k <= i < k + len
  {
  }

  lemma LowerConcat(a: string, b: string)
    ensures ToLower(a + b) == ToLower(a) + ToLower(b)
  {
  }

  lemma LowerIdempotent(s: string)
    ensures ToLower(ToLower(s)) == ToLower(s)
  {
  }

  lemma LowerContains(hay: string, needle: string)
    requires Contains(hay, needle)
    ensures Contains(ToLower(hay), ToLower(needle))
  {
    var i :| 0 <= i <= |hay| - |needle| && OccursAt(hay, needle, i);
    assert ToLower(hay)[i..i + |needle|] == ToLower(needle);
    assert OccursAt(ToLower(hay), ToLower(needle), i);
  }

  lemma {:induction false} LowerSkipSpaces(s: string, i: nat)
    requires i <= |s|
    ensures SkipSpaces(ToLower(s), i) == SkipSpaces(s, i)
    decreases |s| - i
  {
    if i < |s| && IsSpace(s[i]) {
      LowerSkipSpaces(s, i + 1);
    }
  }

  lemma {:induction false} LowerSkipSpacesBack(s: string, lo: nat, j: nat)
    requires lo <= j <= |s|
    ensures SkipSpacesBack(ToLower(s), lo, j) == SkipSpacesBack(s, lo, j)
    decreases j
  {
    if lo < j && IsSpace(s[j - 1]) {
      LowerSkipSpacesBack(s, lo, j - 1);
    }
  }

  /** Trimming and lower-casing commute, because lower-casing never creates or removes whitespace. */
  lemma LowerTrim(s: string)
    ensures ToLower(Trim(s)) == Trim(ToLower(s))
  {
    LowerSkipSpaces(s, 0);
    var lo := SkipSpaces(s, 0);
    LowerSkipSpacesBack(s, lo, |s|);
    var b := TrimBounds(s);
    assert TrimBounds(ToLower(s)) == b;
    LowerSlice(s, b.0, b.1);
  }

  lemma LowerSlice(s: string, lo: int, hi: int)
    requires 0 <= lo <= hi <= |s|
    ensures ToLower(s[lo..hi]) == ToLower(s)[lo..hi]
  {
  }

  lemma TrimIdempotent(s: string)
    ensures Trim(Trim(s)) == Trim(s)
  {
  }

  /** Characters of a substring all come from the containing string. */
  lemma ContainsNotIn(hay: string, needle: string, c: char)
    requires Contains(hay, needle) && c !in hay
    ensures c !in needle
  {
    var i :| 0 <= i <= |hay| - |needle| && OccursAt(hay, needle, i);
    forall j | 0 <= j < |needle| ensures needle[j] != c {
      assert needle[j] == hay[i + j];
    }
  }

  lemma TrimContained(s: string)
    ensures Contains(s, Trim(s))
  {
    var k := TrimShape(s);
    assert OccursAt(s, Trim(s), k);
  }

  /** `Trim(" " + k) == k` for an already trimmed `k`. */
  lemma TrimLeadingSpace(k: string)
    requires Trimmed(k)
    ensures Trim([' '] + k) == k
  {
    var s := [' '] + k;
    assert SkipSpaces(s, 0) == SkipSpaces(s, 1) == 1;
    assert SkipSpacesBack(s, 1, |s|) == |s| by {
      if k != [] {
        assert s[|s| - 1] == k[|k| - 1];
      }
    }
    assert s[1..|s|] == k;
  }

  // ---------------------------------------------------------------------------
  // split and join on one separator character

  /** `s.split(sep)`: the pieces between separators, at least one. */
  function Split(s: string, sep: char): (parts: seq<string>)
    ensures |parts| >= 1
    ensures forall p | p in parts :: sep !in p
    decreases |s|
  {
    if s == [] then [[]]
    else if s[0] == sep then [[]] + Split(s[1..], sep)
    else
      var rest := Split(s[1..], sep);
      [[s[0]] + rest[0]] + rest[1..]
  }

  /** `parts.join(sep)`. */
  function Join(parts: seq<string>, sep: string): string
  {
    if |parts| == 0 then []
    else if |parts| == 1 then parts[0]
    else parts[0] + sep + Join(parts[1..], sep)
  }

  /** `pad + p` for every `p` of `ps`. */
  function PrefixAll(ps: seq<string>, pad: string): (r: seq<string>)
    ensures |r| == |ps|
    ensures forall i :: 0 <= i < |ps| ==> r[i] == pad + ps[i]
  {
    if ps == [] then [] else [pad + ps[0]] + PrefixAll(ps[1..], pad)
  }

  /** Splitting and re-joining on the same separator gives the string back. */
  lemma {:induction false} SplitJoin(s: string, sep: char)
    ensures Join(Split(s, sep), [sep]) == s
    decreases |s|
  {
    if s == [] {
    } else if s[0] == sep {
      SplitJoin(s[1..], sep);
    } else {
      SplitJoin(s[1..], sep);
      var rest := Split(s[1..], sep);
      if |rest| > 1 {
        assert rest == [rest[0]] + rest[1..];
      }
    }
  }

  lemma {:induction false} SplitFreePrefix(p: string, t: string, sep: char)
    requires sep !in p
    ensures Split(p + t, sep) == [p + Split(t, sep)[0]] + Split(t, sep)[1..]
    decreases |p|
  {
    if p == [] {
      assert p + t == t;
      assert Split(t, sep) == [Split(t, sep)[0]] + Split(t, sep)[1..];
      assert p + Split(t, sep)[0] == Split(t, sep)[0];
    } else {
      assert (p + t)[0] == p[0];
      assert (p + t)[1..] == p[1..] + t;
      SplitFreePrefix(p[1..], t, sep);
      assert [p[0]] + (p[1..] + Split(t, sep)[0]) == p + Split(t, sep)[0];
    }
  }

  /** Joining separator-free pieces and splitting again gives the pieces back. */
  lemma {:induction false} JoinSplit(parts: seq<string>, sep: char)
    requires |parts| >= 1
    requires forall p | p in parts :: sep !in p
    ensures Split(Join(parts, [sep]), sep) == parts
  {
    if |parts| == 1 {
      SplitFreePrefix(parts[0], [], sep);
      assert parts[0] + [] == parts[0];
    } else {
      var tail := Join(parts[1..], [sep]);
      JoinSplit(parts[1..], sep);
      assert Join(parts, [sep]) == parts[0] + ([sep] + tail);
      SplitFreePrefix(parts[0], [sep] + tail, sep);
      assert ([sep] + tail)[1..] == tail;
      assert parts[0] + [] == parts[0];
      assert parts == [parts[0]] + parts[1..];
    }
  }

  lemma JoinHeadPrefix(x: string, rest: seq<string>, pad: string, sep: string)
    ensures Join([pad + x] + rest, sep) == pad + Join([x] + rest, sep)
  {
    if |rest| > 0 {
      assert ([pad + x] + rest)[1..] == rest;
      assert ([x] + rest)[1..] == rest;
    }
  }

  /** A two-part separator `a + b` is the separator `a` with `b` moved onto every later piece. */
  lemma {:induction false} JoinMovePad(ps: seq<string>, a: string, b: string)
    requires |ps| >= 1
    ensures Join(ps, a + b) == Join([ps[0]] + PrefixAll(ps[1..], b), a)
  {
    if |ps| > 1 {
      JoinMovePad(ps[1..], a, b);
      var rest := PrefixAll(ps[2..], b);
      assert ps[1..][1..] == ps[2..];
      assert PrefixAll(ps[1..], b) == [b + ps[1]] + rest;
      JoinHeadPrefix(ps[1], rest, b, a);
      assert ([ps[0]] + PrefixAll(ps[1..], b))[1..] == PrefixAll(ps[1..], b);
    }
  }

  /** Every piece occurs in the joined string. */
  lemma {:induction false} JoinContains(parts: seq<string>, sep: string, i: int)
    requires 0 <= i < |parts|
    ensures Contains(Join(parts, sep), parts[i])
    decreases |parts|
  {
    if |parts| == 1 {
      ContainsSelf(parts[0]);
    } else {
      var rest := Join(parts[1..], sep);
      if i == 0 {
        ContainsInConcat([], parts[0], sep + rest);
        assert [] + parts[0] + (sep + rest) == Join(parts, sep);
      } else {
        JoinContains(parts[1..], sep, i - 1);
        ContainsInConcat(parts[0] + sep, rest, []);
        assert parts[0] + sep + rest + [] == Join(parts, sep);
        ContainsTransitive(Join(parts, sep), rest, parts[i]);
      }
    }
  }
}
