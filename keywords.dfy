/**
 * `parseKeywordList`: a keyword setting, either a comma-separated string or
 * (legacy shape) an array of strings, becomes a list of trimmed, non-empty
 * entries.
 */
module Keywords {
  import opened Js
  import opened Text

  /** An entry `parseKeywordList` can return. */
  predicate IsKeyword(k: string) {
    k != [] && Trimmed(k)
  }

  /** `.map((item) => item.trim())`. */
  function TrimAll(items: seq<string>): (r: seq<string>)
    ensures |r| == |items|
    ensures forall i :: 0 <= i < |items| ==> r[i] == Trim(items[i])
  {
    seq(|items|, i requires 0 <= i < |items| => Trim(items[i]))
  }

  /** `.filter(Boolean)` on strings: the non-empty entries, in order. */
  function DropEmpty(items: seq<string>): (r: seq<string>)
    ensures forall k | k in r :: k != [] && k in items
    ensures forall k | k in items && k != [] :: k in r
    ensures (forall i :: 0 <= i < |items| ==> items[i] != []) ==> r == items
    ensures (forall i :: 0 <= i < |items| ==> items[i] == []) ==> r == []
    ensures |r| <= |items|
    ensures |items| == 1 ==> r == if items[0] == [] then [] else items
  {
    if items == [] then []
    else
      assert items == [items[0]] + items[1..];
      if items[0] == [] then DropEmpty(items[1..]) else [items[0]] + DropEmpty(items[1..])
  }

  /** The filter works item by item: with the one-item case, this fixes the order and count of what it keeps. */
  lemma {:induction false} DropEmptyConcat(a: seq<string>, b: seq<string>)
    ensures DropEmpty(a + b) == DropEmpty(a) + DropEmpty(b)
    decreases |a|
  {
    if a == [] {
      assert a + b == b;
    } else {
      assert (a + b)[0] == a[0];
      assert (a + b)[1..] == a[1..] + b;
      DropEmptyConcat(a[1..], b);
    }
  }

  /** The string branch: split on commas, trim each piece, drop the empty ones. */
  function ParseKeywordText(text: string): (r: seq<string>)
    ensures forall k | k in r :: IsKeyword(k) && ',' !in k
  {
    var trimmed := TrimAll(Split(text, ','));
    assert forall k | k in trimmed :: Trimmed(k) && ',' !in k by {
      TrimKeepsSeparatorOut(Split(text, ','), ',');
    }
    DropEmpty(trimmed)
  }

  /** Trimming pieces that hold no separator leaves trimmed pieces that hold none. */
  lemma TrimKeepsSeparatorOut(pieces: seq<string>, sep: char)
    requires forall p | p in pieces :: sep !in p
    ensures forall k | k in TrimAll(pieces) :: Trimmed(k) && sep !in k
  {
    var trimmed := TrimAll(pieces);
    forall k | k in trimmed ensures Trimmed(k) && sep !in k {
      var i :| 0 <= i < |trimmed| && trimmed[i] == k;
      assert pieces[i] in pieces;
      TrimContained(pieces[i]);
      ContainsNotIn(pieces[i], k, sep);
    }
  }

  /** An empty (or falsy) keyword setting parses to no keywords. */
  lemma ParseEmptyText()
    ensures ParseKeywordText("") == []
  {
    assert Split("", ',') == [[]];
    assert TrimAll([[]]) == [[]];
  }

  /** The strings of an array every item of which is a string. */
  function StringItems(items: seq<Value>): (r: seq<string>)
    requires forall i :: 0 <= i < |items| ==> items[i].Str?
    ensures |r| == |items|
    ensures forall i :: 0 <= i < |items| ==> r[i] == items[i].s
  {
    seq(|items|, i requires 0 <= i < |items| => items[i].s)
  }

  /**
   * `parseKeywordList`. An array item that is not a string has no `trim`,
   * so the call throws.
   */
  function ParseKeywordList(v: Value): (r: Result<seq<string>>)
    ensures !v.Arr? ==> r.Ok?
    ensures v.Arr? ==> (r.Ok? <==> forall i :: 0 <= i < |v.items| ==> v.items[i].Str?)
    ensures r.Ok? ==> forall k | k in r.value :: IsKeyword(k)
    ensures v.Str? ==> r == Ok(ParseKeywordText(v.s))
    ensures v.Arr? && r.Ok? ==>
      forall i | 0 <= i < |v.items| && !AllSpace(v.items[i].s) :: Trim(v.items[i].s) in r.value
    ensures v.Arr? && r.Ok? ==>
      forall k | k in r.value :: exists i :: 0 <= i < |v.items| && k == Trim(v.items[i].s)
  {
    match v
    case Arr(items) =>
      if forall i | 0 <= i < |items| :: items[i].Str? then Ok(ArrayKeywords(items))
      else TypeError
    case Str(t) =>
      assert ToText(Or(v, Str(""))) == t;
      Ok(ParseKeywordText(ToText(Or(v, Str("")))))
    case _ =>
      Ok(ParseKeywordText(ToText(Or(v, Str("")))))
  }

  /** The array branch: trim each string item and drop the empty ones. */
  function ArrayKeywords(items: seq<Value>): (r: seq<string>)
    requires forall i :: 0 <= i < |items| ==> items[i].Str?
    ensures forall k | k in r :: IsKeyword(k)
    ensures forall i | 0 <= i < |items| && !AllSpace(items[i].s) :: Trim(items[i].s) in r
    ensures forall k | k in r :: exists i :: 0 <= i < |items| && k == Trim(items[i].s)
  {
    var trimmed := TrimAll(StringItems(items));
    var r := DropEmpty(trimmed);
    assert forall i | 0 <= i < |items| && !AllSpace(items[i].s) :: Trim(items[i].s) in r by {
      forall i | 0 <= i < |items| && !AllSpace(items[i].s) ensures Trim(items[i].s) in r {
        assert trimmed[i] in trimmed;
      }
    }
    assert forall k | k in r :: exists i :: 0 <= i < |items| && k == Trim(items[i].s) by {
      forall k | k in r ensures exists i :: 0 <= i < |items| && k == Trim(items[i].s) {
        var i :| 0 <= i < |trimmed| && trimmed[i] == k;
      }
    }
    r
  }

  // ---------------------------------------------------------------------------
  // joining with ", " and parsing again

  /**
   * A list of comma-free keywords joined with ", " parses back to itself.
   */
  lemma ReparseJoined(ks: seq<string>)
    requires forall k | k in ks :: IsKeyword(k) && ',' !in k
    ensures ParseKeywordText(Join(ks, ", ")) == ks
  {
    if ks == [] {
      assert Split([], ',') == [[]];
      assert TrimAll([[]]) == [[]];
      assert DropEmpty([[]]) == [];
    } else {
      var spaced := [ks[0]] + PrefixAll(ks[1..], " ");
      assert Join(ks, ", ") == Join(spaced, [',']) by {
        assert ", " == [','] + " ";
        JoinMovePad(ks, [','], " ");
      }
      assert Split(Join(spaced, [',']), ',') == spaced by {
        SpacedCommaFree(ks, spaced);
        JoinSplit(spaced, ',');
      }
      assert TrimAll(spaced) == ks by {
        SpacedTrim(ks, spaced);
      }
      assert DropEmpty(ks) == ks by {
        forall i | 0 <= i < |ks| ensures ks[i] != [] { assert ks[i] in ks; }
      }
    }
  }

  lemma SpacedCommaFree(ks: seq<string>, spaced: seq<string>)
    requires |ks| >= 1 && forall k | k in ks :: ',' !in k
    requires spaced == [ks[0]] + PrefixAll(ks[1..], " ")
    ensures forall p | p in spaced :: ',' !in p
  {
    forall p | p in spaced ensures ',' !in p {
      var i :| 0 <= i < |spaced| && spaced[i] == p;
      assert ks[i] in ks;
      if i > 0 { assert p == " " + ks[i]; }
    }
  }

  lemma SpacedTrim(ks: seq<string>, spaced: seq<string>)
    requires |ks| >= 1 && forall k | k in ks :: IsKeyword(k)
    requires spaced == [ks[0]] + PrefixAll(ks[1..], " ")
    ensures TrimAll(spaced) == ks
  {
    forall i | 0 <= i < |ks| ensures Trim(spaced[i]) == ks[i] {
      assert ks[i] in ks;
      if i > 0 {
        assert spaced[i] == [' '] + ks[i];
        TrimLeadingSpace(ks[i]);
      }
    }
  }

  /** For string input, the stored `keywords` text re-parses to the same list. */
  lemma KeywordTextRoundTrip(text: string)
    ensures ParseKeywordText(Join(ParseKeywordText(text), ", ")) == ParseKeywordText(text)
  {
    ReparseJoined(ParseKeywordText(text));
  }

  /** The same, seen through `parseKeywordList` on the stored string value. */
  lemma KeywordValueRoundTrip(ks: seq<string>)
    requires forall k | k in ks :: IsKeyword(k) && ',' !in k
    ensures ParseKeywordList(Str(Join(ks, ", "))) == Ok(ks)
  {
    ReparseJoined(ks);
    ParseStringValue(Join(ks, ", "));
  }

  /** A string value is parsed as its text; the empty string falls back to "". */
  lemma ParseStringValue(t: string)
    ensures ParseKeywordList(Str(t)) == Ok(ParseKeywordText(t))
  {
    assert ToText(Or(Str(t), Str(""))) == t;
  }
}
