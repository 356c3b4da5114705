/**
 * The extension's settings: the stored defaults, `sanitizeSettings`, the
 * initial load, and the merge the storage-change listener performs.
 */
module Config {
  import opened Js
  import opened Text
  import opened Matching
  import opened Keywords
  import opened Conceal

  const DefaultIntensity := 4

  /** The sanitised settings the matcher and the concealment read. */
  datatype Settings = Settings(
    enabled: bool,
    blurAll: bool,
    targetPerson: string,
    keywords: string,
    keywordList: seq<string>,
    blurIntensity: int,
    concealMode: ConcealMode)

  /** The stored record as it arrives: any JavaScript value in each field. */
  datatype Raw = Raw(
    enabled: Value,
    blurAll: Value,
    targetPerson: Value,
    keywords: Value,
    blurIntensity: Value,
    concealMode: Value,
    targetNames: Value,
    blurAmount: Value)

  /** `DEFAULT_SETTINGS`. */
  function Defaults(): Raw {
    Raw(Bool(true), Bool(false), Str(""), Str(""), Num(DefaultIntensity), Str("blur"), Arr([]), Num(DefaultIntensity))
  }

  /** The settings the script starts with, before storage has answered. */
  function Initial(): Settings {
    Settings(true, false, "", "", [], DefaultIntensity, Blur)
  }

  /** What sanitised settings always satisfy. */
  predicate Canonical(s: Settings) {
    && s.blurIntensity > 0
    && Trimmed(s.targetPerson)
    && forall k | k in s.keywordList :: IsKeyword(k) && IsLowerCase(k)
  }

  /** `keywordList.map(normalize)`. */
  function NormalizeAll(ks: seq<string>): (r: seq<string>)
    ensures |r| == |ks|
    ensures forall i :: 0 <= i < |ks| ==> r[i] == Normalize(ks[i])
  {
    seq(|ks|, i requires 0 <= i < |ks| => Normalize(ks[i]))
  }

  /** `Array.isArray(raw.targetNames) ? raw.targetNames[0] || "" : ""`. */
  function LegacyTarget(targetNames: Value): Value {
    if targetNames.Arr? && |targetNames.items| > 0 then Or(targetNames.items[0], Str("")) else Str("")
  }

  /** The chosen blur intensity: `blurIntensity`, else `blurAmount`, else the default. */
  function Intensity(raw: Raw): (r: int)
    ensures r > 0
    ensures IsPositiveNumber(raw.blurIntensity) ==> r == raw.blurIntensity.n
    ensures !IsPositiveNumber(raw.blurIntensity) && IsPositiveNumber(raw.blurAmount) ==> r == raw.blurAmount.n
    ensures !IsPositiveNumber(raw.blurIntensity) && !IsPositiveNumber(raw.blurAmount) ==> r == DefaultIntensity
  {
    if IsPositiveNumber(raw.blurIntensity) then raw.blurIntensity.n
    else if IsPositiveNumber(raw.blurAmount) then raw.blurAmount.n
    else DefaultIntensity
  }

  /** The value whose `trim()` becomes `targetPerson`. */
  function PersonValue(raw: Raw): Value {
    Or(Or(raw.targetPerson, LegacyTarget(raw.targetNames)), Str(""))
  }

  /**
   * `sanitizeSettings`. It throws when the chosen target is not a string (it
   * has no `trim`) or when `parseKeywordList` throws.
   */
  function Sanitize(raw: Raw): (r: Result<Settings>)
    ensures r.Ok? <==> PersonValue(raw).Str? && ParseKeywordList(raw.keywords).Ok?
    ensures r.Ok? ==> Canonical(r.value)
    ensures r.Ok? ==> r.value.enabled == (raw.enabled != Bool(false))
    ensures r.Ok? ==> r.value.blurAll == Truthy(raw.blurAll)
    ensures r.Ok? ==> (r.value.concealMode == Opaque <==> raw.concealMode == Str("opaque"))
    ensures r.Ok? ==> r.value.targetPerson == Trim(PersonValue(raw).s)
    ensures r.Ok? ==> r.value.blurIntensity == Intensity(raw)
    ensures r.Ok? ==> r.value.keywords == Join(ParseKeywordList(raw.keywords).value, ", ")
    ensures r.Ok? ==> r.value.keywordList == NormalizeAll(ParseKeywordList(raw.keywords).value)
  {
    var person := PersonValue(raw);
    var parsed := ParseKeywordList(raw.keywords);
    if !person.Str? || !parsed.Ok? then TypeError
    else
      var list := parsed.value;
      var lower := NormalizeAll(list);
      assert forall k | k in lower :: IsKeyword(k) && IsLowerCase(k) by {
        forall k | k in lower ensures IsKeyword(k) && IsLowerCase(k) {
          var i :| 0 <= i < |lower| && lower[i] == k;
          assert list[i] in list;
          assert Trim(list[i]) == list[i];
        }
      }
      Ok(Settings(
        raw.enabled != Bool(false),
        Truthy(raw.blurAll),
        Trim(person.s),
        Join(list, ", "),
        lower,
        Intensity(raw),
        if raw.concealMode == Str("opaque") then Opaque else Blur))
  }

  /** The value of a mode as it is stored. */
  function ModeValue(mode: ConcealMode): Value {
    if mode == Opaque then Str("opaque") else Str("blur")
  }

  /**
   * The `merged` record of the storage listener: a changed key brings its new
   * value (`Undefined` when it was removed), an unchanged one the current
   * setting; the legacy keys default to the current target and intensity.
   */
  function Merge(s: Settings, changes: map<string, Value>): (r: Raw)
    ensures "enabled" !in changes ==> r.enabled == Bool(s.enabled)
    ensures "blurAll" !in changes ==> r.blurAll == Bool(s.blurAll)
    ensures "targetPerson" !in changes ==> r.targetPerson == Str(s.targetPerson)
    ensures "keywords" !in changes ==> r.keywords == Str(s.keywords)
    ensures "blurIntensity" !in changes ==> r.blurIntensity == Num(s.blurIntensity)
    ensures "concealMode" !in changes ==> r.concealMode == ModeValue(s.concealMode)
    ensures "targetNames" !in changes ==> r.targetNames == Arr([Str(s.targetPerson)])
    ensures "blurAmount" !in changes ==> r.blurAmount == Num(s.blurIntensity)
    ensures "enabled" in changes ==> r.enabled == changes["enabled"]
    ensures "blurAll" in changes ==> r.blurAll == changes["blurAll"]
    ensures "targetPerson" in changes ==> r.targetPerson == changes["targetPerson"]
    ensures "keywords" in changes ==> r.keywords == changes["keywords"]
    ensures "blurIntensity" in changes ==> r.blurIntensity == changes["blurIntensity"]
    ensures "concealMode" in changes ==> r.concealMode == changes["concealMode"]
    ensures "targetNames" in changes ==> r.targetNames == changes["targetNames"]
    ensures "blurAmount" in changes ==> r.blurAmount == changes["blurAmount"]
  {
    Raw(
      Changed(changes, "enabled", Bool(s.enabled)),
      Changed(changes, "blurAll", Bool(s.blurAll)),
      Changed(changes, "targetPerson", Str(s.targetPerson)),
      Changed(changes, "keywords", Str(s.keywords)),
      Changed(changes, "blurIntensity", Num(s.blurIntensity)),
      Changed(changes, "concealMode", ModeValue(s.concealMode)),
      Changed(changes, "targetNames", Arr([Str(s.targetPerson)])),
      Changed(changes, "blurAmount", Num(s.blurIntensity)))
  }

  /** `changes.key ? changes.key.newValue : current`. */
  function Changed(changes: map<string, Value>, key: string, current: Value): Value {
    if key in changes then changes[key] else current
  }

  /** `chrome.storage.sync.get(DEFAULT_SETTINGS, ...)`: stored keys override the defaults. */
  function WithDefaults(stored: map<string, Value>): (r: Raw)
    ensures stored == map[] ==> r == Defaults()
  {
    var d := Defaults();
    Raw(
      Changed(stored, "enabled", d.enabled),
      Changed(stored, "blurAll", d.blurAll),
      Changed(stored, "targetPerson", d.targetPerson),
      Changed(stored, "keywords", d.keywords),
      Changed(stored, "blurIntensity", d.blurIntensity),
      Changed(stored, "concealMode", d.concealMode),
      Changed(stored, "targetNames", d.targetNames),
      Changed(stored, "blurAmount", d.blurAmount))
  }

  /**
   * The settings after the storage listener ran, and whether it scheduled a
   * pass: other areas are ignored, and a throwing `sanitizeSettings` aborts the
   * listener before it assigns or schedules anything.
   */
  function OnChanged(s: Settings, changes: map<string, Value>, area: string): (r: (Settings, bool))
    ensures area != "sync" ==> r == (s, false)
    ensures area == "sync" ==> (r.1 <==> Sanitize(Merge(s, changes)).Ok?)
    ensures r.1 ==> Sanitize(Merge(s, changes)) == Ok(r.0)
    ensures !r.1 ==> r.0 == s
  {
    if area != "sync" then (s, false)
    else match Sanitize(Merge(s, changes))
      case Ok(t) => (t, true)
      case TypeError => (s, false)
  }

  // ---------------------------------------------------------------------------
  // properties

  /** The defaults sanitise to the initial settings. */
  lemma DefaultsSanitizeToInitial()
    ensures Sanitize(WithDefaults(map[])) == Ok(Initial())
  {
    var raw := Defaults();
    assert PersonValue(raw) == Str("");
    ParseEmptyText();
    SanitizeFields(raw, []);
    assert raw.concealMode != Str("opaque") by {
      assert "blur"[0] != "opaque"[0];
    }
  }

  /** `sanitizeSettings` field by field, once both throwing cases are excluded. */
  lemma SanitizeFields(raw: Raw, list: seq<string>)
    requires PersonValue(raw).Str? && ParseKeywordList(raw.keywords) == Ok(list)
    ensures Sanitize(raw) == Ok(Settings(
      raw.enabled != Bool(false), Truthy(raw.blurAll), Trim(PersonValue(raw).s),
      Join(list, ", "), NormalizeAll(list), Intensity(raw),
      if raw.concealMode == Str("opaque") then Opaque else Blur))
  {
  }

  /** With no change, the merge hands every setting back in its stored shape. */
  lemma MergeNothing(s: Settings)
    ensures Merge(s, map[]) == Raw(Bool(s.enabled), Bool(s.blurAll), Str(s.targetPerson),
      Str(s.keywords), Num(s.blurIntensity), ModeValue(s.concealMode),
      Arr([Str(s.targetPerson)]), Num(s.blurIntensity))
  {
  }

  /** A trimmed target handed back as a string, or as the legacy array, is chosen and kept. */
  lemma PersonRoundTrip(m: Raw, person: string)
    requires Trimmed(person)
    requires m.targetPerson == Str(person) && m.targetNames == Arr([Str(person)])
    ensures PersonValue(m) == Str(person)
    ensures Trim(PersonValue(m).s) == person
  {
    if person == [] {
      assert LegacyTarget(m.targetNames) == Str("");
    }
  }

  /**
   * Settings that `sanitizeSettings` produced from string keywords survive a
   * change event that touches nothing: the merge hands back values that
   * sanitise to the same settings.
   */
  lemma ResanitizeUnchanged(raw: Raw, s: Settings)
    requires Sanitize(raw) == Ok(s)
    requires !raw.keywords.Arr?
    ensures Sanitize(Merge(s, map[])) == Ok(s)
  {
    var list := ParseKeywordText(ToText(Or(raw.keywords, Str(""))));
    assert s.keywords == Join(list, ", ") && s.keywordList == NormalizeAll(list) by {
      SanitizeFields(raw, list);
    }
    SanitizeStored(s, list);
  }

  /**
   * Canonical settings whose keyword text joins keywords free of commas
   * sanitise back to themselves once handed back by the merge.
   */
  lemma SanitizeStored(s: Settings, list: seq<string>)
    requires Canonical(s)
    requires forall k | k in list :: IsKeyword(k) && ',' !in k
    requires s.keywords == Join(list, ", ") && s.keywordList == NormalizeAll(list)
    ensures Sanitize(Merge(s, map[])) == Ok(s)
  {
    var m := Merge(s, map[]);
    assert m == Raw(Bool(s.enabled), Bool(s.blurAll), Str(s.targetPerson),
      Str(s.keywords), Num(s.blurIntensity), ModeValue(s.concealMode),
      Arr([Str(s.targetPerson)]), Num(s.blurIntensity)) by {
      MergeNothing(s);
    }
    assert ParseKeywordList(m.keywords) == Ok(list) by {
      KeywordValueRoundTrip(list);
    }
    assert PersonValue(m) == Str(s.targetPerson) && Trim(s.targetPerson) == s.targetPerson by {
      PersonRoundTrip(m, s.targetPerson);
    }
    assert Intensity(m) == s.blurIntensity;
    assert (m.concealMode == Str("opaque")) == (s.concealMode == Opaque) by {
      ModeValueOpaque(s.concealMode);
    }
    SanitizeAgrees(m, s, list);
  }

  /** Raw values that carry each field of `s` in a form `sanitizeSettings` reads back sanitise to `s`. */
  lemma SanitizeAgrees(m: Raw, s: Settings, list: seq<string>)
    requires PersonValue(m) == Str(s.targetPerson) && Trim(s.targetPerson) == s.targetPerson
    requires ParseKeywordList(m.keywords) == Ok(list)
    requires s.keywords == Join(list, ", ") && s.keywordList == NormalizeAll(list)
    requires Intensity(m) == s.blurIntensity
    requires m.enabled == Bool(s.enabled) && m.blurAll == Bool(s.blurAll)
    requires (m.concealMode == Str("opaque")) == (s.concealMode == Opaque)
    ensures Sanitize(m) == Ok(s)
  {
    SanitizeFields(m, list);
  }

  /** The stored mode reads back as opaque exactly for the opaque mode. */
  lemma ModeValueOpaque(mode: ConcealMode)
    ensures (ModeValue(mode) == Str("opaque")) == (mode == Opaque)
  {
    assert "blur"[0] != "opaque"[0];
  }

  /**
   * A change event keeps every setting whose key it does not carry; the target
   * is kept unless it was empty and the legacy key changed.
   */
  lemma MergeKeepsUntouched(s: Settings, changes: map<string, Value>, t: Settings)
    requires Canonical(s)
    requires Sanitize(Merge(s, changes)) == Ok(t)
    ensures "enabled" !in changes ==> t.enabled == s.enabled
    ensures "blurAll" !in changes ==> t.blurAll == s.blurAll
    ensures "blurIntensity" !in changes ==> t.blurIntensity == s.blurIntensity
    ensures "concealMode" !in changes ==> t.concealMode == s.concealMode
    ensures "targetPerson" !in changes && (s.targetPerson != [] || "targetNames" !in changes) ==>
      t.targetPerson == s.targetPerson
  {
    var m := Merge(s, changes);
    if "targetPerson" !in changes && (s.targetPerson != [] || "targetNames" !in changes) {
      if s.targetPerson == [] {
        assert PersonValue(m) == Str("");
      } else {
        assert PersonValue(m) == Str(s.targetPerson);
      }
    }
    if "concealMode" !in changes {
      assert m.concealMode == Str("opaque") <==> s.concealMode == Opaque;
    }
  }

  /**
   * Keywords kept as a legacy array are not stable: an item `k1,k2` holding a
   * comma is one keyword after the first sanitise, but the stored text
   * `keywords` re-parses to two after the next.
   */
  lemma ArrayKeywordWithComma(k1: string, k2: string)
    requires IsKeyword(k1) && IsKeyword(k2) && ',' !in k1 && ',' !in k2
    ensures ParseKeywordList(Arr([Str(k1 + [','] + k2)])) == Ok([k1 + [','] + k2])
    ensures ParseKeywordList(Str(Join([k1 + [','] + k2], ", "))) == Ok([k1, k2])
  {
    var item := k1 + [','] + k2;
    assert IsKeyword(item) by {
      assert item[0] == k1[0] && item[|item| - 1] == k2[|k2| - 1];
    }
    SingleArrayItem(item);
    CommaSplitsTwo(k1, k2);
    ParseStringValue(item);
    assert Join([item], ", ") == item;
  }

  lemma SingleArrayItem(item: string)
    requires IsKeyword(item)
    ensures ParseKeywordList(Arr([Str(item)])) == Ok([item])
  {
    var items := [Str(item)];
    assert forall i | 0 <= i < |items| :: items[i].Str?;
    assert StringItems(items) == [item];
    assert TrimAll([item]) == [item];
    assert DropEmpty([item]) == [item];
  }

  lemma CommaSplitsTwo(k1: string, k2: string)
    requires IsKeyword(k1) && IsKeyword(k2) && ',' !in k1 && ',' !in k2
    ensures ParseKeywordText(k1 + [','] + k2) == [k1, k2]
  {
    var pieces := [k1, k2];
    assert Split(k1 + [','] + k2, ',') == pieces by {
      assert Join(pieces, [',']) == k1 + [','] + k2 by {
        assert pieces[1..] == [k2];
      }
      JoinSplit(pieces, ',');
    }
    assert TrimAll(pieces) == pieces;
  }
}
