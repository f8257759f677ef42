/**
 * The "discover more" screen: the country picker sheet and the guard on
 * tapping a podcast.
 *
 * The picker lists the display names of all ISO country codes, sorted, and
 * maps a tapped name back to a code through an inverse table; the country
 * list and the display-name lookup of the platform are inputs (`codes`, and
 * the function `displayCountry`).
 */
module DiscoverMore {
  import opened Wrappers
  import opened StringOrder

  /** `countryCodeNames` after the loop has seen `codes`: every code to its display name. */
  function CodeNames(codes: seq<string>, displayCountry: string -> string): (codeNames: map<string, string>)
    ensures forall c :: c in codeNames ==> c in codes && codeNames[c] == displayCountry(c)
  {
    if codes == [] then map[]
    else
      var n := |codes| - 1;
      assert forall c :: c in codes[..n] ==> c in codes;
      CodeNames(codes[..n], displayCountry)[codes[n] := displayCountry(codes[n])]
  }

  /** `countryNameCodes` after the loop has seen `codes`: a later code overwrites an earlier one of the same name. */
  function NameCodes(codes: seq<string>, displayCountry: string -> string): (nameCodes: map<string, string>)
    ensures forall name :: name in nameCodes ==> nameCodes[name] in codes && displayCountry(nameCodes[name]) == name
  {
    if codes == [] then map[]
    else
      var n := |codes| - 1;
      assert forall c :: c in codes[..n] ==> c in codes;
      NameCodes(codes[..n], displayCountry)[displayCountry(codes[n]) := codes[n]]
  }

  /** The `for (code in countryCodeArray)` loop of `SelectCountry`, filling both tables in place. */
  method BuildCountryTables(codes: seq<string>, displayCountry: string -> string)
    returns (countryCodeNames: map<string, string>, countryNameCodes: map<string, string>)
    ensures countryCodeNames == CodeNames(codes, displayCountry)
    ensures countryNameCodes == NameCodes(codes, displayCountry)
  {
    countryCodeNames, countryNameCodes := map[], map[];
    for i := 0 to |codes|
      invariant countryCodeNames == CodeNames(codes[..i], displayCountry)
      invariant countryNameCodes == NameCodes(codes[..i], displayCountry)
    {
      var code := codes[i];
      var countryName := displayCountry(code);
      countryCodeNames := countryCodeNames[code := countryName];
      countryNameCodes := countryNameCodes[countryName := code];
      assert codes[..i + 1][..i] == codes[..i];
    }
    assert codes[..|codes|] == codes;
  }

  /** Every listed code, and nothing else, is a key of `countryCodeNames`, with its own display name. */
  lemma {:induction false} CodeNamesMapsEveryCode(codes: seq<string>, displayCountry: string -> string)
    ensures forall c :: c in CodeNames(codes, displayCountry) <==> c in codes
    ensures forall c :: c in CodeNames(codes, displayCountry) ==> CodeNames(codes, displayCountry)[c] == displayCountry(c)
  {
    if codes != [] {
      var n := |codes| - 1;
      CodeNamesMapsEveryCode(codes[..n], displayCountry);
      assert codes == codes[..n] + [codes[n]];
    }
  }

  /** Code `i` is the last code in the list whose display name is `name`. */
  predicate IsLastWithName(codes: seq<string>, displayCountry: string -> string, i: int, name: string)
  {
    0 <= i < |codes| && displayCountry(codes[i]) == name &&
    forall j :: i < j < |codes| ==> displayCountry(codes[j]) != name
  }

  /**
   * The names of `countryNameCodes` are exactly the display names of the
   * codes, and each maps to the last code in list order that bears it.
   */
  lemma {:induction false} NameCodesIsLastCode(codes: seq<string>, displayCountry: string -> string, name: string)
    ensures name in NameCodes(codes, displayCountry) <==>
      exists i :: 0 <= i < |codes| && displayCountry(codes[i]) == name
    ensures name in NameCodes(codes, displayCountry) ==>
      exists i :: IsLastWithName(codes, displayCountry, i, name) && codes[i] == NameCodes(codes, displayCountry)[name]
  {
    if codes != [] {
      var n := |codes| - 1;
      var prefix := codes[..n];
      NameCodesIsLastCode(prefix, displayCountry, name);
      if displayCountry(codes[n]) == name {
        assert IsLastWithName(codes, displayCountry, n, name);
      } else {
        if exists i :: 0 <= i < |codes| && displayCountry(codes[i]) == name {
          var i :| 0 <= i < |codes| && displayCountry(codes[i]) == name;
          assert prefix[i] == codes[i];
        }
        if name in NameCodes(codes, displayCountry) {
          var i :| IsLastWithName(prefix, displayCountry, i, name) && prefix[i] == NameCodes(prefix, displayCountry)[name];
          assert IsLastWithName(codes, displayCountry, i, name);
        }
      }
    }
  }

  /** Only one code is the last of a given name. */
  lemma LastWithNameUnique(codes: seq<string>, displayCountry: string -> string, i: int, k: int, name: string)
    requires IsLastWithName(codes, displayCountry, i, name)
    requires IsLastWithName(codes, displayCountry, k, name)
    ensures i == k
  {
  }

  /**
   * Going from a code to its name, to the name's code, and back to a name
   * gives the name again, even when several codes share that name.
   */
  lemma CodeNameRoundTrip(codes: seq<string>, displayCountry: string -> string, c: string)
    requires c in codes
    ensures var codeNames, nameCodes := CodeNames(codes, displayCountry), NameCodes(codes, displayCountry);
      && c in codeNames
      && codeNames[c] in nameCodes
      && nameCodes[codeNames[c]] in codeNames
      && codeNames[nameCodes[codeNames[c]]] == codeNames[c]
  {
    var codeNames, nameCodes := CodeNames(codes, displayCountry), NameCodes(codes, displayCountry);
    CodeNamesMapsEveryCode(codes, displayCountry);
    var i :| 0 <= i < |codes| && codes[i] == c;
    NameCodesIsLastCode(codes, displayCountry, displayCountry(c));
    var k :| IsLastWithName(codes, displayCountry, k, displayCountry(c)) && codes[k] == nameCodes[displayCountry(c)];
    assert codes[k] in codes;
  }

  /** `keys` lists every key of `m` once, in some order (a hash map's iteration order). */
  ghost predicate EnumeratesKeys(keys: seq<string>, m: map<string, string>)
  {
    (forall i, j :: 0 <= i < j < |keys| ==> keys[i] != keys[j]) &&
    (forall k :: k in m <==> k in keys)
  }

  /** A hash map's key set, in whatever order its iteration yields. */
  method KeysInIterationOrder(m: map<string, string>) returns (keys: seq<string>)
    ensures EnumeratesKeys(keys, m)
  {
    keys := [];
    var rest := m.Keys;
    while rest != {}
      invariant forall k :: k in m <==> k in rest || k in keys
      invariant forall k :: k in rest ==> k !in keys
      invariant forall i, j :: 0 <= i < j < |keys| ==> keys[i] != keys[j]
      decreases |rest|
    {
      var k :| k in rest;
      keys := keys + [k];
      rest := rest - {k};
    }
  }

  /** The values of `m` read along `keys`: `m.values` in iteration order, duplicates kept. */
  function ValuesAlong(m: map<string, string>, keys: seq<string>): (values: seq<string>)
    requires forall k :: k in keys ==> k in m
    ensures |values| == |keys| && forall i :: 0 <= i < |keys| ==> values[i] == m[keys[i]]
    ensures forall v :: v in values ==> v in m.Values
  {
    seq(|keys|, i requires 0 <= i < |keys| => m[keys[i]])
  }

  /** A row is highlighted when its name maps back to the current code (`get` of a missing name is null). */
  predicate IsHighlighted(countryNameCodes: map<string, string>, currentCountryCode: string, name: string)
    : (highlighted: bool)
    ensures highlighted ==> name in countryNameCodes && currentCountryCode in countryNameCodes.Values
  {
    name in countryNameCodes && countryNameCodes[name] == currentCountryCode
  }

  /**
   * The row of `name` is highlighted exactly when the current code is listed,
   * has that display name, and is the last code bearing it; a country whose
   * name a later code shares is never highlighted.
   */
  lemma HighlightedRow(codes: seq<string>, displayCountry: string -> string, currentCountryCode: string, name: string)
    ensures IsHighlighted(NameCodes(codes, displayCountry), currentCountryCode, name) <==>
      exists i :: IsLastWithName(codes, displayCountry, i, name) && codes[i] == currentCountryCode
  {
    NameCodesIsLastCode(codes, displayCountry, name);
    if exists i :: IsLastWithName(codes, displayCountry, i, name) && codes[i] == currentCountryCode {
      var i :| IsLastWithName(codes, displayCountry, i, name) && codes[i] == currentCountryCode;
      var k :| IsLastWithName(codes, displayCountry, k, name) && codes[k] == NameCodes(codes, displayCountry)[name];
      LastWithNameUnique(codes, displayCountry, i, k, name);
    }
  }

  /** Tapping a row: `selectCountry` is called once with the name's code when the name is a key, and not at all otherwise. */
  function CountryClicked(countryNameCodes: map<string, string>, name: string): (selected: seq<string>)
    ensures |selected| <= 1
    ensures selected != [] <==> name in countryNameCodes
    ensures selected != [] ==> selected[0] == countryNameCodes[name]
  {
    if name in countryNameCodes then [countryNameCodes[name]] else []
  }

  /**
   * Tapping the row of any display name selects one listed code: the last
   * one in list order that bears exactly that name.
   */
  lemma ClickSelectsNamedCountry(codes: seq<string>, displayCountry: string -> string, c: string)
    requires c in codes
    ensures var selected := CountryClicked(NameCodes(codes, displayCountry), displayCountry(c));
      && |selected| == 1 && selected[0] in codes && displayCountry(selected[0]) == displayCountry(c)
      && exists k :: IsLastWithName(codes, displayCountry, k, displayCountry(c)) && selected[0] == codes[k]
  {
    NameCodesIsLastCode(codes, displayCountry, displayCountry(c));
    var i :| 0 <= i < |codes| && codes[i] == c;
    var k :| IsLastWithName(codes, displayCountry, k, displayCountry(c)) &&
      codes[k] == NameCodes(codes, displayCountry)[displayCountry(c)];
  }

  datatype CountryRow = CountryRow(name: string, highlighted: bool)

  /** What `SelectCountry` prepares: the two tables, the rows shown, the sorted codes and the initial scroll index. */
  datatype CountrySheet = CountrySheet(
    countryCodeNames: map<string, string>,
    countryNameCodes: map<string, string>,
    rows: seq<CountryRow>,
    sortedCodes: seq<string>,
    scrollIndex: int)

  function RowNames(rows: seq<CountryRow>): seq<string>
  {
    seq(|rows|, i requires 0 <= i < |rows| => rows[i].name)
  }

  /** A row per sorted name, highlighted through the inverse table. */
  function Rows(countryNamesSort: seq<string>, countryNameCodes: map<string, string>, currentCountryCode: string)
    : (rows: seq<CountryRow>)
    ensures RowNames(rows) == countryNamesSort
    ensures forall i :: 0 <= i < |rows| ==>
      rows[i].highlighted == IsHighlighted(countryNameCodes, currentCountryCode, rows[i].name)
  {
    seq(|countryNamesSort|, i requires 0 <= i < |countryNamesSort| =>
      CountryRow(countryNamesSort[i], IsHighlighted(countryNameCodes, currentCountryCode, countryNamesSort[i])))
  }

  /** Every value of `countryCodeNames`, in any arrangement, maps back through the inverse table to a code of that name. */
  lemma ValuesMapBack(codes: seq<string>, displayCountry: string -> string, keys: seq<string>, names: seq<string>)
    requires EnumeratesKeys(keys, CodeNames(codes, displayCountry))
    requires multiset(names) == multiset(ValuesAlong(CodeNames(codes, displayCountry), keys))
    ensures var codeNames, nameCodes := CodeNames(codes, displayCountry), NameCodes(codes, displayCountry);
      forall n :: n in names ==>
        n in nameCodes && nameCodes[n] in codeNames && codeNames[nameCodes[n]] == n
  {
    var codeNames := CodeNames(codes, displayCountry);
    var values := ValuesAlong(codeNames, keys);
    CodeNamesMapsEveryCode(codes, displayCountry);
    forall n | n in names
      ensures n in NameCodes(codes, displayCountry) && NameCodes(codes, displayCountry)[n] in codeNames
      ensures codeNames[NameCodes(codes, displayCountry)[n]] == n
    {
      assert n in multiset(values);
      var j :| 0 <= j < |values| && values[j] == n;
      CodeNameRoundTrip(codes, displayCountry, keys[j]);
    }
  }

  /** Sorting a key enumeration gives a key enumeration. */
  lemma SortedKeysEnumerate(keys: seq<string>, m: map<string, string>)
    requires EnumeratesKeys(keys, m)
    ensures EnumeratesKeys(Sort(keys), m)
  {
    var sorted := Sort(keys);
    forall k ensures k in sorted <==> k in keys {
      assert k in sorted <==> k in multiset(sorted);
    }
    SortedDistinct(keys, sorted);
  }

  /**
   * What `SelectCountry` promises of its sheet: the rows are the values of
   * `countryCodeNames`, sorted, duplicates kept, each highlighted through the
   * inverse table and each selecting a code of its own name; the scroll index
   * is the current code's position among the SORTED CODES (-1 when it is not
   * listed), not its row's position among the sorted names.
   */
  ghost predicate IsCountrySheet(codes: seq<string>, displayCountry: string -> string, currentCountryCode: string,
                                 sheet: CountrySheet)
  {
    && sheet.countryCodeNames == CodeNames(codes, displayCountry)
    && sheet.countryNameCodes == NameCodes(codes, displayCountry)
    && IsSorted(RowNames(sheet.rows))
    && (exists keys :: EnumeratesKeys(keys, sheet.countryCodeNames) &&
          multiset(RowNames(sheet.rows)) == multiset(ValuesAlong(sheet.countryCodeNames, keys)))
    && (forall i :: 0 <= i < |sheet.rows| ==>
          sheet.rows[i].highlighted == IsHighlighted(sheet.countryNameCodes, currentCountryCode, sheet.rows[i].name))
    && (forall i :: 0 <= i < |sheet.rows| ==>
          var name := sheet.rows[i].name;
          name in sheet.countryNameCodes && sheet.countryNameCodes[name] in sheet.countryCodeNames &&
          sheet.countryCodeNames[sheet.countryNameCodes[name]] == name)
    && IsSorted(sheet.sortedCodes) && EnumeratesKeys(sheet.sortedCodes, sheet.countryCodeNames)
    && (sheet.scrollIndex == -1 <==> currentCountryCode !in codes)
    && -1 <= sheet.scrollIndex < |sheet.sortedCodes|
    && (0 <= sheet.scrollIndex ==> sheet.sortedCodes[sheet.scrollIndex] == currentCountryCode)
  }

  /** `SelectCountry`'s data preparation: the tables, the sorted rows, the sorted codes and the scroll index. */
  method SelectCountry(codes: seq<string>, displayCountry: string -> string, currentCountryCode: string)
    returns (sheet: CountrySheet)
    ensures IsCountrySheet(codes, displayCountry, currentCountryCode, sheet)
  {
    var countryCodeNames, countryNameCodes := BuildCountryTables(codes, displayCountry);
    CodeNamesMapsEveryCode(codes, displayCountry);
    var keys := KeysInIterationOrder(countryCodeNames);
    var countryNamesSort := Sort(ValuesAlong(countryCodeNames, keys));
    ValuesMapBack(codes, displayCountry, keys, countryNamesSort);
    var rows := Rows(countryNamesSort, countryNameCodes, currentCountryCode);
    var sortedCodes := Sort(keys);
    SortedKeysEnumerate(keys, countryCodeNames);
    sheet := CountrySheet(countryCodeNames, countryNameCodes, rows, sortedCodes,
      IndexOf(sortedCodes, currentCountryCode));
    forall i | 0 <= i < |rows| ensures rows[i].name in countryNamesSort {
      assert rows[i].name == RowNames(rows)[i];
    }
  }

  /** A sorted permutation of a duplicate-free list is duplicate-free. */
  lemma SortedDistinct(keys: seq<string>, sorted: seq<string>)
    requires forall i, j :: 0 <= i < j < |keys| ==> keys[i] != keys[j]
    requires multiset(sorted) == multiset(keys)
    ensures forall i, j :: 0 <= i < j < |sorted| ==> sorted[i] != sorted[j]
  {
    forall i, j | 0 <= i < j < |sorted| ensures sorted[i] != sorted[j] {
      if sorted[i] == sorted[j] {
        MultiplicityAtLeastTwo(sorted, i, j);
        DistinctMultiplicity(keys, sorted[i]);
      }
    }
  }

  lemma MultiplicityAtLeastTwo(s: seq<string>, i: int, j: int)
    requires 0 <= i < j < |s| && s[i] == s[j]
    ensures multiset(s)[s[i]] >= 2
  {
    assert s == s[..i] + [s[i]] + s[i + 1..j] + [s[j]] + s[j + 1..];
  }

  lemma {:induction false} DistinctMultiplicity(s: seq<string>, x: string)
    requires forall i, j :: 0 <= i < j < |s| ==> s[i] != s[j]
    ensures multiset(s)[x] <= 1
  {
    if s != [] {
      var n := |s| - 1;
      DistinctMultiplicity(s[..n], x);
      assert s == s[..n] + [s[n]];
      if s[n] == x {
        assert x !in s[..n];
      }
    }
  }

  lemma ElementIsOneOf(keys: seq<string>, k: int, a: string, b: string)
    requires 0 <= k < |keys|
    requires forall x :: x in keys <==> x == a || x == b
    ensures keys[k] == a || keys[k] == b
  {
    assert keys[k] in keys;
  }

  /** A duplicate-free list holding exactly two different strings is one of their two orders. */
  lemma TwoElementList(keys: seq<string>, a: string, b: string)
    requires a != b
    requires forall i, j :: 0 <= i < j < |keys| ==> keys[i] != keys[j]
    requires forall k :: k in keys <==> k == a || k == b
    ensures keys == [a, b] || keys == [b, a]
  {
    assert a in keys && b in keys;
    var i :| 0 <= i < |keys| && keys[i] == a;
    var j :| 0 <= j < |keys| && keys[j] == b;
    assert |keys| <= 2 by {
      if |keys| > 2 {
        var k := if 0 != i && 0 != j then 0 else if 1 != i && 1 != j then 1 else 2;
        ElementIsOneOf(keys, k, a, b);
        assert false;
      }
    }
    assert keys[0] in keys && keys[1] in keys;
  }

  /**
   * The scroll index follows the sorted codes while the rows follow the
   * sorted names. With DE (Germany) current and FR (France) listed, every
   * sheet the picker can produce scrolls to index 0, yet row 0 is France and
   * the highlighted Germany row is row 1.
   */
  lemma ScrollIndexFollowsCodeOrder(displayCountry: string -> string, sheet: CountrySheet)
    requires displayCountry("DE") == "Germany" && displayCountry("FR") == "France"
    requires IsCountrySheet(["DE", "FR"], displayCountry, "DE", sheet)
    ensures sheet.scrollIndex == 0
    ensures RowNames(sheet.rows) == ["France", "Germany"]
    ensures !sheet.rows[0].highlighted && sheet.rows[1].highlighted
  {
    ExampleTables(displayCountry);
    var codeNames := sheet.countryCodeNames;
    var keys :| EnumeratesKeys(keys, codeNames) &&
      multiset(RowNames(sheet.rows)) == multiset(ValuesAlong(codeNames, keys));
    ExampleRowNames(RowNames(sheet.rows), keys, codeNames);
    assert sheet.rows[0].name == RowNames(sheet.rows)[0];
    assert sheet.rows[1].name == RowNames(sheet.rows)[1];
    ExampleSortedCodes(sheet.sortedCodes, codeNames);
  }

  /** The two tables for DE (Germany) and FR (France). */
  lemma ExampleTables(displayCountry: string -> string)
    requires displayCountry("DE") == "Germany" && displayCountry("FR") == "France"
    ensures CodeNames(["DE", "FR"], displayCountry) == map["DE" := "Germany", "FR" := "France"]
    ensures NameCodes(["DE", "FR"], displayCountry) == map["Germany" := "DE", "France" := "FR"]
  {
    var codes := ["DE", "FR"];
    assert codes[..1] == ["DE"] && ["DE"][..0] == [];
  }

  /** The rows for DE and FR, in any iteration order, sort to France, Germany. */
  lemma ExampleRowNames(names: seq<string>, keys: seq<string>, codeNames: map<string, string>)
    requires codeNames == map["DE" := "Germany", "FR" := "France"]
    requires EnumeratesKeys(keys, codeNames)
    requires IsSorted(names)
    requires multiset(names) == multiset(ValuesAlong(codeNames, keys))
    ensures names == ["France", "Germany"]
  {
    assert forall k :: k in keys <==> k == "DE" || k == "FR" by {
      forall k ensures k in keys <==> k == "DE" || k == "FR" {
        assert k in codeNames <==> k == "DE" || k == "FR";
      }
    }
    TwoElementList(keys, "DE", "FR");
    var values := ValuesAlong(codeNames, keys);
    if keys == ["DE", "FR"] {
      assert values == ["Germany", "France"];
    } else {
      assert values == ["France", "Germany"];
    }
    assert multiset(values) == multiset(["France", "Germany"]);
    assert LessEq("France", "Germany");
    assert IsSorted(["France", "Germany"]);
    SortedPermutationUnique(names, ["France", "Germany"]);
  }

  /** The sorted codes for DE and FR are DE, FR. */
  lemma ExampleSortedCodes(sortedCodes: seq<string>, codeNames: map<string, string>)
    requires codeNames == map["DE" := "Germany", "FR" := "France"]
    requires IsSorted(sortedCodes) && EnumeratesKeys(sortedCodes, codeNames)
    ensures sortedCodes == ["DE", "FR"]
  {
    assert forall k :: k in sortedCodes <==> k == "DE" || k == "FR" by {
      forall k ensures k in sortedCodes <==> k == "DE" || k == "FR" {
        assert k in codeNames <==> k == "DE" || k == "FR";
      }
    }
    TwoElementList(sortedCodes, "DE", "FR");
    assert LessEq(sortedCodes[0], sortedCodes[1]);
    assert !LessEq("FR", "DE");
  }

  /** The tapped podcast entry, reduced to the id path `id?.attributes?.imId`. */
  datatype IdAttributes = IdAttributes(imId: Option<string>)
  datatype EntryId = EntryId(attributes: Option<IdAttributes>)
  datatype EntryItem = EntryItem(id: Option<EntryId>)

  /**
   * Tapping a podcast calls `onClickPodcast` once with `imId` when the whole
   * safe-call chain is non-null, and not at all otherwise.
   */
  function PodcastClicked(entry: EntryItem): (calls: seq<string>)
    ensures |calls| <= 1
    ensures calls != [] <==>
      entry.id.Some? && entry.id.value.attributes.Some? && entry.id.value.attributes.value.imId.Some?
    ensures calls != [] ==> calls[0] == entry.id.value.attributes.value.imId.value
  {
    match entry.id
    case None => []
    case Some(id) =>
      match id.attributes
      case None => []
      case Some(attributes) =>
        match attributes.imId
        case None => []
        case Some(imId) => [imId]
  }
}
