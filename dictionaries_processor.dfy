/**
 * The manifest bookkeeping of the dictionaries processor
 * (DictionariesProcessor.java): the HyphenData records that become the
 * all.json manifest, and the list operations on them. Directory listing,
 * file copying, XML and JSON are not modelled; an operation takes the names
 * it would have read as parameters.
 */
module Manifest {
  import opened Results
  import opened JavaStrings

  /** One manifest record. */
  datatype HyphenData = HyphenData(locations: seq<string>, locales: seq<string>, hyphen: string)

  /** `new HyphenData(locations, locales)`: the hyphen field starts as "-". */
  function NewHyphenData(locations: seq<string>, locales: seq<string>): HyphenData {
    HyphenData(locations, locales, "-")
  }

  // ---------------------------------------------------------------------------
  // isCompatibleLocale
  // ---------------------------------------------------------------------------

  /** The locales whose dictionaries are not taken. */
  const NON_COMPATIBLE_LOCALES: seq<string> := ["cs-CZ", "pt-PT", "eo", "ro-RO"]

  /** A locale list that names none of the non-compatible locales. */
  predicate Compatible(locales: seq<string>) {
    forall s :: s in NON_COMPATIBLE_LOCALES ==> s !in locales
  }

  /** `isCompatibleLocale`: the loop over the non-compatible locales, left at the first hit. */
  method IsCompatibleLocale(locales: seq<string>) returns (compatible: bool)
    ensures compatible <==> Compatible(locales)
  {
    compatible := true;
    for i := 0 to |NON_COMPATIBLE_LOCALES|
      invariant forall k :: 0 <= k < i ==> NON_COMPATIBLE_LOCALES[k] !in locales
    {
      if NON_COMPATIBLE_LOCALES[i] in locales {
        compatible := false;
        break;
      }
    }
  }

  // ---------------------------------------------------------------------------
  // extractDefaultLocales
  // ---------------------------------------------------------------------------

  /** `locale.contains("-")`: the locale names a region. */
  predicate Regional(locale: string) {
    '-' in locale
  }

  /** A non-empty locale made of dashes only, for which `split("-")` is empty. */
  predicate AllDashes(locale: string) {
    locale != [] && forall k :: 0 <= k < |locale| ==> locale[k] == '-'
  }

  /**
   * `locale.split("-")[0]`, or None where `split` returns no element and
   * indexing it throws ArrayIndexOutOfBoundsException.
   */
  function LanguageCode(locale: string): Option<string> {
    var parts := Split(locale, '-');
    if parts == [] then None else Some(parts[0])
  }

  /** The bare locales (no region) of a list. */
  function BareIn(locales: seq<string>): set<string>
    decreases |locales|
  {
    if locales == [] then {}
    else
      var locale := locales[|locales| - 1];
      BareIn(locales[..|locales| - 1]) + (if Regional(locale) then {} else {locale})
  }

  /** The first loop of extractDefaultLocales: the bare locales of all records. */
  function BareLocales(entries: seq<HyphenData>): set<string>
    decreases |entries|
  {
    if entries == [] then {}
    else BareLocales(entries[..|entries| - 1]) + BareIn(entries[|entries| - 1].locales)
  }

  /**
   * The inner loop of extractDefaultLocales over the locales of one record:
   * `newLocales` and `known` after the remaining `locales`, or None when a
   * language code cannot be taken.
   */
  function ScanCodes(locales: seq<string>, known: set<string>, newLocales: seq<string>): Option<(seq<string>, set<string>)>
    decreases |locales|
  {
    if locales == [] then Some((newLocales, known))
    else if !Regional(locales[0]) then ScanCodes(locales[1..], known, newLocales)
    else
      match LanguageCode(locales[0])
      case None => None
      case Some(code) =>
        if code in known then ScanCodes(locales[1..], known, newLocales)
        // the Slovak dictionary also serves Czech
        else if code == "sk" then ScanCodes(locales[1..], known + {code, "cs"}, newLocales + [code, "cs"])
        else ScanCodes(locales[1..], known + {code}, newLocales + [code])
  }

  /** The second loop of extractDefaultLocales: the records after the remaining `entries`. */
  function ExtendEntries(entries: seq<HyphenData>, known: set<string>, done: seq<HyphenData>): Option<seq<HyphenData>>
    decreases |entries|
  {
    if entries == [] then Some(done)
    else
      match ScanCodes(entries[0].locales, known, entries[0].locales)
      case None => None
      case Some((newLocales, known')) => ExtendEntries(entries[1..], known', done + [entries[0].(locales := newLocales)])
  }

  /** The manifest after extractDefaultLocales, or None when it throws. */
  function DefaultLocales(entries: seq<HyphenData>): Option<seq<HyphenData>> {
    ExtendEntries(entries, BareLocales(entries), [])
  }

  /** The locales extractDefaultLocales appended to a record. */
  function Appended(before: HyphenData, after: HyphenData): seq<string> {
    if |before.locales| <= |after.locales| then after.locales[|before.locales|..] else []
  }

  /** Position `q` of appended locales holds a language code, not the Czech alias after "sk". */
  predicate IsCode(added: seq<string>, q: int) {
    0 <= q < |added| && (q == 0 || added[q - 1] != "sk")
  }

  /** The language codes of the regional locales of a list. */
  ghost function RegionalCodes(locales: seq<string>): set<string> {
    set l | l in locales && Regional(l) && LanguageCode(l).Some? :: LanguageCode(l).value
  }

  /**
   * What the scan of one record may append when `known` is known: each code
   * new and one of `codes`, "sk" followed by its Czech alias.
   */
  ghost predicate WellAppended(added: seq<string>, known: set<string>, codes: set<string>)
    decreases |added|
  {
    added == [] ||
    (added[0] !in known && added[0] in codes &&
     if added[0] == "sk" then
       |added| >= 2 && added[1] == "cs" && WellAppended(added[2..], known + {"sk", "cs"}, codes)
     else
       WellAppended(added[1..], known + {added[0]}, codes))
  }

  /** A list holding a locale that makes `split("-")[0]` throw. */
  ghost predicate HasAllDashes(locales: seq<string>) {
    exists l :: l in locales && AllDashes(l)
  }

  // ---------------------------------------------------------------------------
  // Properties of extractDefaultLocales
  // ---------------------------------------------------------------------------

  /** Fields of a string can all be empty only when the string is all separators. */
  lemma {:induction false} FieldsAllEmpty(s: string, sep: char)
    ensures (forall i :: 0 <= i < |Fields(s, sep)| ==> Fields(s, sep)[i] == "") <==>
            (forall k :: 0 <= k < |s| ==> s[k] == sep)
    decreases |s|
  {
    if sep in s {
      var k := IndexOf(s, sep);
      var rest := s[k + 1..];
      FieldsAllEmpty(rest, sep);
      var fs := Fields(s, sep);
      assert fs == [s[..k]] + Fields(rest, sep);
      if forall k' :: 0 <= k' < |s| ==> s[k'] == sep {
        assert s[0] == sep;
        forall i | 0 <= i < |rest| ensures rest[i] == sep {
          assert rest[i] == s[k + 1 + i];
        }
        forall i | 0 <= i < |fs| ensures fs[i] == "" {
          if i > 0 { assert fs[i] == Fields(rest, sep)[i - 1]; }
        }
      }
      if forall i :: 0 <= i < |fs| ==> fs[i] == "" {
        assert fs[0] == s[..k] == "";
        forall i | 0 <= i < |Fields(rest, sep)| ensures Fields(rest, sep)[i] == "" {
          assert Fields(rest, sep)[i] == fs[i + 1];
        }
        forall k' | 0 <= k' < |s| ensures s[k'] == sep {
          if k' > 0 { assert s[k'] == rest[k' - 1]; }
        }
      }
    } else {
      assert Fields(s, sep) == [s];
      if s != [] {
        assert s[0] in s;
        assert s[0] != sep;
        assert Fields(s, sep)[0] != "";
      }
    }
  }

  /**
   * The language code is the text before the first dash; `split` leaves
   * nothing to index exactly when the locale is all dashes.
   */
  lemma LanguageCodeIsPrefix(locale: string)
    requires Regional(locale)
    ensures LanguageCode(locale).None? <==> AllDashes(locale)
    ensures LanguageCode(locale).Some? ==> LanguageCode(locale).value == locale[..IndexOf(locale, '-')]
  {
    var fs := Fields(locale, '-');
    var parts := Split(locale, '-');
    assert parts == DropTrailingEmpty(fs);
    FieldsAllEmpty(locale, '-');
    if parts == [] {
      forall i | 0 <= i < |fs| ensures fs[i] == "" {
      }
    } else {
      assert parts[0] == fs[0];
      assert fs[|parts| - 1] == parts[|parts| - 1] != "";
    }
  }

  /** The bare-locale set holds the locales without a dash. */
  lemma {:induction false} BareInMembers(locales: seq<string>)
    ensures forall l :: l in BareIn(locales) <==> l in locales && !Regional(l)
    decreases |locales|
  {
    if locales != [] {
      var init := locales[..|locales| - 1];
      BareInMembers(init);
      assert locales == init + [locales[|locales| - 1]];
    }
  }

  /** The first loop collects exactly the locales without a dash, over all records. */
  lemma {:induction false} BareLocalesMembers(entries: seq<HyphenData>)
    ensures forall l :: l in BareLocales(entries) <==>
      !Regional(l) && exists i :: 0 <= i < |entries| && l in entries[i].locales
    decreases |entries|
  {
    if entries != [] {
      var n := |entries| - 1;
      var init := entries[..n];
      BareLocalesMembers(init);
      BareInMembers(entries[n].locales);
      forall l ensures l in BareLocales(entries) <==>
        !Regional(l) && exists i :: 0 <= i < |entries| && l in entries[i].locales
      {
        if !Regional(l) && exists i :: 0 <= i < |entries| && l in entries[i].locales {
          var i :| 0 <= i < |entries| && l in entries[i].locales;
          if i < n {
            assert init[i] == entries[i];
          }
        }
        if l in BareLocales(init) {
          var i :| 0 <= i < |init| && l in init[i].locales;
          assert entries[i] == init[i];
        }
      }
    }
  }

  /** The tail of a sequence past a prefix and a step. */
  lemma SliceAfter(acc: seq<string>, step: seq<string>, out: seq<string>)
    requires acc + step <= out
    ensures out[|acc|..] == step + out[|acc + step|..]
  {
  }

  /** Dropping a prefix step. */
  lemma DropStep(step: seq<string>, later: seq<string>)
    ensures (step + later)[|step|..] == later
  {
  }

  /** A larger code set admits the same appended codes. */
  lemma {:induction false} WellAppendedWider(added: seq<string>, known: set<string>, codes: set<string>, wider: set<string>)
    requires WellAppended(added, known, codes) && codes <= wider
    ensures WellAppended(added, known, wider)
    decreases |added|
  {
    if added != [] {
      if added[0] == "sk" {
        WellAppendedWider(added[2..], known + {"sk", "cs"}, codes, wider);
      } else {
        WellAppendedWider(added[1..], known + {added[0]}, codes, wider);
      }
    }
  }

  /** Appended codes read position by position. */
  lemma {:induction false} WellAppendedAt(added: seq<string>, known: set<string>, codes: set<string>)
    requires WellAppended(added, known, codes)
    ensures forall q :: IsCode(added, q) ==> added[q] !in known && added[q] !in added[..q] && added[q] in codes
    ensures forall q :: 0 <= q < |added| && !IsCode(added, q) ==> added[q] == "cs"
    ensures forall q :: 0 <= q < |added| && added[q] == "sk" ==> q + 1 < |added| && added[q + 1] == "cs"
    decreases |added|
  {
    if added != [] {
      var n := if added[0] == "sk" then 2 else 1;
      var later := added[n..];
      var known1 := if added[0] == "sk" then known + {"sk", "cs"} else known + {added[0]};
      WellAppendedAt(later, known1, codes);
      forall q | IsCode(added, q) ensures added[q] !in known && added[q] !in added[..q] && added[q] in codes {
        if q >= n {
          var p := q - n;
          assert added[q] == later[p];
          assert IsCode(later, p) by {
            if p > 0 { assert later[p - 1] == added[q - 1]; }
          }
          assert forall c :: c in added[..q] ==> c in known1 || c in later[..p] by {
            assert added[..q] == added[..n] + later[..p];
          }
        }
      }
      forall q | 0 <= q < |added| && !IsCode(added, q) ensures added[q] == "cs" {
        if q >= n {
          var p := q - n;
          assert added[q] == later[p];
          if p > 0 {
            assert later[p - 1] == added[q - 1];
          }
        }
      }
      forall q | 0 <= q < |added| && added[q] == "sk" ensures q + 1 < |added| && added[q + 1] == "cs" {
        if q >= n {
          assert later[q - n] == added[q];
          assert q + 1 < |added| ==> later[q + 1 - n] == added[q + 1];
        }
      }
    }
  }

  /** The codes of a list are those of its first locale and of the rest. */
  lemma RegionalCodesCons(locales: seq<string>)
    requires locales != []
    ensures RegionalCodes(locales[1..]) <= RegionalCodes(locales)
    ensures Regional(locales[0]) && LanguageCode(locales[0]).Some? ==>
      RegionalCodes(locales) == RegionalCodes(locales[1..]) + {LanguageCode(locales[0]).value}
    ensures !Regional(locales[0]) ==> RegionalCodes(locales) == RegionalCodes(locales[1..])
  {
    assert forall l :: l in locales <==> l == locales[0] || l in locales[1..];
  }

  /** What the scan of one record appends and learns. */
  lemma {:induction false} ScanCodesFacts(locales: seq<string>, known: set<string>, acc: seq<string>)
    requires ScanCodes(locales, known, acc).Some?
    ensures acc <= ScanCodes(locales, known, acc).value.0
    ensures var (out, known') := ScanCodes(locales, known, acc).value;
      && WellAppended(out[|acc|..], known, RegionalCodes(locales))
      && (forall c :: c in known' <==> c in known || c in out[|acc|..])
      && RegionalCodes(locales) <= known'
    decreases |locales|
  {
    if locales == [] {
      assert ScanCodes(locales, known, acc).value.0[|acc|..] == [];
    } else {
      var l := locales[0];
      var rest := locales[1..];
      RegionalCodesCons(locales);
      var step, known1;
      if !Regional(l) {
        step, known1 := [], known;
      } else {
        var code := LanguageCode(l).value;
        if code in known {
          step, known1 := [], known;
        } else if code == "sk" {
          step, known1 := [code, "cs"], known + {code, "cs"};
        } else {
          step, known1 := [code], known + {code};
        }
      }
      assert acc + [] == acc;
      assert ScanCodes(locales, known, acc) == ScanCodes(rest, known1, acc + step);
      ScanCodesFacts(rest, known1, acc + step);
      var (out, known') := ScanCodes(locales, known, acc).value;
      SliceAfter(acc, step, out);
      var later := out[|acc + step|..];
      WellAppendedWider(later, known1, RegionalCodes(rest), RegionalCodes(locales));
      DropStep(step, later);
    }
  }

  /** What the scan of one record learns about one code. */
  lemma ScanLearns(locales: seq<string>, known: set<string>, acc: seq<string>, c: string)
    requires ScanCodes(locales, known, acc).Some?
    ensures acc <= ScanCodes(locales, known, acc).value.0
    ensures var (out, known') := ScanCodes(locales, known, acc).value;
      && (c in known' ==> c in known || c in out[|acc|..])
      && (c in RegionalCodes(locales) ==> c in known')
  {
    ScanCodesFacts(locales, known, acc);
  }

  /** The scan of one record throws exactly when one of its locales is all dashes. */
  lemma {:induction false} ScanCodesFails(locales: seq<string>, known: set<string>, acc: seq<string>)
    ensures ScanCodes(locales, known, acc).None? <==> HasAllDashes(locales)
    decreases |locales|
  {
    if locales != [] {
      var l := locales[0];
      assert forall x :: x in locales <==> x == l || x in locales[1..];
      if Regional(l) {
        LanguageCodeIsPrefix(l);
      }
      if !Regional(l) || LanguageCode(l).Some? {
        if !Regional(l) {
          assert l != [] ==> l[0] in l;
        }
        var known1 := if !Regional(l) || LanguageCode(l).value in known then known
          else if LanguageCode(l).value == "sk" then known + {"sk", "cs"}
          else known + {LanguageCode(l).value};
        var step := if !Regional(l) || LanguageCode(l).value in known then []
          else if LanguageCode(l).value == "sk" then ["sk", "cs"]
          else [LanguageCode(l).value];
        assert acc + [] == acc;
        assert ScanCodes(locales, known, acc) == ScanCodes(locales[1..], known1, acc + step);
        ScanCodesFails(locales[1..], known1, acc + step);
      }
    }
  }

  /** A smaller known set admits the same appended codes. */
  lemma {:induction false} WellAppendedNarrower(added: seq<string>, known: set<string>, smaller: set<string>, codes: set<string>)
    requires WellAppended(added, known, codes) && smaller <= known
    ensures WellAppended(added, smaller, codes)
    decreases |added|
  {
    if added != [] {
      if added[0] == "sk" {
        WellAppendedNarrower(added[2..], known + {"sk", "cs"}, smaller + {"sk", "cs"}, codes);
      } else {
        WellAppendedNarrower(added[1..], known + {added[0]}, smaller + {added[0]}, codes);
      }
    }
  }

  /** A record as extractDefaultLocales leaves it: locales only extended. */
  predicate Extends(before: HyphenData, after: HyphenData) {
    after.locations == before.locations && after.hyphen == before.hyphen && before.locales <= after.locales
  }

  /** The scan keeps the records already done and adds one per remaining record. */
  lemma {:induction false} ExtendLength(entries: seq<HyphenData>, known: set<string>, done: seq<HyphenData>)
    requires ExtendEntries(entries, known, done).Some?
    ensures |ExtendEntries(entries, known, done).value| == |done| + |entries|
    ensures ExtendEntries(entries, known, done).value[..|done|] == done
    decreases |entries|
  {
    if entries != [] {
      var e := entries[0];
      var (newLocales, known1) := ScanCodes(e.locales, known, e.locales).value;
      var e' := e.(locales := newLocales);
      assert ExtendEntries(entries, known, done) == ExtendEntries(entries[1..], known1, done + [e']);
      ExtendLength(entries[1..], known1, done + [e']);
      var out := ExtendEntries(entries, known, done).value;
      assert out[..|done|] == (done + [e'])[..|done|];
    }
  }

  /** The first remaining record, as the scan leaves it. */
  lemma ExtendFirst(entries: seq<HyphenData>, known: set<string>, done: seq<HyphenData>)
    requires entries != [] && ExtendEntries(entries, known, done).Some?
    ensures ScanCodes(entries[0].locales, known, entries[0].locales).Some?
    ensures var (newLocales, known1) := ScanCodes(entries[0].locales, known, entries[0].locales).value;
      var e' := entries[0].(locales := newLocales);
      && ExtendEntries(entries, known, done) == ExtendEntries(entries[1..], known1, done + [e'])
      && |ExtendEntries(entries, known, done).value| == |done| + |entries|
      && ExtendEntries(entries, known, done).value[|done|] == e'
  {
    var (newLocales, known1) := ScanCodes(entries[0].locales, known, entries[0].locales).value;
    var e' := entries[0].(locales := newLocales);
    ExtendLength(entries[1..], known1, done + [e']);
    var out := ExtendEntries(entries, known, done).value;
    assert out[..|done| + 1][|done|] == e';
  }

  /** Record `i` as the scan leaves it: locales extended with codes new to `known`. */
  lemma {:induction false} ExtendAt(entries: seq<HyphenData>, known: set<string>, done: seq<HyphenData>, i: nat)
    requires i < |entries| && ExtendEntries(entries, known, done).Some?
    ensures |ExtendEntries(entries, known, done).value| == |done| + |entries|
    ensures var after := ExtendEntries(entries, known, done).value[|done| + i];
      && Extends(entries[i], after)
      && WellAppended(Appended(entries[i], after), known, RegionalCodes(entries[i].locales))
    decreases |entries|
  {
    hide ExtendEntries, ScanCodes, RegionalCodes, WellAppended;
    ExtendFirst(entries, known, done);
    var (newLocales, known1) := ScanCodes(entries[0].locales, known, entries[0].locales).value;
    var e' := entries[0].(locales := newLocales);
    if i == 0 {
      ScanCodesFacts(entries[0].locales, known, entries[0].locales);
      assert Appended(entries[0], e') == newLocales[|entries[0].locales|..];
    } else {
      ScanCodesFacts(entries[0].locales, known, entries[0].locales);
      ExtendAt(entries[1..], known1, done + [e'], i - 1);
      assert entries[1..][i - 1] == entries[i] && |done + [e']| + (i - 1) == |done| + i;
      var after := ExtendEntries(entries, known, done).value[|done| + i];
      WellAppendedNarrower(Appended(entries[i], after), known1, known, RegionalCodes(entries[i].locales));
    }
  }

  /** A code appended to record `i` was neither appended to record `j < i` nor a code of it. */
  lemma {:induction false} ExtendFresh(entries: seq<HyphenData>, known: set<string>, done: seq<HyphenData>, i: nat, j: nat, q: nat)
    requires j < i < |entries| && ExtendEntries(entries, known, done).Some?
    requires |ExtendEntries(entries, known, done).value| == |done| + |entries|
    requires IsCode(Appended(entries[i], ExtendEntries(entries, known, done).value[|done| + i]), q)
    ensures var out := ExtendEntries(entries, known, done).value;
      var code := Appended(entries[i], out[|done| + i])[q];
      code !in Appended(entries[j], out[|done| + j]) && code !in RegionalCodes(entries[j].locales)
    decreases |entries|
  {
    hide ExtendEntries, ScanCodes, RegionalCodes, WellAppended;
    ExtendFirst(entries, known, done);
    var (newLocales, known1) := ScanCodes(entries[0].locales, known, entries[0].locales).value;
    var e' := entries[0].(locales := newLocales);
    ScanCodesFacts(entries[0].locales, known, entries[0].locales);
    assert entries[1..][i - 1] == entries[i] && |done + [e']| + (i - 1) == |done| + i;
    if j == 0 {
      ExtendAt(entries[1..], known1, done + [e'], i - 1);
      var out := ExtendEntries(entries, known, done).value;
      WellAppendedAt(Appended(entries[i], out[|done| + i]), known1, RegionalCodes(entries[i].locales));
      assert Appended(entries[0], out[|done|]) == newLocales[|entries[0].locales|..];
    } else {
      ExtendLength(entries[1..], known1, done + [e']);
      assert entries[1..][j - 1] == entries[j] && |done + [e']| + (j - 1) == |done| + j;
      ExtendFresh(entries[1..], known1, done + [e'], i - 1, j - 1, q);
    }
  }

  /** A code of record `i` not known at the start is appended to record `i` or an earlier one, `j`. */
  lemma {:induction false} ExtendCovers(entries: seq<HyphenData>, known: set<string>, done: seq<HyphenData>, i: nat, c: string)
      returns (j: nat)
    requires i < |entries| && ExtendEntries(entries, known, done).Some?
    requires |ExtendEntries(entries, known, done).value| == |done| + |entries|
    requires c in RegionalCodes(entries[i].locales) && c !in known
    ensures j <= i && c in Appended(entries[j], ExtendEntries(entries, known, done).value[|done| + j])
    decreases |entries|
  {
    hide ExtendEntries, ScanCodes, RegionalCodes;
    ExtendFirst(entries, known, done);
    var (newLocales, known1) := ScanCodes(entries[0].locales, known, entries[0].locales).value;
    var e' := entries[0].(locales := newLocales);
    ScanLearns(entries[0].locales, known, entries[0].locales, c);
    var out := ExtendEntries(entries, known, done).value;
    if c in known1 {
      j := 0;
      assert Appended(entries[0], out[|done| + 0]) == newLocales[|entries[0].locales|..];
    } else {
      assert entries[1..][i - 1] == entries[i];
      ExtendLength(entries[1..], known1, done + [e']);
      var j' := ExtendCovers(entries[1..], known1, done + [e'], i - 1, c);
      j := j' + 1;
      assert entries[1..][j'] == entries[j] && |done + [e']| + j' == |done| + j;
    }
  }

  /** The scan of the remaining records throws exactly when one of them holds an all-dash locale. */
  lemma {:induction false} ExtendFails(entries: seq<HyphenData>, known: set<string>, done: seq<HyphenData>)
    ensures ExtendEntries(entries, known, done).None? <==>
      exists i :: 0 <= i < |entries| && HasAllDashes(entries[i].locales)
    decreases |entries|
  {
    if entries != [] {
      var e := entries[0];
      ScanCodesFails(e.locales, known, e.locales);
      if ScanCodes(e.locales, known, e.locales).Some? {
        var (newLocales, known1) := ScanCodes(e.locales, known, e.locales).value;
        var e' := e.(locales := newLocales);
        assert ExtendEntries(entries, known, done) == ExtendEntries(entries[1..], known1, done + [e']);
        ExtendFails(entries[1..], known1, done + [e']);
        if exists i :: 0 <= i < |entries| && HasAllDashes(entries[i].locales) {
          var i :| 0 <= i < |entries| && HasAllDashes(entries[i].locales);
          assert i > 0 && entries[1..][i - 1] == entries[i];
        }
        if exists i :: 0 <= i < |entries[1..]| && HasAllDashes(entries[1..][i].locales) {
          var i :| 0 <= i < |entries[1..]| && HasAllDashes(entries[1..][i].locales);
          assert entries[i + 1] == entries[1..][i];
        }
      }
    }
  }

  /** A language code has no dash. */
  lemma RegionalCodesHaveNoDash(locales: seq<string>)
    ensures forall c :: c in RegionalCodes(locales) ==> !Regional(c)
  {
    forall c | c in RegionalCodes(locales) ensures !Regional(c) {
      var l :| l in locales && Regional(l) && LanguageCode(l) == Some(c);
      assert c == Split(l, '-')[0];
    }
  }

  /** extractDefaultLocales keeps every record and only extends its locales. */
  lemma DefaultLocalesShape(entries: seq<HyphenData>)
    requires DefaultLocales(entries).Some?
    ensures |DefaultLocales(entries).value| == |entries|
    ensures forall i :: 0 <= i < |entries| ==> Extends(entries[i], DefaultLocales(entries).value[i])
  {
    ExtendLength(entries, BareLocales(entries), []);
    var r := DefaultLocales(entries).value;
    forall i | 0 <= i < |entries| ensures Extends(entries[i], r[i]) {
      ExtendAt(entries, BareLocales(entries), [], i);
    }
  }

  /**
   * What extractDefaultLocales appends to a record: language codes of its own
   * regional locales, none of them a locale of any record or appended twice,
   * with "cs" right after "sk" and nowhere else but as a code.
   */
  lemma DefaultLocalesAppends(entries: seq<HyphenData>)
    requires DefaultLocales(entries).Some?
    ensures |DefaultLocales(entries).value| == |entries|
    ensures var r := DefaultLocales(entries).value;
      forall i, q :: 0 <= i < |entries| && IsCode(Appended(entries[i], r[i]), q) ==>
        && Appended(entries[i], r[i])[q] in RegionalCodes(entries[i].locales)
        && Appended(entries[i], r[i])[q] !in Appended(entries[i], r[i])[..q]
        && forall k :: 0 <= k < |entries| ==> Appended(entries[i], r[i])[q] !in entries[k].locales
    ensures var r := DefaultLocales(entries).value;
      forall i, q :: 0 <= i < |entries| && 0 <= q < |Appended(entries[i], r[i])| && !IsCode(Appended(entries[i], r[i]), q) ==>
        Appended(entries[i], r[i])[q] == "cs"
    ensures var r := DefaultLocales(entries).value;
      forall i, q :: 0 <= i < |entries| && 0 <= q < |Appended(entries[i], r[i])| && Appended(entries[i], r[i])[q] == "sk" ==>
        q + 1 < |Appended(entries[i], r[i])| && Appended(entries[i], r[i])[q + 1] == "cs"
  {
    ExtendLength(entries, BareLocales(entries), []);
    var r := DefaultLocales(entries).value;
    BareLocalesMembers(entries);
    forall i | 0 <= i < |entries|
      ensures forall q :: IsCode(Appended(entries[i], r[i]), q) ==>
        && Appended(entries[i], r[i])[q] in RegionalCodes(entries[i].locales)
        && Appended(entries[i], r[i])[q] !in Appended(entries[i], r[i])[..q]
        && forall k :: 0 <= k < |entries| ==> Appended(entries[i], r[i])[q] !in entries[k].locales
      ensures forall q :: 0 <= q < |Appended(entries[i], r[i])| && !IsCode(Appended(entries[i], r[i]), q) ==>
        Appended(entries[i], r[i])[q] == "cs"
      ensures forall q :: 0 <= q < |Appended(entries[i], r[i])| && Appended(entries[i], r[i])[q] == "sk" ==>
        q + 1 < |Appended(entries[i], r[i])| && Appended(entries[i], r[i])[q + 1] == "cs"
    {
      ExtendAt(entries, BareLocales(entries), [], i);
      var a := Appended(entries[i], r[i]);
      WellAppendedAt(a, BareLocales(entries), RegionalCodes(entries[i].locales));
      RegionalCodesHaveNoDash(entries[i].locales);
    }
  }

  /**
   * A language code goes to the first record with a locale of that language,
   * and to no later one.
   */
  lemma DefaultLocalesFirstRecord(entries: seq<HyphenData>)
    requires DefaultLocales(entries).Some?
    ensures |DefaultLocales(entries).value| == |entries|
    ensures var r := DefaultLocales(entries).value;
      forall i, q :: 0 <= i < |entries| && IsCode(Appended(entries[i], r[i]), q) ==>
        forall j :: 0 <= j < i ==>
          Appended(entries[i], r[i])[q] !in Appended(entries[j], r[j]) &&
          Appended(entries[i], r[i])[q] !in RegionalCodes(entries[j].locales)
  {
    ExtendLength(entries, BareLocales(entries), []);
    var r := DefaultLocales(entries).value;
    forall i, q, j | 0 <= j < i < |entries| && IsCode(Appended(entries[i], r[i]), q)
      ensures Appended(entries[i], r[i])[q] !in Appended(entries[j], r[j])
      ensures Appended(entries[i], r[i])[q] !in RegionalCodes(entries[j].locales)
    {
      ExtendFresh(entries, BareLocales(entries), [], i, j, q);
    }
  }

  /**
   * After extractDefaultLocales every language of a regional locale has its
   * bare code: as a locale of some record, or appended to this record or an
   * earlier one.
   */
  lemma DefaultLocalesCovers(entries: seq<HyphenData>)
    requires DefaultLocales(entries).Some?
    ensures |DefaultLocales(entries).value| == |entries|
    ensures var r := DefaultLocales(entries).value;
      forall i, c :: 0 <= i < |entries| && c in RegionalCodes(entries[i].locales) ==>
        (exists k :: 0 <= k < |entries| && c in entries[k].locales) ||
        (exists j :: 0 <= j <= i && c in Appended(entries[j], r[j]))
  {
    ExtendLength(entries, BareLocales(entries), []);
    var r := DefaultLocales(entries).value;
    BareLocalesMembers(entries);
    forall i, c | 0 <= i < |entries| && c in RegionalCodes(entries[i].locales)
      ensures (exists k :: 0 <= k < |entries| && c in entries[k].locales) ||
        (exists j :: 0 <= j <= i && c in Appended(entries[j], r[j]))
    {
      if c !in BareLocales(entries) {
        var j := ExtendCovers(entries, BareLocales(entries), [], i, c);
      }
    }
  }

  /** extractDefaultLocales throws exactly when some record holds an all-dash locale. */
  lemma DefaultLocalesFails(entries: seq<HyphenData>)
    ensures DefaultLocales(entries).None? <==> exists i :: 0 <= i < |entries| && HasAllDashes(entries[i].locales)
  {
    ExtendFails(entries, BareLocales(entries), []);
  }

  /** One step of the scan of a record's locales. */
  lemma ScanCodesStep(locales: seq<string>, known: set<string>, acc: seq<string>)
    ensures locales == [] ==> ScanCodes(locales, known, acc) == Some((acc, known))
    ensures locales != [] && !Regional(locales[0]) ==>
      ScanCodes(locales, known, acc) == ScanCodes(locales[1..], known, acc)
    ensures locales != [] && Regional(locales[0]) && LanguageCode(locales[0]).None? ==>
      ScanCodes(locales, known, acc) == None
    ensures locales != [] && Regional(locales[0]) && LanguageCode(locales[0]).Some? ==>
      var code := LanguageCode(locales[0]).value;
      ScanCodes(locales, known, acc) ==
        if code in known then ScanCodes(locales[1..], known, acc)
        else if code == "sk" then ScanCodes(locales[1..], known + {code, "cs"}, acc + [code, "cs"])
        else ScanCodes(locales[1..], known + {code}, acc + [code])
  {
  }

  /** One step of the scan of the records. */
  lemma ExtendEntriesStep(entries: seq<HyphenData>, known: set<string>, done: seq<HyphenData>)
    ensures entries == [] ==> ExtendEntries(entries, known, done) == Some(done)
    ensures entries != [] && ScanCodes(entries[0].locales, known, entries[0].locales).None? ==>
      ExtendEntries(entries, known, done) == None
    ensures entries != [] && ScanCodes(entries[0].locales, known, entries[0].locales).Some? ==>
      var scanned := ScanCodes(entries[0].locales, known, entries[0].locales).value;
      ExtendEntries(entries, known, done) == ExtendEntries(entries[1..], scanned.1, done + [entries[0].(locales := scanned.0)])
  {
  }

  // ---------------------------------------------------------------------------
  // Subdirectory records (processSubdirectories)
  // ---------------------------------------------------------------------------

  /** `localeName.substring(0, localeName.indexOf("_"))` */
  function LanguageTag(localeName: string): string
    requires '_' in localeName
  {
    localeName[..IndexOf(localeName, '_')]
  }

  /** The locales of a subdirectory record: the regional form, then the language. */
  function SubdirLocales(localeName: string): seq<string>
    requires '_' in localeName
  {
    [ReplaceAll(localeName, '_', '-'), LanguageTag(localeName)]
  }

  /** The first occurrence of a character follows a prefix without it. */
  lemma {:induction false} IndexOfAfter(prefix: string, c: char, rest: string)
    requires c !in prefix
    ensures IndexOf(prefix + [c] + rest, c) == |prefix|
  {
    if prefix != [] {
      assert (prefix + [c] + rest)[1..] == prefix[1..] + [c] + rest;
      IndexOfAfter(prefix[1..], c, rest);
    }
  }

  /** A subdirectory `xx_YY` gives the locales `xx-YY` and `xx`. */
  lemma SubdirLocalesOf(language: string, region: string)
    requires '_' !in language && '_' !in region
    ensures '_' in language + "_" + region
    ensures SubdirLocales(language + "_" + region) == [language + "-" + region, language]
  {
    var name := language + "_" + region;
    var n := |language|;
    assert name[n] == '_';
    assert name[..n] == language;
    IndexOfAfter(language, '_', region);
    var dashed := language + "-" + region;
    var replaced := ReplaceAll(name, '_', '-');
    forall i | 0 <= i < |name| ensures replaced[i] == dashed[i] {
      if i < n {
        assert name[i] == language[i];
      } else if i > n {
        assert name[i] == region[i - n - 1];
      } else {
        assert replaced[n] == '-';
      }
    }
    assert replaced == dashed;
  }

  /** The records naming neither locale: what the filter and removeAll of a subdirectory record keep. */
  function Without(entries: seq<HyphenData>, tag: string, regional: string): (r: seq<HyphenData>)
    ensures forall d :: d in r <==> d in entries && tag !in d.locales && regional !in d.locales
    ensures |r| <= |entries|
    decreases |entries|
  {
    if entries == [] then []
    else
      var d := entries[|entries| - 1];
      var init := entries[..|entries| - 1];
      assert entries == init + [d];
      Without(init, tag, regional) + (if tag in d.locales || regional in d.locales then [] else [d])
  }

  /**
   * The filter keeps the order and the multiplicity of the records: the
   * records kept from a list are those kept from each part, in turn.
   */
  lemma {:induction false} WithoutAppend(a: seq<HyphenData>, b: seq<HyphenData>, tag: string, regional: string)
    ensures Without(a + b, tag, regional) == Without(a, tag, regional) + Without(b, tag, regional)
    decreases |b|
  {
    if b == [] {
      assert a + b == a;
    } else {
      var d := b[|b| - 1];
      var b' := b[..|b| - 1];
      assert (a + b)[..|a + b| - 1] == a + b';
      assert (a + b)[|a + b| - 1] == d;
      WithoutAppend(a, b', tag, regional);
    }
  }

  // ---------------------------------------------------------------------------
  // Sorting by first location
  // ---------------------------------------------------------------------------

  /** Records ordered by their first location, as `String.compareTo` orders them. */
  predicate SortedByFirstLocation(entries: seq<HyphenData>) {
    forall p, q :: 0 <= p < q < |entries| ==>
      entries[p].locations != [] && entries[q].locations != [] &&
      LessEq(entries[p].locations[0], entries[q].locations[0])
  }

  /** Records with a first location each. */
  predicate AllLocated(a: seq<HyphenData>) {
    forall k :: 0 <= k < |a| ==> a[k].locations != []
  }

  /**
   * Insertion of record `i` in progress, the record being at `j`: the
   * records up to `i` are in order except against `j`, and all after it
   * come no earlier than it.
   */
  ghost predicate Sinking(a: seq<HyphenData>, i: nat, j: nat)
    requires i < |a| && AllLocated(a)
  {
    && j <= i
    && (forall p, q :: 0 <= p < q <= i && p != j && q != j ==> LessEq(a[p].locations[0], a[q].locations[0]))
    && (forall q :: j < q <= i ==> LessEq(a[j].locations[0], a[q].locations[0]))
  }

  /** Swapping the record at `j` with an earlier one that comes after it keeps the insertion going. */
  lemma SinkStep(a: seq<HyphenData>, i: nat, j: nat)
    requires i < |a| && AllLocated(a) && 0 < j && Sinking(a, i, j)
    requires !LessEq(a[j - 1].locations[0], a[j].locations[0])
    ensures AllLocated(a[j - 1 := a[j]][j := a[j - 1]])
    ensures Sinking(a[j - 1 := a[j]][j := a[j - 1]], i, j - 1)
    ensures multiset(a[j - 1 := a[j]][j := a[j - 1]]) == multiset(a)
  {
    hide LessEq;
    LessEqTotal(a[j - 1].locations[0], a[j].locations[0]);
  }

  /** The insertion ends with the records up to `i` in order. */
  lemma SinkDone(a: seq<HyphenData>, i: nat, j: nat)
    requires i < |a| && AllLocated(a) && Sinking(a, i, j)
    requires j == 0 || LessEq(a[j - 1].locations[0], a[j].locations[0])
    ensures forall p, q :: 0 <= p < q <= i ==> LessEq(a[p].locations[0], a[q].locations[0])
  {
    hide LessEq;
    forall p | 0 <= p < j - 1 ensures LessEq(a[p].locations[0], a[j].locations[0]) {
      LessEqTransitive(a[p].locations[0], a[j - 1].locations[0], a[j].locations[0]);
    }
  }

  /** Moves record `i` back past the records before it that come after it, as insertion sort does. */
  method Sink(a0: seq<HyphenData>, i: nat) returns (a: seq<HyphenData>)
    requires i < |a0| && AllLocated(a0)
    requires forall p, q :: 0 <= p < q < i ==> LessEq(a0[p].locations[0], a0[q].locations[0])
    ensures |a| == |a0| && multiset(a) == multiset(a0) && AllLocated(a)
    ensures forall p, q :: 0 <= p < q <= i ==> LessEq(a[p].locations[0], a[q].locations[0])
  {
    a := a0;
    var j: nat := i;
    while j > 0 && !LessEq(a[j - 1].locations[0], a[j].locations[0])
      invariant |a| == |a0| && multiset(a) == multiset(a0) && AllLocated(a)
      invariant Sinking(a, i, j)
      decreases j
    {
      SinkStep(a, i, j);
      a := a[j - 1 := a[j]][j := a[j - 1]];
      j := j - 1;
    }
    SinkDone(a, i, j);
  }

  /** `List.sort` with `Comparator.comparing(a -> a.locations.get(0))`, as an insertion sort. */
  method SortByLocation(entries: seq<HyphenData>) returns (sorted: seq<HyphenData>)
    requires AllLocated(entries)
    ensures SortedByFirstLocation(sorted)
    ensures multiset(sorted) == multiset(entries)
  {
    var a := entries;
    for i := 0 to |a|
      invariant |a| == |entries| && multiset(a) == multiset(entries) && AllLocated(a)
      invariant forall p, q :: 0 <= p < q < i ==> LessEq(a[p].locations[0], a[q].locations[0])
    {
      a := Sink(a, i);
    }
    sorted := a;
  }

  /** The records addManualDictionaries appends, with the default hyphen. */
  const MANUAL_RECORDS: seq<HyphenData> := [
    HyphenData(["ro/ro.dic"], ["ro", "ro-RO"], "-"),
    HyphenData(["la/hyph_la.dic"], ["la"], "-")
  ]

  /** The first loop of extractDefaultLocales: the locales without a dash. */
  method CollectBareLocales(entries: seq<HyphenData>) returns (known: set<string>)
    ensures known == BareLocales(entries)
  {
    known := {};
    for i := 0 to |entries|
      invariant known == BareLocales(entries[..i])
    {
      var data := entries[i];
      for j := 0 to |data.locales|
        invariant known == BareLocales(entries[..i]) + BareIn(data.locales[..j])
      {
        var locale := data.locales[j];
        assert data.locales[..j + 1] == data.locales[..j] + [locale];
        if !Regional(locale) {
          known := known + {locale};
        }
      }
      assert data.locales[..|data.locales|] == data.locales;
      assert entries[..i + 1] == entries[..i] + [data];
    }
    assert entries[..|entries|] == entries;
  }

  /**
   * The inner loop of extractDefaultLocales over one record's locales: the
   * new locale list and known set, or None where `split("-")[0]` throws.
   */
  method ScanLocales(locales: seq<string>, known0: set<string>) returns (r: Option<(seq<string>, set<string>)>)
    ensures r == ScanCodes(locales, known0, locales)
  {
    hide ScanCodes;
    var known := known0;
    var newLocales := locales;
    for j := 0 to |locales|
      invariant ScanCodes(locales, known0, locales) == ScanCodes(locales[j..], known, newLocales)
    {
      var locale := locales[j];
      ScanCodesStep(locales[j..], known, newLocales);
      assert locales[j..][0] == locale && locales[j..][1..] == locales[j + 1..];
      if Regional(locale) {
        var parts := Split(locale, '-');
        if parts == [] {
          // ArrayIndexOutOfBoundsException
          return None;
        }
        var languageCode := parts[0];
        if languageCode in known {
          continue;
        }
        ghost var before, knownBefore := newLocales, known;
        known := known + {languageCode};
        newLocales := newLocales + [languageCode];
        // the Slovak dictionary also serves Czech
        if languageCode == "sk" {
          newLocales := newLocales + ["cs"];
          known := known + {"cs"};
          assert newLocales == before + [languageCode, "cs"] && known == knownBefore + {languageCode, "cs"};
        }
      }
    }
    ScanCodesStep(locales[|locales|..], known, newLocales);
    r := Some((newLocales, known));
  }

  // ---------------------------------------------------------------------------
  // The processor's manifest list
  // ---------------------------------------------------------------------------

  /** The list of records a DictionariesProcessor builds up. */
  class DictionariesProcessor {
    var hyphenData: seq<HyphenData>

    /** The directories it writes to are not modelled; the list starts empty. */
    constructor ()
      ensures hyphenData == []
    {
      hyphenData := [];
    }

    /**
     * The record of a subdirectory named with an underscore and holding both
     * a pattern file and a license file replaces every record that names
     * either of its locales; it comes last and has no hyphen character.
     */
    method RegisterSubdirectory(localeName: string, patternFile: Option<string>, hasLicense: bool)
      modifies this
      ensures '_' !in localeName || patternFile.None? || !hasLicense ==> hyphenData == old(hyphenData)
      ensures '_' in localeName && patternFile.Some? && hasLicense ==>
        var locales := SubdirLocales(localeName);
        hyphenData == Without(old(hyphenData), locales[1], locales[0]) +
          [HyphenData([localeName + "/" + patternFile.value], locales, "")]
    {
      if '_' !in localeName {
        return;
      }
      var languageTag := localeName[..IndexOf(localeName, '_')];
      var locales := [ReplaceAll(localeName, '_', '-'), languageTag];
      if patternFile.Some? && hasLicense {
        // the filter and removeAll keep the records naming neither locale
        var kept := [];
        for i := 0 to |hyphenData|
          invariant kept == Without(hyphenData[..i], languageTag, locales[0])
        {
          var d := hyphenData[i];
          assert hyphenData[..i + 1] == hyphenData[..i] + [d];
          if !(languageTag in d.locales || locales[0] in d.locales) {
            kept := kept + [d];
          }
        }
        assert hyphenData[..|hyphenData|] == hyphenData;
        hyphenData := kept + [HyphenData([localeName + "/" + patternFile.value], locales, "")];
      }
    }

    /** `extractDefaultLocales`; `ok` is false where it throws. */
    method ExtractDefaultLocales() returns (ok: bool)
      modifies this
      ensures ok <==> DefaultLocales(old(hyphenData)).Some?
      ensures ok ==> hyphenData == DefaultLocales(old(hyphenData)).value
    {
      var known := CollectBareLocales(hyphenData);
      hide ScanCodes, ExtendEntries, BareLocales;
      ghost var entries := hyphenData;
      // each language code not yet known goes to the first record with it
      for i := 0 to |hyphenData|
        invariant |hyphenData| == |entries| && hyphenData[i..] == entries[i..]
        invariant DefaultLocales(entries) == ExtendEntries(entries[i..], known, hyphenData[..i])
      {
        var data := hyphenData[i];
        assert entries[i..][0] == data && entries[i..][1..] == entries[i + 1..];
        ExtendEntriesStep(entries[i..], known, hyphenData[..i]);
        var scanned := ScanLocales(data.locales, known);
        if scanned.None? {
          return false;
        }
        var newLocales;
        newLocales, known := scanned.value.0, scanned.value.1;
        ghost var before := hyphenData;
        hyphenData := hyphenData[i := data.(locales := newLocales)];
        assert hyphenData[..i + 1] == before[..i] + [data.(locales := newLocales)];
        assert hyphenData[i + 1..] == before[i + 1..];
      }
      ExtendEntriesStep(entries[|entries|..], known, hyphenData);
      assert hyphenData[..|hyphenData|] == hyphenData;
      ok := true;
    }

    /** `addManualDictionaries`: the two records no dictionary definition provides. */
    method AddManualDictionaries()
      modifies this
      ensures hyphenData == old(hyphenData) + MANUAL_RECORDS
    {
      hyphenData := hyphenData + [NewHyphenData(["ro/ro.dic"], ["ro", "ro-RO"])];
      hyphenData := hyphenData + [NewHyphenData(["la/hyph_la.dic"], ["la"])];
    }

    /**
     * `hyphenData.sort(Comparator.comparing(a -> a.locations.get(0)))`; `ok`
     * is false where `get(0)` throws, which needs a comparison and so at
     * least two records.
     */
    method SortByFirstLocation() returns (ok: bool)
      modifies this
      ensures ok <==> |old(hyphenData)| < 2 || AllLocated(old(hyphenData))
      ensures ok ==> SortedByFirstLocation(hyphenData) && multiset(hyphenData) == multiset(old(hyphenData))
    {
      if |hyphenData| >= 2 {
        for k := 0 to |hyphenData|
          invariant AllLocated(hyphenData[..k])
          modifies {}
        {
          if hyphenData[k].locations == [] {
            return false;
          }
          assert hyphenData[..k + 1] == hyphenData[..k] + [hyphenData[k]];
        }
        assert hyphenData[..|hyphenData|] == hyphenData;
        hyphenData := SortByLocation(hyphenData);
      }
      ok := true;
    }

    /**
     * What saveHyphenDataToJson does to the list before writing it: default
     * locales, the manual records, then the sort; `ok` is false where one of
     * them throws.
     */
    method PrepareManifest() returns (ok: bool)
      modifies this
      ensures ok <==> DefaultLocales(old(hyphenData)).Some? && AllLocated(old(hyphenData))
      ensures ok ==>
        && SortedByFirstLocation(hyphenData)
        && multiset(hyphenData) == multiset(DefaultLocales(old(hyphenData)).value + MANUAL_RECORDS)
    {
      ghost var entries := hyphenData;
      ok := ExtractDefaultLocales();
      if !ok {
        return;
      }
      DefaultLocalesShape(entries);
      assert AllLocated(hyphenData) <==> AllLocated(entries) by {
        assert forall k :: 0 <= k < |entries| ==> hyphenData[k].locations == entries[k].locations;
      }
      ghost var extended := hyphenData;
      AddManualDictionaries();
      assert AllLocated(hyphenData) <==> AllLocated(extended) by {
        assert forall k :: 0 <= k < |extended| ==> hyphenData[k] == extended[k];
        assert hyphenData[|extended|].locations != [] && hyphenData[|extended| + 1].locations != [];
      }
      ok := SortByFirstLocation();
    }
  }
}
