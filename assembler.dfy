/** The field assembler `dateTimeFromMatches`
    (src/impl/tokenParser.js:160-220): it picks the zone, applies the
    meridiem and era corrections to the object `match` filled, in place, and
    projects the one-letter keys onto named date-time fields.
*/
module Assembler {
  import opened JsObjects

  /** The fields of the result object. */
  datatype Field =
    | Millisecond | Second | Minute | Hour | Day | Ordinal
    | Month | Year | Weekday | WeekNumber | WeekYear

  /** `toField`: the field a one-letter key lands on; `None` is `null`. The
      keys that hold no field (era, meridiem, both zones, and anything else)
      are dropped by the projection. */
  function ToField(k: string): (f: Option<Field>)
    ensures f == Some(Hour) <==> k == "h" || k == "H"
    ensures f == Some(Month) <==> k == "L" || k == "M"
    ensures f == Some(Weekday) <==> k == "E" || k == "c"
    ensures k == "G" || k == "a" || k == "Z" || k == "z" ==> f.None?
  {
    match k
    case "S" => Some(Millisecond)
    case "s" => Some(Second)
    case "m" => Some(Minute)
    case "h" => Some(Hour)
    case "H" => Some(Hour)
    case "d" => Some(Day)
    case "o" => Some(Ordinal)
    case "L" => Some(Month)
    case "M" => Some(Month)
    case "y" => Some(Year)
    case "E" => Some(Weekday)
    case "c" => Some(Weekday)
    case "W" => Some(WeekNumber)
    case "k" => Some(WeekYear)
    case _ => None
  }

  /** The zone of the result: a fixed offset built from `Z`, a named zone
      built from `z`, or `null`. The zone objects are kept as the value they
      are constructed from. */
  datatype Zone = NoZone | FixedOffset(offset: Value) | Iana(name: Value)

  /** `!Util.isUndefined(obj[k])`: present, and not holding `undefined`. */
  predicate Defined(es: seq<Entry>, k: string) {
    Lookup(es, k).Some? && !Lookup(es, k).value.Undefined?
  }

  /** The zone choice: `Z` takes precedence over `z`. */
  function ResolveZone(es: seq<Entry>): (z: Zone)
    ensures z.FixedOffset? <==> Defined(es, "Z")
    ensures z.Iana? <==> !Defined(es, "Z") && Defined(es, "z")
    ensures z.FixedOffset? ==> Lookup(es, "Z") == Some(z.offset)
    ensures z.Iana? ==> Lookup(es, "z") == Some(z.name)
  {
    if Defined(es, "Z") then FixedOffset(Lookup(es, "Z").value)
    else if Defined(es, "z") then Iana(Lookup(es, "z").value)
    else NoZone
  }

  /** The hour is moved to the afternoon when an hour is present and the
      meridiem index is exactly the number 1. */
  predicate MeridiemApplies(es: seq<Entry>) {
    Defined(es, "h") && Lookup(es, "a") == Some(Num(1))
  }

  /** The year is negated when the era index is exactly the number 0 and the
      year is truthy (a year 0 or NaN is left alone). */
  predicate EraApplies(es: seq<Entry>) {
    Lookup(es, "G") == Some(Num(0)) && Lookup(es, "y").Some? && Truthy(Lookup(es, "y").value)
  }

  /** The object after the meridiem correction. */
  function AfterMeridiem(es: seq<Entry>): seq<Entry> {
    if MeridiemApplies(es) then Assign(es, "h", Add12(Lookup(es, "h").value)) else es
  }

  /** The object after both corrections, in the source's order. */
  function Corrected(es: seq<Entry>, toNumber: StringToNumber): seq<Entry> {
    var hs := AfterMeridiem(es);
    if EraApplies(hs) then Assign(hs, "y", Negate(Lookup(hs, "y").value, toNumber)) else hs
  }

  /** The projection `reduce` over `Object.keys(matches)`: each key with a
      field writes its value there, so a later key overrides an earlier key
      with the same field. */
  function Project(es: seq<Entry>): map<Field, Value> {
    if es == [] then map[]
    else
      var r := Project(es[..|es| - 1]);
      var e := es[|es| - 1];
      match ToField(e.key)
      case Some(f) => r[f := e.val]
      case None => r
  }

  /** `dateTimeFromMatches`: corrects `matches` in place and returns the
      projected fields and the zone. */
  method DateTimeFromMatches(matches: JsObject, toNumber: StringToNumber) returns (vals: map<Field, Value>, zone: Zone)
    modifies matches
    ensures matches.entries == Corrected(old(matches.entries), toNumber)
    ensures vals == Project(matches.entries)
    ensures zone == ResolveZone(old(matches.entries))
  {
    if matches.Get("Z").Some? && !matches.Get("Z").value.Undefined? {
      zone := FixedOffset(matches.Get("Z").value);
    } else if matches.Get("z").Some? && !matches.Get("z").value.Undefined? {
      zone := Iana(matches.Get("z").value);
    } else {
      zone := NoZone;
    }
    ghost var es := matches.entries;
    if matches.Get("h").Some? && !matches.Get("h").value.Undefined? && matches.Get("a") == Some(Num(1)) {
      matches.Put("h", Add12(matches.Get("h").value));
    }
    assert matches.entries == AfterMeridiem(es);
    if matches.Get("G") == Some(Num(0)) && matches.Get("y").Some? && Truthy(matches.Get("y").value) {
      matches.Put("y", Negate(matches.Get("y").value, toNumber));
    }
    vals := Project(matches.entries);
  }

  /** The meridiem correction changes the hour and nothing else. */
  lemma AfterMeridiemLookup(es: seq<Entry>, k: string)
    ensures Lookup(AfterMeridiem(es), k) ==
      if k == "h" && MeridiemApplies(es) then Some(Add12(Lookup(es, "h").value)) else Lookup(es, k)
  {
    if MeridiemApplies(es) {
      LookupAssign(es, "h", Add12(Lookup(es, "h").value), k);
    }
  }

  /** After the corrections, the hour is twelve more in the afternoon, the
      year is negated before the common era, and every other key reads as
      before. */
  lemma CorrectedLookup(es: seq<Entry>, toNumber: StringToNumber, k: string)
    ensures Lookup(Corrected(es, toNumber), k) ==
      if k == "h" && MeridiemApplies(es) then Some(Add12(Lookup(es, "h").value))
      else if k == "y" && EraApplies(es) then Some(Negate(Lookup(es, "y").value, toNumber))
      else Lookup(es, k)
  {
    var hs := AfterMeridiem(es);
    AfterMeridiemLookup(es, k);
    AfterMeridiemLookup(es, "G");
    AfterMeridiemLookup(es, "y");
    assert EraApplies(hs) == EraApplies(es);
    if EraApplies(hs) {
      LookupAssign(hs, "y", Negate(Lookup(hs, "y").value, toNumber), k);
    }
  }

  /** The corrections only overwrite keys that are present: the key order,
      and so the projection order, is unchanged. */
  lemma CorrectedKeys(es: seq<Entry>, toNumber: StringToNumber)
    ensures Keys(Corrected(es, toNumber)) == Keys(es)
  {
    var hs := AfterMeridiem(es);
    if MeridiemApplies(es) {
      LookupKeys(es, "h");
      AssignKeys(es, "h", Add12(Lookup(es, "h").value));
    }
    AfterMeridiemLookup(es, "y");
    if EraApplies(hs) {
      LookupKeys(hs, "y");
      AssignKeys(hs, "y", Negate(Lookup(hs, "y").value, toNumber));
    }
  }

  /** The zone is picked before the corrections, but they cannot change
      it: they touch neither `Z` nor `z`. */
  lemma ZoneUnaffectedByCorrection(es: seq<Entry>, toNumber: StringToNumber)
    ensures ResolveZone(Corrected(es, toNumber)) == ResolveZone(es)
  {
    CorrectedLookup(es, toNumber, "Z");
    CorrectedLookup(es, toNumber, "z");
  }

  /** An afternoon hour: with the meridiem index 1 a numeric hour `n` reads
      `n + 12`, and with any other meridiem it stays `n`. */
  lemma MeridiemHour(es: seq<Entry>, toNumber: StringToNumber, n: int)
    requires Lookup(es, "h") == Some(Num(n))
    ensures Lookup(Corrected(es, toNumber), "h") == if Lookup(es, "a") == Some(Num(1)) then Some(Num(n + 12)) else Some(Num(n))
  {
    CorrectedLookup(es, toNumber, "h");
  }

  /** A year before the common era: with the era index 0 a nonzero year `n`
      reads `-n`; a year 0, or any other era, leaves it as it is. */
  lemma EraYear(es: seq<Entry>, toNumber: StringToNumber, n: int)
    requires Lookup(es, "y") == Some(Num(n))
    ensures Lookup(Corrected(es, toNumber), "y") == if Lookup(es, "G") == Some(Num(0)) && n != 0 then Some(Num(-n)) else Some(Num(n))
  {
    CorrectedLookup(es, toNumber, "y");
  }

  /** A field is in the projection exactly when some key maps to it. */
  lemma {:induction false} ProjectDomain(es: seq<Entry>, f: Field)
    ensures f in Project(es) <==> exists i :: 0 <= i < |es| && ToField(es[i].key) == Some(f)
  {
    if es != [] {
      var n := |es| - 1;
      var init := es[..n];
      ProjectDomain(init, f);
      var here := f in Project(es);
      var any := exists i :: 0 <= i < |es| && ToField(es[i].key) == Some(f);
      assert here <==> ToField(es[n].key) == Some(f) || f in Project(init);
      if here {
        if ToField(es[n].key) != Some(f) {
          var i :| 0 <= i < n && ToField(init[i].key) == Some(f);
          assert es[i] == init[i];
        }
        assert any;
      } else {
        forall i | 0 <= i < |es| ensures ToField(es[i].key) != Some(f) {
          if i < n {
            assert init[i] == es[i];
          }
        }
        assert !any;
      }
    }
  }

  /** A field holds the value of the last key that maps to it. */
  lemma {:induction false} ProjectValue(es: seq<Entry>, f: Field, i: nat)
    requires i < |es| && ToField(es[i].key) == Some(f)
    requires forall j :: i < j < |es| ==> ToField(es[j].key) != Some(f)
    ensures f in Project(es) && Project(es)[f] == es[i].val
  {
    var n := |es| - 1;
    if i < n {
      var init := es[..n];
      assert init[i] == es[i];
      forall j | i < j < |init| ensures ToField(init[j].key) != Some(f) {
        assert init[j] == es[j];
      }
      ProjectValue(init, f, i);
    }
  }

  /** A field only one present key maps to holds that key's value, and is
      absent exactly when the key is. */
  lemma ProjectSingleKey(es: seq<Entry>, k: string, f: Field)
    requires DistinctKeys(es)
    requires ToField(k) == Some(f)
    requires forall j :: 0 <= j < |es| && ToField(es[j].key) == Some(f) ==> es[j].key == k
    ensures f in Project(es) <==> Lookup(es, k).Some?
    ensures Lookup(es, k).Some? ==> f in Project(es) && Project(es)[f] == Lookup(es, k).value
  {
    LookupKeys(es, k);
    var ks := Keys(es);
    if Lookup(es, k).Some? {
      var i :| 0 <= i < |ks| && ks[i] == k;
      LookupIndex(es, k, i);
      ProjectValue(es, f, i);
    } else {
      forall i | 0 <= i < |es| ensures ToField(es[i].key) != Some(f) {
        assert ks[i] == es[i].key;
      }
      ProjectDomain(es, f);
    }
  }

  /** Distinct keys land on distinct fields except for the three pairs
      `h`/`H`, `L`/`M` and `E`/`c`. */
  lemma FieldCollisions(k1: string, k2: string)
    requires k1 != k2 && ToField(k1).Some? && ToField(k1) == ToField(k2)
    ensures {k1, k2} == {"h", "H"} || {k1, k2} == {"L", "M"} || {k1, k2} == {"E", "c"}
  {
    match ToField(k1).value
    case Hour =>
    case Month =>
    case Weekday =>
    case Millisecond =>
    case Second =>
    case Minute =>
    case Day =>
    case Ordinal =>
    case Year =>
    case WeekNumber =>
    case WeekYear =>
  }
}
