/** The group-cursor walk `match` (src/impl/tokenParser.js:138-158), and the
    agreement between the groups it reads and the groups the composite
    pattern opens.

    The regular-expression engine is not modelled: its result is an input,
    `None` for no match, or the match array with the whole match at index 0.
*/
module Matcher {
  import opened JsObjects
  import opened RegexSource
  import opened TokenUnits
  import opened Composer

  /** `groups = h.groups ? h.groups + 1 : 1`: a unit reads its own group plus
      its extra groups; an absent or zero count reads one. */
  function Consumed(u: Unit): (n: nat)
    ensures n >= 1
  {
    if u.desc.groups.Some? && u.desc.groups.value != 0 then u.desc.groups.value + 1 else 1
  }

  function SumConsumed(units: seq<Unit>): nat {
    if units == [] then 0 else SumConsumed(units[..|units| - 1]) + Consumed(units[|units| - 1])
  }

  /** The cursor when unit `k` is reached. */
  function Start(units: seq<Unit>, k: nat): nat
    requires k <= |units|
  {
    1 + SumConsumed(units[..k])
  }

  /** `Array.prototype.slice(lo, hi)`: clamped to the array's end. */
  function Slice(m: seq<Group>, lo: nat, hi: nat): (r: seq<Group>)
    ensures lo <= hi <= |m| ==> r == m[lo..hi]
    ensures |r| <= |m|
  {
    var a := if lo < |m| then lo else |m|;
    var b := if hi < |m| then hi else |m|;
    if a <= b then m[a..b] else []
  }

  /** `h.token.val[0]` used as a property key; reading past the end of a string
      gives `undefined`, whose key is "undefined". */
  function Key(t: Token): (k: string)
    ensures |t.val| > 0 ==> k == [t.val[0]]
  {
    if |t.val| > 0 then [t.val[0]] else "undefined"
  }

  /** Unit `u` stores a value under key `k`. */
  predicate Stores(u: Unit, k: string) {
    !u.desc.literal && Key(u.token) == k
  }

  /** The groups unit `k` hands to its deserializer. */
  function UnitSlice(m: seq<Group>, units: seq<Unit>, k: nat): seq<Group>
    requires k < |units|
  {
    Slice(m, Start(units, k), Start(units, k) + Consumed(units[k]))
  }

  /** The object `match` fills, after the given units. */
  function Walk(m: seq<Group>, units: seq<Unit>, ext: Externals): seq<Entry> {
    if units == [] then []
    else
      var n := |units| - 1;
      var all := Walk(m, units[..n], ext);
      if units[n].desc.literal then all
      else Assign(all, Key(units[n].token), Deserialize(units[n].desc.kind, UnitSlice(m, units, n), ext))
  }

  function MatchSpec(found: Option<seq<Group>>, units: seq<Unit>, ext: Externals): seq<Entry> {
    match found
    case None => []
    case Some(m) => Walk(m, units, ext)
  }

  lemma StartStep(units: seq<Unit>, k: nat)
    requires k < |units|
    ensures Start(units, k + 1) == Start(units, k) + Consumed(units[k])
  {
    assert units[..k + 1][..k] == units[..k];
  }

  /** One more unit extends the walk by that unit's store, if any. */
  lemma WalkStep(m: seq<Group>, units: seq<Unit>, i: nat, ext: Externals, all: seq<Entry>, cursor: nat)
    requires i < |units|
    requires all == Walk(m, units[..i], ext) && cursor == Start(units, i)
    ensures cursor + Consumed(units[i]) == Start(units, i + 1)
    ensures Walk(m, units[..i + 1], ext) ==
      if units[i].desc.literal then all
      else Assign(all, Key(units[i].token), Deserialize(units[i].desc.kind, Slice(m, cursor, cursor + Consumed(units[i])), ext))
  {
    var done := units[..i + 1];
    assert done[..i] == units[..i] && done[i] == units[i];
    assert Start(done, i) == Start(units, i);
    assert UnitSlice(m, done, i) == Slice(m, cursor, cursor + Consumed(units[i]));
  }

  /** The loop of `match` run from unit `k` on, over the object `all` the
      units before `k` filled. */
  function WalkFrom(m: seq<Group>, units: seq<Unit>, k: nat, ext: Externals, all: seq<Entry>): seq<Entry>
    requires k <= |units|
    decreases |units| - k
  {
    if k == |units| then all
    else
      var next := if units[k].desc.literal then all
        else Assign(all, Key(units[k].token), Deserialize(units[k].desc.kind, UnitSlice(m, units, k), ext));
      WalkFrom(m, units, k + 1, ext, next)
  }

  /** Running the rest of the loop on what the first `k` units filled gives
      the whole walk. */
  lemma {:induction false} WalkFromRest(m: seq<Group>, units: seq<Unit>, k: nat, ext: Externals)
    requires k <= |units|
    ensures WalkFrom(m, units, k, ext, Walk(m, units[..k], ext)) == Walk(m, units, ext)
    decreases |units| - k
  {
    if k == |units| {
      assert units[..k] == units;
    } else {
      var all := Walk(m, units[..k], ext);
      WalkStep(m, units, k, ext, all, Start(units, k));
      assert UnitSlice(m, units, k) == Slice(m, Start(units, k), Start(units, k) + Consumed(units[k]));
      assert WalkFrom(m, units, k, ext, all) == WalkFrom(m, units, k + 1, ext, Walk(m, units[..k + 1], ext));
      WalkFromRest(m, units, k + 1, ext);
    }
  }

  /** `match`: the regex result `found` is walked with a cursor from group 1;
      each non-literal unit stores its deserialized slice under its key. */
  method Match(found: Option<seq<Group>>, handlers: seq<Unit>, ext: Externals) returns (all: seq<Entry>)
    ensures all == MatchSpec(found, handlers, ext)
  {
    if found.None? {
      return [];
    }
    var matches := found.value;
    all := [];
    var matchIndex := 1;
    var i := 0;
    assert handlers[..0] == [];
    WalkFromRest(matches, handlers, 0, ext);
    while i < |handlers|
      invariant i <= |handlers|
      invariant matchIndex == Start(handlers, i)
      invariant WalkFrom(matches, handlers, i, ext, all) == Walk(matches, handlers, ext)
    {
      var h := handlers[i];
      var groups := Consumed(h);
      StartStep(handlers, i);
      assert Slice(matches, matchIndex, matchIndex + groups) == UnitSlice(matches, handlers, i);
      if !h.desc.literal {
        all := Assign(all, Key(h.token), Deserialize(h.desc.kind, Slice(matches, matchIndex, matchIndex + groups), ext));
      }
      matchIndex := matchIndex + groups;
      i := i + 1;
    }
  }

  /** Reading key `k` after one more unit: that unit's value if it stores
      under `k`, what was there before otherwise. */
  lemma WalkLookupStep(m: seq<Group>, units: seq<Unit>, ext: Externals, k: string)
    requires units != []
    ensures var n := |units| - 1;
      Lookup(Walk(m, units, ext), k) ==
        if Stores(units[n], k) then Some(Deserialize(units[n].desc.kind, UnitSlice(m, units, n), ext))
        else Lookup(Walk(m, units[..n], ext), k)
  {
    var n := |units| - 1;
    if !units[n].desc.literal {
      LookupAssign(Walk(m, units[..n], ext), Key(units[n].token),
        Deserialize(units[n].desc.kind, UnitSlice(m, units, n), ext), k);
    }
  }

  /** A key is present in the filled object exactly when some non-literal
      unit has that key. */
  lemma {:induction false} WalkHasKey(m: seq<Group>, units: seq<Unit>, ext: Externals, k: string)
    ensures Lookup(Walk(m, units, ext), k).Some? <==> exists i :: 0 <= i < |units| && Stores(units[i], k)
  {
    if units != [] {
      var n := |units| - 1;
      var init := units[..n];
      WalkHasKey(m, init, ext, k);
      WalkLookupStep(m, units, ext, k);
      var here := Lookup(Walk(m, units, ext), k).Some?;
      var any := exists i :: 0 <= i < |units| && Stores(units[i], k);
      if here {
        if !Stores(units[n], k) {
          var i :| 0 <= i < n && Stores(init[i], k);
          assert units[i] == init[i];
        }
        assert any;
      } else {
        forall i | 0 <= i < |units| ensures !Stores(units[i], k) {
          if i < n {
            assert init[i] == units[i];
          }
        }
        assert !any;
      }
    }
  }

  /** The value stored under a key is the deserialized slice of the last
      non-literal unit with that key: a later unit overwrites an earlier one
      with the same first letter. */
  lemma {:induction false} WalkValue(m: seq<Group>, units: seq<Unit>, ext: Externals, k: string, i: nat)
    requires i < |units| && Stores(units[i], k)
    requires forall j :: i < j < |units| ==> !Stores(units[j], k)
    ensures Lookup(Walk(m, units, ext), k) == Some(Deserialize(units[i].desc.kind, UnitSlice(m, units, i), ext))
  {
    var n := |units| - 1;
    WalkLookupStep(m, units, ext, k);
    if i < n {
      var init := units[..n];
      assert init[..i] == units[..i] && init[i] == units[i];
      assert UnitSlice(m, init, i) == UnitSlice(m, units, i);
      forall j | i < j < |init| ensures !Stores(init[j], k) {
        assert init[j] == units[j];
      }
      WalkValue(m, init, ext, k, i);
    }
  }

  /** The filled object never holds a key twice. */
  lemma {:induction false} WalkDistinct(m: seq<Group>, units: seq<Unit>, ext: Externals)
    ensures DistinctKeys(Walk(m, units, ext))
  {
    if units != [] {
      var n := |units| - 1;
      WalkDistinct(m, units[..n], ext);
      if !units[n].desc.literal {
        AssignKeepsDistinct(Walk(m, units[..n], ext), Key(units[n].token),
          Deserialize(units[n].desc.kind, UnitSlice(m, units, n), ext));
      }
    }
  }

  lemma {:induction false} SumConsumedPrefix(units: seq<Unit>, k: nat)
    requires k <= |units|
    ensures SumConsumed(units[..k]) <= SumConsumed(units)
    decreases |units|
  {
    if k < |units| {
      var n := |units| - 1;
      assert units[..n][..k] == units[..k];
      SumConsumedPrefix(units[..n], k);
    } else {
      assert units[..k] == units;
    }
  }

  /** With a match array of the size the units account for (one entry per
      consumed group, plus the whole match), unit `k` reads exactly the groups
      `[Start(k), Start(k + 1))`, no more and no fewer. */
  lemma SliceIsGroupRun(m: seq<Group>, units: seq<Unit>, k: nat)
    requires |m| == 1 + SumConsumed(units)
    requires k < |units|
    ensures Start(units, k) + Consumed(units[k]) == Start(units, k + 1) <= |m|
    ensures UnitSlice(m, units, k) == m[Start(units, k)..Start(units, k + 1)]
    ensures |UnitSlice(m, units, k)| == Consumed(units[k])
  {
    StartStep(units, k);
    SumConsumedPrefix(units, k + 1);
  }

  /** A compiled unit reads three groups when it is an offset and one
      otherwise, literal or not. */
  lemma UnitForTokenConsumes(t: Token, loc: Locale)
    ensures Consumed(UnitForToken(t, loc)) == if UnitForToken(t, loc).desc.kind.Offset? then 3 else 1
  {
  }

  /** A unit's declared group count agrees with the capturing groups its
      fragment opens, and the fragment can be wrapped. */
  predicate Accounted(u: Unit) {
    Wrappable(u.desc.regex) && 1 + CaptureCount(u.desc.regex) == Consumed(u)
  }

  /** A locale name that opens no group when joined into an alternation. */
  predicate PlainName(s: string) {
    PlainText(s) && (s == [] || s[0] != '?')
  }

  predicate PlainNames(names: seq<string>) {
    forall i :: 0 <= i < |names| ==> PlainName(names[i])
  }

  predicate PlainLocale(loc: Locale) {
    && PlainNames(loc.erasShort) && PlainNames(loc.erasLong)
    && PlainNames(loc.monthsShortFormat) && PlainNames(loc.monthsLongFormat)
    && PlainNames(loc.monthsShortStandalone) && PlainNames(loc.monthsLongStandalone)
    && PlainNames(loc.weekdaysShort) && PlainNames(loc.weekdaysLong)
    && PlainNames(loc.meridiems)
  }

  lemma {:induction false} JoinPlain(names: seq<string>)
    requires PlainNames(names)
    ensures PlainName(Join(names))
    decreases |names|
  {
    if |names| > 1 {
      var rest := Join(names[1..]);
      assert PlainName(names[0]);
      JoinPlain(names[1..]);
      var j := names[0] + "|" + rest;
      assert j == Join(names);
      forall i | 0 <= i < |j| ensures j[i] != '(' && j[i] != '[' && j[i] != '\\' {
        if i < |names[0]| {
          assert j[i] == names[0][i];
        } else if i > |names[0]| {
          assert j[i] == rest[i - |names[0]| - 1];
        }
      }
      assert names[0] != [] ==> j[0] == names[0][0];
    } else if |names| == 1 {
      assert PlainName(names[0]);
    }
  }

  lemma JoinAccounted(names: seq<string>, start: int, t: Token)
    requires PlainNames(names)
    ensures Accounted(Unit(OneOfUnit(names, start), t))
  {
    JoinPlain(names);
    PlainScan(Join(names), 0);
  }

  /** The digit fragments open no group. */
  lemma DigitFragments()
    ensures Scan(One, 0, Normal) == Scanned(0, Normal)
    ensures Scan(Two, 0, Normal) == Scanned(0, Normal)
    ensures Scan(Three, 0, Normal) == Scanned(0, Normal)
    ensures Scan(Four, 0, Normal) == Scanned(0, Normal)
    ensures Scan(OneOrTwo, 0, Normal) == Scanned(0, Normal)
    ensures Scan(OneToThree, 0, Normal) == Scanned(0, Normal)
    ensures Scan(TwoToFour, 0, Normal) == Scanned(0, Normal)
  {
    assert Scan(TwoToFour, 5, Normal) == Scanned(0, Normal);
  }

  /** Both offset fragments open two groups, the hours and the minutes. */
  lemma OffsetFragments()
    ensures Scan(OffsetWithColon, 0, Normal) == Scanned(2, Normal)
    ensures Scan(OffsetCompact, 0, Normal) == Scanned(2, Normal)
  {
    OffsetWithColonScan();
    OffsetCompactScan();
  }

  lemma OffsetWithColonScan()
    ensures Scan(OffsetWithColon, 0, Normal) == Scanned(2, Normal)
  {
    OffsetWithColonTail();
    assert Scan(OffsetWithColon, 5, Normal) == Scanned(1, Normal);
  }

  /** From the optional minutes group on. */
  lemma OffsetWithColonTail()
    ensures Scan(OffsetWithColon, 12, Normal) == Scanned(1, Normal)
  {
    assert Scan(OffsetWithColon, 20, Normal) == Scanned(0, Normal);
  }

  lemma OffsetCompactScan()
    ensures Scan(OffsetCompact, 0, Normal) == Scanned(2, Normal)
  {
    OffsetCompactTail();
    assert Scan(OffsetCompact, 8, Normal) == Scanned(1, Normal);
    assert Scan(OffsetCompact, 2, InClass) == Scanned(1, Normal);
  }

  /** From the optional minutes group on. */
  lemma OffsetCompactTail()
    ensures Scan(OffsetCompact, 12, Normal) == Scanned(1, Normal)
  {
    assert Scan(OffsetCompact, 16, Normal) == Scanned(0, Normal);
  }

  /** The zone-name fragment opens no group. */
  lemma ZoneNameFragment()
    ensures Scan(ZoneName, 0, Normal) == Scanned(0, Normal)
  {
    assert Scan(ZoneName, 17, InClass) == Scanned(0, Normal);
    assert Scan(ZoneName, 12, Normal) == Scanned(0, Normal);
    assert Scan(ZoneName, 9, Normal) == Scanned(0, Normal);
    assert Scan(ZoneName, 5, InClass) == Scanned(0, Normal);
  }

  /** Text that, taken as a pattern, opens no capturing group and can be
      wrapped. */
  predicate GroupFreeText(s: string) {
    Wrappable(s) && CaptureCount(s) == 0
  }

  /** Every token that compiles to a literal unit has group-free text. */
  predicate GroupFreeLiterals(tokens: seq<Token>) {
    forall i :: 0 <= i < |tokens| && (tokens[i].literal || tokens[i].val !in Codes) ==> GroupFreeText(tokens[i].val)
  }

  /** Every unit the compiler returns is accounted for, provided the locale's
      names open no groups of their own and, when the token compiles to a
      literal, its text opens none either. */
  lemma UnitForTokenAccounted(t: Token, loc: Locale)
    requires PlainLocale(loc)
    requires t.literal || t.val !in Codes ==> GroupFreeText(t.val)
    ensures Accounted(UnitForToken(t, loc))
  {
    var u := UnitForToken(t, loc);
    if !u.desc.literal {
      DigitFragments();
      OffsetFragments();
      ZoneNameFragment();
      match t.val
      case "G" => JoinAccounted(loc.erasShort, 0, t);
      case "GG" => JoinAccounted(loc.erasLong, 0, t);
      case "yyyy" =>
      case "yy" =>
      case "M" =>
      case "MM" =>
      case "MMM" => JoinAccounted(loc.monthsShortFormat, 1, t);
      case "MMMM" => JoinAccounted(loc.monthsLongFormat, 1, t);
      case "L" =>
      case "LL" =>
      case "LLL" => JoinAccounted(loc.monthsShortStandalone, 1, t);
      case "LLLL" => JoinAccounted(loc.monthsLongStandalone, 1, t);
      case "d" =>
      case "dd" =>
      case "o" =>
      case "ooo" =>
      case "HH" =>
      case "H" =>
      case "hh" =>
      case "h" =>
      case "mm" =>
      case "m" =>
      case "s" =>
      case "ss" =>
      case "S" =>
      case "SSS" =>
      case "a" => JoinAccounted(loc.meridiems, 0, t);
      case "kkkk" =>
      case "kk" =>
      case "W" =>
      case "WW" =>
      case "E" =>
      case "EEE" => JoinAccounted(loc.weekdaysShort, 1, t);
      case "EEEE" => JoinAccounted(loc.weekdaysLong, 1, t);
      case "Z" =>
      case "ZZ" =>
      case "ZZZ" =>
      case "z" =>
    }
  }

  lemma {:induction false} AccountedSum(units: seq<Unit>)
    requires forall u :: u in units ==> Accounted(u)
    ensures |units| + FragmentCaptures(units) == SumConsumed(units)
    decreases |units|
  {
    if units != [] {
      var init := units[..|units| - 1];
      assert units[|units| - 1] in units;
      assert forall u :: u in init ==> u in units;
      AccountedSum(init);
    }
  }

  /** The composite pattern opens exactly as many capturing groups as `match`
      consumes, and the group that wraps unit `k` is group number
      `Start(units, k)`, the cursor `match` reads unit `k` from. */
  lemma {:induction false} GroupsAgree(units: seq<Unit>, k: nat)
    requires forall u :: u in units ==> Accounted(u)
    requires k <= |units|
    ensures CaptureCount(Compose(units)) == SumConsumed(units)
    ensures CaptureCount(Compose(units[..k])) + 1 == Start(units, k)
  {
    forall u | u in units ensures Wrappable(u.desc.regex) { }
    ComposeCaptures(units);
    AccountedSum(units);
    var pre := units[..k];
    assert forall u :: u in pre ==> u in units;
    ComposeCaptures(pre);
    AccountedSum(pre);
  }

  /** For compiled tokens over a plain locale whose literal texts open no
      groups, the composite's group count and the cursor of `match` agree unit
      by unit. */
  lemma CompiledGroupsAgree(tokens: seq<Token>, loc: Locale, k: nat)
    requires PlainLocale(loc) && GroupFreeLiterals(tokens)
    requires k <= |tokens|
    ensures var units := CompileAll(tokens, loc);
      && CaptureCount(Compose(units)) == SumConsumed(units)
      && CaptureCount(Compose(units[..k])) + 1 == Start(units, k)
  {
    var units := CompileAll(tokens, loc);
    forall u | u in units ensures Accounted(u) {
      var i :| 0 <= i < |units| && units[i] == u;
      UnitForTokenAccounted(tokens[i], loc);
    }
    GroupsAgree(units, k);
  }

  /** The literal fallback with its text escaped opens no group of its own,
      whatever the text. */
  lemma EscapedLiteralUnitAccounted(t: Token)
    ensures Accounted(Unit(EscapedLiteralUnit(t), t))
  {
    EscapeScan(t.val);
  }

  /** With the literal fallback escaped, the composite's group count and the
      cursor of `match` agree unit by unit for any tokens over a plain locale. */
  lemma EscapedGroupsAgree(tokens: seq<Token>, loc: Locale, k: nat)
    requires PlainLocale(loc)
    requires k <= |tokens|
    ensures var units := CompileAllEscaped(tokens, loc);
      && CaptureCount(Compose(units)) == SumConsumed(units)
      && CaptureCount(Compose(units[..k])) + 1 == Start(units, k)
  {
    var units := CompileAllEscaped(tokens, loc);
    forall u | u in units ensures Accounted(u) {
      var i :| 0 <= i < |units| && units[i] == u;
      if u.desc.literal {
        EscapedLiteralUnitAccounted(tokens[i]);
      } else {
        UnitForTokenAccounted(tokens[i], loc);
      }
    }
    GroupsAgree(units, k);
  }

  /** The source's unescaped literal: for a format whose literal text is "(x)"
      followed by "yyyy", the composite "((x))(\d{4})" opens three groups
      while `match` consumes two, so the year unit reads group 2, the
      literal's own inner group, instead of group 3; against "x2021" the year
      comes out as NaN. */
  lemma UnescapedLiteralMisreads(loc: Locale, ext: Externals)
    ensures var lit := Token("(x)", true);
      var units := [UnitForToken(lit, loc), UnitForToken(Token("yyyy", false), loc)];
      && Compose(units) == "((x))(\\d{4})"
      && CaptureCount(Compose(units)) == 3 && SumConsumed(units) == 2
      && CaptureCount(Compose(units[..1])) + 1 == 3 && Start(units, 1) == 2
      && Lookup(MatchSpec(Some([Some("x2021"), Some("x"), Some("x"), Some("2021")]), units, ext), "y")
         == Some(NaN)
  {
    AsWrittenPattern(loc);
    AsWrittenYear(loc, ext);
  }

  /** The unescaped composite and the cursor of the year unit. */
  lemma AsWrittenPattern(loc: Locale)
    ensures var lit := Token("(x)", true);
      var units := [UnitForToken(lit, loc), UnitForToken(Token("yyyy", false), loc)];
      && Compose(units) == "((x))(\\d{4})"
      && CaptureCount(Compose(units)) == 3 && SumConsumed(units) == 2
      && CaptureCount(Compose(units[..1])) + 1 == 3 && Start(units, 1) == 2
  {
    var lit := Token("(x)", true);
    var units := [UnitForToken(lit, loc), UnitForToken(Token("yyyy", false), loc)];
    YearUnit(loc);
    ComposePair(units);
    var first := units[..1];
    assert first[..0] == [] && first[0] == units[0];
    assert Compose(first) == Compose([]) + Wrap("(x)");
    assert Compose(first) == Wrap("(x)");
    assert SumConsumed(first) == SumConsumed([]) + Consumed(units[0]);
    AsWrittenScans();
  }

  /** The year unit of the unescaped composite reads the literal's inner group. */
  lemma AsWrittenYear(loc: Locale, ext: Externals)
    ensures var lit := Token("(x)", true);
      var units := [UnitForToken(lit, loc), UnitForToken(Token("yyyy", false), loc)];
      Lookup(MatchSpec(Some([Some("x2021"), Some("x"), Some("x"), Some("2021")]), units, ext), "y")
        == Some(NaN)
  {
    var lit := Token("(x)", true);
    var units := [UnitForToken(lit, loc), UnitForToken(Token("yyyy", false), loc)];
    YearUnit(loc);
    var first := units[..1];
    assert first[..0] == [] && first[0] == units[0];
    assert SumConsumed(first) == SumConsumed([]) + Consumed(units[0]);
    var m := [Some("x2021"), Some("x"), Some("x"), Some("2021")];
    assert UnitSlice(m, units, 1) == [Some("x")];
    WalkLookupStep(m, units, ext, "y");
    assert Walk(m, first, ext) == [];
  }

  /** The group counts of the unescaped composite and of its literal part. */
  lemma AsWrittenScans()
    ensures CaptureCount(Wrap("(x)")) == 2
    ensures Wrap("(x)") + Wrap("\\d{4}") == "((x))(\\d{4})"
    ensures CaptureCount("((x))(\\d{4})") == 3
  {
    var c := "((x))(\\d{4})";
    assert Scan(c, 5, Normal) == Scanned(1, Normal);
    assert Scan(c, 2, Normal) == Scanned(1, Normal);
    assert Scan("((x))", 2, Normal) == Scanned(0, Normal);
  }

  /** The same format with the literal escaped: "(x)" then "yyyy" composes to
      "(\(x\))(\d{4})", whose two groups are the two `match` consumes, and the
      year unit reads its own group. */
  lemma EscapedLiteralReadsOwnGroup(loc: Locale, ext: Externals)
    ensures var units := [UnitForTokenEscaped(Token("(x)", true), loc), UnitForTokenEscaped(Token("yyyy", false), loc)];
      && Compose(units) == Wrap("\\(x\\)") + Wrap("\\d{4}")
      && CaptureCount(Compose(units)) == 2 && SumConsumed(units) == 2
      && Lookup(MatchSpec(Some([Some("(x)2021"), Some("(x)"), Some("2021")]), units, ext), "y")
         == Some(Num(2021))
  {
    var lit, year := Token("(x)", true), Token("yyyy", false);
    var units := [UnitForTokenEscaped(lit, loc), UnitForTokenEscaped(year, loc)];
    EscapedParens();
    YearUnit(loc);
    ComposePair(units);
    EscapedLiteralUnitAccounted(lit);
    DigitFragments();
    assert Accounted(units[1]);
    GroupsAgree(units, 0);
    YearReadsGroupTwo([Some("(x)2021"), Some("(x)"), Some("2021")], units, ext);
  }

  lemma EscapedParens()
    ensures Escape("(x)") == "\\(x\\)"
  {
    assert Escape(")") == "\\)";
    assert Escape("x)") == "x\\)";
  }

  lemma YearUnit(loc: Locale)
    ensures UnitForToken(Token("yyyy", false), loc) == Unit(IntUnit(Four, Identity), Token("yyyy", false))
  {
  }

  /** Two units compose to their two wrapped fragments. */
  lemma ComposePair(units: seq<Unit>)
    requires |units| == 2
    ensures Compose(units) == Wrap(units[0].desc.regex) + Wrap(units[1].desc.regex)
  {
    var first := units[..1];
    assert first[..0] == [] && first[0] == units[0];
    assert Compose(first) == Compose([]) + Wrap(units[0].desc.regex);
    assert Compose(first) == Wrap(units[0].desc.regex);
  }

  lemma YearReadsGroupTwo(m: seq<Group>, units: seq<Unit>, ext: Externals)
    requires |units| == 2 && units[0].desc.literal && Consumed(units[0]) == 1
    requires units[1] == Unit(IntUnit(Four, Identity), Token("yyyy", false))
    requires m == [Some("(x)2021"), Some("(x)"), Some("2021")]
    ensures Lookup(Walk(m, units, ext), "y") == Some(Num(2021))
  {
    var first := units[..1];
    assert first[..0] == [] && first[0] == units[0];
    assert SumConsumed(first) == SumConsumed([]) + Consumed(units[0]);
    assert Start(units, 1) == 2;
    assert UnitSlice(m, units, 1) == [Some("2021")];
    WalkLookupStep(m, units, ext, "y");
    assert DecimalValue("2021") == 2021 by {
      assert "2021"[..3] == "202" && "202"[..2] == "20" && "20"[..1] == "2" && "2"[..0] == "";
    }
  }

  /** Keys of numeric codes only ever hold numbers or NaN in the filled object
      (`y` and `k` are left out: `yy` and `kk` store what `untruncateYear`
      returns). */
  lemma CompiledValuesNumeric(m: seq<Group>, tokens: seq<Token>, loc: Locale, ext: Externals, c: char)
    requires c in {'G', 'M', 'L', 'd', 'o', 'h', 'H', 'm', 's', 'S', 'a', 'W', 'E'}
    ensures var v := Lookup(Walk(m, CompileAll(tokens, loc), ext), [c]);
      v.None? || v.value.Num? || v.value.NaN?
  {
    var units := CompileAll(tokens, loc);
    WalkHasKey(m, units, ext, [c]);
    if Lookup(Walk(m, units, ext), [c]).Some? {
      var i := LastStoring(units, [c]);
      WalkValue(m, units, ext, [c], i);
      KindByLetter(tokens[i], loc);
    }
  }

  /** The last unit that stores under `k`, when there is one. */
  lemma LastStoring(units: seq<Unit>, k: string) returns (i: nat)
    requires exists i :: 0 <= i < |units| && Stores(units[i], k)
    ensures i < |units| && Stores(units[i], k)
    ensures forall j :: i < j < |units| ==> !Stores(units[j], k)
  {
    var n := |units| - 1;
    if Stores(units[n], k) {
      i := n;
    } else {
      i := LastStoring(units[..n], k);
    }
  }
}
