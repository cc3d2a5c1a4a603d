/** `TokenParser` (src/impl/tokenParser.js:226-245): compile the format's
    tokens, build the composite pattern, run it, walk the groups and assemble
    the fields.

    The format is given already tokenized (`Formatter.parseFormat` is not part
    of this model) and the regular-expression engine is a parameter: the
    syntax check of a pattern source, and a function from the input and the
    pattern source to the match array.
*/
module TokenParsing {
  import opened JsObjects
  import opened RegexSource
  import opened TokenUnits
  import opened Composer
  import opened Matcher
  import opened Assembler

  /** The regular-expression engine. `compiles` is the syntax check every
      `RegExp` construction performs, which throws a SyntaxError when it
      fails; `run` is `input.match(regex)` on a pattern that compiles, `None`
      when the pattern does not match. */
  datatype Engine = Engine(compiles: string -> bool, run: (string, string) -> Option<seq<Group>>)

  /** How a call ends: it throws, or it returns a value. */
  datatype Outcome<T> = Throws | Returns(value: T)

  /** What `explainParse` returns. `matches` is the object `match` filled as
      it stands after `dateTimeFromMatches` corrected it in place: the
      explanation shares that object with the assembler. */
  datatype Explanation = Explanation(
    input: string, tokens: seq<Token>, regex: string,
    matches: seq<Entry>, result: map<Field, Value>, zone: Zone)

  /** The fragments `unitForToken` builds with `RegExp` from text: a literal's
      own text and a locale's joined names. The other fragments are pattern
      literals of the source. */
  predicate BuiltFromText(u: Unit) {
    u.desc.kind.Literal? || u.desc.kind.OneOf?
  }

  /** Some fragment built from text is no valid pattern. */
  predicate FragmentThrows(units: seq<Unit>, engine: Engine) {
    exists i :: 0 <= i < |units| && BuiltFromText(units[i]) && !engine.compiles(units[i].desc.regex)
  }

  /** Some `RegExp` construction of `explainParse` throws: one in
      `unitForToken`, or the one `input.match` performs on the composite. */
  predicate ConstructionThrows(units: seq<Unit>, engine: Engine) {
    FragmentThrows(units, engine) || !engine.compiles(Compose(units))
  }

  /** The explanation `explainParse` returns when no construction throws, as
      one expression. `match` returns an object even when the pattern fails,
      so the assembler always runs. */
  function Explain(loc: Locale, ext: Externals, input: string, tokens: seq<Token>, engine: Engine): Explanation {
    var built := BuildRegex(CompileAll(tokens, loc));
    var found := engine.run(input, built.0);
    var all := MatchSpec(found, built.1, ext);
    var fixed := Corrected(all, ext.toNumber);
    Explanation(input, tokens, built.0, fixed, Project(fixed), ResolveZone(all))
  }

  /** How `explainParse` ends. */
  function ExplainOutcome(loc: Locale, ext: Externals, input: string, tokens: seq<Token>, engine: Engine): Outcome<Explanation> {
    if ConstructionThrows(CompileAll(tokens, loc), engine) then Throws
    else Returns(Explain(loc, ext, input, tokens, engine))
  }

  /** The parser bound to a locale. The `Util` helpers and the number
      conversion it relies on are carried along with the locale. */
  class TokenParser {
    const loc: Locale
    const ext: Externals

    constructor (loc: Locale, ext: Externals)
      ensures this.loc == loc && this.ext == ext
    {
      this.loc := loc;
      this.ext := ext;
    }

    /** `explainParse`. */
    method ExplainParse(input: string, tokens: seq<Token>, engine: Engine) returns (e: Outcome<Explanation>)
      ensures e == ExplainOutcome(loc, ext, input, tokens, engine)
    {
      var units := CompileAll(tokens, loc);
      if exists i :: 0 <= i < |units| && BuiltFromText(units[i]) && !engine.compiles(units[i].desc.regex) {
        return Throws;
      }
      var built := BuildRegex(units);
      var regex, handlers := built.0, built.1;
      if !engine.compiles(regex) {
        return Throws;
      }
      var found := engine.run(input, regex);
      var all := Match(found, handlers, ext);
      var matches := new JsObject(all);
      var result, zone := DateTimeFromMatches(matches, ext.toNumber);
      e := Returns(Explanation(input, tokens, regex, matches.entries, result, zone));
    }

    /** `parseDateTime`: the fields and the zone of `explainParse`, which
        throws when it does. */
    method ParseDateTime(input: string, tokens: seq<Token>, engine: Engine) returns (r: Outcome<(map<Field, Value>, Zone)>)
      ensures ExplainOutcome(loc, ext, input, tokens, engine).Throws? <==> r.Throws?
      ensures r.Returns? ==>
        r.value == (Explain(loc, ext, input, tokens, engine).result, Explain(loc, ext, input, tokens, engine).zone)
    {
      var e := ExplainParse(input, tokens, engine);
      if e.Throws? {
        return Throws;
      }
      r := Returns((e.value.result, e.value.zone));
    }
  }

  /** A token that compiles to a literal whose text is no valid pattern, such
      as "(", makes `explainParse` throw. */
  lemma ExplainThrowsOnLiteral(loc: Locale, ext: Externals, input: string, tokens: seq<Token>, engine: Engine, i: nat)
    requires i < |tokens| && (tokens[i].literal || tokens[i].val !in Codes)
    requires !engine.compiles(tokens[i].val)
    ensures ExplainOutcome(loc, ext, input, tokens, engine) == Throws
  {
    var units := CompileAll(tokens, loc);
    assert units[i].desc.regex == tokens[i].val;
    assert BuiltFromText(units[i]);
  }

  /** When every fragment built from text and the composite compile,
      `explainParse` returns the explanation. */
  lemma ExplainReturns(loc: Locale, ext: Externals, input: string, tokens: seq<Token>, engine: Engine)
    requires forall i :: 0 <= i < |tokens| ==> var u := UnitForToken(tokens[i], loc);
      BuiltFromText(u) ==> engine.compiles(u.desc.regex)
    requires engine.compiles(Compose(CompileAll(tokens, loc)))
    ensures ExplainOutcome(loc, ext, input, tokens, engine) == Returns(Explain(loc, ext, input, tokens, engine))
  {
  }

  /** The format `dd.MM.yyyy`, tokenized, composes to
      "(\\d\\d)(.)(\\d\\d)(.)(\\d{4})": the dots are taken as patterns, so each
      matches any character. */
  lemma DottedDatePattern(loc: Locale)
    ensures var tokens := [Token("dd", false), Token(".", true), Token("MM", false), Token(".", true), Token("yyyy", false)];
      Compose(CompileAll(tokens, loc)) == "(\\d\\d)(.)(\\d\\d)(.)(\\d{4})"
  {
    var tokens := [Token("dd", false), Token(".", true), Token("MM", false), Token(".", true), Token("yyyy", false)];
    var units := CompileAll(tokens, loc);
    DottedDateFragments(tokens, loc);
    ComposeFive(units, Two, ".", Two, ".", Four);
    assert Wrap(Two) == "(\\d\\d)" && Wrap(".") == "(.)" && Wrap(Four) == "(\\d{4})";
  }

  lemma DottedDateFragments(tokens: seq<Token>, loc: Locale)
    requires tokens == [Token("dd", false), Token(".", true), Token("MM", false), Token(".", true), Token("yyyy", false)]
    ensures var units := CompileAll(tokens, loc);
      && units[0].desc.regex == Two && units[1].desc.regex == "." && units[2].desc.regex == Two
      && units[3].desc.regex == "." && units[4].desc.regex == Four
  {
    assert UnitForToken(tokens[0], loc).desc.regex == Two;
    assert UnitForToken(tokens[2], loc).desc.regex == Two;
    assert UnitForToken(tokens[4], loc).desc.regex == Four;
  }

  /** Five units compose to their five wrapped fragments. */
  lemma ComposeFive(units: seq<Unit>, a: string, b: string, c: string, d: string, f: string)
    requires |units| == 5
    requires units[0].desc.regex == a && units[1].desc.regex == b && units[2].desc.regex == c
    requires units[3].desc.regex == d && units[4].desc.regex == f
    ensures Compose(units) == Wrap(a) + Wrap(b) + Wrap(c) + Wrap(d) + Wrap(f)
  {
    assert units[..4][..3] == units[..3] && units[..3][..2] == units[..2];
    assert units[..2][..1] == units[..1] && units[..1][..0] == [];
    assert Compose(units[..1]) == Wrap(a);
    assert Compose(units[..2]) == Wrap(a) + Wrap(b);
    assert Compose(units[..3]) == Wrap(a) + Wrap(b) + Wrap(c);
    assert Compose(units[..4]) == Wrap(a) + Wrap(b) + Wrap(c) + Wrap(d);
  }

  /** Token `j` is a recognised code whose value is stored under the key `c`. */
  predicate StoresAt(tokens: seq<Token>, j: nat, c: char)
    requires j < |tokens|
  {
    !tokens[j].literal && tokens[j].val in Codes && |tokens[j].val| > 0 && tokens[j].val[0] == c
  }

  /** The last token that stores under `c` is token `i`. */
  predicate LastStoresAt(tokens: seq<Token>, i: nat, c: char) {
    i < |tokens| && StoresAt(tokens, i, c) && forall j :: i < j < |tokens| ==> !StoresAt(tokens, j, c)
  }

  lemma StoresIff(tokens: seq<Token>, loc: Locale, j: nat, c: char)
    requires j < |tokens|
    ensures Stores(CompileAll(tokens, loc)[j], [c]) <==> StoresAt(tokens, j, c)
  {
    var u := CompileAll(tokens, loc)[j];
    if !u.desc.literal {
      KindByLetter(tokens[j], loc);
    }
  }

  /** The value the last token storing under `c` reads, and that it is the
      value under `[c]` in the filled object. */
  lemma LastValue(m: seq<Group>, tokens: seq<Token>, loc: Locale, ext: Externals, c: char, i: nat)
    requires LastStoresAt(tokens, i, c)
    ensures var units := CompileAll(tokens, loc);
      Lookup(Walk(m, units, ext), [c]) == Some(Deserialize(units[i].desc.kind, UnitSlice(m, units, i), ext))
  {
    var units := CompileAll(tokens, loc);
    StoresIff(tokens, loc, i, c);
    forall j | i < j < |units| ensures !Stores(units[j], [c]) {
      StoresIff(tokens, loc, j, c);
    }
    WalkValue(m, units, ext, [c], i);
  }

  /** Some token stores under `c` exactly when the filled object has `[c]`. */
  lemma HasValue(m: seq<Group>, tokens: seq<Token>, loc: Locale, ext: Externals, c: char)
    ensures Lookup(Walk(m, CompileAll(tokens, loc), ext), [c]).Some? <==>
      exists i :: 0 <= i < |tokens| && StoresAt(tokens, i, c)
  {
    var units := CompileAll(tokens, loc);
    WalkHasKey(m, units, ext, [c]);
    if exists i :: 0 <= i < |tokens| && StoresAt(tokens, i, c) {
      var i :| 0 <= i < |tokens| && StoresAt(tokens, i, c);
      StoresIff(tokens, loc, i, c);
    }
    if exists i :: 0 <= i < |units| && Stores(units[i], [c]) {
      var i :| 0 <= i < |units| && Stores(units[i], [c]);
      StoresIff(tokens, loc, i, c);
    }
  }

  /** The letters codes store under. */
  predicate CodeLetter(x: char) {
    x in {'G', 'y', 'M', 'L', 'd', 'o', 'h', 'H', 'm', 's', 'S', 'a', 'k', 'W', 'E', 'Z', 'z'}
  }

  /** Every key of the filled object is one code letter. */
  lemma WalkKeysAreLetters(m: seq<Group>, tokens: seq<Token>, loc: Locale, ext: Externals, j: nat)
    requires j < |Walk(m, CompileAll(tokens, loc), ext)|
    ensures var k := Walk(m, CompileAll(tokens, loc), ext)[j].key;
      |k| == 1 && CodeLetter(k[0])
  {
    var units := CompileAll(tokens, loc);
    var w := Walk(m, units, ext);
    var k := w[j].key;
    assert Keys(w)[j] == k;
    LookupKeys(w, k);
    WalkHasKey(m, units, ext, k);
    var i :| 0 <= i < |units| && Stores(units[i], k);
    KindByLetter(tokens[i], loc);
  }

  /** ...and so is every key of the corrected object. */
  lemma CorrectedKeysAreLetters(m: seq<Group>, tokens: seq<Token>, loc: Locale, ext: Externals)
    ensures var all := Walk(m, CompileAll(tokens, loc), ext);
      && DistinctKeys(Corrected(all, ext.toNumber))
      && forall j :: 0 <= j < |Corrected(all, ext.toNumber)| ==> |Corrected(all, ext.toNumber)[j].key| == 1 && CodeLetter(Corrected(all, ext.toNumber)[j].key[0])
  {
    var all := Walk(m, CompileAll(tokens, loc), ext);
    var fixed := Corrected(all, ext.toNumber);
    WalkDistinct(m, CompileAll(tokens, loc), ext);
    CorrectedKeys(all, ext.toNumber);
    DistinctByKeys(all, fixed);
    var ka, kf := Keys(all), Keys(fixed);
    forall j | 0 <= j < |fixed| ensures |fixed[j].key| == 1 && CodeLetter(fixed[j].key[0]) {
      assert kf[j] == fixed[j].key && ka[j] == all[j].key;
      WalkKeysAreLetters(m, tokens, loc, ext, j);
    }
  }

  /** Explanation of a successful match, stage by stage. */
  lemma ExplainParts(loc: Locale, ext: Externals, input: string, tokens: seq<Token>, engine: Engine, m: seq<Group>)
    requires engine.run(input, Compose(CompileAll(tokens, loc))) == Some(m)
    ensures var all := Walk(m, CompileAll(tokens, loc), ext);
      var e := Explain(loc, ext, input, tokens, engine);
      && e.regex == Compose(CompileAll(tokens, loc))
      && e.matches == Corrected(all, ext.toNumber)
      && e.result == Project(Corrected(all, ext.toNumber))
      && e.zone == ResolveZone(all)
      && DistinctKeys(Corrected(all, ext.toNumber)) && Keys(Corrected(all, ext.toNumber)) == Keys(all)
  {
    var all := Walk(m, CompileAll(tokens, loc), ext);
    WalkDistinct(m, CompileAll(tokens, loc), ext);
    CorrectedKeys(all, ext.toNumber);
    DistinctByKeys(all, Corrected(all, ext.toNumber));
  }

  /** When the pattern does not match, the object is empty, so are the
      fields, and there is no zone. */
  lemma ExplainNoMatch(loc: Locale, ext: Externals, input: string, tokens: seq<Token>, engine: Engine)
    requires engine.run(input, Compose(CompileAll(tokens, loc))) == None
    ensures var e := Explain(loc, ext, input, tokens, engine);
      e.matches == [] && e.result == map[] && e.zone == NoZone
  {
  }

  /** The fields one code letter alone feeds (milliseconds, seconds,
      minutes, day, ordinal, week number, week year, weekday): present
      exactly when some token stores under that letter. */
  predicate PlainFieldLetter(c: char) {
    c in {'S', 's', 'm', 'd', 'o', 'W', 'k', 'E'}
  }

  lemma PlainFieldLetterUnique(x: char, c: char)
    requires CodeLetter(x) && PlainFieldLetter(c)
    requires ToField([x]) == ToField([c])
    ensures x == c
  {
    if x != c {
      FieldCollisions([x], [c]);
    }
  }

  /** For a field one letter alone feeds, the object's value under that
      letter is the field's value, and absent both or neither. */
  lemma PlainFieldFromObject(m: seq<Group>, tokens: seq<Token>, loc: Locale, ext: Externals, c: char, f: Field)
    requires PlainFieldLetter(c) && ToField([c]) == Some(f)
    ensures var fixed := Corrected(Walk(m, CompileAll(tokens, loc), ext), ext.toNumber);
      && (f in Project(fixed) <==> Lookup(fixed, [c]).Some?)
      && (f in Project(fixed) ==> Project(fixed)[f] == Lookup(fixed, [c]).value)
  {
    var all := Walk(m, CompileAll(tokens, loc), ext);
    CorrectedKeysAreLetters(m, tokens, loc, ext);
    var fixed := Corrected(all, ext.toNumber);
    forall j | 0 <= j < |fixed| && ToField(fixed[j].key) == Some(f) ensures fixed[j].key == [c] {
      var k := fixed[j].key;
      assert k == [k[0]];
      PlainFieldLetterUnique(k[0], c);
    }
    ProjectSingleKey(fixed, [c], f);
  }

  /** A field one letter alone feeds is in the result exactly when some
      token stores under that letter. */
  lemma ExplainPlainField(loc: Locale, ext: Externals, input: string, tokens: seq<Token>, engine: Engine, m: seq<Group>, c: char, f: Field)
    requires engine.run(input, Compose(CompileAll(tokens, loc))) == Some(m)
    requires PlainFieldLetter(c) && ToField([c]) == Some(f)
    ensures f in Explain(loc, ext, input, tokens, engine).result <==>
      exists i :: 0 <= i < |tokens| && StoresAt(tokens, i, c)
  {
    ExplainParts(loc, ext, input, tokens, engine, m);
    PlainFieldFromObject(m, tokens, loc, ext, c, f);
    var all := Walk(m, CompileAll(tokens, loc), ext);
    CorrectedLookup(all, ext.toNumber, [c]);
    HasValue(m, tokens, loc, ext, c);
  }

  /** ...and holds what the last such token's unit deserialized from its
      groups. */
  lemma ExplainPlainFieldValue(loc: Locale, ext: Externals, input: string, tokens: seq<Token>, engine: Engine, m: seq<Group>, c: char, f: Field, i: nat)
    requires engine.run(input, Compose(CompileAll(tokens, loc))) == Some(m)
    requires PlainFieldLetter(c) && ToField([c]) == Some(f)
    requires LastStoresAt(tokens, i, c)
    ensures var units := CompileAll(tokens, loc);
      var e := Explain(loc, ext, input, tokens, engine);
      && f in e.result
      && e.result[f] == Deserialize(units[i].desc.kind, UnitSlice(m, units, i), ext)
  {
    ExplainParts(loc, ext, input, tokens, engine, m);
    PlainFieldFromObject(m, tokens, loc, ext, c, f);
    var all := Walk(m, CompileAll(tokens, loc), ext);
    CorrectedLookup(all, ext.toNumber, [c]);
    LastValue(m, tokens, loc, ext, c, i);
  }

  /** The year field: the last year token's value, negated when the era
      index is 0 and the year is truthy. */
  lemma ExplainYear(loc: Locale, ext: Externals, input: string, tokens: seq<Token>, engine: Engine, m: seq<Group>, i: nat)
    requires engine.run(input, Compose(CompileAll(tokens, loc))) == Some(m)
    requires LastStoresAt(tokens, i, 'y')
    ensures var units := CompileAll(tokens, loc);
      var v := Deserialize(units[i].desc.kind, UnitSlice(m, units, i), ext);
      var e := Explain(loc, ext, input, tokens, engine);
      && (tokens[i].val == "yyyy" ==> v.Num? || v.NaN?)
      && Year in e.result
      && e.result[Year] == if Lookup(Walk(m, units, ext), "G") == Some(Num(0)) && Truthy(v) then Negate(v, ext.toNumber) else v
  {
    var units := CompileAll(tokens, loc);
    ExplainParts(loc, ext, input, tokens, engine, m);
    var all := Walk(m, units, ext);
    var fixed := Corrected(all, ext.toNumber);
    LastValue(m, tokens, loc, ext, 'y', i);
    StoresIff(tokens, loc, i, 'y');
    KindByLetter(tokens[i], loc);
    CorrectedLookup(all, ext.toNumber, "y");
    CorrectedKeysAreLetters(m, tokens, loc, ext);
    YearField(fixed);
  }

  /** In an object with distinct keys where only `y` feeds the year, the
      year field is the value under `y`. */
  lemma YearField(fixed: seq<Entry>)
    requires DistinctKeys(fixed)
    requires forall j :: 0 <= j < |fixed| ==> |fixed[j].key| == 1 && CodeLetter(fixed[j].key[0])
    requires Lookup(fixed, "y").Some?
    ensures Year in Project(fixed) && Project(fixed)[Year] == Lookup(fixed, "y").value
  {
    forall j | 0 <= j < |fixed| && ToField(fixed[j].key) == Some(Year) ensures fixed[j].key == "y" {
      var k := fixed[j].key;
      assert k == [k[0]];
    }
    ProjectSingleKey(fixed, "y", Year);
  }

  /** Where only one of `h` and `H` is present, the hour field is the value
      under that key. */
  lemma HourField(fixed: seq<Entry>, k: string, other: string)
    requires DistinctKeys(fixed)
    requires (k == "h" && other == "H") || (k == "H" && other == "h")
    requires Lookup(fixed, k).Some? && Lookup(fixed, other).None?
    ensures Hour in Project(fixed) && Project(fixed)[Hour] == Lookup(fixed, k).value
  {
    LookupKeys(fixed, other);
    var ks := Keys(fixed);
    forall j | 0 <= j < |fixed| && ToField(fixed[j].key) == Some(Hour) ensures fixed[j].key == k {
      assert ks[j] == fixed[j].key;
    }
    ProjectSingleKey(fixed, k, Hour);
  }

  /** A twelve-hour clock: with `h` codes and no `H` code, the hour field is
      the last `h` token's value, twelve more when the meridiem index is 1. */
  lemma ExplainTwelveHour(loc: Locale, ext: Externals, input: string, tokens: seq<Token>, engine: Engine, m: seq<Group>, i: nat)
    requires engine.run(input, Compose(CompileAll(tokens, loc))) == Some(m)
    requires LastStoresAt(tokens, i, 'h')
    requires forall j :: 0 <= j < |tokens| ==> !StoresAt(tokens, j, 'H')
    ensures var units := CompileAll(tokens, loc);
      var v := Deserialize(units[i].desc.kind, UnitSlice(m, units, i), ext);
      var e := Explain(loc, ext, input, tokens, engine);
      && (v.Num? || v.NaN?)
      && Hour in e.result
      && e.result[Hour] == if Lookup(Walk(m, units, ext), "a") == Some(Num(1)) then Add12(v) else v
  {
    var units := CompileAll(tokens, loc);
    ExplainParts(loc, ext, input, tokens, engine, m);
    var all := Walk(m, units, ext);
    LastValue(m, tokens, loc, ext, 'h', i);
    StoresIff(tokens, loc, i, 'h');
    KindByLetter(tokens[i], loc);
    HasValue(m, tokens, loc, ext, 'H');
    CorrectedLookup(all, ext.toNumber, "h");
    CorrectedLookup(all, ext.toNumber, "H");
    HourField(Corrected(all, ext.toNumber), "h", "H");
  }

  /** A 24-hour clock: with `H` codes and no `h` code, the hour field is the
      last `H` token's value, whatever the meridiem. */
  lemma ExplainTwentyFourHour(loc: Locale, ext: Externals, input: string, tokens: seq<Token>, engine: Engine, m: seq<Group>, i: nat)
    requires engine.run(input, Compose(CompileAll(tokens, loc))) == Some(m)
    requires LastStoresAt(tokens, i, 'H')
    requires forall j :: 0 <= j < |tokens| ==> !StoresAt(tokens, j, 'h')
    ensures var units := CompileAll(tokens, loc);
      var e := Explain(loc, ext, input, tokens, engine);
      && Hour in e.result
      && e.result[Hour] == Deserialize(units[i].desc.kind, UnitSlice(m, units, i), ext)
  {
    var units := CompileAll(tokens, loc);
    ExplainParts(loc, ext, input, tokens, engine, m);
    var all := Walk(m, units, ext);
    LastValue(m, tokens, loc, ext, 'H', i);
    HasValue(m, tokens, loc, ext, 'h');
    CorrectedLookup(all, ext.toNumber, "h");
    CorrectedLookup(all, ext.toNumber, "H");
    HourField(Corrected(all, ext.toNumber), "H", "h");
  }

  /** An offset code wins the zone: the last `Z`, `ZZ` or `ZZZ` token's hours
      and minutes groups, through `signedOffset`, give a fixed-offset zone. */
  lemma ExplainOffsetZone(loc: Locale, ext: Externals, input: string, tokens: seq<Token>, engine: Engine, m: seq<Group>, i: nat)
    requires engine.run(input, Compose(CompileAll(tokens, loc))) == Some(m)
    requires LastStoresAt(tokens, i, 'Z')
    requires var s := UnitSlice(m, CompileAll(tokens, loc), i);
      !ext.signedOffset(At(s, 1), At(s, 2)).Undefined?
    ensures var s := UnitSlice(m, CompileAll(tokens, loc), i);
      Explain(loc, ext, input, tokens, engine).zone == FixedOffset(ext.signedOffset(At(s, 1), At(s, 2)))
  {
    ExplainParts(loc, ext, input, tokens, engine, m);
    LastValue(m, tokens, loc, ext, 'Z', i);
    StoresIff(tokens, loc, i, 'Z');
    KindByLetter(tokens[i], loc);
  }

  /** Without an offset code, the last `z` token's zone name gives a named
      zone. */
  lemma ExplainNamedZone(loc: Locale, ext: Externals, input: string, tokens: seq<Token>, engine: Engine, m: seq<Group>, i: nat)
    requires engine.run(input, Compose(CompileAll(tokens, loc))) == Some(m)
    requires forall j :: 0 <= j < |tokens| ==> !StoresAt(tokens, j, 'Z')
    requires LastStoresAt(tokens, i, 'z')
    requires At(UnitSlice(m, CompileAll(tokens, loc), i), 0).Some?
    ensures var s := UnitSlice(m, CompileAll(tokens, loc), i);
      Explain(loc, ext, input, tokens, engine).zone == Iana(Str(At(s, 0).value))
  {
    ExplainParts(loc, ext, input, tokens, engine, m);
    HasValue(m, tokens, loc, ext, 'Z');
    LastValue(m, tokens, loc, ext, 'z', i);
    StoresIff(tokens, loc, i, 'z');
    KindByLetter(tokens[i], loc);
  }

  /** With neither zone code there is no zone. */
  lemma ExplainNoZone(loc: Locale, ext: Externals, input: string, tokens: seq<Token>, engine: Engine, m: seq<Group>)
    requires engine.run(input, Compose(CompileAll(tokens, loc))) == Some(m)
    requires forall j :: 0 <= j < |tokens| ==> !StoresAt(tokens, j, 'Z') && !StoresAt(tokens, j, 'z')
    ensures Explain(loc, ext, input, tokens, engine).zone == NoZone
  {
    ExplainParts(loc, ext, input, tokens, engine, m);
    HasValue(m, tokens, loc, ext, 'Z');
    HasValue(m, tokens, loc, ext, 'z');
  }
}
