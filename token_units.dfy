/** The token compiler: each format token becomes a unit, the regular
    expression fragment that matches it together with the deserializer that
    turns the captured groups into a value (src/impl/tokenParser.js:6-132).

    Fragments are kept as regular-expression source text. A deserializer is the
    dispatch `Deserialize` on the unit's kind. The locale's name tables, the
    two `Util` helpers the source calls (`untruncateYear`, `signedOffset`) and
    the string-to-number conversion of unary minus are parameters: their
    definitions are not part of this model.
*/
module TokenUnits {
  import opened JsObjects
  import opened RegexSource

  /** A format token: a token code such as "yyyy", or literal text. */
  datatype Token = Token(val: string, literal: bool)

  /** The locale's ordered name tables; the order fixes the deserialized index. */
  datatype Locale = Locale(
    erasShort: seq<string>, erasLong: seq<string>,
    monthsShortFormat: seq<string>, monthsLongFormat: seq<string>,
    monthsShortStandalone: seq<string>, monthsLongStandalone: seq<string>,
    weekdaysShort: seq<string>, weekdaysLong: seq<string>,
    meridiems: seq<string>)

  /** `Util.untruncateYear` (applied to whatever `parseInt` returned, NaN
      included), `Util.signedOffset`, and the conversion of a string to a
      number that unary minus performs; their definitions are not part of this
      model. */
  datatype Externals = Externals(
    untruncateYear: Value -> Value,
    signedOffset: (Group, Group) -> Value,
    toNumber: StringToNumber)

  datatype Post = Identity | UntruncateYear

  /** What a unit's deserializer does. */
  datatype Kind =
    | Literal                                   // `([s]) => s`, the value is never stored
    | Int(post: Post)                           // `([s]) => post(parseInt(s, 10))`
    | OneOf(names: seq<string>, start: int)     // `([s]) => names.indexOf(s) + start`
    | Offset                                    // `([, h, m]) => signedOffset(h, m)`
    | Simple                                    // `([s]) => s`

  /** What the builders `intUnit`, `oneOf`, `offset`, `simple` and `literal`
      return: the fragment, the deserializer, the optional `groups` count of
      extra capturing groups, and the literal flag. */
  datatype Descriptor = Descriptor(regex: string, kind: Kind, groups: Option<nat>, literal: bool)

  /** A compiled unit: the descriptor with its source token attached. */
  datatype Unit = Unit(desc: Descriptor, token: Token)

  const One: string := "\\d"
  const Two: string := "\\d\\d"
  const Three: string := "\\d{3}"
  const Four: string := "\\d{4}"
  const OneOrTwo: string := "\\d\\d?"
  const OneToThree: string := "\\d\\d{2}?"
  const TwoToFour: string := "\\d\\d\\d{2}?"
  const OffsetWithColon: string := "([+-]\\d{1,2})(?::(\\d{2}))?"
  const OffsetCompact: string := "([+-]\\d{1,2})(\\d{2})?"
  const ZoneName: string := "[A-Za-z_]+\\/[A-Za-z_]+"

  function IntUnit(regex: string, post: Post): Descriptor {
    Descriptor(regex, Int(post), None, false)
  }

  /** `strings.join('|')`. */
  function Join(strings: seq<string>): string {
    if |strings| == 0 then ""
    else if |strings| == 1 then strings[0]
    else strings[0] + "|" + Join(strings[1..])
  }

  function OneOfUnit(strings: seq<string>, start: int): Descriptor {
    Descriptor(Join(strings), OneOf(strings, start), None, false)
  }

  function OffsetUnit(regex: string, groups: nat): Descriptor {
    Descriptor(regex, Offset, Some(groups), false)
  }

  function SimpleUnit(regex: string): Descriptor {
    Descriptor(regex, Simple, None, false)
  }

  /** The literal fallback `literal`: `RegExp(t.val)`, the token's text taken
      as a regular expression. Text that is no valid pattern, such as "(",
      makes the construction throw (see `TokenParsing.ExplainOutcome`); valid
      text with syntax characters matches something other than itself and may
      open groups of its own (see `Matcher.UnescapedLiteralMisreads`). */
  function LiteralUnit(t: Token): Descriptor {
    Descriptor(t.val, Literal, None, true)
  }

  /** The literal fallback as it is evidently meant: the text with the regular
      expression syntax characters escaped, so that it matches the text
      verbatim, never fails to compile and opens no capturing group. */
  function EscapedLiteralUnit(t: Token): Descriptor {
    Descriptor(Escape(t.val), Literal, None, true)
  }

  /** The token codes the compiler recognises. */
  const Codes: set<string> := {
    "G", "GG", "yyyy", "yy", "M", "MM", "MMM", "MMMM", "L", "LL", "LLL", "LLLL",
    "d", "dd", "o", "ooo", "HH", "H", "hh", "h", "mm", "m", "s", "ss", "S", "SSS",
    "a", "kkkk", "kk", "W", "WW", "E", "EEE", "EEEE", "Z", "ZZ", "ZZZ", "z" }

  /** The switch of `unitate`. */
  function Unitate(t: Token, loc: Locale): Descriptor {
    if t.literal then LiteralUnit(t)
    else
      match t.val
      case "G" => OneOfUnit(loc.erasShort, 0)
      case "GG" => OneOfUnit(loc.erasLong, 0)
      case "yyyy" => IntUnit(Four, Identity)
      case "yy" => IntUnit(TwoToFour, UntruncateYear)
      case "M" => IntUnit(OneOrTwo, Identity)
      case "MM" => IntUnit(Two, Identity)
      case "MMM" => OneOfUnit(loc.monthsShortFormat, 1)
      case "MMMM" => OneOfUnit(loc.monthsLongFormat, 1)
      case "L" => IntUnit(OneOrTwo, Identity)
      case "LL" => IntUnit(Two, Identity)
      case "LLL" => OneOfUnit(loc.monthsShortStandalone, 1)
      case "LLLL" => OneOfUnit(loc.monthsLongStandalone, 1)
      case "d" => IntUnit(OneOrTwo, Identity)
      case "dd" => IntUnit(Two, Identity)
      case "o" => IntUnit(OneToThree, Identity)
      case "ooo" => IntUnit(Three, Identity)
      case "HH" => IntUnit(Two, Identity)
      case "H" => IntUnit(OneOrTwo, Identity)
      case "hh" => IntUnit(Two, Identity)
      case "h" => IntUnit(OneOrTwo, Identity)
      case "mm" => IntUnit(Two, Identity)
      case "m" => IntUnit(OneOrTwo, Identity)
      case "s" => IntUnit(OneOrTwo, Identity)
      case "ss" => IntUnit(Two, Identity)
      case "S" => IntUnit(OneToThree, Identity)
      case "SSS" => IntUnit(Three, Identity)
      case "a" => OneOfUnit(loc.meridiems, 0)
      case "kkkk" => IntUnit(Four, Identity)
      case "kk" => IntUnit(TwoToFour, UntruncateYear)
      case "W" => IntUnit(OneOrTwo, Identity)
      case "WW" => IntUnit(Two, Identity)
      case "E" => IntUnit(One, Identity)
      case "EEE" => OneOfUnit(loc.weekdaysShort, 1)
      case "EEEE" => OneOfUnit(loc.weekdaysLong, 1)
      case "Z" => OffsetUnit(OffsetWithColon, 2)
      case "ZZ" => OffsetUnit(OffsetWithColon, 2)
      case "ZZZ" => OffsetUnit(OffsetCompact, 2)
      case "z" => SimpleUnit(ZoneName)
      case _ => LiteralUnit(t)
  }

  /** `unitForToken`: literal tokens and unrecognised codes become literal
      units built from the token's own text, and every unit carries its source
      token. */
  function UnitForToken(t: Token, loc: Locale): (u: Unit)
    ensures u.token == t
    ensures u.desc.literal <==> u.desc.kind.Literal?
    ensures !u.desc.literal <==> !t.literal && t.val in Codes
    ensures u.desc.literal ==> u.desc == LiteralUnit(t)
    ensures u.desc.groups == if u.desc.kind.Offset? then Some(2) else None
  {
    Unit(Unitate(t, loc), t)
  }

  /** `tokens.map(t => unitForToken(t, loc))`. */
  function CompileAll(tokens: seq<Token>, loc: Locale): (units: seq<Unit>)
    ensures |units| == |tokens|
    ensures forall i :: 0 <= i < |tokens| ==> units[i] == UnitForToken(tokens[i], loc)
  {
    seq(|tokens|, i requires 0 <= i < |tokens| => UnitForToken(tokens[i], loc))
  }

  /** The compiler with the literal fallback escaped; code units are the
      source's. */
  function UnitForTokenEscaped(t: Token, loc: Locale): (u: Unit)
    ensures u.token == t
    ensures u.desc.literal <==> t.literal || t.val !in Codes
    ensures u.desc.literal ==> u.desc == EscapedLiteralUnit(t)
    ensures !u.desc.literal ==> u == UnitForToken(t, loc)
  {
    var u := UnitForToken(t, loc);
    if u.desc.literal then Unit(EscapedLiteralUnit(t), t) else u
  }

  function CompileAllEscaped(tokens: seq<Token>, loc: Locale): (units: seq<Unit>)
    ensures |units| == |tokens|
    ensures forall i :: 0 <= i < |tokens| ==> units[i] == UnitForTokenEscaped(tokens[i], loc)
  {
    seq(|tokens|, i requires 0 <= i < |tokens| => UnitForTokenEscaped(tokens[i], loc))
  }

  /** Which deserializer a code gets, by the code's first letter (the key its
      value is stored under): years and week years are integers, eras and
      meridiems are names counted from 0, months and weekdays are integers or
      names counted from 1, `Z` codes are offsets and `z` is a zone name. */
  lemma KindByLetter(t: Token, loc: Locale)
    requires !UnitForToken(t, loc).desc.literal
    ensures var k := UnitForToken(t, loc).desc.kind;
      && |t.val| > 0
      && (t.val[0] in {'y', 'k'} ==> k.Int?)
      && (t.val[0] in {'G', 'a'} ==> k.OneOf? && k.start == 0)
      && (t.val[0] in {'M', 'L', 'E'} ==> k.Int? || (k.OneOf? && k.start == 1))
      && (t.val[0] == 'Z' <==> k.Offset?)
      && (t.val[0] == 'z' <==> k.Simple?)
      && (t.val[0] in {'d', 'o', 'h', 'H', 'm', 's', 'S', 'W'} ==> k == Int(Identity))
      && (k.Int? && k.post == UntruncateYear <==> t.val in {"yy", "kk"})
      && (t.val[0] in {'G', 'y', 'M', 'L', 'd', 'o', 'h', 'H', 'm', 's', 'S', 'a', 'k', 'W', 'E', 'Z', 'z'})
  {
    match t.val
    case "G" =>
    case "GG" =>
    case "yyyy" =>
    case "yy" =>
    case "M" =>
    case "MM" =>
    case "MMM" =>
    case "MMMM" =>
    case "L" =>
    case "LL" =>
    case "LLL" =>
    case "LLLL" =>
    case "d" =>
    case "dd" =>
    case "o" =>
    case "ooo" =>
    case "HH" =>
    case "H" =>
    case "hh" =>
    case "h" =>
    case "mm" =>
    case "m" =>
    case "s" =>
    case "ss" =>
    case "S" =>
    case "SSS" =>
    case "a" =>
    case "kkkk" =>
    case "kk" =>
    case "W" =>
    case "WW" =>
    case "E" =>
    case "EEE" =>
    case "EEEE" =>
    case "Z" =>
    case "ZZ" =>
    case "ZZZ" =>
    case "z" =>
  }

  /** The captured group a deserializer reads first: `([s]) => ...`. */
  function At(slice: seq<Group>, i: nat): (g: Group)
    ensures g.Some? <==> i < |slice| && slice[i].Some?
  {
    if i < |slice| then slice[i] else None
  }

  predicate IsDigit(c: char) {
    '0' <= c <= '9'
  }

  predicate AllDigits(s: string) {
    forall i :: 0 <= i < |s| ==> IsDigit(s[i])
  }

  /** The leading run of decimal digits. */
  function DigitPrefix(s: string): (p: string)
    ensures AllDigits(p) && p <= s
    ensures |p| < |s| ==> !IsDigit(s[|p|])
    ensures AllDigits(s) ==> p == s
  {
    if s != [] && IsDigit(s[0]) then [s[0]] + DigitPrefix(s[1..]) else []
  }

  /** The value of a string of decimal digits. */
  function DecimalValue(ds: string): nat
    requires AllDigits(ds)
  {
    if ds == [] then 0
    else DecimalValue(ds[..|ds| - 1]) * 10 + (ds[|ds| - 1] as int - '0' as int)
  }

  /** `parseInt(s, 10)` on the captured text: the value of the leading digits,
      `NaN` when there are none or the group is `undefined`. */
  function ParseInt(g: Group): (v: Value)
    ensures v.Num? || v.NaN?
    ensures v.NaN? <==> g.None? || g.value == [] || !IsDigit(g.value[0])
    ensures g.Some? && g.value != [] && AllDigits(g.value) ==> v == Num(DecimalValue(g.value))
  {
    match g
    case None => NaN
    case Some(s) =>
      var p := DigitPrefix(s);
      if p == [] then NaN else Num(DecimalValue(p))
  }

  /** `names.indexOf(s)`: the first position of `s`, or -1. */
  function IndexOf(names: seq<string>, g: Group): (r: int)
    ensures -1 <= r < |names|
    ensures r == -1 <==> g.None? || g.value !in names
    ensures r >= 0 ==> names[r] == g.value && forall j :: 0 <= j < r ==> names[j] != g.value
  {
    match g
    case None => -1
    case Some(s) =>
      if names == [] then -1
      else if names[0] == s then 0
      else
        var r := IndexOf(names[1..], g);
        if r == -1 then -1 else r + 1
  }

  /** The unit's deserializer applied to its slice of the match groups; a
      post-processed integer is the plain integer passed through `post`. */
  function Deserialize(k: Kind, slice: seq<Group>, ext: Externals): (v: Value)
    decreases if k == Int(UntruncateYear) then 1 else 0
    ensures k.Int? && k.post == Identity ==> v == ParseInt(At(slice, 0)) && (v.Num? || v.NaN?)
    ensures k.Int? && k.post == UntruncateYear ==> v == ext.untruncateYear(ParseInt(At(slice, 0)))
    ensures k.OneOf? ==> v.Num? && k.start - 1 <= v.n < k.start + |k.names|
    ensures k.Literal? || k.Simple? ==> v == GroupValue(At(slice, 0))
    ensures k.Offset? ==> v == ext.signedOffset(At(slice, 1), At(slice, 2))
  {
    match k
    case Literal => GroupValue(At(slice, 0))
    case Int(Identity) => ParseInt(At(slice, 0))
    case Int(UntruncateYear) => ext.untruncateYear(Deserialize(Int(Identity), slice, ext))
    case OneOf(names, start) => Num(IndexOf(names, At(slice, 0)) + start)
    case Offset => ext.signedOffset(At(slice, 1), At(slice, 2))
    case Simple => GroupValue(At(slice, 0))
  }

  /** With distinct names, capturing the `i`-th name deserializes to
      `i + start`; a text that is no name gives `start - 1`. */
  lemma OneOfIndex(names: seq<string>, start: int, slice: seq<Group>, ext: Externals, i: nat)
    requires forall a, b :: 0 <= a < b < |names| ==> names[a] != names[b]
    requires i < |names| && |slice| > 0 && slice[0] == Some(names[i])
    ensures Deserialize(OneOf(names, start), slice, ext) == Num(i + start)
  {
    var r := IndexOf(names, slice[0]);
    assert r >= 0 && names[r] == names[i];
  }

  /** The shortest decimal numeral of `n`. */
  function Decimal(n: nat): (s: string)
    ensures s != [] && AllDigits(s)
  {
    if n < 10 then [('0' as int + n) as char]
    else Decimal(n / 10) + [('0' as int + n % 10) as char]
  }

  /** A numeral left-padded with zeros to `width` characters, as a
      fixed-width token formats it. */
  function ZeroPad(s: string, width: nat): (r: string)
    ensures |r| >= |s| && r[|r| - |s|..] == s
    ensures forall i :: 0 <= i < |r| - |s| ==> r[i] == '0'
    decreases width - |s|
  {
    if |s| >= width then s else ZeroPad("0" + s, width)
  }

  lemma {:induction false} DecimalValueOfDecimal(n: nat)
    ensures DecimalValue(Decimal(n)) == n
  {
    if n >= 10 {
      var s := Decimal(n);
      assert s[..|s| - 1] == Decimal(n / 10);
      DecimalValueOfDecimal(n / 10);
    }
  }

  /** Leading zeros do not change a numeral's value. */
  lemma {:induction false} DecimalValueLeadingZeros(z: string, s: string)
    requires forall i :: 0 <= i < |z| ==> z[i] == '0'
    requires AllDigits(s)
    ensures AllDigits(z + s) && DecimalValue(z + s) == DecimalValue(s)
    decreases |s|
  {
    var zs := z + s;
    assert AllDigits(zs) by {
      forall i | 0 <= i < |zs| ensures IsDigit(zs[i]) {
        if i < |z| { assert zs[i] == z[i]; } else { assert zs[i] == s[i - |z|]; }
      }
    }
    if s == [] {
      assert zs == z;
      ZerosValue(z);
    } else {
      assert zs[..|zs| - 1] == z + s[..|s| - 1];
      assert zs[|zs| - 1] == s[|s| - 1];
      DecimalValueLeadingZeros(z, s[..|s| - 1]);
    }
  }

  lemma {:induction false} ZerosValue(z: string)
    requires forall i :: 0 <= i < |z| ==> z[i] == '0'
    ensures AllDigits(z) && DecimalValue(z) == 0
  {
    if z != [] {
      ZerosValue(z[..|z| - 1]);
    }
  }

  /** Parsing the zero-padded numeral of `n` gives back `n`: a fixed-width
      integer field round-trips through formatting and parsing. */
  lemma ParseIntRoundTrip(n: nat, width: nat)
    ensures ParseInt(Some(ZeroPad(Decimal(n), width))) == Num(n)
  {
    var s := Decimal(n);
    var r := ZeroPad(s, width);
    var z := r[..|r| - |s|];
    assert r == z + s;
    DecimalValueLeadingZeros(z, s);
    DecimalValueOfDecimal(n);
  }
}
