/** JavaScript values and plain objects, as far as the token parser uses them.

    A plain JavaScript object is modelled as its list of own properties in
    insertion order (`Object.keys` order for non-numeric keys): assigning to a
    key that is already present replaces its value in place, assigning to a new
    key appends it. The order matters to the field projection, where two keys
    can land on the same field and the later key wins.
*/
module JsObjects {

  datatype Option<+T> = None | Some(value: T)

  /** The values a parse stores: `undefined`, an integral number, `NaN`, or a string. */
  datatype Value = Undefined | Num(n: int) | NaN | Str(s: string)

  /** One entry of a regular-expression match array; `None` is `undefined`
      (a group that took no part in the match, or an index past the end). */
  type Group = Option<string>

  function GroupValue(g: Group): (v: Value)
    ensures v.Undefined? <==> g.None?
  {
    match g
    case None => Undefined
    case Some(s) => Str(s)
  }

  /** JavaScript truthiness. */
  predicate Truthy(v: Value) {
    match v
    case Undefined => false
    case Num(n) => n != 0
    case NaN => false
    case Str(s) => s != ""
  }

  /** `v + 12` under JavaScript's `+`: numeric addition, or string concatenation
      when `v` is a string. */
  function Add12(v: Value): (r: Value)
    ensures v.Num? ==> r == Num(v.n + 12)
    ensures (v.NaN? || v.Undefined?) ==> r.NaN?
    ensures v.Str? ==> r == Str(v.s + "12")
  {
    match v
    case Undefined => NaN
    case Num(n) => Num(n + 12)
    case NaN => NaN
    case Str(s) => Str(s + "12")
  }

  /** ECMAScript's ToNumber on a string (section 7.1.4.1.1 of ECMA-262), the
      conversion unary minus applies to a string operand. Its definition is
      not part of this model: `Some(n)` stands for the integer `n`, `None` for
      NaN. */
  type StringToNumber = string -> Option<int>

  /** Unary minus: a number is negated, a string is converted first, and
      `undefined` or NaN give NaN. */
  function Negate(v: Value, toNumber: StringToNumber): (r: Value)
    ensures v.Num? ==> r == Num(-v.n)
    ensures v.Str? ==> r == if toNumber(v.s).Some? then Num(-toNumber(v.s).value) else NaN
    ensures v.Undefined? || v.NaN? ==> r.NaN?
  {
    match v
    case Num(n) => Num(-n)
    case Str(s) => if toNumber(s).Some? then Num(-toNumber(s).value) else NaN
    case _ => NaN
  }

  datatype Entry = Entry(key: string, val: Value)

  /** The object's keys in insertion order. */
  function Keys(es: seq<Entry>): (ks: seq<string>)
    ensures |ks| == |es|
    ensures forall i :: 0 <= i < |es| ==> ks[i] == es[i].key
  {
    if es == [] then [] else [es[0].key] + Keys(es[1..])
  }

  predicate DistinctKeys(es: seq<Entry>) {
    forall i, j :: 0 <= i < j < |es| ==> es[i].key != es[j].key
  }

  /** Property read `obj[k]`: `None` when the object has no such own property. */
  function Lookup(es: seq<Entry>, k: string): Option<Value> {
    if es == [] then None
    else if es[0].key == k then Some(es[0].val)
    else Lookup(es[1..], k)
  }

  /** A read finds a value exactly when the key is among the object's keys. */
  lemma {:induction false} LookupKeys(es: seq<Entry>, k: string)
    ensures Lookup(es, k).Some? <==> k in Keys(es)
  {
    if es != [] {
      LookupKeys(es[1..], k);
      assert Keys(es) == [es[0].key] + Keys(es[1..]);
    }
  }

  /** Property write `obj[k] = v`. */
  function Assign(es: seq<Entry>, k: string, v: Value): seq<Entry> {
    if es == [] then [Entry(k, v)]
    else if es[0].key == k then [Entry(k, v)] + es[1..]
    else [es[0]] + Assign(es[1..], k, v)
  }

  /** A write keeps the key order: a present key stays where it is, a new key
      goes last. */
  lemma {:induction false} AssignKeys(es: seq<Entry>, k: string, v: Value)
    ensures Keys(Assign(es, k, v)) == if k in Keys(es) then Keys(es) else Keys(es) + [k]
  {
    if es != [] && es[0].key != k {
      AssignKeys(es[1..], k, v);
      assert Keys(es) == [es[0].key] + Keys(es[1..]);
      assert Assign(es, k, v)[1..] == Assign(es[1..], k, v);
    }
  }

  /** After `obj[k] = v`, reading `k` gives `v` and every other key reads as before. */
  lemma {:induction false} LookupAssign(es: seq<Entry>, k: string, v: Value, k': string)
    ensures Lookup(Assign(es, k, v), k') == if k' == k then Some(v) else Lookup(es, k')
  {
    if es != [] && es[0].key != k {
      LookupAssign(es[1..], k, v, k');
      assert Assign(es, k, v)[1..] == Assign(es[1..], k, v);
    }
  }

  /** A write never introduces a duplicate key. */
  lemma {:induction false} AssignKeepsDistinct(es: seq<Entry>, k: string, v: Value)
    requires DistinctKeys(es)
    ensures DistinctKeys(Assign(es, k, v))
  {
    var r := Assign(es, k, v);
    var ks, rs := Keys(es), Keys(r);
    AssignKeys(es, k, v);
    forall i, j | 0 <= i < j < |r| ensures r[i].key != r[j].key {
      assert rs[i] == r[i].key && rs[j] == r[j].key;
      if k in ks {
        assert ks[i] == es[i].key && ks[j] == es[j].key;
      } else if j < |es| {
        assert ks[i] == es[i].key && ks[j] == es[j].key;
      } else {
        assert rs[j] == k && rs[i] == ks[i];
      }
    }
  }

  /** With distinct keys, a read finds the one entry holding the key. */
  lemma {:induction false} LookupIndex(es: seq<Entry>, k: string, i: nat)
    requires DistinctKeys(es)
    requires i < |es| && es[i].key == k
    ensures Lookup(es, k) == Some(es[i].val)
  {
    if i > 0 {
      assert es[0].key != k;
      var rest := es[1..];
      assert rest[i - 1] == es[i];
      forall a, b | 0 <= a < b < |rest| ensures rest[a].key != rest[b].key {
        assert rest[a] == es[a + 1] && rest[b] == es[b + 1];
      }
      LookupIndex(rest, k, i - 1);
    }
  }

  /** Distinctness depends on the key list only. */
  lemma DistinctByKeys(a: seq<Entry>, b: seq<Entry>)
    requires Keys(a) == Keys(b) && DistinctKeys(a)
    ensures DistinctKeys(b)
  {
    var ka := Keys(a);
    forall i, j | 0 <= i < j < |b| ensures b[i].key != b[j].key {
      assert ka[i] == a[i].key && ka[j] == a[j].key;
    }
  }

  /** A plain JavaScript object that is updated in place. */
  class JsObject {
    var entries: seq<Entry>

    constructor (es: seq<Entry>)
      ensures entries == es
    {
      entries := es;
    }

    /** `obj[k]`. */
    function Get(k: string): Option<Value>
      reads this
    {
      Lookup(entries, k)
    }

    /** `obj[k] = v`. */
    method Put(k: string, v: Value)
      modifies this
      ensures entries == Assign(old(entries), k, v)
    {
      entries := Assign(entries, k, v);
    }
  }
}
