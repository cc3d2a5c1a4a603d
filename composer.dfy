/** The composite pattern: `buildRegex` (src/impl/tokenParser.js:134-136)
    puts each unit's fragment in one capturing group and concatenates them in
    order; the units themselves are handed on unchanged. */
module Composer {
  import opened RegexSource
  import opened TokenUnits

  /** The `reduce` of `buildRegex`, from the left: `f + "(" + r + ")"`. */
  function Compose(units: seq<Unit>): string {
    if units == [] then ""
    else Compose(units[..|units| - 1]) + Wrap(units[|units| - 1].desc.regex)
  }

  /** `buildRegex`: the composite pattern and the same units, in the same
      order; unit `k`'s fragment stands, wrapped once, right after the
      fragments of the units before it. */
  function BuildRegex(units: seq<Unit>): (r: (string, seq<Unit>))
    ensures r.1 == units
    ensures forall k :: 0 <= k < |units| ==>
      r.0 == Compose(units[..k]) + Wrap(units[k].desc.regex) + Compose(units[k + 1..])
  {
    forall k | 0 <= k < |units|
      ensures Compose(units) == Compose(units[..k]) + Wrap(units[k].desc.regex) + Compose(units[k + 1..])
    {
      ComposeSplit(units, k);
    }
    (Compose(units), units)
  }

  lemma {:induction false} ComposeAppend(a: seq<Unit>, b: seq<Unit>)
    ensures Compose(a + b) == Compose(a) + Compose(b)
    decreases |b|
  {
    if b == [] {
      assert a + b == a;
    } else {
      var b', w := b[..|b| - 1], Wrap(b[|b| - 1].desc.regex);
      assert (a + b)[..|a + b| - 1] == a + b';
      assert (a + b)[|a + b| - 1] == b[|b| - 1];
      ComposeAppend(a, b');
      calc {
        Compose(a + b);
        Compose(a + b') + w;
        (Compose(a) + Compose(b')) + w;
        Compose(a) + (Compose(b') + w);
        Compose(a) + Compose(b);
      }
    }
  }

  lemma {:induction false} ComposeSplit(units: seq<Unit>, k: nat)
    requires k < |units|
    ensures Compose(units) == Compose(units[..k]) + Wrap(units[k].desc.regex) + Compose(units[k + 1..])
  {
    var pre, mid, post := units[..k], [units[k]], units[k + 1..];
    assert units == (pre + mid) + post;
    ComposeAppend(pre + mid, post);
    ComposeAppend(pre, mid);
    assert Compose(mid) == Wrap(units[k].desc.regex) by {
      assert mid[..0] == [];
      assert Compose(mid) == Compose([]) + Wrap(units[k].desc.regex);
    }
    calc {
      Compose(units);
      Compose(pre + mid) + Compose(post);
      (Compose(pre) + Compose(mid)) + Compose(post);
    }
  }

  /** The capturing groups the fragments themselves open. */
  function FragmentCaptures(units: seq<Unit>): nat {
    if units == [] then 0
    else FragmentCaptures(units[..|units| - 1]) + CaptureCount(units[|units| - 1].desc.regex)
  }

  /** When every fragment can be wrapped, the composite has one group per
      unit plus the groups of the fragments, and leaves no state open. */
  lemma {:induction false} ComposeCaptures(units: seq<Unit>)
    requires forall u :: u in units ==> Wrappable(u.desc.regex)
    ensures Scan(Compose(units), 0, Normal) == Scanned(|units| + FragmentCaptures(units), Normal)
    decreases |units|
  {
    if units != [] {
      var init, last := units[..|units| - 1], units[|units| - 1];
      assert forall u :: u in init ==> u in units;
      ComposeCaptures(init);
      WrapScan(last.desc.regex);
      ScanConcat(Compose(init), Wrap(last.desc.regex), 0, Normal);
    }
  }
}
