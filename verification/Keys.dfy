/** Cache keys `(scope, request_id)` and the order Python's tuple comparison gives them. */
module Keys {
  datatype Key = Key(scope: string, requestId: string)

  predicate TextLess(a: string, b: string) {
    b != [] && (a == [] || a[0] < b[0] || (a[0] == b[0] && TextLess(a[1..], b[1..])))
  }

  predicate KeyLess(a: Key, b: Key) {
    TextLess(a.scope, b.scope) || (a.scope == b.scope && TextLess(a.requestId, b.requestId))
  }

  /** Up to some place the two texts agree, and there `a` ends or has the smaller character. */
  ghost predicate Parts(a: string, b: string, i: nat) {
    i <= |a| && i < |b| && a[..i] == b[..i] && (i == |a| || a[i] < b[i])
  }

  lemma PartsLater(a: string, b: string, i: nat)
    requires a != [] && b != [] && a[0] == b[0]
    ensures Parts(a, b, i + 1) <==> Parts(a[1..], b[1..], i)
    ensures !Parts(a, b, 0)
  {
    if i < |a| && i < |b| {
      assert a[..i + 1] == [a[0]] + a[1..][..i];
      assert b[..i + 1] == [b[0]] + b[1..][..i];
    }
  }

  lemma PartsAtOnce(a: string, b: string, i: nat)
    requires a == [] || b == [] || a[0] != b[0]
    ensures Parts(a, b, i) ==> i == 0
    ensures Parts(a, b, 0) <==> TextLess(a, b)
  {
    if 0 < i <= |a| && i < |b| { assert a[..i][0] != b[..i][0]; }
  }

  lemma {:induction false} TextLessIsLexicographic(a: string, b: string)
    ensures TextLess(a, b) <==> exists i: nat :: Parts(a, b, i)
  {
    hide Parts;
    if a == [] || b == [] || a[0] != b[0] {
      PartsAtOnce(a, b, 0);
      forall i: nat ensures Parts(a, b, i) ==> Parts(a, b, 0) { PartsAtOnce(a, b, i); }
    } else {
      TextLessIsLexicographic(a[1..], b[1..]);
      forall i: nat ensures Parts(a[1..], b[1..], i) ==> Parts(a, b, i + 1) { PartsLater(a, b, i); }
      forall i: nat ensures Parts(a, b, i) ==> i > 0 && Parts(a[1..], b[1..], i - 1) {
        PartsLater(a, b, if i > 0 then i - 1 else 0);
      }
    }
  }

  lemma {:induction false} TextOrder(a: string, b: string)
    ensures TextLess(a, b) || a == b || TextLess(b, a)
    ensures !(TextLess(a, b) && TextLess(b, a)) && !TextLess(a, a)
  {
    if a != [] {
      TextOrder(a[1..], a[1..]);
      if b != [] && a[0] == b[0] {
        TextOrder(a[1..], b[1..]);
        assert a == [a[0]] + a[1..] && b == [b[0]] + b[1..];
      }
    }
  }

  lemma {:induction false} TextLessTransitive(a: string, b: string, c: string)
    requires TextLess(a, b) && TextLess(b, c)
    ensures TextLess(a, c)
  {
    if a != [] && a[0] == b[0] && b[0] == c[0] {
      TextLessTransitive(a[1..], b[1..], c[1..]);
    }
  }

  /** Exactly one of `a < b`, `a == b`, `b < a`. */
  lemma KeyOrder(a: Key, b: Key)
    ensures KeyLess(a, b) || a == b || KeyLess(b, a)
    ensures !(KeyLess(a, b) && KeyLess(b, a)) && !KeyLess(a, a)
  {
    TextOrder(a.scope, b.scope);
    TextOrder(a.requestId, b.requestId);
  }

  lemma KeyLessTransitive(a: Key, b: Key, c: Key)
    requires KeyLess(a, b) && KeyLess(b, c)
    ensures KeyLess(a, c)
  {
    if TextLess(a.scope, b.scope) && TextLess(b.scope, c.scope) {
      TextLessTransitive(a.scope, b.scope, c.scope);
    } else if a.scope == b.scope == c.scope {
      TextLessTransitive(a.requestId, b.requestId, c.requestId);
    }
  }
}
