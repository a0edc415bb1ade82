/** JavaScript number operations the calendar relies on, over unbounded integers. */
module JsMath {

  /** JavaScript's `a % b` on integers: the remainder takes the sign of the dividend. */
  function JsRem(a: int, b: int): (r: int)
    requires b != 0
    ensures a >= 0 ==> 0 <= r
    ensures a <= 0 ==> r <= 0
    ensures r == 0 <==> a % b == 0
  {
    var n := if a < 0 then -a else a;
    var d := if b < 0 then -b else b;
    DivisibleByMagnitude(a, b);
    if a == 0 then 0
    else if a < 0 then -(n % d)
    else n % d
  }

  lemma {:induction false} MulAtLeast(b: int, t: int)
    requires b > 0 && t >= 1
    ensures b * t >= b
    decreases t
  {
    if t > 1 {
      MulAtLeast(b, t - 1);
      assert b * t == b * (t - 1) + b;
    }
  }

  lemma ModOfMultiple(b: int, q: int)
    requires b != 0
    ensures (b * q) % b == 0
  {
    var a := b * q;
    var r := a % b;
    var q0 := a / b;
    var t := q - q0;
    assert a == b * q0 + r;
    assert r == b * t;
    if t != 0 {
      var d := if b > 0 then b else -b;
      var u := if (b > 0) == (t > 0) then t else -t;
      assert r == d * u;
      assert u > 0;
      MulAtLeast(d, u);
      assert false;
    }
  }

  lemma DivisibleByMagnitude(a: int, b: int)
    requires b != 0
    ensures (if a < 0 then -a else a) % (if b < 0 then -b else b) == 0 <==> a % b == 0
  {
    var n := if a < 0 then -a else a;
    var d := if b < 0 then -b else b;
    if a % b == 0 {
      SignedMultiple(a, b, n, d);
    }
    if n % d == 0 {
      SignedMultiple(n, d, a, b);
    }
  }

  /** If `b` divides `a`, it divides any `x` equal to `a` up to sign, and so does `y` equal to `b` up to sign. */
  lemma SignedMultiple(a: int, b: int, x: int, y: int)
    requires b != 0 && a % b == 0
    requires x == a || x == -a
    requires y == b || y == -b
    ensures x % y == 0
  {
    var q := a / b;
    assert a == b * q;
    var q' := if (x == a) == (y == b) then q else -q;
    assert x == y * q';
    ModOfMultiple(y, q');
  }
}
