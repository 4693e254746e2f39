/**
 The timing of animated GIFs: one image and one delay per source frame become equally long display frames.

 Delays are whole milliseconds; reading them from an image source is not part of the model. Integers have 64 bits, and
 an operation that traps in Swift gives None.
 */
module ImageGif {
  import opened Wire

  const INT_MIN: int := -0x8000_0000_0000_0000

  // ---------- divisors ----------

  ghost predicate Divides(d: int, x: int) {
    exists k: int :: x == k * d
  }

  /** `g` is a common divisor of `a` and `b` and a multiple of every other one. */
  ghost predicate IsGcd(g: int, a: int, b: int) {
    Divides(g, a) && Divides(g, b) && forall d | Divides(d, a) && Divides(d, b) :: Divides(d, g)
  }

  function Magnitude(x: int): nat {
    if x < 0 then -x else x
  }

  /** The remainder of Swift: it has the sign of the dividend. */
  function Remainder(a: int, b: int): (r: int)
    requires b != 0
    ensures a >= 0 ==> 0 <= r
    ensures a <= 0 ==> r <= 0
    ensures r < Magnitude(b) && -r < Magnitude(b)
  {
    if a >= 0 then a % b else -((-a) % b)
  }

  lemma RemainderSplits(a: int, b: int) returns (q: int)
    requires b != 0
    ensures a == q * b + Remainder(a, b)
  {
    q := if a >= 0 then a / b else -((-a) / b);
    assert -(((-a) / b) * b) == (-((-a) / b)) * b;
  }

  lemma DividesCombination(d: int, x: int, y: int, q: int)
    requires Divides(d, x) && Divides(d, y)
    ensures Divides(d, q * x + y)
  {
    var k :| x == k * d;
    var m :| y == m * d;
    assert q * (k * d) == (q * k) * d;
    assert q * x + y == (q * k + m) * d;
  }

  /** One turn of Euclid's loop keeps the common divisors. */
  lemma EuclidStep(a: int, b: int, g: int)
    requires b != 0
    ensures IsGcd(g, b, Remainder(a, b)) ==> IsGcd(g, a, b)
    ensures IsGcd(g, a, b) ==> IsGcd(g, b, Remainder(a, b))
  {
    var r := Remainder(a, b);
    var q := RemainderSplits(a, b);
    forall d | Divides(d, b) ensures Divides(d, a) <==> Divides(d, r) {
      if Divides(d, r) { DividesCombination(d, b, r, q); }
      if Divides(d, a) { DividesCombination(d, b, a, -q); assert -q * b + a == r; }
    }
  }

  lemma GcdAtEnd(a: int, b: int)
    requires b != 0 && Remainder(a, b) == 0
    ensures IsGcd(b, a, b)
  {
    var q := RemainderSplits(a, b);
    assert b == 1 * b;
  }

  lemma GcdSwap(g: int, a: int, b: int)
    ensures IsGcd(g, a, b) <==> IsGcd(g, b, a)
  {
  }

  /** When Euclid's loop traps: on a division by zero, or on the one quotient that does not fit. */
  predicate Traps(a: int, b: int) {
    var greater, smaller := if a < b then b else a, if a < b then a else b;
    smaller == 0 || (smaller == INT_MIN && greater == -1)
  }

  lemma SmallDividend(a: int)
    requires INT_MIN < a <= 0
    ensures Remainder(a, INT_MIN) == a
  {
    assert (-a) / INT_MIN == 0;
  }

  /** The operands of the `n`-th turn of the loop that started on a0 >= b0: only the first two can trap. */
  ghost predicate Turn(n: nat, a0: int, b0: int, a: int, b: int) {
    && IsInt64(a) && IsInt64(b)
    && (n == 0 ==> a == a0 && b == b0)
    && (n >= 1 ==> b0 != 0 && b != 0 && b > INT_MIN)
    && (n == 1 ==> a == b0 && b == Remainder(a0, b0))
    && (n >= 2 ==> a > INT_MIN && !Traps(a0, b0))
  }

  lemma TurnTraps(n: nat, a0: int, b0: int, a: int, b: int)
    requires b0 <= a0 && IsInt64(a0) && IsInt64(b0) && Turn(n, a0, b0, a, b)
    ensures b == 0 || (a == INT_MIN && b == -1) ==> Traps(a0, b0)
    ensures b != 0 && !(a == INT_MIN && b == -1) && Remainder(a, b) == 0 ==> !Traps(a0, b0)
    ensures b != 0 && !(a == INT_MIN && b == -1) && Remainder(a, b) != 0 ==> Turn(n + 1, a0, b0, b, Remainder(a, b))
  {
    if b0 == INT_MIN && INT_MIN < a0 <= 0 { SmallDividend(a0); }
    if b != 0 { var q := RemainderSplits(a, b); }
  }

  /** Euclid's loop on two operands in order; None when it traps. */
  function Euclid(a: int, b: int): Option<int>
    decreases Magnitude(b)
  {
    if b == 0 || (a == INT_MIN && b == -1) then None
    else
      var rest := Remainder(a, b);
      if rest == 0 then Some(b) else Euclid(b, rest)
  }

  function PairGcd(first: int, second: int): Option<int> {
    if first < second then Euclid(second, first) else Euclid(first, second)
  }

  lemma {:induction false} EuclidRuns(n: nat, a0: int, b0: int, a: int, b: int)
    requires b0 <= a0 && IsInt64(a0) && IsInt64(b0) && Turn(n, a0, b0, a, b)
    ensures Euclid(a, b).None? <==> Traps(a0, b0)
    ensures Euclid(a, b).Some? ==> var g := Euclid(a, b).value; g != 0 && IsInt64(g) && IsGcd(g, a, b)
    ensures Euclid(a, b).Some? && a > 0 && b > 0 ==> Euclid(a, b).value > 0
    decreases Magnitude(b)
  {
    TurnTraps(n, a0, b0, a, b);
    if !(b == 0 || (a == INT_MIN && b == -1)) {
      var rest := Remainder(a, b);
      if rest == 0 {
        GcdAtEnd(a, b);
      } else {
        EuclidRuns(n + 1, a0, b0, b, rest);
        if Euclid(b, rest).Some? { EuclidStep(a, b, Euclid(b, rest).value); }
      }
    }
  }

  /** Euclid's loop traps on the stated operands alone, and otherwise ends with a greatest common divisor. */
  lemma PairGcdIsGcd(first: int, second: int)
    requires IsInt64(first) && IsInt64(second)
    ensures PairGcd(first, second).None? <==> Traps(first, second)
    ensures PairGcd(first, second).Some? ==>
            var g := PairGcd(first, second).value;
            g != 0 && IsInt64(g) && IsGcd(g, first, second) && (first > 0 && second > 0 ==> g > 0)
  {
    var a, b := if first < second then second else first, if first < second then first else second;
    EuclidRuns(0, a, b, a, b);
    if Euclid(a, b).Some? { GcdSwap(Euclid(a, b).value, a, b); }
  }

  method GcdForPair(first: Option<int>, second: Option<int>) returns (g: Option<int>)
    requires first.Some? ==> IsInt64(first.value)
    requires second.Some? ==> IsInt64(second.value)
    ensures first.Some? && second.Some? ==> g == PairGcd(first.value, second.value)
    ensures first.Some? && second.Some? ==> (g.None? <==> Traps(first.value, second.value))
    ensures first.Some? && second.Some? && g.Some? ==> g.value != 0 && IsGcd(g.value, first.value, second.value)
    ensures first.None? && second.Some? ==> g == second
    ensures first.Some? && second.None? ==> g == first
    ensures first.None? && second.None? ==> g == Some(0)
  {
    if second.None? || first.None? {
      if second.Some? { return second; }
      else if first.Some? { return first; }
      else { return Some(0); }
    }
    PairGcdIsGcd(first.value, second.value);
    var a, b := first.value, second.value;
    if a < b {
      a, b := b, a;
    }
    while true
      invariant Euclid(a, b) == PairGcd(first.value, second.value)
      decreases Magnitude(b)
    {
      if b == 0 || (a == INT_MIN && b == -1) { return None; }
      var rest := Remainder(a, b);
      if rest == 0 {
        return Some(b);
      } else {
        a := b;
        b := rest;
      }
    }
  }

  ghost predicate DividesAll(d: int, xs: seq<int>) {
    forall i | 0 <= i < |xs| :: Divides(d, xs[i])
  }

  ghost predicate IsGcdOf(g: int, xs: seq<int>) {
    DividesAll(g, xs) && forall d | DividesAll(d, xs) :: Divides(d, g)
  }

  lemma GcdGrows(g: int, xs: seq<int>, x: int, g': int)
    requires IsGcdOf(g, xs) && IsGcd(g', x, g)
    ensures IsGcdOf(g', xs + [x])
  {
    var ys := xs + [x];
    forall i | 0 <= i < |ys| ensures Divides(g', ys[i]) {
      if i < |xs| {
        assert Divides(g, xs[i]);
        DividesTrans(g', g, xs[i]);
      }
    }
    forall d | DividesAll(d, ys) ensures Divides(d, g') {
      assert Divides(d, ys[|xs|]);
      forall i | 0 <= i < |xs| ensures Divides(d, xs[i]) { assert Divides(d, ys[i]); }
    }
  }

  lemma DividesTrans(d: int, g: int, x: int)
    requires Divides(d, g) && Divides(g, x)
    ensures Divides(d, x)
  {
    var k :| g == k * d;
    var m :| x == m * g;
    assert x == (m * k) * d;
  }

  lemma GcdFirst(g: int, x: int)
    requires IsGcd(g, x, x)
    ensures IsGcdOf(g, [x])
  {
    forall d | DividesAll(d, [x]) ensures Divides(d, g) { assert Divides(d, [x][0]); }
  }

  /** The running divisor after `n` values; it starts as the first one. */
  function Folded(values: seq<int>, n: nat): Option<int>
    requires n <= |values| && values != []
  {
    if n == 0 then Some(values[0])
    else
      match Folded(values, n - 1)
      case None => None
      case Some(g) => PairGcd(values[n - 1], g)
  }

  /** Folding in the value `k` traps. */
  predicate TrapsAt(values: seq<int>, k: nat)
    requires k < |values|
  {
    Folded(values, k).Some? && Traps(values[k], Folded(values, k).value)
  }

  predicate Int64s(values: seq<int>) {
    forall i | 0 <= i < |values| :: IsInt64(values[i])
  }

  lemma FoldStep(values: seq<int>, n: nat, g: int)
    requires n < |values| && n > 0 && Int64s(values) && IsInt64(g) && IsGcdOf(g, values[..n])
    ensures PairGcd(values[n], g).None? <==> Traps(values[n], g)
    ensures PairGcd(values[n], g).Some? ==>
            var g' := PairGcd(values[n], g).value; g' != 0 && IsInt64(g') && IsGcdOf(g', values[..n + 1])
  {
    PairGcdIsGcd(values[n], g);
    assert values[..n + 1] == values[..n] + [values[n]];
    if PairGcd(values[n], g).Some? { GcdGrows(g, values[..n], values[n], PairGcd(values[n], g).value); }
  }

  lemma FoldStart(values: seq<int>)
    requires values != [] && Int64s(values)
    ensures PairGcd(values[0], values[0]).None? <==> Traps(values[0], values[0])
    ensures PairGcd(values[0], values[0]).Some? ==>
            var g := PairGcd(values[0], values[0]).value; g != 0 && IsInt64(g) && IsGcdOf(g, values[..1])
  {
    PairGcdIsGcd(values[0], values[0]);
    assert values[..1] == [values[0]];
    if PairGcd(values[0], values[0]).Some? { GcdFirst(PairGcd(values[0], values[0]).value, values[0]); }
  }

  /** The fold fails exactly when one of its steps traps, and otherwise holds the greatest common divisor so far. */
  lemma {:induction false} FoldedIsGcd(values: seq<int>, n: nat)
    requires values != [] && Int64s(values) && n <= |values|
    ensures Folded(values, n).None? <==> exists k | 0 <= k < n :: TrapsAt(values, k)
    ensures Folded(values, n).Some? ==> IsInt64(Folded(values, n).value)
    ensures Folded(values, n).Some? && n > 0 ==> Folded(values, n).value != 0
                                                 && IsGcdOf(Folded(values, n).value, values[..n])
  {
    if n > 0 {
      FoldedIsGcd(values, n - 1);
      if Folded(values, n - 1).Some? {
        if n == 1 { FoldStart(values); } else { FoldStep(values, n - 1, Folded(values, n - 1).value); }
        assert Folded(values, n).None? <==> TrapsAt(values, n - 1);
      }
    }
  }

  /** Among values that are not negative, a zero is what traps. */
  lemma {:induction false} FoldedTrapsIffZero(values: seq<int>, n: nat)
    requires values != [] && Int64s(values) && n <= |values| && forall i | 0 <= i < |values| :: values[i] >= 0
    ensures n > 0 ==> (Folded(values, n).None? <==> exists k | 0 <= k < n :: values[k] == 0)
    ensures n > 0 && Folded(values, n).Some? ==> Folded(values, n).value > 0
  {
    FoldedIsGcd(values, n);
    if n == 1 {
      PairGcdIsGcd(values[0], values[0]);
    } else if n > 1 {
      FoldedTrapsIffZero(values, n - 1);
      FoldedIsGcd(values, n - 1);
      if Folded(values, n - 1).Some? { PairGcdIsGcd(values[n - 1], Folded(values, n - 1).value); }
    }
  }

  /** The least integer divides no other integer in range than zero and itself. */
  lemma LeastDivides(x: int)
    requires Divides(INT_MIN, x) && IsInt64(x) && x != 0
    ensures x == INT_MIN
  {
    var k :| x == k * INT_MIN;
    assert k == 1;
  }

  /** Values of either sign do not trap as long as none is zero or the least integer. */
  lemma {:induction false} NoTrapWithoutZero(values: seq<int>, n: nat)
    requires values != [] && Int64s(values) && n <= |values|
    requires forall i | 0 <= i < |values| :: values[i] != 0 && values[i] != INT_MIN
    ensures Folded(values, n).Some?
  {
    if n > 0 {
      NoTrapWithoutZero(values, n - 1);
      var g := Folded(values, n - 1).value;
      FoldedIsGcd(values, n - 1);
      if n > 1 {
        assert Divides(g, values[..n - 1][0]);
        if g == INT_MIN { LeastDivides(values[0]); }
      }
      PairGcdIsGcd(values[n - 1], g);
    }
  }

  method GcdForArray(values: seq<int>) returns (gcd: Option<int>)
    requires Int64s(values)
    ensures values == [] ==> gcd == Some(1)
    ensures values != [] ==> (gcd.None? <==> exists k | 0 <= k < |values| :: TrapsAt(values, k))
    ensures values != [] && gcd.Some? ==> gcd.value != 0 && IsGcdOf(gcd.value, values)
    ensures values != [] && (forall i | 0 <= i < |values| :: values[i] >= 0) ==>
            if 0 in values then gcd.None? else gcd.Some? && gcd.value > 0
  {
    if values == [] { return Some(1); }
    var running := values[0];
    for i := 0 to |values|
      invariant Folded(values, i) == Some(running)
    {
      FoldedIsGcd(values, i);
      var pair := GcdForPair(Some(values[i]), Some(running));
      if pair.None? { assert TrapsAt(values, i); ZeroTrapped(values, i); return None; }
      running := pair.value;
    }
    FoldedIsGcd(values, |values|);
    assert values[..|values|] == values;
    ZeroTrapped(values, |values|);
    gcd := Some(running);
  }

  lemma ZeroTrapped(values: seq<int>, n: nat)
    requires values != [] && Int64s(values) && n <= |values|
    ensures (forall i | 0 <= i < |values| :: values[i] >= 0) && n < |values| && TrapsAt(values, n) ==> 0 in values
    ensures (forall i | 0 <= i < |values| :: values[i] >= 0) && n == |values| && Folded(values, n).Some? ==>
            0 !in values && Folded(values, n).value > 0
  {
    if forall i | 0 <= i < |values| :: values[i] >= 0 {
      FoldedTrapsIffZero(values, n);
      if n < |values| && TrapsAt(values, n) {
        FoldedIsGcd(values, n);
        FoldedTrapsIffZero(values, n + 1);
        FoldedIsGcd(values, n + 1);
      }
    }
  }

  // ---------- frames ----------

  function Sum(delays: seq<int>): int {
    if delays == [] then 0 else Sum(delays[..|delays| - 1]) + delays[|delays| - 1]
  }

  /** Every image repeated once per tick of its delay. */
  function Expand<Image>(images: seq<Image>, delays: seq<int>, tick: int): seq<Image>
    requires |images| == |delays| && tick > 0 && forall i | 0 <= i < |delays| :: delays[i] > 0
  {
    var n := |delays| - 1;
    if delays == [] then [] else Expand(images[..n], delays[..n], tick) + seq(delays[n] / tick, _ => images[n])
  }

  /** The image whose delay covers the time `t` from the start of the animation. */
  function ImageAt<Image>(images: seq<Image>, delays: seq<int>, t: int): Image
    requires |images| == |delays| && 0 <= t < Sum(delays)
    decreases |delays|
  {
    var n := |delays| - 1;
    if t >= Sum(delays[..n]) then images[n] else ImageAt(images[..n], delays[..n], t)
  }

  /** Shown for `tick` each, the frames last as long as the delays and show at every moment the image that is due. */
  ghost predicate Plays<Image>(frames: seq<Image>, tick: int, images: seq<Image>, delays: seq<int>)
    requires |images| == |delays|
  {
    && tick > 0 && |frames| * tick == Sum(delays)
    && forall t | 0 <= t < Sum(delays) :: Shows(frames, tick, t, ImageAt(images, delays, t))
  }

  predicate Shows<Image(==)>(frames: seq<Image>, tick: int, t: int, image: Image)
    requires tick > 0 && t >= 0
  {
    t / tick < |frames| && frames[t / tick] == image
  }

  predicate Positive(delays: seq<int>) {
    forall i | 0 <= i < |delays| :: delays[i] > 0
  }

  lemma Quotient(t: int, g: int, k: int)
    requires g > 0 && 0 <= k && t >= 0
    ensures t / g >= k <==> t >= k * g
    ensures t / g < k <==> t < k * g
  {
    var q := t / g;
    assert t == q * g + t % g;
    if q >= k { assert q * g >= k * g; } else { assert (q + 1) * g <= k * g; }
  }

  lemma ExactQuotient(d: int, g: int)
    requires g > 0 && Divides(g, d) && d > 0
    ensures d / g > 0 && (d / g) * g == d
  {
    var k :| d == k * g;
    assert k <= 0 ==> k * g <= 0;
    Quotient(d, g, k);
    Quotient(d, g, k + 1);
    assert (k + 1) * g == k * g + g;
  }

  lemma PlaysMore<Image>(frames: seq<Image>, g: int, images: seq<Image>, delays: seq<int>, image: Image, delay: int)
    requires |images| == |delays| && Plays(frames, g, images, delays) && delay > 0 && Divides(g, delay)
    ensures Plays(frames + seq(delay / g, _ => image), g, images + [image], delays + [delay])
  {
    var ds, pics, fs := delays + [delay], images + [image], frames + seq(delay / g, _ => image);
    assert ds[..|delays|] == delays && pics[..|delays|] == images;
    ExactQuotient(delay, g);
    assert |fs| * g == |frames| * g + (delay / g) * g;
    forall t | 0 <= t < Sum(ds) ensures Shows(fs, g, t, ImageAt(pics, ds, t)) {
      Quotient(t, g, |frames|);
      Quotient(t, g, |fs|);
      if t < Sum(delays) { assert Shows(frames, g, t, ImageAt(images, delays, t)); }
    }
  }

  /** The expansion plays the animation with every tick that divides all delays. */
  lemma {:induction false} ExpandPlays<Image>(images: seq<Image>, delays: seq<int>, g: int)
    requires |images| == |delays| && Positive(delays) && g > 0 && DividesAll(g, delays)
    ensures Plays(Expand(images, delays, g), g, images, delays)
    decreases |delays|
  {
    if delays != [] {
      var n := |delays| - 1;
      ExpandPlays(images[..n], delays[..n], g);
      PlaysMore(Expand(images[..n], delays[..n], g), g, images[..n], delays[..n], images[n], delays[n]);
      assert images == images[..n] + [images[n]] && delays == delays[..n] + [delays[n]];
    }
  }

  lemma {:induction false} SumGrows(delays: seq<int>, i: nat)
    requires i <= |delays| && Positive(delays)
    ensures 0 <= Sum(delays[..i]) <= Sum(delays)
    ensures i < |delays| ==> Sum(delays[..i + 1]) == Sum(delays[..i]) + delays[i] <= Sum(delays)
    decreases |delays|
  {
    if delays != [] {
      var n := |delays| - 1;
      if i <= n {
        assert delays[..n][..i] == delays[..i];
        SumGrows(delays[..n], i);
        if i < n { assert delays[..n][..i + 1] == delays[..i + 1]; }
        else { assert delays[..n + 1] == delays; }
      } else {
        assert delays[..i] == delays;
        SumGrows(delays[..n], n);
        assert delays[..n][..n] == delays[..n];
      }
    }
  }

  lemma {:induction false} ImageWithin<Image>(images: seq<Image>, delays: seq<int>, i: nat, t: int)
    requires |images| == |delays| && Positive(delays) && i < |delays|
    requires Sum(delays[..i]) <= t < Sum(delays[..i + 1])
    ensures 0 <= t < Sum(delays) && ImageAt(images, delays, t) == images[i]
    decreases |delays|
  {
    SumGrows(delays, i);
    var n := |delays| - 1;
    if i < n {
      SumGrows(delays, i + 1);
      assert delays[..n][..i] == delays[..i] && delays[..n][..i + 1] == delays[..i + 1];
      ImageWithin(images[..n], delays[..n], i, t);
    }
  }

  lemma NewFrame(a: int, h: int)
    requires h > 0 && a > 0 && (a - 1) / h != a / h
    ensures Divides(h, a)
  {
    var q := a / h;
    assert a == q * h + a % h;
    assert (q + 1) * h == q * h + h;
    Quotient(a - 1, h, q);
    Quotient(a - 1, h, q + 1);
  }

  /** Where two different images meet, a frame ends. */
  lemma ChangeDivides<Image>(frames: seq<Image>, h: int, images: seq<Image>, delays: seq<int>, i: nat)
    requires |images| == |delays| && Positive(delays) && Plays(frames, h, images, delays) && i <= |delays|
    requires forall j | 0 < j < |images| :: images[j - 1] != images[j]
    ensures Divides(h, Sum(delays[..i]))
  {
    if i == 0 {
      assert 0 == 0 * h;
    } else if i == |delays| {
      assert delays[..i] == delays;
    } else {
      var a := Sum(delays[..i]);
      SumGrows(delays, i - 1);
      SumGrows(delays, i);
      ImageWithin(images, delays, i - 1, a - 1);
      ImageWithin(images, delays, i, a);
      assert Shows(frames, h, a - 1, images[i - 1]) && Shows(frames, h, a, images[i]);
      NewFrame(a, h);
    }
  }

  /** A tick can play the animation exactly when it divides every delay. */
  lemma PlayableIffDivides<Image>(h: int, images: seq<Image>, delays: seq<int>)
    requires |images| == |delays| && Positive(delays) && h > 0
    requires forall j | 0 < j < |images| :: images[j - 1] != images[j]
    ensures (exists frames: seq<Image> :: Plays(frames, h, images, delays)) <==> DividesAll(h, delays)
  {
    if DividesAll(h, delays) { ExpandPlays(images, delays, h); }
    if frames: seq<Image> :| Plays(frames, h, images, delays) {
      forall i | 0 <= i < |delays| ensures Divides(h, delays[i]) {
        ChangeDivides(frames, h, images, delays, i);
        ChangeDivides(frames, h, images, delays, i + 1);
        SumGrows(delays, i);
        DividesCombination(h, Sum(delays[..i]), Sum(delays[..i + 1]), -1);
      }
    }
  }

  lemma DivisorIsSmaller(h: int, g: int)
    requires Divides(h, g) && g > 0
    ensures h <= g
  {
    var k :| g == k * h;
    if h > 0 {
      assert k <= 0 ==> k * h <= 0;
      assert k >= 1 ==> k * h >= h;
    }
  }

  /** No frame list with a longer tick shows the same animation. */
  lemma GcdIsLongestTick<Image>(g: int, h: int, frames: seq<Image>, images: seq<Image>, delays: seq<int>)
    requires |images| == |delays| && Positive(delays) && delays != [] && g > 0 && IsGcdOf(g, delays)
    requires forall j | 0 < j < |images| :: images[j - 1] != images[j]
    requires Plays(frames, h, images, delays)
    ensures h <= g
  {
    PlayableIffDivides(h, images, delays);
    DivisorIsSmaller(h, g);
  }

  /** The sum traps when it leaves the range of the integers on its way. */
  method TotalDuration(delays: seq<int>) returns (sum: Option<int>)
    ensures sum.Some? ==> sum.value == Sum(delays)
    ensures sum.None? <==> exists i | 0 <= i <= |delays| :: !IsInt64(Sum(delays[..i]))
  {
    var total := 0;
    for i := 0 to |delays|
      invariant total == Sum(delays[..i])
      invariant forall j | 0 <= j <= i :: IsInt64(Sum(delays[..j]))
    {
      assert delays[..i + 1][..i] == delays[..i];
      total := total + delays[i];
      assert total == Sum(delays[..i + 1]);
      if !IsInt64(total) { return None; }
    }
    assert delays[..|delays|] == delays;
    return Some(total);
  }

  lemma ExpandStep<Image>(images: seq<Image>, delays: seq<int>, tick: int, i: nat)
    requires |images| == |delays| && tick > 0 && Positive(delays) && i < |delays|
    ensures Expand(images[..i + 1], delays[..i + 1], tick)
         == Expand(images[..i], delays[..i], tick) + seq(delays[i] / tick, _ => images[i])
  {
    assert images[..i + 1][..i] == images[..i] && delays[..i + 1][..i] == delays[..i];
  }

  datatype Animation<Image> = Animation(frames: seq<Image>, duration: int)

  /** One image per delay; `tick` is the divisor the loop uses. */
  method AnimatedImageWithSource<Image>(images: seq<Image>, delays: seq<int>)
    returns (animation: Option<Animation<Image>>, ghost tick: int)
    requires |images| == |delays| && Positive(delays) && forall i | 0 <= i < |delays| :: IsInt64(delays[i])
    ensures animation.None? <==> !IsInt64(Sum(delays))
    ensures animation.Some? ==>
      && animation.value.duration == Sum(delays) && tick > 0
      && |animation.value.frames| * tick == animation.value.duration
      && animation.value.frames == Expand(images, delays, tick) && Plays(animation.value.frames, tick, images, delays)
      && (delays != [] ==> IsGcdOf(tick, delays))
  {
    tick := 1;
    var duration := TotalDuration(delays);
    PartialSums(delays);
    if duration.None? { return None, tick; }
    var gcd := GcdForArray(delays);
    tick := gcd.value;
    var frames: seq<Image> := [];
    for i := 0 to |delays|
      invariant frames == Expand(images[..i], delays[..i], tick)
    {
      var frameCount := delays[i] / gcd.value;
      ghost var before := frames;
      for k := 0 to frameCount
        invariant frames == before + seq(k, _ => images[i])
      {
        frames := frames + [images[i]];
      }
      ExpandStep(images, delays, tick, i);
    }
    assert delays[..|delays|] == delays && images[..|delays|] == images;
    ExpandPlays(images, delays, tick);
    animation := Some(Animation(frames, duration.value));
  }

  /** Sums of positive delays leave the range exactly when the last one does. */
  lemma PartialSums(delays: seq<int>)
    requires Positive(delays)
    ensures (exists i | 0 <= i <= |delays| :: !IsInt64(Sum(delays[..i]))) <==> !IsInt64(Sum(delays))
  {
    assert delays[..|delays|] == delays;
    forall i | 0 <= i <= |delays| ensures 0 <= Sum(delays[..i]) <= Sum(delays) { SumGrows(delays, i); }
  }
}
